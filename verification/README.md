# AG-UI generator and release scripts: a Dafny model

This project models the parts of the AG-UI repository whose correctness is hard to see by reading:

- the binary wire guard and the byte-level merger that the generator emits for the TypeScript SDK,
  with the C# twin of the guard (`Varint`, `Tokens`, `TokenLaws`, `Guard*`, `DotnetGuard`, `FutureArms`,
  `Forward`, `Records`, `Decoders`, `DecodeExact`, `GuardGap`, `Merger*`);
- the append-only wire-number ledger and the scan graph with its pruning (`FreezeText`, `WireFreeze`,
  `LedgerLines`, `ScanGraph`, `ScanPrune`, `MergerPrune`, `MergerPruneExact`, `ShippedTables`), and the `.proto`
  declarations the graph is built from (`Schema`, `SchemaReading`);
- the changelog inserter, its fence-aware scanner, the publisher's second implementation of it, and the
  rollback of planned writes (`Fences`, `Changelog*`, `Rollback`);
- the hand-written scanners that find a version in a Gradle script or a Maven project file and splice a
  new one in (`Gradle*`, `Pom*`, `Reactor`);
- the dependency order of schema definitions and the placement of mixin classes (`Ordering`,
  `MixinPlacement`);
- the structural translations: optional-null omission, merged messages, flattened outcomes (`OmitNulls`, `ShapeTable`,
  `SchemaOmission`, `Loose`, `WireMessages`, `WireForm`, `MessageRoundTrip`, `Outcomes`).

Code that changes things step by step is modelled as methods and classes with loops; each is proved equal to a
function on values, and the theorems are about that function. What such a function means is then stated without it:
tokens by the wire format (`TokenLaws`), tables by the `.proto` declarations (`SchemaReading`), changelog and ledger
lines by how they are written (`ChangelogLines`, `LedgerLines`), element ranges by the document's tree (`PomTree`),
Gradle scripts by their pieces (`GradlePieces`), shape tables by the schema (`SchemaOmission`), wire messages by the
fields they carry (`WireForm`). `None` stands for a thrown error.
Whole-project verification: `dafny verify dfyconfig.toml`.

## The main results

- **Merging preserves meaning, exactly on decodable bytes.** A decoder that *replaces* repeated singular messages and
  keeps oneof arms apart reads from the merged bytes what a standard decoder reads from the original ones, through
  oneof switches and the recursive `Struct`/`Value`/`ListValue` tables, if and only if the bytes split into records at
  every described level (`MergeAgreesExactly`). For an envelope, whose events are a oneof, it is also necessary and
  sufficient that one event is named (`EnvelopeDecodesAsMerged`), which the guard ensures. The output is canonical,
  canonical input comes back unchanged, merging twice is merging once, and nothing gets longer.
- **The guard accepts exactly the well-formed envelopes**, stated over the record list and not over the loop, and the
  TypeScript and C# guards accept the same set. What acceptance leaves open before a decoder succeeds is exactly:
  group end numbers, google payloads and, with the pruned table, the payloads pruning dropped (`GuardGap`);
  `GoogleHalvesPassTheGuard` is an accepted input that no decoder accepts and the merger joins. The "future event"
  recogniser answers true exactly when the C# guard does and the bytes are strictly formed.
- **Numbers are forever.** Over any number of generator runs, each reading the text the previous one wrote; and a
  new ledger numbers a message's fields from 1 and an enum's values from 0 without gaps (`FreshNumbersAreDense`).
- **The scan graph is what the `.proto` files say.** Table entries list exactly a message's fields by what they are,
  and with what the builder ships every one-event envelope reads as a decoder that knows the declarations reads it,
  repeated fields as lists, exactly if no event holds a google message where nothing else is to be merged
  (`SchemaReading.BuildScanGraph`).
- **Pruning the scan graph** leaves the guard's verdict alone up to well-formedness of nested payloads. It is invisible
  to the merger, and what is read with the shipped tables is what a standard decoder reads, if and only if no dropped
  message the envelope leads to has a google field the table describes (`ShippedReadsRightExactly`); the pruning does
  not look at google fields, so it can fail (`BagOfValuesIsMisread`).
- **An inserted changelog entry reads back** if and only if its own lines hold no heading and close their fences or end
  the file; then every other entry is as before, and the publisher reads the same unless a line end or whitespace that
  the two languages treat differently gets in the way. The generator's check does not
  ensure this, because it looks at fragments before trimming them (`TrimmingCanOpenAFence`).
- **Splicing a version** at the offsets a scanner returns makes the scanner find the new value there; in a Maven file
  every other element path is found where it was, moved by the change in length. In the text of any element tree the
  scanner finds exactly the elements at the path, and the rewritten text is that of the tree with one text replaced
  (`RangesOfTree`, `FirstTextIsWritten`). The Gradle parser finds the first root assignment and misses none; of a script
  given as its pieces it reports the version those pieces have (`ScriptVersionIsRead`).
- **A null goes exactly if the schema reaches it as a field that is not required** (`NullsGoExactly`), through
  aliases, lists, inline unions and the variant a tag names.
- **Ordering and placement fail only where nothing could succeed**: no order exists on a cycle or missing name, and
  no file can place the mixins when the emitter throws; when it does not, only definitions that lead, or that must,
  stand above a mixin.
- **Messages and outcomes survive the wire.** A valid message comes back as it was exactly when it is not a message
  of a string-or-parts role without content, which comes back with an empty list.

## Model

| member | source | states |
|---|---|---|
| `Varint.ReadVarint` | spec/generator/proto-translation.ts:1285-1296 | an encoding of any length reads as its base-128 value modulo 2^32 and the cursor ends behind it; failure exactly when the input ends inside |
| `Varint.MaskedStep` | spec/generator/proto-translation.ts:1285-1296 | masking digit by digit, including the fifth byte and those that fall off, is reduction modulo 2^32 |
| `Varint.BoundedVarint` | spec/generator/proto-translation.ts:1529-1550 | the width-limited reader succeeds exactly on terminated encodings within the width, with the exact base-128 value |
| `Varint.Varint32Agrees` | spec/generator/proto-translation.ts:1557-1562 | whatever the strict 32-bit reader accepts is below 2^32, equals what the masking reader sees, and as a tag names a field below 2^29 |
| `Varint.EncodeRoundTrip` | spec/generator/proto-translation.ts:1285-1296 | reading inverts the minimal encoding of every 32-bit number and consumes exactly it |
| `Varint.EncodeMinimal` | spec/generator/proto-translation.ts:1413-1494 | no varint is shorter than the minimal encoding of the number it reads as |
| `Tokens.ReadToken` | spec/generator/proto-translation.ts:1303-1346 | one tag and its value, read off the cursor, is the record reader's token; the cursor moves past exactly its bytes |
| `Tokens.TokensConcat` | spec/generator/proto-translation.ts:1299-1348 | splitting a concatenation into tokens is concatenating the splits |
| `Tokens.StrictTokensAreLoose` | spec/generator/proto-translation.ts:1529-1611 | what the strict readers split, the masking readers split into the same tokens |
| `TokenLaws.Varint32Exactly` | spec/generator/proto-translation.ts:1529-1562 | the strict tag and length reader takes exactly the varints of at most five bytes whose number is below 2^32 |
| `TokenLaws.Varint64Exactly` | spec/generator/proto-translation.ts:1529-1562 | the strict value reader takes exactly those of at most ten bytes whose number is below 2^64 |
| `TokenLaws.VarintReadsBack` | spec/generator/proto-translation.ts:1303-1346 | a written tag of wire type 0 and any 64-bit number are read as that field, whatever follows, by both readers |
| `TokenLaws.AnyVarintIsTaken` | spec/generator/proto-translation.ts:1303-1346 | so is one followed by any varint; the strict reader refuses it exactly beyond ten bytes or 64 bits |
| `TokenLaws.Fixed64ReadsBack` | spec/generator/proto-translation.ts:1303-1346 | wire type 1 takes the tag and eight bytes |
| `TokenLaws.Fixed32ReadsBack` | spec/generator/proto-translation.ts:1303-1346 | wire type 5 takes the tag and four bytes |
| `TokenLaws.ShortFixedIsRefused` | spec/generator/proto-translation.ts:1303-1346 | fewer bytes than that are refused |
| `TokenLaws.PayloadReadsBack` | spec/generator/proto-translation.ts:1303-1346 | wire type 2 takes the length and as many bytes as its payload |
| `TokenLaws.BareTagReadsBack` | spec/generator/proto-translation.ts:1303-1346 | group tags stand alone; wire types 6 and 7 are refused |
| `TokenLaws.FieldZeroIsRefused` | spec/generator/proto-translation.ts:1303-1346 | there is no field 0 |
| `TokenLaws.TokenExactly` | spec/generator/proto-translation.ts:1299-1348 | the reader takes a token exactly if the front of the bytes is one by the wire format: its tag, its body by wire type, its payload |
| `Guard.ScanMessage` | spec/generator/proto-translation.ts:1299-1348 | the recursive scan with its depth and seen-arm locals computes the scan function |
| `Guard.AssertWellFormedEnvelope` | spec/generator/proto-translation.ts:1355-1411 | likewise for the envelope loop |
| `GuardExact.GuardAcceptsExactly` | spec/generator/proto-translation.ts:1299-1348 | accepted exactly when the bytes split into legal records with balanced groups, name at most one oneof arm outside groups, and every descended payload is accepted in turn |
| `GuardExact.EnvelopeAcceptsExactly` | spec/generator/proto-translation.ts:1355-1411 | the same for the envelope, with at most one distinct known event number |
| `DotnetGuard.BuildKnownTags` | spec/generator/dotnet.ts:1443-1448 | the lookup array knows exactly the listed tags |
| `DotnetGuard.ScanNamed` | spec/generator/dotnet.ts:1305-1413 | each generated `Scan<Name>`, with its switch over wire types and its calls by name, computes the same scan as the TypeScript recursion |
| `DotnetGuard.AssertWellFormedEnvelope` | spec/generator/dotnet.ts:1461-1579 | the C# loop with its array lookup and flags, calling the nested C# scans, computes its specification |
| `DotnetGuard.DotnetAcceptsTheSame` | spec/generator/dotnet.ts:1461-1579 | C# accepts exactly the envelopes TypeScript accepts |
| `DotnetGuard.DotnetAnswer` | spec/generator/dotnet.ts:1450-1579 | its result is true exactly when no top-level record names an event and some unknown length-delimited arm is present |
| `FutureArms.WalksAsMessage` | spec/generator/proto-translation.ts:1580-1611 | the strict walk with its stack of group numbers computes its specification |
| `FutureArms.WalksExactly` | spec/generator/proto-translation.ts:1580-1611 | the walk accepts exactly the strict token splits in which every group ends with the number it began with |
| `FutureArms.NamesOnlyFutureArms` | spec/generator/proto-translation.ts:1630-1680 | the recogniser's loop computes its specification |
| `FutureArms.FutureArmsPassBothGuards` | spec/generator/proto-translation.ts:1613-1680 | a frame from the future passes both guards, names no known event, and C# answers true |
| `FutureArms.FutureArmsExactly` | spec/generator/proto-translation.ts:1613-1680 | recognised exactly when C# answers true and the bytes, and each top-level payload, split strictly with matching groups |
| `FutureArms.RuntimesDifferOnBrokenPayload` | spec/generator/dotnet.ts:1450-1579 | four bytes on which C# answers true and the recogniser false |
| `Forward.UnknownRecordsAreIgnored` | spec/generator/proto-translation.ts:1349-1411 | complete unknown records inserted at any top-level boundary leave the verdict unchanged |
| `Records.RecordsConcat` | spec/generator/proto-translation.ts:1440-1444 | record splitting is a homomorphism, a whole group being one record |
| `Records.RecordReadsBack` | spec/generator/proto-translation.ts:1440-1444 | a record's raw bytes read as that record whatever follows |
| `Records.EncodedRecordReadsBack` | spec/generator/proto-translation.ts:1484-1488 | the rewritten tag, length and payload read back as that record |
| `Decoders.DecodeConcat` | spec/generator/proto-translation.ts:1424-1428 | decoding a concatenation is decoding the second part into the result of the first, for both decoders |
| `Decoders.MergeLaw` | spec/generator/proto-translation.ts:1424-1428 | merging two payloads into a field is parsing their concatenation |
| `DecodeExact.RecordsExactly` | spec/generator/proto-translation.ts:1440-1444 | bytes split into records exactly when they split into tokens whose groups end as they began |
| `DecodeExact.DecodesExactly` | spec/generator/proto-translation.ts:1424-1494 | both decoders succeed exactly on bytes that split into records at every described level |
| `GuardGap.GuardLeavesOpen` | spec/generator/proto-translation.ts:1299-1348 | bytes the guard accepts decode exactly if groups end as they began at every level it descends to and google payloads decode |
| `GuardGap.PrunedGuardLeavesOpen` | spec/generator/protobuf.ts:1337-1364 | with the pruned table, exactly if also the payloads it no longer looks into are well formed |
| `GuardGap.EnvelopeLeavesOpen` | spec/generator/proto-translation.ts:1355-1411 | an accepted envelope names one event at most, and is decodable up to the same |
| `GuardGap.PrunedEnvelopeLeavesOpen` | spec/generator/proto-translation.ts:1355-1411 | the same for the shipped, pruned table |
| `MergerLoop.ActivateArm` | spec/generator/proto-translation.ts:1445-1461 | clearing the previous arm's slot and position, in place |
| `MergerLoop.CollectFields` | spec/generator/proto-translation.ts:1429-1478 | the first loop computes the collected slots |
| `MergerLoop.MergeMessageFields` | spec/generator/proto-translation.ts:1429-1494 | both loops with their recursion compute `MergeBytes` |
| `Merger.CollectBelow` | spec/generator/proto-translation.ts:1429-1494 | every collected payload list is strictly shorter than the input, so the recursion ends |
| `MergerCorrect.CollectStepKeeps` | spec/generator/proto-translation.ts:1440-1477 | one iteration on the slots is one step of the merging decoder, and the slot invariant is kept |
| `MergerCorrect.MergePreservesMeaning` | spec/generator/proto-translation.ts:1424-1494 | replacing-decode of the merged bytes equals merging-decode of the input, for every decodable input and sound table (`MergeAgreesExactly` gives the converse) |
| `MergerCorrect.ReuseIsRebuild` | spec/generator/proto-translation.ts:1479-1494 | returning the input array is the same bytes a rebuild would give |
| `MergerSize.JoinCost` | spec/generator/proto-translation.ts:1413-1494 | joining two occurrences costs at most the bytes of the second |
| `MergerSize.MergeNeverLengthens` | spec/generator/proto-translation.ts:1413-1494 | the result is never longer than the input |
| `MergerCanonical.MergeIsCanonical` | spec/generator/proto-translation.ts:1429-1494 | at every described level: each singular message at most once, at most one oneof arm |
| `MergerCanonical.CanonicalIsReused` | spec/generator/proto-translation.ts:1479-1494 | canonical bytes are returned as they are |
| `MergerCanonical.MergeIdempotent` | spec/generator/proto-translation.ts:1429-1494 | a new array exactly for non-canonical input; merging again changes nothing |
| `MergerCases.GoogleIsSound` | spec/generator/proto-translation.ts:1255-1274 | the Struct, FieldsEntry, Value and ListValue tables meet the merger's hypotheses, recursion included |
| `MergerCases.MergeAgreesExactly` | spec/generator/proto-translation.ts:1424-1494 | the merger succeeds on decodable bytes, and where it succeeds the two decodings are equal exactly if the bytes are decodable |
| `MergerCases.OneofMattersExactly` | spec/generator/proto-translation.ts:1682-1691 | keeping the last event only makes no difference exactly to envelopes that name one event |
| `MergerCases.EnvelopeDecodesAsMerged` | spec/generator/proto-translation.ts:1682-1691 | with a table of the whole schema, ts-proto's reading of the merged envelope is the standard one, in which the last event wins, exactly if one event is named |
| `MergerCases.MergingJoinsBrokenHalves` | spec/generator/proto-translation.ts:1429-1494 | six bytes no protobuf decoder accepts that the merger repairs; along `descend` the guard refuses them |
| `MergerCases.GoogleHalvesPassTheGuard` | spec/generator/proto-translation.ts:1241-1246 | six bytes that the guard accepts and the merger joins although no protobuf decoder accepts them, inside a google message |
| `MergerCases.UnknownRecordChangesNothingKnown` | spec/generator/proto-translation.ts:1429-1494 | an unknown record at any record boundary changes no known field, nor whether decoding fails, for either decoder |
| `ScanGraph.SpecIsSound` | spec/generator/protobuf.ts:1281-1318 | a message with distinct numbers gets a table entry the merger is correct on; which entry that is, `SchemaReading.SpecLists` says |
| `ScanGraph.Visit` | spec/generator/protobuf.ts:1322-1330 | the walk adds only reachable messages, closed under descent; it fails only on a reachable unusable one |
| `ScanGraph.ClosedHoldsReachable` | spec/generator/protobuf.ts:1320-1335 | a closed table holds everything reachable from its names |
| `ScanGraph.WalkEnvelope` | spec/generator/protobuf.ts:1320-1335 | collects exactly the reachable messages; fails exactly when one is missing or beyond the mask |
| `ScanPrune.FixpointHolds` | spec/generator/protobuf.ts:1339-1353 | a set the sweep cannot grow holds every message a checking one is reachable from |
| `ScanPrune.FindWorthwhile` | spec/generator/protobuf.ts:1337-1353 | the sweep ends with exactly those messages, cycles included |
| `ScanPrune.DroppedIsStructural` | spec/generator/protobuf.ts:1337-1364 | below a dropped message the guard checks well-formedness only |
| `ScanPrune.PruningKeepsVerdict` | spec/generator/protobuf.ts:1337-1364 | full verdict = pruned verdict and every nested payload well formed |
| `MergerPrune.PruningKeepsMerge` | spec/generator/protobuf.ts:1337-1364 | merging with the pruned table gives the same bytes over any scope closed under children in which no dropped message has a described google field |
| `MergerPrune.GoogleSurvivesPruning` | spec/generator/proto-translation.ts:1255-1274 | adding the google tables after pruning equals pruning the whole and keeping them |
| `MergerPruneExact.ShippedTableMergesAlike` | spec/generator/protobuf.ts:1337-1364 | the table as shipped merges a decodable envelope as the whole one would, if the envelope leads to no such dropped message |
| `MergerPruneExact.NestedWitness` | spec/generator/protobuf.ts:1339-1353 | if it does, some decodable envelope is read differently by the two decoders and left alone by the pruned table |
| `MergerPruneExact.PruningIsInvisibleExactly` | spec/generator/protobuf.ts:1337-1364 | so the two tables merge all decodable envelopes alike exactly when no dropped message the envelope leads to has a described google field |
| `ShippedTables.ShippedReadsRight` | spec/generator/proto-translation.ts:1682-1691 | merged with the shipped tables and decoded with the whole schema, a decodable one-event envelope reads as a standard decoder reads it, if pruning misses no google field |
| `ShippedTables.ShippedReadsRightExactly` | spec/generator/protobuf.ts:1337-1364 | all such envelopes do exactly when no dropped message the envelope leads to has a described google field |
| `ShippedTables.GuardedEnvelopeDecodes` | spec/generator/proto-translation.ts:1682-1691 | so the shipped guard's acceptance and decodability are enough |
| `ShippedTables.BagOfValuesIsMisread` | spec/generator/protobuf.ts:1344-1348 | an event whose only field is a repeated `google.protobuf.Value`, and eight bytes of which the reader sees both arms where protobuf keeps the last |
| `ShippedTables.WalkIsShipped` | spec/generator/protobuf.ts:1270-1364 | the table the graph builder makes of well-numbered messages, none of them a google one, meets these hypotheses |
| `Schema.TablesDecodeAlike` | spec/generator/protobuf.ts:1281-1318 | decoding by a table that abridges the `.proto` declarations is decoding by the declarations, where repeated messages are lists, oneof fields clear each other and every wire type is checked |
| `SchemaReading.SpecLists` | spec/generator/protobuf.ts:1281-1318 | the entry for a message: singular are exactly the numbers of its non-repeated message fields and oneof entries, `descend` and `google` name exactly the types of its message fields, the arms are exactly its oneof |
| `SchemaReading.TablesAreDeclared` | spec/generator/proto-translation.ts:1255-1274 | the generated entries with the four google ones abridge the declarations, those of `struct.proto` included |
| `SchemaReading.WorthIsMerge` | spec/generator/protobuf.ts:1337-1353 | the sweep keeps exactly the messages that lead, field by field, to one with a oneof or a message that is not repeated |
| `SchemaReading.FailureIs` | spec/generator/protobuf.ts:1303-1335 | the builder throws exactly on an event that is no message or, inside some event, a message field numbered 64 or more |
| `SchemaReading.SchemaReadsRight` | spec/generator/proto-translation.ts:1682-1691 | a one-event envelope, merged with the shipped tables and read by ts-proto, reads as the declarations demand if no event holds a google message where nothing else is to be merged |
| `SchemaReading.SchemaMisreads` | spec/generator/protobuf.ts:1337-1364 | if one does, some one-event envelope does not |
| `SchemaReading.BuildScanGraph` | spec/generator/protobuf.ts:1270-1364 | walk and sweep together, over the wire messages alone: an entry for exactly the messages inside events, each listing its own fields; kept are exactly those that lead to a merge; what is shipped reads right exactly under that condition; it throws exactly there |
| `FreezeText.DecimalRoundTrip` | spec/generator/protobuf.ts:171-176 | a written number reads back |
| `FreezeText.LedgerRoundTrip` | spec/generator/protobuf.ts:1227-1239 | a written ledger, banner and all, reads back as itself whatever the line order |
| `LedgerLines.LineExactly` | spec/generator/protobuf.ts:168-179 | a line is read exactly if it is a slot, an equals sign and a decimal number with optional space between, and as that slot and number |
| `LedgerLines.TextExactly` | spec/generator/protobuf.ts:168-179 | a text is a ledger exactly if every line is blank, a `#` or `//` comment, or such a line; a slot has the number its last line gives it |
| `LedgerLines.LessExactly` | spec/generator/protobuf.ts:234-239 | the order of the lines: one slot comes before another exactly if at their first difference it has the smaller code unit or ends |
| `LedgerLines.EmissionIs` | spec/generator/protobuf.ts:234-239 | the text written: the banner, an empty line, `slot = number` for each slot in order, a final newline |
| `WireFreeze.OneofSharesGroup` | spec/generator/protobuf.ts:181-196 | a lower-case segment makes no difference to the number space |
| `WireFreeze.MessageOwnsGroup` | spec/generator/protobuf.ts:181-196 | a nested message has its own |
| `LedgerLines.TopLevelOwnsGroup` | spec/generator/protobuf.ts:181-196 | so has one at the top of a file, however it is spelt |
| `WireFreeze.WireFreeze.constructor` | spec/generator/protobuf.ts:161-166 | an empty ledger is valid |
| `WireFreeze.WireFreeze.Load` | spec/generator/protobuf.ts:168-179 | reads the text's ledger; fails exactly on an unreadable line |
| `WireFreeze.WireFreeze.NumberFor` | spec/generator/protobuf.ts:208-222 | a known slot keeps its number; a new one gets the first free number above its group's; nothing else changes |
| `WireFreeze.WireFreeze.ReservedIn` | spec/generator/protobuf.ts:224-232 | one number for each slot of the group that is not live, ascending |
| `WireFreeze.WireFreeze.Emit` | spec/generator/protobuf.ts:234-239 | writes the whole ledger, each slot once, ascending by slot |
| `FreezeText.EmissionIsCanonical` | spec/generator/protobuf.ts:234-239 | the text depends on the ledger alone |
| `WireFreeze.AllocationIsSafe` | spec/generator/protobuf.ts:208-222 | an allocation keeps numbers distinct within groups and changes none |
| `LedgerLines.FreshNumbersAreDense` | spec/generator/protobuf.ts:208-222 | a run that starts without a ledger gives a group of n fields the numbers 1 to n, and one of n enum values 0 to n - 1 |
| `WireFreeze.GenerationIsSafe` | spec/generator/protobuf.ts:161-240 | a whole run ends in a text that reads back as its ledger, distinct and extending the one before |
| `WireFreeze.NumbersAreForever` | spec/generator/protobuf.ts:161-240 | over any number of runs, each with its own banner, no number changes and no two slots of a group share one |
| `WireFreeze.LiveAndReservedPartition` | spec/generator/protobuf.ts:224-232 | in every run of every history, the numbers its calls get and the reserved list of a group split the group's numbers, without repetition |
| `Fences.StepsAgreeExactly` | scripts/release/generate-changelog-entries.ts:484-509 | exactly on which lines and fence states the two step functions agree |
| `Fences.HeadingsAgreeExactly` | scripts/release/extract-changelog-entry.py:131-132 | exactly on which lines the two heading tests agree: they differ only by whitespace other than a space right after the version |
| `Fences.TrimsAgreeExactly` | scripts/release/extract-changelog-entry.py:144-144 | exactly which texts the two languages trim alike |
| `Fences.LookupsAgree` | scripts/release/extract-changelog-entry.py:127-203 | generator and publisher, which reads its file with line ends translated, find the same entry, or none, in every text in which no line end, no line and no entry's end tells them apart |
| `Fences.PlainIsPortable` | scripts/release/extract-changelog-entry.py:91-144 | such is every text whose whitespace is space, newline and, outside headings, tab |
| `Fences.SeparatorSplitsThem` | scripts/release/extract-changelog-entry.py:91-112 | a fence line ending in U+2028 is a fence to the publisher only |
| `Fences.SeparatorHidesAnEntry` | scripts/release/extract-changelog-entry.py:91-144 | so an entry below it is found by the generator and not by the publisher |
| `Fences.LoneReturnMakesAHeading` | scripts/release/extract-changelog-entry.py:195-203 | a lone carriage return before a heading: the publisher finds the entry, the generator does not |
| `Fences.SeparatorEndsAHeading` | scripts/release/extract-changelog-entry.py:131-132 | a heading ended by U+2028 is one to the publisher only |
| `ChangelogLines.CharactersAre` | scripts/release/extract-changelog-entry.py:91-144 | the characters each language trims and those its patterns' dot matches, by code point |
| `ChangelogLines.FenceExactly` | scripts/release/generate-changelog-entries.ts:484-496 | a line is a fence exactly if it is up to three spaces, three or more backticks or tildes, and a rest that does not go on with them |
| `ChangelogLines.StepExactly` | scripts/release/generate-changelog-entries.ts:484-509 | outside a block exactly the lines that open one do so, without backticks in the info string after backticks; inside exactly the lines that close it do |
| `ChangelogLines.LineEndIsNewline` | scripts/release/extract-changelog-entry.py:195-203 | the publisher's text has a newline for each line end, be it a newline, a carriage return or the two together, and is otherwise the file |
| `ChangelogLines.VersionHeadingExactly` | scripts/release/generate-changelog-entries.ts:573-574 | the heading patterns accept exactly `## ` and the version, bracketed or not, then the end or what each script allows |
| `ChangelogLines.UnreleasedExactly` | scripts/release/generate-changelog-entries.ts:594-594 | exactly `## ` and the word Unreleased in any case, bracketed or not, then the end or whitespace |
| `ChangelogLines.UsualHeadings` | scripts/release/generate-changelog-entries.ts:594-594 | `## [Unreleased]` and `## Unreleased` are such headings, a release heading and a longer word are not |
| `Changelog.ScanChangelogLines` | scripts/release/generate-changelog-entries.ts:518-534 | the table holds each line's mark and its offset in the text |
| `Changelog.FindVersionEntry` | scripts/release/generate-changelog-entries.ts:569-584 | table, find and slice compute the lookup |
| `Changelog.ExtractEntry` | scripts/release/extract-changelog-entry.py:113-144 | one pass with a flag computes the lookup |
| `Changelog.CheckUnclosedFence` | scripts/release/generate-changelog-entries.ts:540-546 | true exactly when the text ends inside a fence |
| `ChangelogInsert.DemotedText` | scripts/release/generate-changelog-entries.ts:555-563 | a demoted fragment has no level-two heading left and the same fence state |
| `ChangelogInsert.DemoteIsIdempotent` | scripts/release/generate-changelog-entries.ts:555-563 | demoting twice is demoting once |
| `ChangelogLines.DemotionExactly` | scripts/release/generate-changelog-entries.ts:555-563 | line by line: outside fences a heading of level one or two becomes one of level four with the same title; every other line stays |
| `ChangelogLines.EntryIsWritten` | scripts/release/generate-changelog-entries.ts:440-460 | the entry as text: version and date in its heading, the notes, and always a section on breaking changes, `None.` when there are none |
| `ChangelogInsert.EntryTailIsNeutral` | scripts/release/generate-changelog-entries.ts:440-460 | below its heading a rendered entry has no heading and leaves no fence open |
| `ChangelogInsert.HeadingNamesOnly` | scripts/release/generate-changelog-entries.ts:569-584 | a rendered heading names its own version and no other |
| `ChangelogInsert.EntryBodyTrims` | scripts/release/generate-changelog-entries.ts:440-460 | the trimmed body is the demoted notes and the breaking-changes section |
| `ChangelogRoundTrip.UpsertedLines` | scripts/release/generate-changelog-entries.ts:596-618 | the new file is the old one cut at the first released heading, or its end, with the entry between |
| `ChangelogLines.EntryGoesBeforeFirstRelease` | scripts/release/generate-changelog-entries.ts:596-618 | the entry goes right before the first heading that is not an Unreleased one, or at the end; all other lines stay |
| `ChangelogLines.UnreleasedStaysOnTop` | scripts/release/generate-changelog-entries.ts:590-618 | a file that begins with an Unreleased section keeps it there, body and all, with the entry below it and above the first release |
| `ChangelogLines.NewChangelog` | scripts/release/generate-changelog-entries.ts:92-92 | a package without a changelog gets one with a title above the entry |
| `ChangelogRoundTrip.ClosedFragmentsSit` | scripts/release/generate-changelog-entries.ts:418-460 | trimmed fragments that each close their fences satisfy that condition anywhere |
| `ChangelogRoundTrip.InsertedEntryReadsBack` | scripts/release/generate-changelog-entries.ts:596-618 | the lookup gives the notes and breaking changes exactly if no line below the entry's heading scans as a heading and the entry ends outside every fence or at the end of the file |
| `ChangelogRoundTrip.OtherEntriesUnchanged` | scripts/release/generate-changelog-entries.ts:596-618 | then every other version and the Unreleased body read as before |
| `ChangelogRoundTrip.SecondInsertionIsSkipped` | scripts/release/generate-changelog-entries.ts:596-618 | inserting again returns the file unchanged, whether or not the entry reads back |
| `ChangelogRoundTrip.FencedEntryFoundExactly` | scripts/release/generate-changelog-entries.ts:596-618 | appended to a file that ends inside a fence, the entry is found again exactly if one of its lines, read in that fence, is its heading |
| `ChangelogRoundTrip.FencedEntryIsDuplicated` | scripts/release/generate-changelog-entries.ts:596-618 | so unless it holds a fence line itself, a second run appends it once more |
| `ChangelogRoundTrip.PublisherReadsInsertedEntry` | scripts/release/extract-changelog-entry.py:127-203 | the publisher extracts what the generator inserted, from every such text |
| `ChangelogRoundTrip.OpenEntrySwallows` | scripts/release/generate-changelog-entries.ts:596-618 | an entry that ends inside a fence makes every release below it disappear, unless a fence line follows |
| `ChangelogRoundTrip.TrimmingCanOpenAFence` | scripts/release/generate-changelog-entries.ts:418-446 | notes that pass the generator's check and, inserted, make the release below disappear |
| `Rollback.ReadExisting` | scripts/release/generate-changelog-entries.ts:811-833 | the remembered contents, by package name |
| `Rollback.Disk.WriteChangelogs` | scripts/release/generate-changelog-entries.ts:986-1011 | all writes happen, or the attempted ones are restored in reverse, the failing target included |
| `Rollback.Disk.RollBack` | scripts/release/generate-changelog-entries.ts:997-1011 | the reverse loop is the restoring function |
| `Rollback.PathIsRolledBack` | scripts/release/generate-changelog-entries.ts:986-1011 | a path whose own restore succeeds is as before the run, whatever the failing write or other restores did |
| `Rollback.RollbackRestoresExactly` | scripts/release/generate-changelog-entries.ts:986-1011 | the disk is as before exactly when each path's first write remembered that path's content |
| `Rollback.FailedRunRestoresDisk` | scripts/release/generate-changelog-entries.ts:811-1011 | distinct package names suffice |
| `Rollback.SharedNameIsNotRestored` | scripts/release/generate-changelog-entries.ts:811-833 | two packages of one name: the rollback writes one file's text into the other |
| `Gradle.SkipSpaceAndComments` | scripts/release/gradle-version.py:11-24 | the loop skips exactly the leading whitespace, line comments and nested block comments |
| `Gradle.StringEnd` | scripts/release/gradle-version.py:26-31 | the closing delimiter's offset, backslash pairs skipped in single-character literals |
| `Gradle.ParseGradleVersion` | scripts/release/gradle-version.py:33-58 | the loop over index, depth and previous computes the parse |
| `GradleSplice.SplicedVersionReadsBack` | scripts/release/gradle-version.py:10-58 | any non-empty value without quote or backslash, put in place of the version, is what the parser then returns, at the same start |
| `GradleLexer.VersionIsInRootCode` | scripts/release/gradle-version.py:10-58 | by an independent one-step lexer, the word stands in code at bracket depth zero and the range is the whole inside of one double-quoted literal |
| `GradleFirst.ParserFindsTheFirst` | scripts/release/gradle-version.py:33-58 | no version is reported exactly when no token assigns one at depth zero, else the value of the first that does |
| `GradleFirst.TokensAreTheCode` | scripts/release/gradle-version.py:33-58 | by the independent lexer each token starts in code at its depth, and every point of code that is neither space nor the start of a comment lies in exactly one token |
| `GradlePieces.ScriptVersionIsRead` | scripts/release/gradle-version.py:10-58 | of a script written as words, signs, literals, space and nested comments: the inside of the double-quoted literal that the first `version =` outside all brackets is set to, unless a dot, `val`, `var` or a backtick stands before the word; and the error otherwise |
| `Pom.FindIsFirst` | scripts/release/prepare-release.ts:560-561 | the search returns the first occurrence |
| `Pom.FindElementRanges` | scripts/release/prepare-release.ts:538-570 | the tag loop with its stack computes the ranges, failing when an element at the path is never closed |
| `PomTree.RangesOfTree` | scripts/release/prepare-release.ts:522-570 | in the text of any element tree, with attributes, comments and instructions, the ranges are exactly the elements at the path, in document order |
| `PomTree.NestedNameCutsShort` | scripts/release/prepare-release.ts:560-566 | such a range is the element's whole inside exactly if no element of the same name is nested in it |
| `PomTree.TextsAreCutOut` | scripts/release/prepare-release.ts:527-570 | without such nesting the ranges cut out those insides |
| `PomTree.FirstTextIsRead` | scripts/release/prepare-release.ts:573-585 | what is read at a path is the inside of the first element there, trimmed; None if there is none |
| `PomTree.ModulesAreRead` | scripts/release/prepare-release.ts:607-608 | the modules gone through are the insides of all `project/modules/module` elements, in order |
| `PomTree.FirstTextIsWritten` | scripts/release/prepare-release.ts:587-605 | the rewritten text is that of the tree in which the first element at the path has the new text, and nothing else differs |
| `PomTree.VersionElements` | scripts/release/prepare-release.ts:577-621 | the version is read from and written to `project/version`, and in a module to `project/parent/version` |
| `PomSplice.StripSplice` | scripts/release/prepare-release.ts:522-525 | replacing text between two brackets outside comments replaces just that in the comment-stripped text |
| `PomSplice.TagHeadPrefix` | scripts/release/prepare-release.ts:540-551 | reading a tag never looks past a closing bracket |
| `PomSplice.SpliceMovesEveryPath` | scripts/release/prepare-release.ts:538-589 | after a splice every path has the same elements, moved by the change in length, and fails exactly where it failed |
| `PomSplice.MovedText` | scripts/release/prepare-release.ts:587-589 | every element before or behind the change keeps its text |
| `Reactor.Tree.WriteMavenVersion` | scripts/release/prepare-release.ts:596-627 | the files after the run, also where it throws, and the list of files written |
| `Reactor.RewriteReadsBack` | scripts/release/prepare-release.ts:578-589 | the rewritten element starts where it did and holds the new text |
| `Reactor.ModulesStayListed` | scripts/release/prepare-release.ts:607-608 | the rewritten root lists the same modules |
| `Reactor.WrittenVersionReadsBack` | scripts/release/prepare-release.ts:591-644 | the root and every module's parent version read back as the new version; no other file changed |
| `Ordering.CycleHasNoOrder` | spec/generator/ir.ts:742-763 | a cycle of references has no order |
| `Ordering.MissingHasNoOrder` | spec/generator/ir.ts:742-763 | a reference to no definition has none either |
| `Ordering.Walk.Visit` | spec/generator/ir.ts:744-762 | keeps the order valid and places the name; throws only on a cycle or a missing name |
| `Ordering.BuildOrder` | spec/generator/ir.ts:740-763 | each definition once, every reference strictly earlier; None exactly when no order exists |
| `MixinPlacement.PlaceAll` | spec/generator/python.ts:455-502 | each placed mixin is below what it names and above its heirs, and something forces it that low; or one is blocked |
| `MixinPlacement.Emit` | spec/generator/python.ts:527-533 | the classes come out by slot, then placement order, then the slot's definition, each once |
| `MixinPlacement.FileIsGood` | spec/generator/python.ts:406-533 | such a file declares every mixin after everything it references and before every heir, definitions in order; so the emitter's own closing check never fires |
| `MixinPlacement.BlockedHasNoFile` | spec/generator/python.ts:470-500 | where the placement throws, no file satisfies the bounds |
| `MixinPlacement.RingHasNoFile` | spec/generator/python.ts:431-453 | nor where mixins name each other in a ring |
| `MixinPlacement.PlaceMixins` | spec/generator/python.ts:406-533 | a good file, or None exactly when there is none; in it a definition stands above a mixin exactly if no definition so far has mixins or if it does so in every good file |
| `OmitNulls.DeleteNulls` | spec/generator/serialization.ts:139-145 | the first loop deletes exactly the null optional keys |
| `OmitNulls.OmitOptionalNulls` | spec/generator/serialization.ts:125-155 | the copying walk computes the omission, ending by value size and then shape kind |
| `OmitNulls.OmitAtEveryPosition` | spec/generator/serialization.ts:157-164 | position by position, exactly the optional nulls go; everything else is there with the same scalar or kind |
| `OmitNulls.OmitLeavesNone` | spec/generator/serialization.ts:157-164 | no optional null is left at any position |
| `OmitNulls.CleanIsUntouched` | spec/generator/serialization.ts:125-155 | a value without them is returned as it is |
| `OmitNulls.OmitIsIdempotent` | spec/generator/serialization.ts:125-155 | the result is clean, and omitting again changes nothing |
| `ShapeTable.BuiltShapesAreSound` | spec/generator/serialization.ts:13-114 | every table the generator builds without an error, from definitions in dependency order, is one the omission is proved on |
| `SchemaOmission.RefusedExactly` | spec/generator/serialization.ts:13-114 | the generator throws exactly on a union it cannot tell apart by a literal discriminator or a field with an ambiguous inline union |
| `SchemaOmission.TypeAgrees` | spec/generator/serialization.ts:17-70 | a type has a shape exactly if the schema has structure to walk there, and a list shape exactly if that is a list |
| `SchemaOmission.VariantsAre` | spec/generator/serialization.ts:85-106 | the variants are exactly the members' literal tags, each naming the last member that has it |
| `SchemaOmission.TypePositions` | spec/generator/serialization.ts:13-114 | a position is an optional null by the table exactly if the schema reaches it as a non-required field holding null, through aliases, lists, inline unions and the variant its tag names |
| `SchemaOmission.NullsGoExactly` | spec/generator/serialization.ts:13-164 | so with the table the generator builds exactly those nulls go, and everything else is there as it was |
| `WireMessages.RefusedExactly` | spec/generator/proto-translation.ts:1097-1135 | refused exactly when two content carriers are populated, whatever the role, or a known role carries one it does not use |
| `WireMessages.NoCarrierIsLost` | spec/generator/proto-translation.ts:1061-1167 | whatever is accepted keeps its populated carrier under `content` |
| `WireForm.SourceIsSent` | spec/generator/proto-translation.ts:949-979 | a source travels under the one arm its type names, with the fields of that arm |
| `WireForm.PartIsSent` | spec/generator/proto-translation.ts:137-184 | so does a content part, its sources in their own form |
| `WireForm.MessageIsSent` | spec/generator/proto-translation.ts:1034-1060 | of every valid message: `content` is sent as a string or not at all, `contentParts` has one entry for each part, `activityContent` is there exactly for map roles and is the content, and every other field is as it was |
| `WireForm.AnyMessageIsSent` | spec/generator/proto-translation.ts:1034-1060 | of any message, valid or not: metadata that is no record is not sent, tool calls are otherwise sent as they are, and a map role always sends a map |
| `WireForm.OneCarrierIsSent` | spec/generator/proto-translation.ts:1034-1060 | of a valid message at most one carrier is populated |
| `WireForm.SourceIsRead` | spec/generator/proto-translation.ts:949-979 | of any wire source: refused exactly on two arms, nothing on none, else the arm's fields and its name |
| `WireForm.PartIsRead` | spec/generator/proto-translation.ts:137-184 | likewise for a part, which is nothing also where its source is there and has no known arm; otherwise its type's fields, sources read as sources |
| `WireForm.OthersComeBack` | spec/generator/proto-translation.ts:1061-1167 | of any accepted message, fields that carry no content come back as they arrived |
| `WireForm.MissingContent` | spec/generator/proto-translation.ts:1061-1167 | content in no carrier comes back as an empty list for a role with parts, and not at all otherwise |
| `MessageRoundTrip.SourceRoundTrip` | spec/generator/proto-translation.ts:949-979 | a valid source comes back, up to absent keys |
| `MessageRoundTrip.PartRoundTrip` | spec/generator/proto-translation.ts:137-184 | a valid content part comes back, a missing source staying missing |
| `MessageRoundTrip.MessageRoundTrips` | spec/generator/proto-translation.ts:1034-1167 | a valid message is accepted and comes back as it was, up to absent keys and empty tool calls, exactly when it is not missing the content of a string-or-parts role |
| `Outcomes.NoPayloadIsLost` | spec/generator/proto-translation.ts:566-649 | decoding keeps every non-empty payload list, whatever the discriminator string |
| `Outcomes.OthersAreUntouched` | spec/generator/proto-translation.ts:532-649 | neither direction touches the event's other fields |
| `WireForm.OutcomeIsSent` | spec/generator/proto-translation.ts:532-564 | of any event: the outcome travels as its case's name, and each list of any case as a list, empty unless this case has it |
| `Outcomes.OutcomeRoundTrips` | spec/generator/proto-translation.ts:532-649 | a valid event comes back as it was, up to absent keys and empty optional lists |
| `Outcomes.UnknownCaseKeepsItsName` | spec/generator/proto-translation.ts:554-564 | encoding an unknown case keeps its name and drops its lists |

## Left out

Weaker or narrower than the source:

- MergePreservesMeaning: inputs of 2^32 bytes or more, whose length prefixes wrap, are outside it.
- PruningIsInvisibleExactly: like `ShippedReadsRightExactly`, for tables of at most 2^28 messages, so that the envelope showing a difference stays below 2^32 bytes.
- DotnetGuard.AssertWellFormedEnvelope: `int` offsets and JavaScript numbers are unbounded, and a 64-bit varint's value is not looked at.
- Tokens.ReadToken: the loops repeat the tag-and-value reading; it is written once here and used by all of them.
- Records.EncodedRecordReadsBack: the bufbuild `BinaryReader` and `BinaryWriter` are modelled as a reader that masks tags and lengths to 32 bits and takes a group as one record whose end number must match, and a writer of minimal varints. That reader also throws on a varint of more than ten bytes, which this one reads; overlong tags, lengths and values are thus one more gap between the guard's acceptance and decoding, beside those `GuardGap` lists.
- WireFreeze.WireFreeze.Load: the constructor that takes a text is split into `constructor` and `Load`; numbers are unbounded.
- ScanGraph.WalkEnvelope: the list of wire messages is given as a map by name, and oneofs without entries do not occur.
- SchemaReading.BuildScanGraph: of the wire model it takes that `Event` is a oneof and nothing else, that numbers are distinct and legal, that no message of the project is a google one, and that oneof entries travel with a length; the envelope that shows a misreading is given for at most 2^28 messages.
- TokenLaws.PayloadReadsBack: payloads of 2^32 bytes or more, whose length wraps, are outside it.
- InsertedEntryReadsBack: versions have no space, newline or bracket, and notes are not blank; a file that is appended to and ends inside a fence is the subject of `FencedEntryFoundExactly`.
- LookupsAgree: its condition is exact line by line, for the heading test and for trimming, and sufficient for the lookup as a whole: differences that do not reach the entry asked for could cancel.
- VersionIsInRootCode: the Unicode part of Python's `\w` is a parameter that excludes quotes, slashes and brackets. Offsets count characters, not UTF-16 units.
- GradlePieces.ScriptVersionIsRead: scripts whose literals and comments are closed, each line comment by a newline; for every other text `ParserFindsTheFirst` says what is found.
- PomTree.RangesOfTree: documents whose text holds no `<`, whose attributes and instructions hold no bracket, and whose end tags are written without space; for every other text the ranges are those of the scan. `DOCTYPE` and `CDATA` sections do not occur.
- PomTree.FirstTextIsWritten: no element at the path has one of its own name nested in it; where one has, `NestedNameCutsShort` says that the range ends early.
- SpliceMovesEveryPath: the replaced element's text, comments aside, opens no tag. The path of a module's file is a parameter.
- WrittenVersionReadsBack: no listed module is the root itself, and no module element overlaps the root's version element.
- OmitOptionalNulls: the copy is compared by value, not identity.
- PlaceMixins: definition and mixin names are distinct, as keys of the source's maps; the text of the error messages is not modelled.
- MessageRoundTrips: what ts-proto does between the two mappers is taken as the identity; the legacy "binary" part, part kinds with more than one source field, and spreading arrays or strings into records are not modelled; `contentParts` and `activityContent` are not fields of a valid message.
- FailedRunRestoresDisk: a file that exists and cannot be read ends the source's run before any write, and is not modelled.

Not modelled at all:

- The emitted texts as texts: TypeScript, Python, C#, `.proto`, schema pages, banners and warnings.
- ts-proto, Google.Protobuf, zod, pydantic and the JSON, TOML and XML libraries.
- The schema reader apart from its ordering step, and the building of the wire model from the schema.
- JSON Patch operations, `RunAgentInput` converters and the envelope's event-type check: they are single lookups.
- The model call, prompts, git history, the summary file, GitHub output and notifications.
- .NET, Python and npm version files: single regular-expression replacements.
- `spec/tools`, the dojo application and its end-to-end fixtures.
