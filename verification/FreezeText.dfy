/** The ledger of wire numbers as text: one `key = number` line per slot. */
module FreezeText {
  import opened Options
  import opened Text

  type Ledger = map<string, nat>

  predicate IsDigit(c: char) { '0' <= c <= '9' }

  predicate IsKeyChar(c: char) {
    'a' <= c <= 'z' || 'A' <= c <= 'Z' || IsDigit(c) || c == '_' || c == '.'
  }

  predicate IsKey(s: string) {
    s != [] && forall c <- s :: IsKeyChar(c)
  }

  // ---------------------------------------------------------------------------
  // Decimal numbers
  // ---------------------------------------------------------------------------

  function DigitOf(d: nat): char
    requires d < 10
  {
    '0' + d as char
  }

  function Decimal(n: nat): (s: string)
    ensures s != [] && forall c <- s :: IsDigit(c)
  {
    if n < 10 then [DigitOf(n)] else Decimal(n / 10) + [DigitOf(n % 10)]
  }

  function DecimalValue(s: string): nat
    requires forall c <- s :: IsDigit(c)
  {
    if s == [] then 0
    else
      var last := s[|s| - 1];
      assert last in s && IsDigit(last);
      10 * DecimalValue(s[..|s| - 1]) + (last as int - '0' as int)
  }

  lemma {:induction false} DecimalRoundTrip(n: nat)
    ensures DecimalValue(Decimal(n)) == n
  {
    var s := Decimal(n);
    if n < 10 {
      assert s[..0] == [];
    } else {
      DecimalRoundTrip(n / 10);
      assert s[..|s| - 1] == Decimal(n / 10);
    }
  }

  // ---------------------------------------------------------------------------
  // Reading
  // ---------------------------------------------------------------------------

  /** Length of the leading run of key characters. */
  function KeyLength(s: string): (k: nat)
    ensures k <= |s| && (forall c <- s[..k] :: IsKeyChar(c)) && (k < |s| ==> !IsKeyChar(s[k]))
  {
    if s == [] || !IsKeyChar(s[0]) then 0
    else
      var k := 1 + KeyLength(s[1..]);
      assert s[..k] == [s[0]] + s[1..][..k - 1];
      k
  }

  predicate Ignored(line: string) {
    line == "" || "#" <= line || "//" <= line
  }

  /** A key, an equals sign with optional space around it, digits to the end of the line. */
  function ReadLine(line: string): Option<(string, nat)> {
    var k := KeyLength(line);
    var afterKey := TrimStart(line[k..], JsSpace);
    if k == 0 || afterKey == [] || afterKey[0] != '=' then None
    else
      var digits := TrimStart(afterKey[1..], JsSpace);
      if digits == [] || exists c <- digits :: !IsDigit(c) then None
      else Some((line[..k], DecimalValue(digits)))
  }

  function ReadLines(lines: seq<string>): Option<Ledger> {
    if lines == [] then Some(map[])
    else
      var ledger :- ReadLines(lines[..|lines| - 1]);
      var line := Trim(lines[|lines| - 1], JsSpace);
      if Ignored(line) then Some(ledger)
      else
        var (key, number) :- ReadLine(line);
        Some(ledger[key := number])
  }

  /** The ledger a text holds; None where the constructor throws. */
  function ReadLedger(text: string): Option<Ledger> { ReadLines(Split(text, '\n')) }

  // ---------------------------------------------------------------------------
  // Writing
  // ---------------------------------------------------------------------------

  function WriteLine(key: string, number: nat): string { key + " = " + Decimal(number) }

  function WriteLines(order: seq<string>, ledger: Ledger): seq<string>
    requires forall key <- order :: key in ledger
  {
    if order == [] then []
    else WriteLines(order[..|order| - 1], ledger)
         + [WriteLine(order[|order| - 1], ledger[order[|order| - 1]])]
  }

  /** `order` lists every slot of the ledger once. */
  ghost predicate Enumerates(order: seq<string>, ledger: Ledger) {
    && (forall key :: key in order <==> key in ledger)
    && forall i, j :: 0 <= i < j < |order| ==> order[i] != order[j]
  }

  /** JavaScript's order on strings. */
  predicate Less(a: string, b: string) {
    b != [] && (a == [] || a[0] < b[0] || (a[0] == b[0] && Less(a[1..], b[1..])))
  }

  lemma {:induction false} LessOrders(a: string, b: string, c: string)
    ensures !Less(a, a)
    ensures Less(a, b) && Less(b, c) ==> Less(a, c)
    ensures Less(a, b) || a == b || Less(b, a)
  {
    if a != [] && b != [] && c != [] {
      LessOrders(a[1..], b[1..], c[1..]);
    } else if a != [] && b != [] {
      LessOrders(a[1..], b[1..], []);
    } else if a != [] {
      LessOrders(a[1..], [], []);
    }
    assert a != [] && b != [] && a[0] == b[0] && a[1..] == b[1..] ==> a == [b[0]] + b[1..] == b;
  }

  ghost predicate Ascending(order: seq<string>) {
    forall i, j :: 0 <= i < j < |order| ==> Less(order[i], order[j])
  }

  function InsertKey(order: seq<string>, key: string): (r: seq<string>)
    requires Ascending(order) && key !in order
    ensures Ascending(r) && forall k :: k in r <==> k == key || k in order
  {
    if order == [] then [key]
    else
      LessOrders(key, order[0], order[0]);
      assert order == [order[0]] + order[1..];
      if Less(key, order[0]) then
        assert forall k <- order :: Less(key, k) by { BelowAll(key, order); }
        [key] + order
      else
        var rest := InsertKey(order[1..], key);
        assert forall k <- rest :: Less(order[0], k);
        [order[0]] + rest
  }

  lemma BelowAll(key: string, order: seq<string>)
    requires order != [] && Ascending(order) && Less(key, order[0])
    ensures forall k <- order :: Less(key, k)
  {
    forall i | 0 <= i < |order| ensures Less(key, order[i]) {
      if i > 0 { LessOrders(key, order[0], order[i]); }
    }
  }

  /** There is one ascending order of a set of slots. */
  lemma {:induction false} AscendingIsUnique(a: seq<string>, b: seq<string>)
    requires Ascending(a) && Ascending(b) && forall k :: k in a <==> k in b
    ensures a == b
  {
    assert a != [] ==> a[0] in a;
    assert b != [] ==> b[0] in b;
    if a != [] && b != [] {
      LeastIsFirst(a, b);
      assert a == [a[0]] + a[1..] && b == [b[0]] + b[1..];
      forall k ensures k in a[1..] <==> k in b[1..] {
        FirstOnce(a, k);
        FirstOnce(b, k);
      }
      AscendingIsUnique(a[1..], b[1..]);
    }
  }

  lemma LeastIsFirst(a: seq<string>, b: seq<string>)
    requires a != [] && b != [] && Ascending(a) && Ascending(b) && forall k :: k in a <==> k in b
    ensures a[0] == b[0]
  {
    assert a[0] in b && b[0] in a;
    var i :| 0 <= i < |b| && b[i] == a[0];
    var j :| 0 <= j < |a| && a[j] == b[0];
    LessOrders(a[0], b[0], a[0]);
  }

  lemma FirstOnce(a: seq<string>, k: string)
    requires a != [] && Ascending(a)
    ensures k in a[1..] <==> k in a && k != a[0]
  {
    LessOrders(a[0], a[0], a[0]);
    assert a == [a[0]] + a[1..];
  }

  lemma AscendingEnumerates(order: seq<string>, ledger: Ledger)
    requires Ascending(order) && forall key :: key in order <==> key in ledger
    ensures Enumerates(order, ledger)
  {
    forall i, j | 0 <= i < j < |order| ensures order[i] != order[j] {
      LessOrders(order[i], order[i], order[i]);
    }
  }

  /** The text depends on the ledger alone. */
  lemma EmissionIsCanonical(banner: string, a: seq<string>, b: seq<string>, ledger: Ledger)
    requires Ascending(a) && Ascending(b) && Enumerates(a, ledger) && Enumerates(b, ledger)
    ensures WriteLedger(banner, a, ledger) == WriteLedger(banner, b, ledger)
  {
    AscendingIsUnique(a, b);
  }

  function WriteLedger(banner: string, order: seq<string>, ledger: Ledger): string
    requires forall key <- order :: key in ledger
  {
    Join([TrimEnd(banner, JsSpace), ""] + WriteLines(order, ledger) + [""], '\n')
  }

  ghost predicate LegalKeys(ledger: Ledger) { forall key <- ledger :: IsKey(key) }

  /** A banner of comment lines. */
  ghost predicate IsBanner(banner: string) {
    forall line <- Split(TrimEnd(banner, JsSpace), '\n') :: Ignored(Trim(line, JsSpace))
  }

  // ---------------------------------------------------------------------------
  // Round trip
  // ---------------------------------------------------------------------------

  lemma {:induction false} KeyLengthOf(key: string, rest: string)
    requires forall c <- key :: IsKeyChar(c)
    requires rest != [] && !IsKeyChar(rest[0])
    ensures KeyLength(key + rest) == |key|
  {
    if key == [] {
      assert key + rest == rest;
    } else {
      assert (key + rest)[1..] == key[1..] + rest;
      KeyLengthOf(key[1..], rest);
    }
  }

  lemma LineReadsBack(key: string, number: nat)
    requires IsKey(key)
    ensures var line := WriteLine(key, number);
      Trim(line, JsSpace) == line && !Ignored(line) && ReadLine(line) == Some((key, number)) && '\n' !in line
  {
    hide Decimal, DecimalValue, KeyLength, TrimStart, TrimEnd;
    var digits := Decimal(number);
    var line := WriteLine(key, number);
    var rest := " = " + digits;
    assert line == key + rest;
    KeyLengthOf(key, rest);
    DecimalRoundTrip(number);
    assert line[0] == key[0] && key[0] in key && IsKeyChar(key[0]);
    assert digits[|digits| - 1] in digits && line[|line| - 1] == digits[|digits| - 1];
    TightIsTrimmed(line, JsSpace);
    assert line[|key|..] == rest && line[..|key|] == key;
    TrimSpace(['='] + ([' '] + digits));
    assert rest == [' '] + (['='] + ([' '] + digits));
    assert (['='] + ([' '] + digits))[1..] == [' '] + digits;
    assert digits[0] in digits;
    TrimSpace(digits);
    TrimNothing(['='] + ([' '] + digits));
  }

  lemma TrimNothing(s: string)
    requires s != [] && !JsSpace(s[0])
    ensures TrimStart(s, JsSpace) == s
  {
  }

  lemma TrimSpace(s: string)
    requires s != [] && !JsSpace(s[0])
    ensures TrimStart([' '] + s, JsSpace) == s
  {
    assert ([' '] + s)[1..] == s;
  }

  /** Whatever is read has legal keys. */
  lemma ReadKeysAreLegal(text: string)
    requires ReadLedger(text).Some?
    ensures LegalKeys(ReadLedger(text).value)
  {
    ReadLinesLegal(Split(text, '\n'));
  }

  lemma {:induction false} ReadLinesLegal(lines: seq<string>)
    requires ReadLines(lines).Some?
    ensures LegalKeys(ReadLines(lines).value)
  {
    if lines != [] { ReadLinesLegal(lines[..|lines| - 1]); }
  }

  lemma ReadSnoc(lines: seq<string>, line: string)
    ensures ReadLines(lines + [line]) ==
      match ReadLines(lines)
      case None => None
      case Some(ledger) =>
        if Ignored(Trim(line, JsSpace)) then Some(ledger)
        else match ReadLine(Trim(line, JsSpace))
             case None => None
             case Some((key, number)) => Some(ledger[key := number])
  {
    assert (lines + [line])[..|lines|] == lines;
  }

  lemma {:induction false} BannerReadsEmpty(lines: seq<string>)
    requires forall line <- lines :: Ignored(Trim(line, JsSpace))
    ensures ReadLines(lines) == Some(map[])
  {
    if lines != [] {
      BannerReadsEmpty(lines[..|lines| - 1]);
      assert lines[|lines| - 1] in lines;
    }
  }

  function Restrict(ledger: Ledger, order: seq<string>): Ledger {
    map key | key in ledger && key in order :: ledger[key]
  }

  lemma {:induction false} LinesReadBack(head: seq<string>, order: seq<string>, ledger: Ledger)
    requires forall line <- head :: Ignored(Trim(line, JsSpace))
    requires LegalKeys(ledger) && forall key <- order :: key in ledger
    ensures ReadLines(head + WriteLines(order, ledger)) == Some(Restrict(ledger, order))
    ensures forall line <- WriteLines(order, ledger) :: '\n' !in line
  {
    hide ReadLines, ReadLine, WriteLine;
    if order == [] {
      assert head + [] == head;
      BannerReadsEmpty(head);
    } else {
      var k := |order| - 1;
      var key := order[k];
      assert key in order && order == order[..k] + [key];
      LinesReadBack(head, order[..k], ledger);
      LineReadsBack(key, ledger[key]);
      var line := WriteLine(key, ledger[key]);
      assert head + WriteLines(order, ledger) == (head + WriteLines(order[..k], ledger)) + [line];
      ReadSnoc(head + WriteLines(order[..k], ledger), line);
      assert Restrict(ledger, order[..k])[key := ledger[key]] == Restrict(ledger, order);
    }
  }

  /** Whatever order the lines are written in, the text reads back as the ledger. */
  lemma LedgerRoundTrip(banner: string, order: seq<string>, ledger: Ledger)
    requires IsBanner(banner) && LegalKeys(ledger) && Enumerates(order, ledger)
    ensures ReadLedger(WriteLedger(banner, order, ledger)) == Some(ledger)
  {
    hide ReadLines, WriteLines, Join, Split;
    var top := TrimEnd(banner, JsSpace);
    var body := WriteLines(order, ledger) + [""];
    var head := Split(top, '\n') + [""];
    LinesReadBack(head, order, ledger);
    assert [top, ""] + WriteLines(order, ledger) + [""] == [top] + ([""] + body);
    JoinConcat([top], [""] + body, '\n');
    assert Join([top], '\n') == top by { JoinOne(top); }
    SplitConcat(top, Join([""] + body, '\n'), '\n');
    SplitJoin([""] + body, '\n');
    assert Split(top, '\n') + ([""] + body) == (head + WriteLines(order, ledger)) + [""];
    ReadSnoc(head + WriteLines(order, ledger), "");
    assert Restrict(ledger, order) == ledger;
    TightIsTrimmed("", JsSpace);
  }

  lemma JoinOne(s: string)
    ensures Join([s], '\n') == s
  {
  }
}
