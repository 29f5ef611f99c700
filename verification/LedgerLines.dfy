/** The ledger's text, line by line, and the numbers a new ledger hands out. */
module LedgerLines {
  import opened Options
  import opened Text
  import opened FreezeText
  import opened WireFreeze

  // ---------------------------------------------------------------------------
  // One line
  // ---------------------------------------------------------------------------

  /** ASCII letters, digits, underscores and dots, at least one. */
  predicate SlotName(s: string) {
    s != "" && forall c <- s ::
      var n := c as int; 97 <= n <= 122 || 65 <= n <= 90 || 48 <= n <= 57 || n == 95 || n == 46
  }

  predicate Digits(s: string) { s != "" && forall c <- s :: 48 <= c as int <= 57 }

  /** A slot, an equals sign and a decimal number, with or without space around the sign. */
  ghost predicate LineForm(line: string, key: string, number: nat) {
    SlotName(key) && exists a, b, digits ::
      && AllSpace(a, JsSpace) && AllSpace(b, JsSpace) && Digits(digits) && DecimalValue(digits) == number
      && line == key + a + "=" + b + digits
  }

  lemma NamesAre(s: string)
    ensures IsKey(s) <==> SlotName(s)
  {
    forall c | c in s
      ensures IsKeyChar(c) <==>
        var n := c as int; 97 <= n <= 122 || 65 <= n <= 90 || 48 <= n <= 57 || n == 95 || n == 46
    {
    }
  }

  lemma DigitsAre(s: string)
    ensures Digits(s) <==> s != "" && forall c <- s :: IsDigit(c)
  {
    forall c | c in s ensures IsDigit(c) <==> 48 <= c as int <= 57 {
    }
  }

  lemma FormReads(line: string, key: string, a: string, b: string, digits: string)
    requires SlotName(key) && AllSpace(a, JsSpace) && AllSpace(b, JsSpace) && Digits(digits)
    requires line == key + a + "=" + b + digits
    ensures (forall c <- digits :: IsDigit(c)) && ReadLine(line) == Some((key, DecimalValue(digits)))
  {
    hide KeyLength, TrimStart, DecimalValue;
    var behind := b + digits;
    var rest := a + ("=" + behind);
    assert line == key + rest;
    NamesAre(key);
    DigitsAre(digits);
    assert rest[0] == if a == "" then '=' else a[0];
    assert a != "" ==> a[0] in a;
    SpaceIsNoKey(rest[0]);
    KeyLengthOf(key, rest);
    assert line[|key|..] == rest && line[..|key|] == key;
    TrimStartSpace(a, "=" + behind, JsSpace);
    TrimNothing("=" + behind);
    assert ("=" + behind)[1..] == behind;
    TrimStartSpace(b, digits, JsSpace);
    assert digits[0] in digits;
    TrimNothing(digits);
  }

  lemma SpaceIsNoKey(c: char)
    ensures JsSpace(c) || c == '=' ==> !IsKeyChar(c)
  {
  }

  lemma ReadIsForm(line: string)
    requires ReadLine(line).Some?
    ensures LineForm(line, ReadLine(line).value.0, ReadLine(line).value.1)
  {
    hide KeyLength, TrimStart, DecimalValue;
    var k := KeyLength(line);
    var key, rest := line[..k], line[k..];
    var a := FrontIsSpace(rest, JsSpace);
    var sign := TrimStart(rest, JsSpace);
    var behind := sign[1..];
    var b := FrontIsSpace(behind, JsSpace);
    var digits := TrimStart(behind, JsSpace);
    NamesAre(key);
    DigitsAre(digits);
    assert sign == "=" + (b + digits);
    assert line == key + a + "=" + b + digits;
  }

  /** A line is read exactly if it has that form, and as the slot and the number that stand there. */
  lemma LineExactly(line: string, key: string, number: nat)
    ensures ReadLine(line) == Some((key, number)) <==> LineForm(line, key, number)
  {
    hide ReadLine, DecimalValue;
    if ReadLine(line).Some? { ReadIsForm(line); }
    if LineForm(line, key, number) {
      var a, b, digits :| AllSpace(a, JsSpace) && AllSpace(b, JsSpace) && Digits(digits)
                          && DecimalValue(digits) == number && line == key + a + "=" + b + digits;
      FormReads(line, key, a, b, digits);
    }
  }

  // ---------------------------------------------------------------------------
  // The text
  // ---------------------------------------------------------------------------

  /** Blank lines and comments of both kinds are passed over. */
  ghost predicate Comment(line: string) {
    AllSpace(line, JsSpace)
    || exists a, rest :: AllSpace(a, JsSpace) && (line == a + "#" + rest || line == a + "//" + rest)
  }

  /** Space around the line does not matter. */
  ghost predicate Assigns(line: string, key: string, number: nat) {
    exists a, form, b ::
      AllSpace(a, JsSpace) && AllSpace(b, JsSpace) && LineForm(form, key, number) && line == a + form + b
  }

  lemma FormIsTight(form: string, key: string, number: nat)
    requires LineForm(form, key, number)
    ensures form != "" && Tight(form, JsSpace) && form[0] != '#' && form[0] != '/'
  {
    var a, b, digits :| AllSpace(a, JsSpace) && AllSpace(b, JsSpace) && Digits(digits)
                        && DecimalValue(digits) == number && form == key + a + "=" + b + digits;
    assert form[0] == key[0] && key[0] in key;
    assert digits[|digits| - 1] in digits && form[|form| - 1] == digits[|digits| - 1];
  }

  lemma AssignsExactly(line: string, key: string, number: nat)
    ensures Assigns(line, key, number) <==> LineForm(Trim(line, JsSpace), key, number)
  {
    hide LineForm, Trim;
    if LineForm(Trim(line, JsSpace), key, number) {
      var a, b := AroundIsSpace(line, JsSpace);
      assert line == a + Trim(line, JsSpace) + b;
    }
    if Assigns(line, key, number) {
      var a, form, b :| AllSpace(a, JsSpace) && AllSpace(b, JsSpace) && LineForm(form, key, number)
                        && line == a + form + b;
      FormIsTight(form, key, number);
      TrimAround(a, form, b, JsSpace);
    }
  }

  lemma CommentExactly(line: string)
    ensures Comment(line) <==> Ignored(Trim(line, JsSpace))
  {
    hide JsSpace, Trim;
    assert !JsSpace('#') && !JsSpace('/') by { NoSpace(); }
    var a, b := AroundIsSpace(line, JsSpace);
    var t := Trim(line, JsSpace);
    if t == "" {
      assert line == a + b;
    } else if "#" <= t {
      assert line == a + "#" + (t[1..] + b);
    } else if "//" <= t {
      assert line == a + "//" + (t[2..] + b);
    }
    if AllSpace(line, JsSpace) {
      TrimsAwayExactly(line, JsSpace);
    } else if a', rest :| AllSpace(a', JsSpace) && (line == a' + "#" + rest || line == a' + "//" + rest) {
      var mark := if line == a' + "#" + rest then "#" else "//";
      assert line == a' + (mark + rest);
      MarkStays(a', mark, rest);
    }
  }

  lemma NoSpace()
    ensures !JsSpace('#') && !JsSpace('/')
  {
  }

  /** Trimming does not touch a comment mark. */
  lemma MarkStays(a: string, mark: string, rest: string)
    requires AllSpace(a, JsSpace) && (mark == "#" || mark == "//")
    ensures mark <= Trim(a + (mark + rest), JsSpace)
  {
    hide TrimStart;
    TrimStartSpace(a, mark + rest, JsSpace);
    TrimNothing(mark + rest);
    EndStays(mark, rest, JsSpace);
  }

  lemma {:induction false} EndStays(mark: string, rest: string, sp: char -> bool)
    requires mark != "" && !sp(mark[|mark| - 1])
    ensures mark <= TrimEnd(mark + rest, sp)
    decreases |rest|
  {
    if rest == "" {
      assert mark + rest == mark;
    } else {
      var s := mark + rest;
      assert s[..|s| - 1] == mark + rest[..|rest| - 1];
      EndStays(mark, rest[..|rest| - 1], sp);
    }
  }

  /** The number of the last line that gives the slot one. */
  ghost predicate LastAssigned(lines: seq<string>, key: string, number: nat) {
    exists i :: 0 <= i < |lines| && !Comment(lines[i]) && Assigns(lines[i], key, number)
                && forall j, m: nat :: i < j < |lines| && !Comment(lines[j]) ==> !Assigns(lines[j], key, m)
  }

  ghost predicate Readable(line: string) { Comment(line) || exists key, number :: Assigns(line, key, number) }

  lemma {:induction false} LinesExactly(lines: seq<string>)
    ensures ReadLines(lines).Some? <==> forall line <- lines :: Readable(line)
    ensures ReadLines(lines).Some? ==> forall key: string, number: nat ::
      key in ReadLines(lines).value && ReadLines(lines).value[key] == number <==> LastAssigned(lines, key, number)
  {
    hide ReadLines, Comment, Assigns;
    if lines == [] {
      NoLines();
    } else {
      var k := |lines| - 1;
      var before, line := lines[..k], lines[k];
      assert lines == before + [line];
      LinesExactly(before);
      ReadSnoc(before, line);
      LineSays(line);
      var ledger := ReadLines(before);
      if ledger.Some? && Readable(line) {
        forall key: string, number: nat
          ensures LastAssigned(lines, key, number) <==>
            if !Comment(line) && exists m :: Assigns(line, key, m) then Assigns(line, key, number)
            else LastAssigned(before, key, number)
        {
          LastSnoc(before, line, key, number);
        }
      }
    }
  }

  lemma NoLines()
    ensures ReadLines([]) == Some(map[])
  {
  }

  lemma LineSays(line: string)
    ensures Ignored(Trim(line, JsSpace)) <==> Comment(line)
    ensures forall key: string, number: nat ::
      Assigns(line, key, number) <==> ReadLine(Trim(line, JsSpace)) == Some((key, number))
  {
    hide Ignored, Comment, Assigns, ReadLine, LineForm;
    CommentExactly(line);
    forall key: string, number: nat
      ensures Assigns(line, key, number) <==> ReadLine(Trim(line, JsSpace)) == Some((key, number))
    {
      AssignsExactly(line, key, number);
      LineExactly(Trim(line, JsSpace), key, number);
    }
  }

  lemma LastSnoc(before: seq<string>, line: string, key: string, number: nat)
    ensures LastAssigned(before + [line], key, number) <==>
      if !Comment(line) && exists m :: Assigns(line, key, m) then Assigns(line, key, number)
      else LastAssigned(before, key, number)
  {
    hide Comment, Assigns;
    var lines := before + [line];
    assert forall i :: 0 <= i < |before| ==> lines[i] == before[i];
    assert lines[|before|] == line;
    if LastAssigned(lines, key, number) {
      var i :| 0 <= i < |lines| && !Comment(lines[i]) && Assigns(lines[i], key, number)
               && forall j, m: nat :: i < j < |lines| && !Comment(lines[j]) ==> !Assigns(lines[j], key, m);
      if i < |before| {
        assert forall m: nat :: !Comment(line) ==> !Assigns(lines[|before|], key, m);
        assert Assigns(before[i], key, number);
      }
    }
    if LastAssigned(before, key, number) {
      var i :| 0 <= i < |before| && !Comment(before[i]) && Assigns(before[i], key, number)
               && forall j, m: nat :: i < j < |before| && !Comment(before[j]) ==> !Assigns(before[j], key, m);
      assert Assigns(lines[i], key, number);
    }
    if !Comment(line) && Assigns(line, key, number) {
      assert Assigns(lines[|before|], key, number);
    }
  }

  /**
    A text is a ledger exactly if each of its lines is a comment or gives a slot a number, and
    then a slot's number is the one its last line gives it.
   */
  lemma TextExactly(text: string)
    ensures ReadLedger(text).Some? <==> forall line <- Split(text, '\n') :: Readable(line)
    ensures ReadLedger(text).Some? ==> forall key: string, number: nat ::
      key in ReadLedger(text).value && ReadLedger(text).value[key] == number <==>
      LastAssigned(Split(text, '\n'), key, number)
  {
    hide ReadLines, Readable, LastAssigned, Split;
    LinesExactly(Split(text, '\n'));
  }

  lemma {:induction false} WrittenLines(order: seq<string>, ledger: Ledger)
    requires forall key <- order :: key in ledger
    ensures WriteLines(order, ledger) ==
      seq(|order|, i requires 0 <= i < |order| => order[i] + " = " + Decimal(ledger[order[i]]))
  {
    if order != [] {
      var k := |order| - 1;
      assert order[k] in order && order[..k] + [order[k]] == order;
      WrittenLines(order[..k], ledger);
    }
  }

  /** The slots' order: at the first difference the smaller code unit, or the end, comes first. */
  ghost predicate FirstDifference(a: string, b: string, k: nat) {
    k <= |a| && k < |b| && a[..k] == b[..k] && (k == |a| || a[k] as int < b[k] as int)
  }

  lemma {:induction false} LessExactly(a: string, b: string)
    ensures Less(a, b) <==> exists k: nat :: FirstDifference(a, b, k)
  {
    if k: nat :| FirstDifference(a, b, k) {
      DifferenceIsLess(a, b, k);
    }
    if Less(a, b) {
      if a == "" || a[0] < b[0] {
        assert FirstDifference(a, b, 0);
      } else {
        LessExactly(a[1..], b[1..]);
        var k: nat :| FirstDifference(a[1..], b[1..], k);
        assert a[..k + 1] == [a[0]] + a[1..][..k] && b[..k + 1] == [b[0]] + b[1..][..k];
        assert FirstDifference(a, b, k + 1);
      }
    }
  }

  lemma {:induction false} DifferenceIsLess(a: string, b: string, k: nat)
    requires FirstDifference(a, b, k)
    ensures Less(a, b)
    decreases k
  {
    if k > 0 {
      assert a[0] == a[..k][0] && b[0] == b[..k][0];
      assert a[1..][..k - 1] == a[..k][1..] && b[1..][..k - 1] == b[..k][1..];
      DifferenceIsLess(a[1..], b[1..], k - 1);
    }
  }

  /** The text written: the banner, an empty line and one line for each slot in the order given. */
  lemma EmissionIs(banner: string, order: seq<string>, ledger: Ledger)
    requires LegalKeys(ledger) && forall key <- order :: key in ledger
    ensures Split(WriteLedger(banner, order, ledger), '\n') ==
      Split(TrimEnd(banner, JsSpace), '\n') + [""]
      + seq(|order|, i requires 0 <= i < |order| => order[i] + " = " + Decimal(ledger[order[i]])) + [""]
  {
    hide Split, Join, TrimEnd, Decimal, WriteLines, WriteLine;
    var top, lines := TrimEnd(banner, JsSpace), WriteLines(order, ledger);
    WrittenLines(order, ledger);
    LinesReadBack([], order, ledger);
    var body := [""] + lines + [""];
    assert [top, ""] + lines + [""] == [top] + body;
    JoinConcat([top], body, '\n');
    assert Join([top], '\n') == top by { JoinOne(top); }
    SplitConcat(top, Join(body, '\n'), '\n');
    SplitJoin(body, '\n');
    assert Split(top, '\n') + body == Split(top, '\n') + [""] + lines + [""];
  }

  // ---------------------------------------------------------------------------
  // Numbers
  // ---------------------------------------------------------------------------

  /** A message or enum at the top of a file has its own number space, however its name is spelt. */
  lemma TopLevelOwnsGroup(name: string, leaf: string)
    requires '.' !in name && '.' !in leaf
    ensures GroupOf(name + "." + leaf) == name
  {
    hide Split;
    SplitConcat(name, leaf, '.');
    assert Split(name, '.') == [name] && Split(leaf, '.') == [leaf];
    assert ([name] + [leaf])[..1] == [name];
  }

  function Slots(ledger: Ledger, group: string): set<string> { set k | k in ledger && GroupOf(k) == group }

  ghost predicate Uses(ledger: Ledger, group: string, n: nat) {
    exists k <- Slots(ledger, group) :: ledger[k] == n
  }

  /** The group's numbers are `start` and the following ones, one for each of its slots. */
  ghost predicate Dense(ledger: Ledger, group: string, start: nat) {
    forall n: nat :: Uses(ledger, group, n) <==> start <= n < start + |Slots(ledger, group)|
  }

  lemma NextIsBehind(ledger: Ledger, group: string, start: nat, n: nat)
    requires Dense(ledger, group, start) && NextFree(ledger, group, start, n)
    ensures n == start + |Slots(ledger, group)|
  {
    hide GroupOf;
    var own := Slots(ledger, group);
    if own != {} {
      assert Uses(ledger, group, start + |own| - 1);
    }
    if n != start {
      var k :| k in ledger && GroupOf(k) == group && ledger[k] == n - 1;
      assert k in own && Uses(ledger, group, n - 1);
    }
  }

  lemma AllocatesDense(before: Ledger, call: Call, after: Ledger, group: string, start: nat)
    requires Allocates(before, call, after) && Dense(before, group, start)
    requires GroupOf(call.key) == group ==> start == if call.isEnum then 0 else 1
    ensures Dense(after, group, start)
  {
    hide GroupOf, NextFree;
    var own, all := Slots(before, group), Slots(after, group);
    if call.key !in before && GroupOf(call.key) == group {
      NextIsBehind(before, group, start, after[call.key]);
      assert all == own + {call.key};
      forall m: nat ensures Uses(after, group, m) <==> Uses(before, group, m) || m == after[call.key] {
        if k :| k in all && after[k] == m {
          assert k == call.key || (k in own && before[k] == m);
        }
        if k :| k in own && before[k] == m {
          assert k in all && after[k] == m;
        }
        assert call.key in all;
      }
    } else {
      assert all == own;
      forall m: nat ensures Uses(after, group, m) <==> Uses(before, group, m) {
        assert forall k <- own :: after[k] == before[k];
      }
    }
  }

  /** A run that starts without a ledger numbers a message's fields from 1 and an enum's values from 0, without gaps. */
  lemma {:induction false} FreshNumbersAreDense(run: Run, group: string, isEnum: bool, i: nat)
    requires RunFrom(run, map[]) && i <= |run.calls|
    requires forall call <- run.calls :: GroupOf(call.key) == group ==> call.isEnum == isEnum
    ensures Dense(run.ledgers[i], group, if isEnum then 0 else 1)
  {
    hide GroupOf, Allocates, Dense;
    if i == 0 {
      NothingIsDense(group, if isEnum then 0 else 1);
    } else {
      FreshNumbersAreDense(run, group, isEnum, i - 1);
      assert run.calls[i - 1] in run.calls;
      AllocatesDense(run.ledgers[i - 1], run.calls[i - 1], run.ledgers[i], group, if isEnum then 0 else 1);
    }
  }

  lemma NothingIsDense(group: string, start: nat)
    ensures Dense(map[], group, start)
  {
    hide GroupOf;
    assert Slots(map[], group) == {};
  }
}
