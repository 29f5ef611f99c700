/** The element scanner on rendered trees: it finds the texts of exactly the elements at the path. */
module PomTree {
  import opened Options
  import opened Text
  import opened Pom
  import opened PomSplice
  import Reactor

  /** `attributes` is everything between a tag's name and its end. */
  datatype Node =
    | Words(text: string)
    | Comment(text: string)
    | Instruction(text: string)
    | Empty(name: string, attributes: string)
    | Element(name: string, attributes: string, children: seq<Node>)

  function OpenTag(name: string, attributes: string): string { "<" + name + attributes + ">" }

  function Render(n: Node): string
    decreases n, 1
  {
    match n
    case Words(text) => text
    case Comment(text) => "<!--" + text + "-->"
    case Instruction(text) => "<?" + text + "?>"
    case Empty(name, attributes) => "<" + name + attributes + "/>"
    case Element(name, attributes, children) => OpenTag(name, attributes) + (RenderAll(children) + CloseTag(name))
  }

  function RenderAll(nodes: seq<Node>): string
    decreases nodes, 0
  {
    if nodes == [] then "" else Render(nodes[0]) + RenderAll(nodes[1..])
  }

  /** ASCII letters and the underscore; the digits, full stop, colon and hyphen as well behind the first. */
  predicate FirstChar(c: char) { var n := c as int; 97 <= n <= 122 || 65 <= n <= 90 || n == 95 }

  predicate LaterChar(c: char) { var n := c as int; FirstChar(c) || 48 <= n <= 57 || n == 46 || n == 58 || n == 45 }

  predicate ElementName(name: string) {
    name != "" && FirstChar(name[0]) && forall c <- name :: LaterChar(c)
  }

  /** Nothing, or whitespace and then no bracket; a slash at the end would belong to the tag. */
  predicate Attributes(a: string) {
    (a != "" ==> JsSpace(a[0]) && a[|a| - 1] != '/') && forall c <- a :: c != '<' && c != '>'
  }

  ghost predicate WellFormed(n: Node)
    decreases n, 1
  {
    match n
    case Words(text) => '<' !in text
    case Comment(text) => forall i :: 0 <= i < |text| ==> !("-->" <= (text + "-->")[i..])
    case Instruction(text) => '<' !in text && '>' !in text
    case Empty(name, attributes) => ElementName(name) && Attributes(attributes)
    case Element(name, attributes, children) =>
      ElementName(name) && Attributes(attributes) && AllWellFormed(children)
  }

  ghost predicate AllWellFormed(nodes: seq<Node>)
    decreases nodes, 0
  {
    nodes != [] ==> WellFormed(nodes[0]) && AllWellFormed(nodes[1..])
  }

  // ---------------------------------------------------------------------------
  // Where the elements are
  // ---------------------------------------------------------------------------

  /** Where the first end tag of that name is in the rendered nodes, if one is. */
  function FirstClose(n: Node, name: string): Option<nat>
    decreases n, 1
  {
    if !n.Element? then None
    else
      var inner := FirstCloseIn(n.children, name);
      var head := |OpenTag(n.name, n.attributes)|;
      if inner.Some? then Some(head + inner.value)
      else if n.name == name then Some(head + |RenderAll(n.children)|)
      else None
  }

  function FirstCloseIn(nodes: seq<Node>, name: string): Option<nat>
    decreases nodes, 0
  {
    if nodes == [] then None
    else if FirstClose(nodes[0], name).Some? then FirstClose(nodes[0], name)
    else Plus(FirstCloseIn(nodes[1..], name), |Render(nodes[0])|)
  }

  /** From behind the element's start tag to the first end tag of its name, which is its own unless one is nested. */
  function TextRange(n: Node, base: nat): Range
    requires n.Element?
  {
    var start := base + |OpenTag(n.name, n.attributes)|;
    var inner := FirstCloseIn(n.children, n.name);
    Range(start, start + if inner.Some? then inner.value else |RenderAll(n.children)|)
  }

  /** The elements whose own name and those of all elements around it make the path, in document order. */
  function At(n: Node, base: nat, around: seq<string>, path: seq<string>): seq<Range>
    decreases n, 1
  {
    if !n.Element? then []
    else
      (if around + [n.name] == path then [TextRange(n, base)] else [])
      + AtAll(n.children, base + |OpenTag(n.name, n.attributes)|, around + [n.name], path)
  }

  function AtAll(nodes: seq<Node>, base: nat, around: seq<string>, path: seq<string>): seq<Range>
    decreases nodes, 0
  {
    if nodes == [] then []
    else At(nodes[0], base, around, path) + AtAll(nodes[1..], base + |Render(nodes[0])|, around, path)
  }

  // ---------------------------------------------------------------------------
  // Comments are blanked, everything else stays
  // ---------------------------------------------------------------------------

  function Blank(n: Node): (s: string)
    ensures |s| == |Render(n)|
    decreases n, 1
  {
    match n
    case Comment(text) => Spaces(4 + |text| + 3)
    case Element(name, attributes, children) => OpenTag(name, attributes) + (BlankAll(children) + CloseTag(name))
    case _ => Render(n)
  }

  function BlankAll(nodes: seq<Node>): (s: string)
    ensures |s| == |RenderAll(nodes)|
    decreases nodes, 0
  {
    if nodes == [] then "" else Blank(nodes[0]) + BlankAll(nodes[1..])
  }

  /** No comment starts in `x`. */
  predicate OpensNoComment(x: string) {
    forall i :: 0 <= i < |x| && x[i] == '<' ==> i + 1 < |x| && x[i + 1] != '!'
  }

  lemma {:induction false} StripStays(x: string, rest: string)
    requires OpensNoComment(x)
    ensures Strip(x + rest) == x + Strip(rest)
    decreases |x|
  {
    hide Strip;
    if x == "" {
      assert x + rest == rest;
    } else {
      var s := x + rest;
      assert s[0] == x[0] && (|x| > 1 ==> s[1] == x[1]);
      assert !("<!--" <= s) by { assert "<!--"[0] == '<' && "<!--"[1] == '!'; }
      StripUnfold(s);
      assert s[1..] == x[1..] + rest;
      assert OpensNoComment(x[1..]) by { assert forall i :: 0 <= i < |x[1..]| ==> x[1..][i] == x[i + 1]; }
      StripStays(x[1..], rest);
      assert [x[0]] + (x[1..] + Strip(rest)) == x + Strip(rest);
    }
  }

  lemma NameChars(c: char)
    ensures NameStart(c) <==> FirstChar(c)
    ensures NameChar(c) <==> LaterChar(c)
  {
  }

  lemma NameIsPlain(name: string)
    requires ElementName(name)
    ensures NameStart(name[0])
    ensures forall c <- name :: NameChar(c) && c != '<' && c != '>' && c != '/' && c != '!' && !JsSpace(c)
  {
    NameChars(name[0]);
    forall c <- name ensures NameChar(c) && c != '<' && c != '>' && c != '/' && c != '!' && !JsSpace(c) {
      NameChars(c);
    }
  }

  lemma CommentBlanks(text: string, rest: string)
    requires WellFormed(Comment(text))
    ensures Strip(Render(Comment(text)) + rest) == Spaces(4 + |text| + 3) + Strip(rest)
  {
    var s := "<!--" + text + "-->" + rest;
    assert s[4..] == (text + "-->") + rest;
    CommentEnds(text, rest);
    hide Strip, Find;
    StripUnfold(s);
    assert s[4 + |text| + 3..] == rest;
  }

  lemma CommentEnds(text: string, rest: string)
    requires WellFormed(Comment(text))
    ensures Find((text + "-->") + rest, "-->") == Some(|text|)
  {
    hide Find;
    var body := text + "-->";
    assert (body + rest)[|text|..] == "-->" + rest;
    FindIsFirst(body + rest, "-->", |text|);
    forall i | 0 <= i < |text| ensures !("-->" <= (body + rest)[i..]) {
      assert (body + rest)[i..][..3] == body[i..][..3];
    }
  }

  lemma TagOpensNoComment(name: string, attributes: string)
    requires ElementName(name) && Attributes(attributes)
    ensures OpensNoComment(OpenTag(name, attributes)) && OpensNoComment("<" + name + attributes + "/>")
    ensures OpensNoComment(CloseTag(name))
  {
    NameIsPlain(name);
    hide NameStart, NameChar, JsSpace;
    assert forall i :: 0 <= i < |name| ==> name[i] in name;
    assert forall i :: 0 <= i < |attributes| ==> attributes[i] in attributes;
    var a, b, c := OpenTag(name, attributes), "<" + name + attributes + "/>", CloseTag(name);
    assert a[1] == name[0] && b[1] == name[0];
    forall i | 1 <= i < |a| ensures a[i] != '<' {
      if i <= |name| { assert a[i] == name[i - 1]; }
    }
    forall i | 1 <= i < |b| ensures b[i] != '<' {
      if i <= |name| { assert b[i] == name[i - 1]; }
    }
    forall i | 1 <= i < |c| ensures c[i] != '<' {
      if 2 <= i < |c| - 1 { assert c[i] == name[i - 2]; }
    }
  }

  lemma {:induction false} StripNode(n: Node, rest: string)
    requires WellFormed(n)
    ensures Strip(Render(n) + rest) == Blank(n) + Strip(rest)
    decreases n, 1
  {
    hide Strip, OpensNoComment, OpenTag, CloseTag, ElementName, Attributes;
    match n
    case Words(text) => assert OpensNoComment(text) by { WordsOpenNothing(text); } StripStays(text, rest);
    case Comment(text) => CommentBlanks(text, rest);
    case Instruction(text) =>
      assert OpensNoComment(Render(n)) by { InstructionOpensNothing(text); }
      StripStays(Render(n), rest);
    case Empty(name, attributes) =>
      TagOpensNoComment(name, attributes);
      StripStays(Render(n), rest);
    case Element(name, attributes, children) =>
      TagOpensNoComment(name, attributes);
      var head, tail := OpenTag(name, attributes), CloseTag(name);
      Regroup3(head, RenderAll(children), tail, rest);
      StripStays(head, RenderAll(children) + (tail + rest));
      StripNodes(children, tail + rest);
      StripStays(tail, rest);
      Regroup3(head, BlankAll(children), tail, Strip(rest));
  }

  lemma Regroup3(a: string, b: string, c: string, d: string)
    ensures a + (b + c) + d == a + (b + (c + d))
  {
  }

  lemma WordsOpenNothing(text: string)
    requires '<' !in text
    ensures OpensNoComment(text)
  {
  }

  lemma InstructionOpensNothing(text: string)
    requires '<' !in text && '>' !in text
    ensures OpensNoComment("<?" + text + "?>")
  {
  }

  lemma {:induction false} StripNodes(nodes: seq<Node>, rest: string)
    requires AllWellFormed(nodes)
    ensures Strip(RenderAll(nodes) + rest) == BlankAll(nodes) + Strip(rest)
    decreases nodes, 0
  {
    hide Strip, Render, Blank, WellFormed;
    if nodes == [] {
      assert "" + rest == rest && "" + Strip(rest) == Strip(rest);
    } else {
      var more := RenderAll(nodes[1..]);
      assert RenderAll(nodes) + rest == Render(nodes[0]) + (more + rest);
      StripNode(nodes[0], more + rest);
      StripNodes(nodes[1..], rest);
      assert Blank(nodes[0]) + (BlankAll(nodes[1..]) + Strip(rest)) == BlankAll(nodes) + Strip(rest);
    }
  }

  // ---------------------------------------------------------------------------
  // Tags read back
  // ---------------------------------------------------------------------------

  lemma {:induction false} NameRead(name: string, rest: string)
    requires (forall c <- name :: NameChar(c)) && rest != "" && !NameChar(rest[0])
    ensures NameTail(name + rest) == |name|
  {
    if name == "" {
      assert name + rest == rest;
    } else {
      assert (name + rest)[1..] == name[1..] + rest;
      NameRead(name[1..], rest);
    }
  }

  lemma {:induction false} BracketRead(a: string, rest: string)
    requires '>' !in a && rest != "" && rest[0] == '>'
    ensures ToBracket(a + rest) == |a|
  {
    if a == "" {
      assert a + rest == rest;
    } else {
      assert (a + rest)[1..] == a[1..] + rest && a[0] in a;
      BracketRead(a[1..], rest);
    }
  }

  /** What follows a name ends it. */
  lemma TailEndsName(attributes: string, slash: string)
    requires Attributes(attributes) && (slash == "" || slash == "/")
    ensures var tail := attributes + slash + ">";
      !NameChar(tail[0]) && TagTail(tail) == Some((slash == "/", |tail|))
  {
    var tail := attributes + slash + ">";
    if attributes == "" {
      assert tail == slash + ">";
    } else {
      assert tail[0] == attributes[0];
      SpaceIsNoName(tail[0]);
      assert '>' !in attributes + slash;
      BracketRead(attributes + slash, ">");
      hide JsSpace, ToBracket;
      assert ToBracket(tail) == |attributes| + |slash|;
      assert tail[|tail| - 2] == if slash == "" then attributes[|attributes| - 1] else '/';
    }
  }

  lemma SpaceIsNoName(c: char)
    requires JsSpace(c)
    ensures !NameChar(c)
  {
  }

  lemma NamedRead(name: string, attributes: string, slash: string, closing: bool, skipped: nat)
    requires ElementName(name) && Attributes(attributes) && (slash == "" || slash == "/")
    ensures var s := name + (attributes + slash + ">");
      TagNamed(s, closing, skipped) == Some(Tag(closing, name, slash == "/", skipped + |s|))
  {
    NameIsPlain(name);
    TailEndsName(attributes, slash);
    hide NameTail, TagTail, NameStart, NameChar, JsSpace;
    var tail := attributes + slash + ">";
    NameRead(name, tail);
    var s := name + tail;
    assert s[0] == name[0] && s[|name|..] == tail && s[..|name|] == name;
  }

  /** A rendered start tag or empty element is read as that tag, whatever follows it. */
  lemma StartRead(name: string, attributes: string, slash: string, rest: string)
    requires ElementName(name) && Attributes(attributes) && (slash == "" || slash == "/")
    ensures var tag := "<" + name + attributes + slash + ">";
      TagHead(tag + rest) == Some(Tag(false, name, slash == "/", |tag|))
  {
    var tag, s := "<" + name + attributes + slash + ">", name + (attributes + slash + ">");
    StartTagIs(name, attributes, slash, tag, s);
    NamedRead(name, attributes, slash, false, 1);
    hide *;
    WholeTagRead(tag, s, Tag(false, name, slash == "/", 1 + |s|), rest);
  }

  lemma WholeTagRead(tag: string, s: string, read: Tag, rest: string)
    requires tag == "<" + s && s != "" && s[0] != '/' && EndsTag(tag) && TagNamed(s, false, 1) == Some(read)
    ensures TagHead(tag + rest) == Some(read)
  {
    hide *;
    StartHead(s);
    TagHeadPrefix(tag, rest);
  }

  lemma StartTagIs(name: string, attributes: string, slash: string, tag: string, s: string)
    requires ElementName(name)
    requires tag == "<" + name + attributes + slash + ">" && s == name + (attributes + slash + ">")
    ensures tag == "<" + s && |s| + 1 == |tag| && s != "" && s[0] != '/' && tag != "" && EndsTag(tag)
  {
    NameIsPlain(name);
    hide NameStart, NameChar, JsSpace, ElementName;
    assert s[0] == name[0] && name[0] in name;
  }

  lemma StartHead(s: string)
    requires s != "" && s[0] != '/'
    ensures TagHead("<" + s) == TagNamed(s, false, 1)
  {
    hide TagNamed;
    assert ("<" + s)[1..] == s && ("<" + s)[1] == s[0];
  }

  lemma EndRead(name: string, rest: string)
    requires ElementName(name)
    ensures TagHead(CloseTag(name) + rest) == Some(Tag(true, name, false, |CloseTag(name)|))
  {
    NoAttributes();
    NamedRead(name, "", "", true, 2);
    var tag := CloseTag(name);
    hide TagNamed, NameStart, NameChar, JsSpace, ElementName, Attributes;
    TagHeadPrefix(tag, rest);
    assert tag[2..] == name + ("" + "" + ">") && tag[1] == '/';
  }

  lemma NoAttributes()
    ensures Attributes("")
  {
  }

  // ---------------------------------------------------------------------------
  // The first end tag of a name
  // ---------------------------------------------------------------------------

  /** What stands at the front of `s` is not the pattern, nor does it start again before `rest`. */
  lemma {:induction false} FindPast(x: string, rest: string, pat: string)
    requires x != "" && pat != "" && pat[0] == '<' && !(pat <= x + rest) && '<' !in x[1..]
    ensures Find(x + rest, pat) == Plus(Find(rest, pat), |x|)
  {
    hide Find;
    FindUnfold(x + rest, pat);
    assert (x + rest)[1..] == x[1..] + rest;
    FindSkip(x[1..], rest, pat);
  }

  lemma StartIsNoEnd(name: string, attributes: string, slash: string, rest: string, wanted: string)
    requires ElementName(name) && Attributes(attributes) && (slash == "" || slash == "/")
    ensures var tag := "<" + name + attributes + slash + ">";
      Find(tag + rest, CloseTag(wanted)) == Plus(Find(rest, CloseTag(wanted)), |tag|)
  {
    var tag := "<" + name + attributes + slash + ">";
    var pat := CloseTag(wanted);
    NameIsPlain(name);
    hide Find, NameStart, NameChar, JsSpace;
    assert name[0] in name && (tag + rest)[1] == name[0] && pat[1] == '/';
    assert tag[1..] == name + attributes + slash + ">";
    assert forall c <- attributes :: c != '<';
    FindPast(tag, rest, pat);
  }

  lemma EndIsFound(name: string, rest: string, wanted: string)
    requires ElementName(name) && ElementName(wanted)
    ensures Find(CloseTag(name) + rest, CloseTag(wanted)) ==
      if name == wanted then Some(0) else Plus(Find(rest, CloseTag(wanted)), |CloseTag(name)|)
  {
    var tag, pat := CloseTag(name), CloseTag(wanted);
    NameIsPlain(name);
    NameIsPlain(wanted);
    hide Find, NameStart, NameChar, JsSpace, ElementName;
    FindUnfold(tag + rest, pat);
    if name != wanted {
      if pat <= tag + rest { SameEnd(name, rest, wanted); }
      assert tag[1..] == "/" + name + ">";
      FindPast(tag, rest, pat);
    } else {
      assert pat <= tag + rest;
    }
  }

  lemma SameEnd(name: string, rest: string, wanted: string)
    requires '>' !in name && '>' !in wanted && CloseTag(wanted) <= CloseTag(name) + rest
    ensures name == wanted
  {
    var s, pat := CloseTag(name) + rest, CloseTag(wanted);
    assert forall i :: 0 <= i < |name| ==> s[2 + i] == name[i];
    assert forall i :: 0 <= i < |wanted| ==> pat[2 + i] == wanted[i];
    assert s[2 + |name|] == '>' && pat[2 + |wanted|] == '>';
    assert forall i :: 0 <= i < |pat| ==> pat[i] == s[i];
    assert |name| == |wanted|;
  }

  lemma SpacesArePlain(n: nat)
    ensures '<' !in Spaces(n)
  {
  }

  lemma InstructionFind(text: string, rest: string, wanted: string)
    requires '<' !in text && '>' !in text
    ensures Find("<?" + text + "?>" + rest, CloseTag(wanted))
         == Plus(Find(rest, CloseTag(wanted)), |"<?" + text + "?>"|)
  {
    var x, pat := "<?" + text + "?>", CloseTag(wanted);
    hide Find;
    assert (x + rest)[1] == '?' && pat[1] == '/';
    assert x[1..] == "?" + text + "?>";
    FindPast(x, rest, pat);
  }

  /** Two searches, one behind the other. */
  function Either(a: Option<nat>, b: Option<nat>): Option<nat> { if a.Some? then a else b }

  lemma {:induction false} CloseOfNode(n: Node, rest: string, wanted: string)
    requires WellFormed(n) && ElementName(wanted)
    ensures Find(Blank(n) + rest, CloseTag(wanted))
         == Either(FirstClose(n, wanted), Plus(Find(rest, CloseTag(wanted)), |Render(n)|))
    decreases n, 1
  {
    hide Find, ElementName, Attributes, CloseTag, JsSpace;
    match n
    case Words(text) => EndBegins(wanted); FindSkip(text, rest, CloseTag(wanted));
    case Comment(text) =>
      EndBegins(wanted);
      SpacesArePlain(4 + |text| + 3);
      FindSkip(Blank(n), rest, CloseTag(wanted));
    case Instruction(text) => InstructionFind(text, rest, wanted);
    case Empty(name, attributes) =>
      assert "<" + name + attributes + "/" + ">" == Render(n);
      StartIsNoEnd(name, attributes, "/", rest, wanted);
    case Element(name, attributes, children) => CloseOfElement(n, rest, wanted);
  }

  lemma EndBegins(name: string)
    ensures CloseTag(name) != "" && CloseTag(name)[0] == '<'
  {
  }

  lemma {:induction false} CloseOfElement(n: Node, rest: string, wanted: string)
    requires n.Element? && WellFormed(n) && ElementName(wanted)
    ensures Find(Blank(n) + rest, CloseTag(wanted))
         == Either(FirstClose(n, wanted), Plus(Find(rest, CloseTag(wanted)), |Render(n)|))
    decreases n, 0
  {
    hide Find, ElementName, Attributes, CloseTag, JsSpace;
    var head, inner := OpenTag(n.name, n.attributes), BlankAll(n.children);
    var tail, pat := CloseTag(n.name), CloseTag(wanted);
    Regroup3(head, inner, tail, rest);
    assert "<" + n.name + n.attributes + "" + ">" == head;
    StartIsNoEnd(n.name, n.attributes, "", inner + (tail + rest), wanted);
    CloseOfNodes(n.children, tail + rest, wanted);
    EndIsFound(n.name, rest, wanted);
  }

  lemma {:induction false} CloseOfNodes(nodes: seq<Node>, rest: string, wanted: string)
    requires AllWellFormed(nodes) && ElementName(wanted)
    ensures Find(BlankAll(nodes) + rest, CloseTag(wanted))
         == Either(FirstCloseIn(nodes, wanted), Plus(Find(rest, CloseTag(wanted)), |RenderAll(nodes)|))
    decreases nodes, 0
  {
    hide Find, ElementName, CloseTag, Blank, WellFormed, FirstClose;
    if nodes == [] {
      assert "" + rest == rest;
    } else {
      assert BlankAll(nodes) + rest == Blank(nodes[0]) + (BlankAll(nodes[1..]) + rest);
      CloseOfNode(nodes[0], BlankAll(nodes[1..]) + rest, wanted);
      CloseOfNodes(nodes[1..], rest, wanted);
    }
  }

  // ---------------------------------------------------------------------------
  // The scan
  // ---------------------------------------------------------------------------

  lemma ScanInstruction(text: string, rest: string, base: nat, stack: seq<string>, path: seq<string>)
    requires '<' !in text && '>' !in text
    ensures var x := "<?" + text + "?>"; Scan(x + rest, base, stack, path) == Scan(rest, base + |x|, stack, path)
  {
    hide Scan;
    var y := "?" + text + "?>";
    assert "<?" + text + "?>" == "<" + y;
    assert '<' !in y;
    ScanNoTag(y, rest, base, stack, path);
  }

  lemma ScanNoTag(y: string, rest: string, base: nat, stack: seq<string>, path: seq<string>)
    requires y != "" && y[0] == '?' && '<' !in y
    ensures Scan(("<" + y) + rest, base, stack, path) == Scan(rest, base + 1 + |y|, stack, path)
  {
    hide TagHead, Scan;
    assert ("<" + y) + rest == "<" + (y + rest);
    NoTagName(y + rest);
    ScanUnfold("<" + (y + rest), base, stack, path);
    ScanSkip(y, rest, base + 1, stack, path);
  }

  lemma NoTagName(s: string)
    requires s != "" && s[0] == '?'
    ensures TagHead("<" + s).None? && ("<" + s)[1..] == s
  {
    assert ("<" + s)[1..] == s && !NameStart('?');
  }

  /** A tag at the front of the text is one step of the walk. */
  lemma ScanTag(tag: string, read: Tag, rest: string, base: nat, stack: seq<string>, path: seq<string>)
    requires TagHead(tag + rest) == Some(read) && read.length == |tag|
    ensures var next := base + |tag|;
      var more := Scan(rest, next, AfterTag(stack, read), path);
      Scan(tag + rest, base, stack, path) ==
        if OpensAt(stack, read, path) then Opened(next, Find(rest, CloseTag(read.name)), more) else more
  {
    hide *;
    ScanUnfold(tag + rest, base, stack, path);
    assert (tag + rest)[|tag|..] == rest;
  }

  lemma ScanStart(n: Node, slash: string, rest: string, base: nat, stack: seq<string>, path: seq<string>)
    requires n.Empty? || n.Element?
    requires ElementName(n.name) && Attributes(n.attributes) && slash == (if n.Empty? then "/" else "")
    ensures var tag := "<" + n.name + n.attributes + slash + ">";
      var next := base + |tag|;
      Scan(tag + rest, base, stack, path) ==
        if n.Empty? then Scan(rest, next, stack, path)
        else
          var more := Scan(rest, next, stack + [n.name], path);
          if stack + [n.name] == path then Opened(next, Find(rest, CloseTag(n.name)), more) else more
  {
    hide TagHead, Scan, Find, ElementName, Attributes, CloseTag, Opened;
    var tag := "<" + n.name + n.attributes + slash + ">";
    StartRead(n.name, n.attributes, slash, rest);
    ScanTag(tag, Tag(false, n.name, slash == "/", |tag|), rest, base, stack, path);
  }

  lemma ScanEnd(name: string, rest: string, base: nat, stack: seq<string>, path: seq<string>)
    requires ElementName(name)
    ensures Scan(CloseTag(name) + rest, base, stack + [name], path) == Scan(rest, base + |CloseTag(name)|, stack, path)
  {
    hide TagHead, Scan, Find, ElementName, CloseTag, Opened;
    var tag := CloseTag(name);
    EndRead(name, rest);
    ScanTag(tag, Tag(true, name, false, |tag|), rest, base, stack + [name], path);
    assert (stack + [name])[..|stack|] == stack;
  }

  lemma JoinedJoined(a: seq<Range>, b: seq<Range>, more: Option<seq<Range>>)
    ensures Joined(a, Joined(b, more)) == Joined(a + b, more)
  {
    if more.Some? { assert a + (b + more.value) == (a + b) + more.value; }
  }

  lemma {:induction false} ScanNode(n: Node, rest: string, base: nat, stack: seq<string>, path: seq<string>)
    requires WellFormed(n)
    ensures Scan(Blank(n) + rest, base, stack, path)
         == Joined(At(n, base, stack, path), Scan(rest, base + |Render(n)|, stack, path))
    decreases n, 1
  {
    hide Scan, Find, ElementName, Attributes, CloseTag, JsSpace, Joined;
    JoinedNone(Scan(rest, base + |Render(n)|, stack, path));
    match n
    case Words(text) => ScanSkip(text, rest, base, stack, path);
    case Comment(text) =>
      SpacesArePlain(4 + |text| + 3);
      ScanSkip(Blank(n), rest, base, stack, path);
    case Instruction(text) => ScanInstruction(text, rest, base, stack, path);
    case Empty(name, attributes) =>
      assert "<" + name + attributes + "/" + ">" == Render(n);
      ScanStart(n, "/", rest, base, stack, path);
    case Element(name, attributes, children) => ScanElement(n, rest, base, stack, path);
  }

  lemma {:induction false} ScanElement(n: Node, rest: string, base: nat, stack: seq<string>, path: seq<string>)
    requires n.Element? && WellFormed(n)
    ensures Scan(Blank(n) + rest, base, stack, path)
         == Joined(At(n, base, stack, path), Scan(rest, base + |Render(n)|, stack, path))
    decreases n, 0
  {
    hide Scan, Find, ElementName, Attributes, CloseTag, JsSpace, Joined, FirstCloseIn, AtAll;
    var head, inner, tail := OpenTag(n.name, n.attributes), BlankAll(n.children), CloseTag(n.name);
    var start, own := base + |head|, stack + [n.name];
    var kids, after := AtAll(n.children, start, own, path), Scan(rest, base + |Render(n)|, stack, path);
    Regroup3(head, inner, tail, rest);
    assert "<" + n.name + n.attributes + "" + ">" == head;
    ScanStart(n, "", inner + (tail + rest), base, stack, path);
    ScanNodes(n.children, tail + rest, start, own, path);
    ScanEnd(n.name, rest, start + |inner|, stack, path);
    assert Scan(inner + (tail + rest), start, own, path) == Joined(kids, after);
    if own == path {
      CloseOfNodes(n.children, tail + rest, n.name);
      EndIsFound(n.name, rest, n.name);
      OpenedIsJoined(TextRange(n, base), kids, after);
    } else {
      assert [] + kids == kids;
    }
  }

  lemma OpenedIsJoined(r: Range, kids: seq<Range>, after: Option<seq<Range>>)
    requires r.start <= r.end
    ensures Opened(r.start, Some(r.end - r.start), Joined(kids, after)) == Joined([r] + kids, after)
  {
    JoinedJoined([r], kids, after);
  }

  lemma {:induction false} ScanNodes(nodes: seq<Node>, rest: string, base: nat, stack: seq<string>, path: seq<string>)
    requires AllWellFormed(nodes)
    ensures Scan(BlankAll(nodes) + rest, base, stack, path)
         == Joined(AtAll(nodes, base, stack, path), Scan(rest, base + |RenderAll(nodes)|, stack, path))
    decreases nodes, 0
  {
    hide Scan, Joined, Blank, WellFormed, At;
    if nodes == [] {
      assert "" + rest == rest;
      JoinedNone(Scan(rest, base, stack, path));
    } else {
      assert BlankAll(nodes) + rest == Blank(nodes[0]) + (BlankAll(nodes[1..]) + rest);
      var next := base + |Render(nodes[0])|;
      ScanNode(nodes[0], BlankAll(nodes[1..]) + rest, base, stack, path);
      ScanNodes(nodes[1..], rest, next, stack, path);
      JoinedJoined(At(nodes[0], base, stack, path), AtAll(nodes[1..], next, stack, path),
                   Scan(rest, base + |RenderAll(nodes)|, stack, path));
    }
  }

  /** In a rendered document the scanner finds exactly the elements at the path, each by its text, in document order. */
  lemma RangesOfTree(nodes: seq<Node>, path: seq<string>)
    requires AllWellFormed(nodes)
    ensures Ranges(RenderAll(nodes), path) == Some(AtAll(nodes, 0, [], path))
  {
    hide Scan, AllWellFormed, Strip, RenderAll, BlankAll, AtAll;
    StripNodes(nodes, "");
    assert RenderAll(nodes) + "" == RenderAll(nodes);
    StripNothing();
    assert BlankAll(nodes) + "" == BlankAll(nodes);
    ScanNodes(nodes, "", 0, [], path);
    ScanEmpty(|RenderAll(nodes)|, [], path);
    assert AtAll(nodes, 0, [], path) + [] == AtAll(nodes, 0, [], path);
  }

  // ---------------------------------------------------------------------------
  // The texts
  // ---------------------------------------------------------------------------

  /** An element of that name is among the nodes or anywhere inside them. */
  predicate Contains(nodes: seq<Node>, name: string)
    decreases nodes
  {
    nodes != [] &&
    ((nodes[0].Element? && (nodes[0].name == name || Contains(nodes[0].children, name))) || Contains(nodes[1..], name))
  }

  lemma {:induction false} CloseMeansContains(nodes: seq<Node>, name: string)
    ensures FirstCloseIn(nodes, name).Some? <==> Contains(nodes, name)
    ensures FirstCloseIn(nodes, name).Some? ==> FirstCloseIn(nodes, name).value < |RenderAll(nodes)|
    decreases nodes
  {
    if nodes != [] {
      CloseMeansContains(nodes[1..], name);
      if nodes[0].Element? { CloseMeansContains(nodes[0].children, name); }
    }
  }

  /** The range is the element's whole inside exactly if no element of its own name is nested in it. */
  lemma NestedNameCutsShort(n: Node, base: nat)
    requires n.Element?
    ensures var r := TextRange(n, base);
      r.end == r.start + |RenderAll(n.children)| <==> !Contains(n.children, n.name)
  {
    CloseMeansContains(n.children, n.name);
  }

  /** The insides of the elements at the path, in document order. */
  function TextsAt(nodes: seq<Node>, around: seq<string>, path: seq<string>): seq<string>
    decreases nodes
  {
    if nodes == [] then []
    else
      (if !nodes[0].Element? then []
       else
         (if around + [nodes[0].name] == path then [RenderAll(nodes[0].children)] else [])
         + TextsAt(nodes[0].children, around + [nodes[0].name], path))
      + TextsAt(nodes[1..], around, path)
  }

  /** No element at the path has one of its own name inside. */
  predicate NoneNested(nodes: seq<Node>, around: seq<string>, path: seq<string>)
    decreases nodes
  {
    nodes != [] ==>
      && (nodes[0].Element? ==>
            && (around + [nodes[0].name] == path ==> !Contains(nodes[0].children, nodes[0].name))
            && NoneNested(nodes[0].children, around + [nodes[0].name], path))
      && NoneNested(nodes[1..], around, path)
  }

  /** The ranges cut those texts out of the document. */
  ghost predicate CutOut(doc: string, ranges: seq<Range>, texts: seq<string>) {
    && |ranges| == |texts|
    && forall i :: 0 <= i < |ranges| ==>
         ranges[i].start <= ranges[i].end <= |doc| && doc[ranges[i].start..ranges[i].end] == texts[i]
  }

  lemma CutOutConcat(doc: string, r: seq<Range>, t: seq<string>, r': seq<Range>, t': seq<string>)
    requires CutOut(doc, r, t) && CutOut(doc, r', t')
    ensures CutOut(doc, r + r', t + t')
  {
  }

  lemma {:induction false} TextsAreCutOut(
    doc: string, pre: string, nodes: seq<Node>, post: string, around: seq<string>, path: seq<string>)
    requires doc == pre + RenderAll(nodes) + post && NoneNested(nodes, around, path)
    ensures CutOut(doc, AtAll(nodes, |pre|, around, path), TextsAt(nodes, around, path))
    decreases nodes
  {
    if nodes != [] {
      var n, more := nodes[0], nodes[1..];
      assert doc == (pre + Render(n)) + RenderAll(more) + post;
      TextsAreCutOut(doc, pre + Render(n), more, post, around, path);
      if n.Element? {
        ElementIsCutOut(doc, pre, n, RenderAll(more) + post, around, path);
      }
      CutOutConcat(doc, At(n, |pre|, around, path), TextsOf(n, around, path),
                   AtAll(more, |pre| + |Render(n)|, around, path), TextsAt(more, around, path));
    }
  }

  function TextsOf(n: Node, around: seq<string>, path: seq<string>): seq<string> {
    if !n.Element? then []
    else
      (if around + [n.name] == path then [RenderAll(n.children)] else [])
      + TextsAt(n.children, around + [n.name], path)
  }

  lemma {:induction false} ElementIsCutOut(
    doc: string, pre: string, n: Node, post: string, around: seq<string>, path: seq<string>)
    requires n.Element? && doc == pre + (Render(n) + post)
    requires around + [n.name] == path ==> !Contains(n.children, n.name)
    requires NoneNested(n.children, around + [n.name], path)
    ensures CutOut(doc, At(n, |pre|, around, path), TextsOf(n, around, path))
    decreases n
  {
    hide NoneNested, Contains;
    var head, inner, tail := OpenTag(n.name, n.attributes), RenderAll(n.children), CloseTag(n.name);
    hide OpenTag, CloseTag;
    assert doc == (pre + head) + inner + (tail + post);
    TextsAreCutOut(doc, pre + head, n.children, tail + post, around + [n.name], path);
    if around + [n.name] == path {
      NestedNameCutsShort(n, |pre|);
      assert doc[|pre + head|..|pre + head| + |inner|] == inner;
      CutOutConcat(doc, [TextRange(n, |pre|)], [inner],
                   AtAll(n.children, |pre + head|, around + [n.name], path),
                   TextsAt(n.children, around + [n.name], path));
    }
  }

  /** So what the release script reads at a path is the inside of the first element there, trimmed. */
  lemma FirstTextIsRead(nodes: seq<Node>, path: seq<string>)
    requires AllWellFormed(nodes) && NoneNested(nodes, [], path)
    ensures var texts := TextsAt(nodes, [], path);
      Reactor.ReadFirst(RenderAll(nodes), path) == if texts == [] then None else Some(Trim(texts[0], JsSpace))
  {
    hide Ranges, AllWellFormed, NoneNested, TextsAt, AtAll, Trim;
    var doc := RenderAll(nodes);
    RangesOfTree(nodes, path);
    assert doc == "" + doc + "";
    TextsAreCutOut(doc, "", nodes, "", [], path);
  }

  /** And the modules it goes through are the insides of all module elements, trimmed, in document order. */
  lemma ModulesAreRead(nodes: seq<Node>)
    requires AllWellFormed(nodes) && NoneNested(nodes, [], ["project", "modules", "module"])
    ensures var texts := TextsAt(nodes, [], ["project", "modules", "module"]);
      Reactor.ModuleNames(RenderAll(nodes)) ==
        Some(seq(|texts|, i requires 0 <= i < |texts| => Trim(texts[i], JsSpace)))
  {
    hide Ranges, AllWellFormed, NoneNested, TextsAt, AtAll, Trim;
    var doc, path := RenderAll(nodes), ["project", "modules", "module"];
    RangesOfTree(nodes, path);
    assert doc == "" + doc + "";
    TextsAreCutOut(doc, "", nodes, "", [], path);
    var ranges, texts, names := AtAll(nodes, 0, [], path), TextsAt(nodes, [], path), Reactor.ModuleNames(doc).value;
    assert Ranges(doc, path) == Some(ranges);
    forall i | 0 <= i < |ranges| ensures names[i] == Trim(texts[i], JsSpace) {
      assert names[i] == Reactor.TextOf(doc, ranges[i]);
    }
    assert names == seq(|texts|, i requires 0 <= i < |texts| => Trim(texts[i], JsSpace));
  }

  // ---------------------------------------------------------------------------
  // Writing
  // ---------------------------------------------------------------------------

  /** The tree with `v` for the inside of the first element at the path; None if there is none. */
  function WithText(nodes: seq<Node>, around: seq<string>, path: seq<string>, v: string): Option<seq<Node>>
    decreases nodes
  {
    if nodes == [] then None
    else
      match NodeWithText(nodes[0], around, path, v)
      case Some(n) => Some([n] + nodes[1..])
      case None =>
        var more :- WithText(nodes[1..], around, path, v);
        Some([nodes[0]] + more)
  }

  function NodeWithText(n: Node, around: seq<string>, path: seq<string>, v: string): Option<Node>
    decreases n
  {
    if !n.Element? then None
    else if around + [n.name] == path then Some(n.(children := [Words(v)]))
    else
      var inner :- WithText(n.children, around + [n.name], path, v);
      Some(n.(children := inner))
  }

  lemma WordsRender(v: string)
    ensures RenderAll([Words(v)]) == v
  {
    assert Render(Words(v)) + RenderAll([]) == v;
  }

  /** Cutting the first range out of the document and putting `v` there gives the document of that tree. */
  ghost predicate Replaced(doc: string, ranges: seq<Range>, v: string, next: Option<string>) {
    && (next.Some? <==> ranges != [])
    && (next.Some? ==>
          ranges[0].start <= ranges[0].end <= |doc| && Splice(doc, ranges[0].start, ranges[0].end, v) == next.value)
  }

  function Between(pre: string, nodes: Option<seq<Node>>, post: string): Option<string> {
    if nodes.None? then None else Some(pre + RenderAll(nodes.value) + post)
  }

  lemma SpliceMiddle(pre: string, mid: string, post: string, v: string)
    ensures Splice(pre + mid + post, |pre|, |pre| + |mid|, v) == pre + v + post
  {
  }

  lemma {:induction false} TextIsReplaced(
    doc: string, pre: string, nodes: seq<Node>, post: string, around: seq<string>, path: seq<string>, v: string)
    requires doc == pre + RenderAll(nodes) + post && NoneNested(nodes, around, path)
    ensures Replaced(doc, AtAll(nodes, |pre|, around, path), v, Between(pre, WithText(nodes, around, path, v), post))
    decreases nodes
  {
    hide Replaced, NodeWithText, Render, At;
    if nodes == [] {
      NothingReplaced(doc, v);
    } else {
      var n, more := nodes[0], nodes[1..];
      var post' := RenderAll(more) + post;
      assert doc == pre + (Render(n) + post') && doc == (pre + Render(n)) + RenderAll(more) + post;
      NodeIsReplaced(doc, pre, n, post', around, path, v);
      TextIsReplaced(doc, pre + Render(n), more, post, around, path, v);
      var here := NodeWithText(n, around, path, v);
      var later := WithText(more, around, path, v);
      if here.Some? {
        RenderCons(here.value, more);
        assert pre + (Render(here.value) + post') == pre + RenderAll([here.value] + more) + post;
        FirstReplaced(doc, At(n, |pre|, around, path), AtAll(more, |pre| + |Render(n)|, around, path), v,
                      pre + RenderAll([here.value] + more) + post);
      } else {
        NoneReplaced(doc, At(n, |pre|, around, path), v);
        assert AtAll(nodes, |pre|, around, path) == AtAll(more, |pre + Render(n)|, around, path);
        if later.Some? {
          RenderCons(n, later.value);
          assert WithText(nodes, around, path, v) == Some([n] + later.value);
          assert (pre + Render(n)) + RenderAll(later.value) + post == pre + RenderAll([n] + later.value) + post;
        } else {
          assert WithText(nodes, around, path, v) == None;
        }
      }
    }
  }

  lemma RenderCons(n: Node, more: seq<Node>)
    ensures RenderAll([n] + more) == Render(n) + RenderAll(more)
  {
    assert ([n] + more)[1..] == more;
  }

  lemma NothingReplaced(doc: string, v: string)
    ensures Replaced(doc, [], v, None)
  {
  }

  lemma NoneReplaced(doc: string, ranges: seq<Range>, v: string)
    requires Replaced(doc, ranges, v, None)
    ensures ranges == []
  {
  }

  lemma FirstReplaced(doc: string, a: seq<Range>, b: seq<Range>, v: string, next: string)
    requires Replaced(doc, a, v, Some(next))
    ensures Replaced(doc, a + b, v, Some(next))
  {
  }

  lemma {:induction false} NodeIsReplaced(
    doc: string, pre: string, n: Node, post: string, around: seq<string>, path: seq<string>, v: string)
    requires doc == pre + (Render(n) + post)
    requires n.Element? ==>
      && (around + [n.name] == path ==> !Contains(n.children, n.name))
      && NoneNested(n.children, around + [n.name], path)
    ensures var next := NodeWithText(n, around, path, v);
      Replaced(doc, At(n, |pre|, around, path), v, if next.None? then None else Some(pre + (Render(next.value) + post)))
    decreases n
  {
    hide NoneNested, Contains, WithText, Replaced, RenderAll, AtAll, TextRange;
    if !n.Element? {
      NothingReplaced(doc, v);
    } else {
      var head, inner, tail := OpenTag(n.name, n.attributes), RenderAll(n.children), CloseTag(n.name);
      hide OpenTag, CloseTag;
      assert doc == (pre + head) + inner + (tail + post);
      var within := AtAll(n.children, |pre| + |head|, around + [n.name], path);
      if around + [n.name] == path {
        OwnIsReplaced(doc, pre, n, post, v);
        WordsRender(v);
        FirstReplaced(doc, [TextRange(n, |pre|)], within, v, (pre + head) + v + (tail + post));
        assert (pre + head) + v + (tail + post) == pre + ((head + (v + tail)) + post);
      } else {
        TextIsReplaced(doc, pre + head, n.children, tail + post, around + [n.name], path, v);
        var next := WithText(n.children, around + [n.name], path, v);
        assert [] + within == within;
        if next.Some? { Regrouped(pre, head, RenderAll(next.value), tail, post); }
      }
    }
  }

  lemma Regrouped(pre: string, head: string, inner: string, tail: string, post: string)
    ensures (pre + head) + inner + (tail + post) == pre + ((head + (inner + tail)) + post)
  {
  }

  lemma OwnIsReplaced(doc: string, pre: string, n: Node, post: string, v: string)
    requires n.Element? && !Contains(n.children, n.name)
    requires doc == (pre + OpenTag(n.name, n.attributes)) + RenderAll(n.children) + (CloseTag(n.name) + post)
    ensures Replaced(doc, [TextRange(n, |pre|)], v,
                     Some((pre + OpenTag(n.name, n.attributes)) + v + (CloseTag(n.name) + post)))
  {
    hide Contains, RenderAll, OpenTag, CloseTag, FirstCloseIn;
    NestedNameCutsShort(n, |pre|);
    SpliceMiddle(pre + OpenTag(n.name, n.attributes), RenderAll(n.children), CloseTag(n.name) + post, v);
  }

  /** So what the release script writes is the same document but for the inside of that one element. */
  lemma FirstTextIsWritten(nodes: seq<Node>, path: seq<string>, v: string)
    requires AllWellFormed(nodes) && NoneNested(nodes, [], path)
    ensures Reactor.Rewrite(RenderAll(nodes), path, v) == Between("", WithText(nodes, [], path, v), "")
  {
    hide Ranges, AllWellFormed, NoneNested, WithText, AtAll, RenderAll;
    var doc := RenderAll(nodes);
    RangesOfTree(nodes, path);
    assert doc == "" + doc + "";
    TextIsReplaced(doc, "", nodes, "", [], path, v);
  }

  /** The two elements the version stands in: the project's own, and that of a module's parent. */
  lemma VersionElements(nodes: seq<Node>, v: string)
    requires AllWellFormed(nodes)
    requires NoneNested(nodes, [], ["project", "version"]) && NoneNested(nodes, [], ["project", "parent", "version"])
    ensures var doc, texts := RenderAll(nodes), TextsAt(nodes, [], ["project", "version"]);
      && Reactor.ReadMavenVersion(doc) == (if texts == [] then None else Some(Trim(texts[0], JsSpace)))
      && Reactor.Rewrite(doc, Reactor.VersionPath, v) == Between("", WithText(nodes, [], ["project", "version"], v), "")
      && Reactor.Rewrite(doc, Reactor.ParentPath, v)
         == Between("", WithText(nodes, [], ["project", "parent", "version"], v), "")
  {
    hide AllWellFormed, NoneNested, WithText, RenderAll, TextsAt, Trim, Reactor.Rewrite, Reactor.ReadFirst;
    FirstTextIsRead(nodes, ["project", "version"]);
    FirstTextIsWritten(nodes, ["project", "version"], v);
    FirstTextIsWritten(nodes, ["project", "parent", "version"], v);
  }
}
