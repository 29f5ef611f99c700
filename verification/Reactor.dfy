/** Writing a release version into a Maven root and every module it lists. */
module Reactor {
  import opened Options
  import opened Text
  import opened Pom
  import opened PomSplice

  type Files = map<string, string>

  /** Where the named module's project file is. */
  type Layout = string -> string

  const VersionPath: seq<string> := ["project", "version"]
  const ParentPath: seq<string> := ["project", "parent", "version"]
  const ModulePath: seq<string> := ["project", "modules", "module"]

  /** The first element at a path; None also when the scan throws. */
  function First(content: string, path: seq<string>): (r: Option<Range>)
    ensures r.Some? ==> r.value.start <= r.value.end < |content|
  {
    var ranges :- Ranges(content, path);
    if ranges == [] then None else
      RangesFit(content, path, 0);
      Some(ranges[0])
  }

  function TextOf(content: string, r: Range): string
    requires r.start <= r.end <= |content|
  {
    Trim(content[r.start..r.end], JsSpace)
  }

  function ReadFirst(content: string, path: seq<string>): Option<string> {
    var r :- First(content, path);
    Some(TextOf(content, r))
  }

  function ReadMavenVersion(content: string): Option<string> { ReadFirst(content, VersionPath) }

  /** The content with a new text for the first element at a path. */
  function Rewrite(content: string, path: seq<string>, v: string): Option<string> {
    var r :- First(content, path);
    Some(Splice(content, r.start, r.end, v))
  }

  function ModuleNames(content: string): (r: Option<seq<string>>) {
    var ranges :- Ranges(content, ModulePath);
    Some(seq(|ranges|, i requires 0 <= i < |ranges| => RangesFit(content, ModulePath, i); TextOf(content, ranges[i])))
  }

  /** The modules in order; false where one is missing or names no parent version. */
  function WriteModules(files: Files, names: seq<string>, pom: Layout, v: string): (Files, bool) {
    if names == [] then (files, true)
    else
      var path := pom(names[0]);
      if path !in files then (files, false)
      else
        match Rewrite(files[path], ParentPath, v)
        case None => (files, false)
        case Some(next) => WriteModules(files[path := next], names[1..], pom, v)
  }

  /** The files after the run, and whether it got to the end. */
  function WriteVersion(files: Files, root: string, pom: Layout, v: string): (Files, bool) {
    if root !in files || Rewrite(files[root], VersionPath, v).None? then (files, false)
    else
      var written := files[root := Rewrite(files[root], VersionPath, v).value];
      match ModuleNames(files[root])
      case None => (written, false)
      case Some(names) => WriteModules(written, names, pom, v)
  }

  class Tree {
    var files: Files
    const pom: Layout

    constructor (files: Files, pom: Layout)
      ensures this.files == files && this.pom == pom
    {
      this.files, this.pom := files, pom;
    }

    /** None where the source throws, which leaves the files written so far. */
    method WriteMavenVersion(root: string, v: string) returns (r: Option<seq<string>>)
      modifies this
      ensures (files, r.Some?) == WriteVersion(old(files), root, pom, v)
      ensures r.Some? ==> r.value == [root] + Poms(ModuleNames(old(files)[root]).value, pom)
    {
      hide Ranges, TextOf;
      if root !in files { return None; }
      var content := files[root];
      var ranges := FindElementRanges(content, VersionPath);
      if ranges.None? || ranges.value == [] { return None; }
      RangesFit(content, VersionPath, 0);
      files := files[root := Splice(content, ranges.value[0].start, ranges.value[0].end, v)];
      var written := [root];
      var modules := FindElementRanges(content, ModulePath);
      if modules.None? { return None; }
      ghost var names := ModuleNames(content).value;
      assert names[0..] == names;
      for i := 0 to |modules.value|
        invariant WriteModules(files, names[i..], pom, v) == WriteVersion(old(files), root, pom, v)
        invariant written == [root] + Poms(names[..i], pom)
      {
        RangesFit(content, ModulePath, i);
        var name := TextOf(content, modules.value[i]);
        assert name == names[i] && names[i..][1..] == names[i + 1..];
        assert names[..i + 1] == names[..i] + [name];
        var path := pom(name);
        if path !in files { return None; }
        var parents := FindElementRanges(files[path], ParentPath);
        if parents.None? || parents.value == [] { return None; }
        RangesFit(files[path], ParentPath, 0);
        files := files[path := Splice(files[path], parents.value[0].start, parents.value[0].end, v)];
        written := written + [path];
      }
      assert names[..|names|] == names && names[|names|..] == [];
      return Some(written);
    }
  }

  function Poms(names: seq<string>, pom: Layout): seq<string> {
    seq(|names|, i requires 0 <= i < |names| => pom(names[i]))
  }

  // ---------------------------------------------------------------------------
  // Reading back
  // ---------------------------------------------------------------------------

  /** A version that can stand in element text and that trimming leaves alone. */
  predicate VersionText(v: string) { ElementText(v) && Tight(v, JsSpace) }

  /** The element is there and its text opens no tag. */
  predicate Ready(content: string, path: seq<string>) {
    First(content, path).Some? && PlainElement(content, First(content, path).value)
  }

  /** The element already holds exactly `v`. */
  predicate Holds(content: string, path: seq<string>, v: string) {
    && First(content, path).Some?
    && var r := First(content, path).value;
       content[r.start..r.end] == v
  }

  /** The rewritten element is found at the same start and holds the new text. */
  lemma RewriteReadsBack(content: string, path: seq<string>, v: string)
    requires Ready(content, path) && ElementText(v)
    ensures var next := Rewrite(content, path, v).value;
      var r := First(content, path).value;
      && First(next, path) == Some(Range(r.start, r.start + |v|))
      && Holds(next, path, v) && Ready(next, path)
  {
    hide Ranges, Strip;
    var r := First(content, path).value;
    var next := Rewrite(content, path, v).value;
    SpliceMovesEveryPath(content, path, 0, v, path);
    assert Ranges(next, path).value[0] == Moved(Change(r.start, r.end, |v|), r);
    assert Splice(Strip(content), r.start, r.end, v)[r.start..r.start + |v|] == v;
    assert next[r.start..r.start + |v|] == v;
  }

  lemma HeldReads(content: string, path: seq<string>, v: string)
    requires Holds(content, path, v) && Tight(v, JsSpace)
    ensures ReadFirst(content, path) == Some(v)
  {
    TightIsTrimmed(v, JsSpace);
  }

  lemma HeldIsFixed(content: string, path: seq<string>, v: string)
    requires Holds(content, path, v)
    ensures Rewrite(content, path, v) == Some(content)
  {
    var r := First(content, path).value;
    assert content[..r.start] + content[r.start..r.end] + content[r.end..] == content;
  }

  /** Files that are no module's, or already hold the version, stay as they are. */
  lemma {:induction false} OthersStay(files: Files, names: seq<string>, pom: Layout, v: string, path: string)
    requires path in files
    requires (forall name <- names :: pom(name) != path) || Holds(files[path], ParentPath, v)
    ensures path in WriteModules(files, names, pom, v).0 && WriteModules(files, names, pom, v).0[path] == files[path]
    decreases |names|
  {
    hide Holds, Rewrite;
    if names != [] {
      var p := pom(names[0]);
      assert forall name <- names[1..] :: name in names;
      assert names[0] in names;
      if p == path { HeldIsFixed(files[path], ParentPath, v); }
      if p in files && Rewrite(files[p], ParentPath, v).Some? {
        OthersStay(files[p := Rewrite(files[p], ParentPath, v).value], names[1..], pom, v, path);
      }
    }
  }

  lemma {:induction false} ModulesHold(files: Files, names: seq<string>, pom: Layout, v: string)
    requires WriteModules(files, names, pom, v).1 && ElementText(v)
    requires forall name <- names :: pom(name) in files ==> Ready(files[pom(name)], ParentPath)
    ensures var after := WriteModules(files, names, pom, v).0;
      forall name <- names :: pom(name) in after && Holds(after[pom(name)], ParentPath, v)
    decreases |names|
  {
    hide Holds, Rewrite, Ready, ElementText;
    if names != [] {
      var p := pom(names[0]);
      assert names[0] in names;
      RewriteReadsBack(files[p], ParentPath, v);
      var next := files[p := Rewrite(files[p], ParentPath, v).value];
      forall name <- names[1..] ensures pom(name) in next ==> Ready(next[pom(name)], ParentPath) {
        assert name in names;
      }
      ModulesHold(next, names[1..], pom, v);
      OthersStay(next, names[1..], pom, v, p);
      forall name <- names ensures name == names[0] || name in names[1..] {}
    }
  }

  /** No module element of the root overlaps its version element. */
  ghost predicate ModulesApart(content: string) {
    First(content, VersionPath).Some? && Ranges(content, ModulePath).Some? ==>
      var v := First(content, VersionPath).value;
      forall r <- Ranges(content, ModulePath).value :: r.end < v.start || r.start > v.end
  }

  lemma ModulesStayListed(content: string, v: string)
    requires Ready(content, VersionPath) && ElementText(v) && ModulesApart(content)
    ensures ModuleNames(Rewrite(content, VersionPath, v).value) == ModuleNames(content)
  {
    hide Ranges;
    var own := First(content, VersionPath).value;
    var c := Change(own.start, own.end, |v|);
    var next := Rewrite(content, VersionPath, v).value;
    SpliceMovesEveryPath(content, VersionPath, 0, v, ModulePath);
    if Ranges(content, ModulePath).Some? {
      var before, after := Ranges(content, ModulePath).value, Ranges(next, ModulePath).value;
      forall i | 0 <= i < |before| ensures ModuleNames(next).value[i] == ModuleNames(content).value[i] {
        RangesFit(content, ModulePath, i);
        assert before[i] in before && after[i] == Moved(c, before[i]);
        MovedText(content, own.start, own.end, v, before[i]);
      }
      assert ModuleNames(next).value == ModuleNames(content).value;
    }
  }

  /** After a successful run the root and every module it lists read back the new version, and no other file changed. */
  lemma WrittenVersionReadsBack(files: Files, root: string, pom: Layout, v: string)
    requires WriteVersion(files, root, pom, v).1 && VersionText(v)
    requires Ready(files[root], VersionPath) && ModulesApart(files[root])
    requires forall name <- ModuleNames(files[root]).value ::
      pom(name) != root && (pom(name) in files ==> Ready(files[pom(name)], ParentPath))
    ensures var after := WriteVersion(files, root, pom, v).0;
      && root in after && ReadMavenVersion(after[root]) == Some(v)
      && ModuleNames(after[root]) == ModuleNames(files[root])
      && (forall name <- ModuleNames(after[root]).value ::
            pom(name) in after && ReadFirst(after[pom(name)], ParentPath) == Some(v))
      && (forall path <- files :: path != root && (forall name <- ModuleNames(after[root]).value :: pom(name) != path)
            ==> path in after && after[path] == files[path])
  {
    hide Ready, Holds, Rewrite, ModulesApart, ModuleNames, First, ReadFirst, WriteModules;
    var content := files[root];
    var names := ModuleNames(content).value;
    var written := files[root := Rewrite(content, VersionPath, v).value];
    RewriteReadsBack(content, VersionPath, v);
    HeldReads(written[root], VersionPath, v);
    ModulesStayListed(content, v);
    OthersStay(written, names, pom, v, root);
    ModulesHold(written, names, pom, v);
    var after := WriteModules(written, names, pom, v).0;
    forall name <- names ensures ReadFirst(after[pom(name)], ParentPath) == Some(v) {
      HeldReads(after[pom(name)], ParentPath, v);
    }
    forall path <- files | path != root && forall name <- names :: pom(name) != path
      ensures path in after && after[path] == files[path]
    {
      OthersStay(written, names, pom, v, path);
    }
  }
}
