/** Planned changelog writes: all of them happen, or the disk is as it was. */
module Rollback {
  import opened Options

  type Files = map<string, string>

  datatype Bump = Bump(name: string, path: string)

  /** `previous` is what the run remembers of the file, looked up by PACKAGE NAME. */
  datatype Write = Write(path: string, content: string, previous: Option<string>)

  /** How a write that throws leaves its target: as it was, or truncated to something else. */
  datatype Fault = Untouched | Left(content: Option<string>)

  function At(files: Files, path: string): Option<string> {
    if path in files then Some(files[path]) else None
  }

  function Put(files: Files, path: string, content: Option<string>): (r: Files)
    ensures At(r, path) == content
    ensures forall other :: other != path ==> At(r, other) == At(files, other)
  {
    match content
    case Some(text) => files[path := text]
    case None => files - {path}
  }

  function Hit(files: Files, path: string, fault: Fault): Files {
    match fault
    case Untouched => files
    case Left(content) => Put(files, path, content)
  }

  // ---------------------------------------------------------------------------
  // What is remembered
  // ---------------------------------------------------------------------------

  /** The last existing file read under a package's name. */
  function Remembered(bumps: seq<Bump>, files: Files): (r: map<string, string>)
    ensures forall name <- r :: exists b <- bumps :: b.name == name && At(files, b.path) == Some(r[name])
    ensures forall b <- bumps :: b.path in files ==> b.name in r
  {
    if bumps == [] then map[]
    else
      var k := |bumps| - 1;
      assert bumps == bumps[..k] + [bumps[k]];
      var before := Remembered(bumps[..k], files);
      if bumps[k].path in files then before[bumps[k].name := files[bumps[k].path]] else before
  }

  /** The reading loop. */
  method ReadExisting(bumps: seq<Bump>, files: Files) returns (existing: map<string, string>)
    ensures existing == Remembered(bumps, files)
  {
    existing := map[];
    for i := 0 to |bumps|
      invariant existing == Remembered(bumps[..i], files)
    {
      assert bumps[..i + 1][..i] == bumps[..i] && bumps[..i + 1][i] == bumps[i];
      if bumps[i].path in files {
        existing := existing[bumps[i].name := files[bumps[i].path]];
      }
    }
    assert bumps[..|bumps|] == bumps;
  }

  ghost predicate Plans(w: Write, b: Bump, bumps: seq<Bump>, files: Files) {
    w.path == b.path && w.previous == At(Remembered(bumps, files), b.name)
  }

  /** With one file per package name, what is remembered is the file itself. */
  lemma DistinctNamesRemember(bumps: seq<Bump>, files: Files, b: Bump, w: Write)
    requires b in bumps && Plans(w, b, bumps, files)
    requires forall i, j :: 0 <= i < j < |bumps| ==> bumps[i].name != bumps[j].name
    ensures w.previous == At(files, w.path)
  {
    var r := Remembered(bumps, files);
    if b.name in r {
      var other :| other in bumps && other.name == b.name && At(files, other.path) == Some(r[b.name]);
      assert other == b;
    }
  }

  // ---------------------------------------------------------------------------
  // Writing and rolling back
  // ---------------------------------------------------------------------------

  function WriteAll(files: Files, writes: seq<Write>): Files {
    if writes == [] then files
    else
      var k := |writes| - 1;
      WriteAll(files, writes[..k])[writes[k].path := writes[k].content]
  }

  /** Puts back what the write remembered, unless that throws. */
  function RestoreOne(files: Files, w: Write, fault: Option<Fault>): (r: Files)
    ensures fault.None? ==> At(r, w.path) == w.previous
    ensures forall path :: path != w.path ==> At(r, path) == At(files, path)
  {
    if fault.Some? then Hit(files, w.path, fault.value) else Put(files, w.path, w.previous)
  }

  /** Restores in reverse order; `faults[i]` is Some when restoring write `i` throws. */
  function Restored(files: Files, writes: seq<Write>, faults: seq<Option<Fault>>): Files
    requires |faults| == |writes|
    decreases |writes|
  {
    if writes == [] then files
    else
      var k := |writes| - 1;
      Restored(RestoreOne(files, writes[k], faults[k]), writes[..k], faults[..k])
  }

  /** The state a failing run ends in. */
  function FailedRun(files: Files, writes: seq<Write>, fault: Fault, faults: seq<Option<Fault>>): Files
    requires writes != [] && |faults| == |writes|
  {
    var k := |writes| - 1;
    Restored(Hit(WriteAll(files, writes[..k]), writes[k].path, fault), writes, faults)
  }

  class Disk {
    var files: Files

    constructor (files: Files)
      ensures this.files == files
    {
      this.files := files;
    }

    /** False where the write throws. */
    method WriteFile(path: string, content: string, fault: Option<Fault>) returns (ok: bool)
      modifies this
      ensures ok == fault.None?
      ensures files == if ok then old(files)[path := content] else Hit(old(files), path, fault.value)
    {
      if fault.Some? {
        files := Hit(files, path, fault.value);
        return false;
      }
      files := files[path := content];
      return true;
    }

    method Restore(w: Write, fault: Option<Fault>)
      modifies this
      ensures files == RestoreOne(old(files), w, fault)
    {
      if fault.Some? {
        files := Hit(files, w.path, fault.value);
      } else {
        files := Put(files, w.path, w.previous);
      }
    }

    /**
      * Writes `planned` in order. `failing` is the write that throws, if any, and how it leaves
      * its target; then everything attempted is restored in reverse, the failing target included.
      */
    method WriteChangelogs(
      planned: seq<Write>, failing: Option<(nat, Fault)>, restoreFaults: seq<Option<Fault>>)
      returns (ok: bool)
      requires failing.Some? ==> failing.value.0 < |planned| && |restoreFaults| == failing.value.0 + 1
      modifies this
      ensures ok == failing.None?
      ensures ok ==> files == WriteAll(old(files), planned)
      ensures !ok ==>
        files == FailedRun(old(files), planned[..failing.value.0 + 1], failing.value.1, restoreFaults)
    {
      var attempted: seq<Write> := [];
      for i := 0 to |planned|
        invariant attempted == planned[..i]
        invariant files == WriteAll(old(files), planned[..i])
        invariant failing.Some? ==> i <= failing.value.0
      {
        attempted := attempted + [planned[i]];
        assert attempted == planned[..i + 1] && planned[..i + 1][..i] == planned[..i];
        var fault := if failing.Some? && failing.value.0 == i then Some(failing.value.1) else None;
        var done := WriteFile(planned[i].path, planned[i].content, fault);
        if !done {
          RollBack(attempted, restoreFaults);
          return false;
        }
      }
      assert planned[..|planned|] == planned;
      return true;
    }

    method RollBack(attempted: seq<Write>, faults: seq<Option<Fault>>)
      requires |faults| == |attempted|
      modifies this
      ensures files == Restored(old(files), attempted, faults)
    {
      var k := |attempted|;
      assert attempted[..k] == attempted && faults[..k] == faults;
      while k > 0
        invariant 0 <= k <= |attempted|
        invariant Restored(files, attempted[..k], faults[..k]) == Restored(old(files), attempted, faults)
      {
        assert attempted[..k][..k - 1] == attempted[..k - 1] && faults[..k][..k - 1] == faults[..k - 1];
        k := k - 1;
        Restore(attempted[k], faults[k]);
      }
    }
  }

  // ---------------------------------------------------------------------------
  // What a failed run leaves
  // ---------------------------------------------------------------------------

  /** The first attempted write to a path, which is the last one restored. */
  function FirstTo(writes: seq<Write>, path: string): (i: nat)
    ensures i <= |writes| && (i < |writes| ==> writes[i].path == path)
    ensures forall j :: 0 <= j < i ==> writes[j].path != path
  {
    if writes == [] || writes[0].path == path then 0 else 1 + FirstTo(writes[1..], path)
  }

  lemma {:induction false} UntouchedPath(files: Files, writes: seq<Write>, faults: seq<Option<Fault>>, path: string)
    requires |faults| == |writes| && forall w <- writes :: w.path != path
    ensures At(Restored(files, writes, faults), path) == At(files, path)
    decreases |writes|
  {
    if writes != [] {
      var k := |writes| - 1;
      var next := RestoreOne(files, writes[k], faults[k]);
      assert forall v <- writes[..k] :: v in writes;
      UntouchedPath(next, writes[..k], faults[..k], path);
    }
  }

  /** A path whose last restore succeeds holds what its first write remembered, whatever was there. */
  lemma {:induction false} RestoredPath(files: Files, writes: seq<Write>, faults: seq<Option<Fault>>, path: string)
    requires |faults| == |writes|
    requires FirstTo(writes, path) < |writes| && faults[FirstTo(writes, path)].None?
    ensures At(Restored(files, writes, faults), path) == writes[FirstTo(writes, path)].previous
    decreases |writes|
  {
    hide RestoreOne, FirstTo;
    var k := |writes| - 1;
    var next := RestoreOne(files, writes[k], faults[k]);
    var first := FirstTo(writes, path);
    if first == k {
      UntouchedPath(next, writes[..k], faults[..k], path);
    } else {
      assert FirstTo(writes[..k], path) == first by {
        assert writes[..k][first] == writes[first];
        assert forall j :: 0 <= j < k ==> writes[..k][j] == writes[j];
      }
      RestoredPath(next, writes[..k], faults[..k], path);
    }
  }

  lemma {:induction false} WrittenOnlyThere(files: Files, writes: seq<Write>, path: string)
    requires forall w <- writes :: w.path != path
    ensures At(WriteAll(files, writes), path) == At(files, path)
  {
    if writes != [] {
      var k := |writes| - 1;
      assert forall w <- writes[..k] :: w in writes;
      WrittenOnlyThere(files, writes[..k], path);
    }
  }

  /**
    * After a failure every path is as before the run, provided its own last restore succeeds and the
    * run remembered the right content for it; restores of other paths do not matter.
    */
  lemma PathIsRolledBack(files: Files, writes: seq<Write>, fault: Fault, faults: seq<Option<Fault>>, path: string)
    requires writes != [] && |faults| == |writes|
    requires var first := FirstTo(writes, path);
             first < |writes| ==> faults[first].None? && writes[first].previous == At(files, path)
    ensures At(FailedRun(files, writes, fault, faults), path) == At(files, path)
  {
    var k := |writes| - 1;
    var hit := Hit(WriteAll(files, writes[..k]), writes[k].path, fault);
    if FirstTo(writes, path) < |writes| {
      RestoredPath(hit, writes, faults, path);
    } else {
      assert forall w <- writes[..k] :: w in writes;
      UntouchedPath(hit, writes, faults, path);
      WrittenOnlyThere(files, writes[..k], path);
    }
  }

  /** With working restores, the disk is as before exactly when each first write remembered its file. */
  lemma RollbackRestoresExactly(files: Files, writes: seq<Write>, fault: Fault, faults: seq<Option<Fault>>)
    requires writes != [] && |faults| == |writes| && forall f <- faults :: f.None?
    ensures FailedRun(files, writes, fault, faults) == files <==>
            forall i :: 0 <= i < |writes| && FirstTo(writes, writes[i].path) == i
                        ==> writes[i].previous == At(files, writes[i].path)
  {
    var end := FailedRun(files, writes, fault, faults);
    if forall i :: 0 <= i < |writes| && FirstTo(writes, writes[i].path) == i
                   ==> writes[i].previous == At(files, writes[i].path) {
      forall path ensures At(end, path) == At(files, path) {
        PathIsRolledBack(files, writes, fault, faults, path);
      }
      SameEverywhere(end, files);
    }
    if end == files {
      forall i | 0 <= i < |writes| && FirstTo(writes, writes[i].path) == i
        ensures writes[i].previous == At(files, writes[i].path)
      {
        var k := |writes| - 1;
        RestoredPath(Hit(WriteAll(files, writes[..k]), writes[k].path, fault), writes, faults, writes[i].path);
      }
    }
  }

  lemma SameEverywhere(a: Files, b: Files)
    requires forall path :: At(a, path) == At(b, path)
    ensures a == b
  {
    forall path ensures path in a <==> path in b { assert At(a, path) == At(b, path); }
    forall path <- a ensures a[path] == b[path] { assert At(a, path) == At(b, path); }
  }

  /** Distinct package names are enough, whatever was attempted and however the failing write left its file. */
  lemma FailedRunRestoresDisk(
    files: Files, bumps: seq<Bump>, attempted: seq<Bump>, writes: seq<Write>, fault: Fault, faults: seq<Option<Fault>>)
    requires forall i, j :: 0 <= i < j < |bumps| ==> bumps[i].name != bumps[j].name
    requires writes != [] && |faults| == |writes| == |attempted| && forall f <- faults :: f.None?
    requires forall i :: 0 <= i < |writes| ==> attempted[i] in bumps && Plans(writes[i], attempted[i], bumps, files)
    ensures FailedRun(files, writes, fault, faults) == files
  {
    forall i | 0 <= i < |writes| ensures writes[i].previous == At(files, writes[i].path) {
      DistinctNamesRemember(bumps, files, attempted[i], writes[i]);
    }
    RollbackRestoresExactly(files, writes, fault, faults);
  }

  /** Two packages of one name share one memory: the rollback puts the second file's text into the first. */
  lemma SharedNameIsNotRestored(fault: Fault)
    ensures var files: Files := map["a" := "A", "b" := "B"];
            var bumps := [Bump("core", "a"), Bump("core", "b")];
            var writes := [Write("a", "new", At(Remembered(bumps, files), "core"))];
            && Plans(writes[0], bumps[0], bumps, files)
            && FailedRun(files, writes, fault, [None]) != files
  {
    var files: Files := map["a" := "A", "b" := "B"];
    var bumps := [Bump("core", "a"), Bump("core", "b")];
    var r := Remembered(bumps, files);
    assert bumps[..1] == [Bump("core", "a")];
    assert r["core"] == "B";
    var writes := [Write("a", "new", At(r, "core"))];
    assert FirstTo(writes, "a") == 0;
    RestoredPath(Hit(WriteAll(files, writes[..0]), "a", fault), writes, [None], "a");
    assert At(files, "a") == Some("A");
  }
}
