/**
 * Concrete runs of the traversal guard, the workspace path and the bucket
 * choice, on typical inputs of the service.
 */
module Scenarios {
  import opened Results
  import opened Paths
  import opened PathOrder
  import opened Files
  import opened Extraction
  import opened Buckets
  import opened S3Storage

  const Work: Path := Path(true, ["work", "req-1"])
  const Src: Path := Path(true, ["work", "req-1", "src"])
  const Main: Path := Path(true, ["work", "req-1", "src", "main.go"])
  const Lib: Path := Path(true, ["work", "req-1", "src", "lib"])
  const OkFile: Path := Path(true, ["work", "req-1", "ok.txt"])
  const Zip: Path := Path(true, ["work", "req-1", "code.zip"])

  lemma ParseWork()
    ensures Parse("/work/req-1") == Work && Normalize(Work) == Work
  {
    assert Render(Work) == "/work/req-1";
    ParseRender(Work);
    NormalIsFixed(true, Work.segs);
  }

  lemma ParseEtc()
    ensures Parse("/etc/passwd") == Path(true, ["etc", "passwd"])
  {
    assert Render(Path(true, ["etc", "passwd"])) == "/etc/passwd";
    ParseRender(Path(true, ["etc", "passwd"]));
  }

  /** An absolute entry name pointing elsewhere is skipped. */
  lemma AbsoluteEntryRejected()
    ensures !Accepts(Parse("/work/req-1"), Entry("/etc/passwd", []))
  {
    ParseWork();
    ParseEtc();
    EtcRejected(Entry("/etc/passwd", []));
  }

  lemma EtcRejected(e: Entry)
    requires Parse(e.name) == Path(true, ["etc", "passwd"])
    ensures !Accepts(Work, e)
  {
    ParseWork();
    NormalIsFixed(true, ["etc", "passwd"]);
    assert Candidate(Work, e) == Path(true, ["etc", "passwd"]);
    assert Path(true, ["etc", "passwd"]).segs[0] != Work.segs[0];
  }

  lemma ParseOutside()
    ensures Parse("../outside.txt") == Path(false, ["..", "outside.txt"])
  {
    assert Render(Path(false, ["..", "outside.txt"])) == "../outside.txt";
    ParseRender(Path(false, ["..", "outside.txt"]));
  }

  lemma NormalizeOutside()
    ensures Normalize(Path(true, ["work", "req-1", "..", "outside.txt"])) == Path(true, ["work", "outside.txt"])
  {
    var s := ["work", "req-1", "..", "outside.txt"];
    assert s[..3] == ["work", "req-1", ".."];
    assert s[..3][..2] == ["work", "req-1"];
    assert s[..3][..2][..1] == ["work"];
    assert NormalizeFrom(true, [], ["work"]) == ["work"];
    assert NormalizeFrom(true, [], ["work", "req-1"]) == ["work", "req-1"];
    assert NormalizeFrom(true, [], ["work", "req-1", ".."]) == ["work"];
  }

  /** An entry climbing out of the target is skipped. */
  lemma ParentEntryRejected(d: seq<byte>)
    ensures !Accepts(Parse("/work/req-1"), Entry("../outside.txt", d))
  {
    ParseWork();
    ParseOutside();
    ClimbOutRejected(Entry("../outside.txt", d));
  }

  lemma ClimbOutRejected(e: Entry)
    requires Parse(e.name) == Path(false, ["..", "outside.txt"])
    ensures !Accepts(Work, e)
  {
    ParseWork();
    ClimbOutCandidate(e);
    assert Path(true, ["work", "outside.txt"]).segs[1] != Work.segs[1];
  }

  lemma ClimbOutCandidate(e: Entry)
    requires Parse(e.name) == Path(false, ["..", "outside.txt"])
    ensures Candidate(Work, e) == Path(true, ["work", "outside.txt"])
  {
    var q := Path(true, ["work", "req-1", "..", "outside.txt"]);
    assert Work.segs + ["..", "outside.txt"] == q.segs;
    assert TargetPath(Work, e) == q;
    NormalizeOutside();
  }

  lemma ParseDoubleClimb()
    ensures Parse("a/../../b") == Path(false, ["a", "..", "..", "b"])
  {
    var p := Path(false, ["a", "..", "..", "b"]);
    assert p.segs[..3] == ["a", "..", ".."];
    assert p.segs[..3][..2] == ["a", ".."];
    assert p.segs[..3][..2][..1] == ["a"];
    assert JoinSegments(["a", ".."]) == "a/..";
    assert JoinSegments(["a", "..", ".."]) == "a/../..";
    assert Render(p) == "a/../../b";
    ParseRender(p);
  }

  lemma NormalizeDoubleClimb()
    ensures Normalize(Path(true, ["work", "req-1", "a", "..", "..", "b"])) == Path(true, ["work", "b"])
  {
    var s := ["work", "req-1", "a", "..", "..", "b"];
    assert s[..5] == ["work", "req-1", "a", "..", ".."];
    assert s[..5][..4] == ["work", "req-1", "a", ".."];
    assert s[..5][..4][..3] == ["work", "req-1", "a"];
    assert s[..5][..4][..3][..2] == ["work", "req-1"];
    assert s[..5][..4][..3][..2][..1] == ["work"];
    assert NormalizeFrom(true, [], ["work"]) == ["work"];
    assert NormalizeFrom(true, [], ["work", "req-1"]) == ["work", "req-1"];
    assert NormalizeFrom(true, [], ["work", "req-1", "a"]) == ["work", "req-1", "a"];
    assert NormalizeFrom(true, [], ["work", "req-1", "a", ".."]) == ["work", "req-1"];
    assert NormalizeFrom(true, [], ["work", "req-1", "a", "..", ".."]) == ["work"];
  }

  /** An entry that first descends and then climbs out is skipped as well. */
  lemma DoubleClimbRejected()
    ensures !Accepts(Parse("/work/req-1"), Entry("a/../../b", []))
  {
    ParseWork();
    ParseDoubleClimb();
    DoubleClimbRejectedFor(Entry("a/../../b", []));
  }

  lemma DoubleClimbRejectedFor(e: Entry)
    requires Parse(e.name) == Path(false, ["a", "..", "..", "b"])
    ensures !Accepts(Work, e)
  {
    ParseWork();
    DoubleClimbCandidate(e);
    assert Path(true, ["work", "b"]).segs[1] != Work.segs[1];
  }

  lemma DoubleClimbCandidate(e: Entry)
    requires Parse(e.name) == Path(false, ["a", "..", "..", "b"])
    ensures Candidate(Work, e) == Path(true, ["work", "b"])
  {
    var q := Path(true, ["work", "req-1", "a", "..", "..", "b"]);
    assert Work.segs + ["a", "..", "..", "b"] == q.segs;
    assert TargetPath(Work, e) == q;
    NormalizeDoubleClimb();
  }

  lemma ParseMain()
    ensures Parse("src/main.go") == Path(false, ["src", "main.go"])
  {
    assert Render(Path(false, ["src", "main.go"])) == "src/main.go";
    ParseRender(Path(false, ["src", "main.go"]));
  }

  lemma ParseLib()
    ensures Parse("src/lib/") == Path(false, ["src", "lib"])
  {
    assert "src/lib/" == "src/lib" + "/" + "";
    SplitAtSeparator("src/lib", "", []);
    assert Render(Path(false, ["src", "lib"])) == "src/lib";
    ParseRender(Path(false, ["src", "lib"]));
  }

  /** A normal, descending relative name is accepted below an already normal target. */
  lemma DescendingCandidate(dir: Path, e: Entry, n: Path)
    requires Parse(e.name) == n && !n.absolute && IsNormal(false, n.segs) && ".." !in n.segs
    requires Normalize(dir) == dir
    ensures Accepts(dir, e) && Candidate(dir, e) == Path(dir.absolute, dir.segs + n.segs)
  {
    NormalIsFixed(false, n.segs);
    DescendingNameAccepted(dir, e);
  }

  lemma MainAccepted(e: Entry)
    requires Parse(e.name) == Path(false, ["src", "main.go"])
    ensures Accepts(Work, e) && Candidate(Work, e) == Main
  {
    ParseWork();
    DescendingCandidate(Work, e, Path(false, ["src", "main.go"]));
    assert Work.segs + ["src", "main.go"] == Main.segs;
  }

  lemma LibAccepted(e: Entry)
    requires Parse(e.name) == Path(false, ["src", "lib"])
    ensures Accepts(Work, e) && Candidate(Work, e) == Lib
  {
    ParseWork();
    DescendingCandidate(Work, e, Path(false, ["src", "lib"]));
    assert Work.segs + ["src", "lib"] == Lib.segs;
  }

  /** The base and working directories, as stage one leaves them. */
  function Start(): Tree {
    map[Path(true, ["work"]) := Dir, Work := Dir]
  }

  /** A two-entry loop is its two iterations in turn. */
  lemma TwoEntries(t: Tree, locked: set<Path>, dir: Path, e1: Entry, e2: Entry, u: Tree, n: nat, r: Progress)
    requires ExtractEntry(t, locked, dir, e1, 0) == Progress(u, n, false)
    requires ExtractEntry(u, locked, dir, e2, n) == r
    ensures ExtractAll(t, locked, dir, [e1, e2]) == r
  {
    assert [e1, e2][..1] == [e1];
    assert [e1][..0] == [];
    assert ExtractAll(t, locked, dir, []) == Progress(t, 0, false);
    assert ExtractAll(t, locked, dir, [e1]) == Progress(u, n, false);
  }

  /** An accepted file entry whose parent directories are already there is written and counted. */
  lemma FileEntryStep(t: Tree, locked: set<Path>, dir: Path, e: Entry, count: nat, u: Tree)
    requires !HasNul(e) && Accepts(dir, e) && !IsDirectory(e)
    requires |Candidate(dir, e).segs| > 0
    requires CreateDirectoriesIn(t, Parent(Candidate(dir, e))) == Some(u)
    requires CopyInto(u, Candidate(dir, e), e.contents, locked).Some?
    ensures ExtractEntry(t, locked, dir, e, count) == Progress(u[Candidate(dir, e) := File(e.contents)], count + 1, false)
  {
  }

  /** The first three names of `src/main.go` and of `src/lib` below the working directory are those of `src`. */
  lemma SrcPrefixes()
    ensures Prefix(Main, 3) == Src && Prefix(Lib, 3) == Src && Prefix(Lib, 4) == Lib
    ensures forall k :: 0 < k <= 2 ==> Prefix(Src, k) == Prefix(Work, k) && Prefix(Lib, k) == Prefix(Work, k)
    ensures Prefix(Src, 3) == Src && Prefix(Work, 2) == Work
  {
  }

  /**
   * Where a well-formed tree holds the working directory with nothing
   * below it but the archive, no file lies on the way to `src`, and
   * neither `src` nor `src/main.go` exists yet.
   */
  lemma SrcIsFree(u: Tree)
    requires WellFormed(u) && Work in u && u[Work] == Dir
    requires forall c :: c in u && StrictAncestor(Work, c) ==> c == Zip
    ensures !FileOnTheWay(u, Src) && Src !in u && Main !in u && Lib !in u
  {
    SrcPrefixes();
    assert Src != Zip by { assert Src.segs[2] != Zip.segs[2]; }
    assert Main != Zip && Lib != Zip;
    assert StrictAncestor(Work, Src) && StrictAncestor(Work, Main) && StrictAncestor(Work, Lib);
    forall k | 0 < k <= 3 ensures !(Prefix(Src, k) in u && u[Prefix(Src, k)].File?) {
      if k == 1 {
        assert Prefix(Src, 1) == Prefix(Work, 1);
      }
    }
  }

  /**
   * After `src/main.go` has been written, no file lies on the way to
   * `src/lib`: what the write added besides the file is directories.
   */
  lemma LibIsFree(u: Tree, x: Tree)
    requires WellFormed(u) && Work in u && u[Work] == Dir
    requires Src !in u && Lib !in u
    requires forall q :: q in u && q != Main ==> q in x && x[q] == u[q]
    requires forall q :: q in x && q !in u && q != Main ==> x[q] == Dir
    ensures !FileOnTheWay(x, Lib) && Lib !in u
  {
    SrcPrefixes();
    assert Lib != Main by { assert Lib.segs[3] != Main.segs[3]; }
    assert Prefix(Work, 1) != Main && Work != Main && Src != Main;
    forall k | 0 < k <= 4 ensures !(Prefix(Lib, k) in x && x[Prefix(Lib, k)].File?) {
      if k == 1 {
        assert Prefix(Lib, 1) == Prefix(Work, 1);
      }
    }
  }

  /**
   * The extraction of a two-entry archive, a file `src/main.go` and
   * then a directory `src/lib/` (see `ParseMain` and `ParseLib`), into a
   * working directory that holds nothing but the archive: no exception,
   * one file counted, the file with its bytes and the directory in place,
   * the archive untouched, and nothing else below the working directory.
   */
  lemma ExtractExample(u: Tree, locked: set<Path>, e1: Entry, e2: Entry)
    requires WellFormed(u) && Work in u && u[Work] == Dir
    requires forall c :: c in u && StrictAncestor(Work, c) ==> c == Zip
    requires Parse(e1.name) == Path(false, ["src", "main.go"]) && !HasNul(e1) && !IsDirectory(e1)
    requires Parse(e2.name) == Path(false, ["src", "lib"]) && !HasNul(e2) && IsDirectory(e2)
    ensures var x := ExtractAll(u, locked, Work, [e1, e2]);
            && !x.failed && x.count == 1
            && Main in x.tree && x.tree[Main] == File(e1.contents) && IsDir(x.tree, Lib)
            && (Zip in u ==> Zip in x.tree && x.tree[Zip] == u[Zip])
            && forall c :: c in x.tree && StrictAncestor(Work, c) ==> c == Zip || c == Src || c == Main || c == Lib
  {
    MainAccepted(e1);
    LibAccepted(e2);
    SrcIsFree(u);
    SrcPrefixes();
    assert Parent(Main) == Src;
    var x1 := ExtractEntry(u, locked, Work, e1, 0);
    assert !x1.failed && x1.count == 1;
    LibIsFree(u, x1.tree);
    var x2 := ExtractEntry(x1.tree, locked, Work, e2, 1);
    assert !x2.failed;
    TwoEntries(u, locked, Work, e1, e2, x1.tree, 1, x2);
    assert Main != Lib by { assert Lib.segs[3] != Main.segs[3]; }
    assert Zip != Main && Zip != Lib;
    forall c | c in x2.tree && StrictAncestor(Work, c) ensures c == Zip || c == Src || c == Main || c == Lib {
      BelowWorkAfterWrites(u, x1.tree, x2.tree, c);
    }
  }

  /** What lies below the working directory after the two entries. */
  lemma BelowWorkAfterWrites(u: Tree, x1: Tree, x2: Tree, c: Path)
    requires forall c :: c in u && StrictAncestor(Work, c) ==> c == Zip
    requires forall q :: q in x1 && q !in u && q != Main ==> StrictAncestor(q, Main)
    requires forall q :: q in x2 && q !in x1 && q != Lib ==> StrictAncestor(q, Lib)
    requires c in x2 && StrictAncestor(Work, c)
    ensures c == Zip || c == Src || c == Main || c == Lib
  {
    SrcPrefixes();
    if c !in x1 && c != Lib {
      assert StartsWith(Lib, c) && |c.segs| == 3;
      assert c == Prefix(Lib, 3);
    } else if c in x1 && c !in u && c != Main {
      assert StartsWith(Main, c) && |c.segs| == 3;
      assert c == Prefix(Main, 3);
    }
  }

  /** The working directory of request "req-1" under "/work", and its archive. */
  lemma WorkPaths()
    ensures WorkingDir("/work", "req-1") == Work && Normalize(Work) == Work
    ensures Normalize(ArchivePath(Work)) == Zip && Parent(Zip) == Work && StrictAncestor(Work, Zip)
  {
    assert JoinNames("/work", "req-1") == "/work/req-1";
    ParseWork();
  }

  /** Stage one for request "req-1" under "/work": an empty, well-formed working directory. */
  lemma StageExample(t: Tree, locked: set<Path>)
    requires WellFormed(t) && !FileAbove(t, Work) && NothingLockedUnder(locked, Work)
    ensures var w := WorkspaceStage(t, locked, "/work", "req-1");
            w.1 == Some(Work) && WellFormed(w.0) && IsDir(w.0, Work) && !HasEntriesBelow(w.0, Work)
  {
    WorkPaths();
    assert '\0' !in JoinNames("/work", "req-1");
    assert !(Work in t && t[Work].File? && Pinned(t, locked, Work, Work));
    WorkspaceStageConfined(t, locked, "/work", "req-1");
    WorkspaceStartsEmpty(t, locked, "/work", "req-1");
  }

  /** The archive can be written into an empty working directory. */
  lemma DownloadExample(u: Tree, store: ObjectStore, id: ObjectId)
    requires WellFormed(u) && IsDir(u, Work) && !HasEntriesBelow(u, Work) && id in store
    ensures Download(u, store, id, Zip) == (u[Zip := File(store[id])], true)
    ensures WellFormed(u[Zip := File(store[id])])
    ensures forall c :: c in u[Zip := File(store[id])] && StrictAncestor(Work, c) ==> c == Zip
  {
    WorkPaths();
    assert Zip !in u;
    assert ValidPath(Zip);
  }

  /** Deleting the archive once both entries are in place. */
  lemma CleanupExample(x: Tree, locked: set<Path>)
    requires Zip in x && NothingLockedUnder(locked, Work)
    requires forall c :: c in x && StrictAncestor(Work, c) ==> c == Zip || c == Src || c == Main || c == Lib
    ensures DeleteIfExistsIn(x, Zip, locked) == Some(x - {Zip})
    ensures !HasEntriesBelow(x - {Zip}, Lib)
  {
    WorkPaths();
    assert Zip !in locked;
    forall c | c in x ensures !StrictAncestor(Zip, c) {
      if StrictAncestor(Zip, c) {
        StartsWithTransitive(c, Zip, Work);
        assert false;
      }
    }
    forall c | c in x - {Zip} ensures !StrictAncestor(Lib, c) {
      if StrictAncestor(Lib, c) {
        StartsWithTransitive(c, Lib, Work);
        assert false;
      }
    }
  }

  /**
   * Stages two to four of the `req-1` example run, from an empty working directory:
   * the download succeeds, both entries are extracted, and the archive is
   * deleted.
   */
  lemma FromWorkspaceExample(u: Tree, locked: set<Path>, env: Environment, context: Context, e1: Entry, e2: Entry)
    requires WellFormed(u) && IsDir(u, Work) && !HasEntriesBelow(u, Work) && NothingLockedUnder(locked, Work)
    requires ObjectId(context.s3Bucket, context.s3Key) in env.store
    requires env.unzip(env.store[ObjectId(context.s3Bucket, context.s3Key)]) == Archive([e1, e2], false)
    requires Parse(e1.name) == Path(false, ["src", "main.go"]) && !HasNul(e1) && !IsDirectory(e1)
    requires Parse(e2.name) == Path(false, ["src", "lib"]) && !HasNul(e2) && IsDirectory(e2)
    ensures var r := FromWorkspace(u, locked, env, context, Work);
            && r.result == Ok(Work)
            && Main in r.tree && r.tree[Main] == File(e1.contents)
            && IsDir(r.tree, Lib) && !HasEntriesBelow(r.tree, Lib)
            && Zip !in r.tree
  {
    WorkPaths();
    var id := ObjectId(context.s3Bucket, context.s3Key);
    DownloadExample(u, env.store, id);
    var u1 := u[Zip := File(env.store[id])];
    ExtractExample(u1, locked, e1, e2);
    var x := ExtractAll(u1, locked, Work, [e1, e2]);
    assert ExtractArchive(u1, locked, Zip, Work, env.unzip) == x;
    CleanupExample(x.tree, locked);
    FromWorkspaceSucceeds(u, locked, env, context, Work, u1, x.tree);
    KeptBesideArchive(x.tree);
  }

  /** Deleting the archive keeps `src/main.go` and `src/lib` as they were. */
  lemma KeptBesideArchive(x: Tree)
    ensures Main in x ==> Main in x - {Zip} && (x - {Zip})[Main] == x[Main]
    ensures IsDir(x, Lib) ==> IsDir(x - {Zip}, Lib)
    ensures Zip !in x - {Zip}
  {
    assert Main.segs[2] != Zip.segs[2] && Lib.segs[2] != Zip.segs[2];
  }

  /** The three later stages, each succeeding in turn, make `FromWorkspace` succeed. */
  lemma FromWorkspaceSucceeds(u: Tree, locked: set<Path>, env: Environment, context: Context, workingDir: Path, u1: Tree, x: Tree)
    requires Download(u, env.store, ObjectId(context.s3Bucket, context.s3Key), Normalize(ArchivePath(workingDir))) == (u1, true)
    requires ExtractArchive(u1, locked, Normalize(ArchivePath(workingDir)), workingDir, env.unzip) == Progress(x, 1, false)
    requires DeleteIfExistsIn(x, Normalize(ArchivePath(workingDir)), locked).Some?
    ensures FromWorkspace(u, locked, env, context, workingDir) ==
              Outcome(DeleteIfExistsIn(x, Normalize(ArchivePath(workingDir)), locked).value, Ok(workingDir))
  {
  }

  /**
   * The `req-1` example end to end: a message for request "req-1" under the base
   * directory "/work" whose object is in the store and unzips to a file
   * `src/main.go` followed by a directory `src/lib/`. Where no file lies
   * above the working directory and nothing inside it is locked, the
   * preparation succeeds with the working directory, which then holds the
   * file's bytes at `src/main.go`, an empty directory `src/lib`, and no
   * archive.
   */
  lemma PrepareExample(t: Tree, locked: set<Path>, env: Environment, msg: TaskMessage, e1: Entry, e2: Entry)
    requires WellFormed(t) && !FileAbove(t, Work) && NothingLockedUnder(locked, Work)
    requires env.properties.taskBaseDir == "/work" && msg.requestId == "req-1"
    requires ObjectId(ContextOf(env, msg).s3Bucket, ContextOf(env, msg).s3Key) in env.store
    requires env.unzip(env.store[ObjectId(ContextOf(env, msg).s3Bucket, ContextOf(env, msg).s3Key)]) == Archive([e1, e2], false)
    requires Parse(e1.name) == Path(false, ["src", "main.go"]) && !HasNul(e1) && !IsDirectory(e1)
    requires Parse(e2.name) == Path(false, ["src", "lib"]) && !HasNul(e2) && IsDirectory(e2)
    ensures var r := Prepare(t, locked, env, msg);
            && r.result == Ok(Work)
            && Main in r.tree && r.tree[Main] == File(e1.contents)
            && IsDir(r.tree, Lib) && !HasEntriesBelow(r.tree, Lib)
            && Zip !in r.tree
  {
    StageExample(t, locked);
    var w := WorkspaceStage(t, locked, "/work", "req-1");
    FromWorkspaceExample(w.0, locked, env, ContextOf(env, msg), e1, e2);
  }

  lemma ParseOk()
    ensures Parse("ok.txt") == Path(false, ["ok.txt"])
  {
    SplitPlain("ok.txt", []);
    assert [] + "ok.txt" == "ok.txt";
  }

  lemma OkAccepted(e: Entry)
    requires Parse(e.name) == Path(false, ["ok.txt"])
    ensures Accepts(Work, e) && Candidate(Work, e) == OkFile
  {
    ParseWork();
    DescendingCandidate(Work, e, Path(false, ["ok.txt"]));
    assert Work.segs + ["ok.txt"] == OkFile.segs;
  }

  lemma CreateWorkAgain()
    ensures CreateDirectoriesIn(Start(), Work) == Some(Start())
  {
    var t0 := Start();
    forall k | 0 < k <= 2 ensures !(Prefix(Work, k) in t0 && t0[Prefix(Work, k)].File?) {
    }
    assert Prefix(Work, 1) == Path(true, ["work"]);
    assert Prefix(Work, 2) == Work;
    assert Ancestry(Work) == {Path(true, ["work"]), Work};
    var u := CreateDirectoriesIn(t0, Work).value;
    assert forall q :: q in u <==> q in t0;
    assert forall q :: q in u ==> u[q] == t0[q];
    assert u == t0;
  }

  lemma OkEntry(locked: set<Path>, e: Entry)
    requires Accepts(Work, e) && Candidate(Work, e) == OkFile && !IsDirectory(e) && !HasNul(e)
    ensures ExtractEntry(Start(), locked, Work, e, 0) == Progress(Start()[OkFile := File(e.contents)], 1, false)
  {
    CreateWorkAgain();
    OkCopy(locked, e.contents);
    FileEntryStep(Start(), locked, Work, e, 0, Start());
  }

  lemma OkCopy(locked: set<Path>, data: seq<byte>)
    ensures Parent(OkFile) == Work
    ensures CopyInto(Start(), OkFile, data, locked).Some?
  {
    assert Parent(OkFile) == Work;
    assert OkFile !in Start() by {
      assert OkFile.segs[2] == "ok.txt";
    }
  }

  /**
   * An archive whose first entry climbs out of the working directory
   * (a name that parses as `../outside.txt`, see `ParseOutside`): it is
   * skipped without an error and the loop goes on to the next entry
   * (`ok.txt`, see `ParseOk`), which alone is written and counted.
   */
  lemma TraversalExample(locked: set<Path>, e1: Entry, e2: Entry)
    requires Parse(e1.name) == Path(false, ["..", "outside.txt"]) && !HasNul(e1)
    requires Parse(e2.name) == Path(false, ["ok.txt"]) && !HasNul(e2) && !IsDirectory(e2)
    ensures ExtractAll(Start(), locked, Work, [e1, e2]) == Progress(Start()[OkFile := File(e2.contents)], 1, false)
  {
    ClimbOutRejected(e1);
    OkAccepted(e2);
    OkEntry(locked, e2);
    TwoEntries(Start(), locked, Work, e1, e2, Start(), 0, Progress(Start()[OkFile := File(e2.contents)], 1, false));
  }

  lemma ParseEscape()
    ensures Parse("/tasks/../etc") == Path(true, ["tasks", "..", "etc"])
    ensures Parse("/tasks") == Path(true, ["tasks"])
  {
    var w := Path(true, ["tasks", "..", "etc"]);
    assert w.segs[..2] == ["tasks", ".."];
    assert w.segs[..2][..1] == ["tasks"];
    assert JoinSegments(["tasks", ".."]) == "tasks/..";
    assert Render(w) == "/tasks/../etc";
    ParseRender(w);
    assert Render(Path(true, ["tasks"])) == "/tasks";
    ParseRender(Path(true, ["tasks"]));
  }

  /** The request id "../etc" escapes the base directory "/tasks". */
  lemma EscapingRequestId()
    ensures Normalize(WorkingDir("/tasks", "../etc")) == Path(true, ["etc"])
    ensures !StartsWith(Normalize(WorkingDir("/tasks", "../etc")), Parse("/tasks"))
  {
    JoinEscape();
    NormalizeEscape();
    ParseEscape();
    assert Path(true, ["etc"]).segs[0] != Path(true, ["tasks"]).segs[0];
  }

  lemma JoinEscape()
    ensures WorkingDir("/tasks", "../etc") == Path(true, ["tasks", "..", "etc"])
  {
    assert JoinNames("/tasks", "../etc") == "/tasks/../etc";
    ParseEscape();
  }

  lemma NormalizeEscape()
    ensures Normalize(Path(true, ["tasks", "..", "etc"])) == Path(true, ["etc"])
  {
    var s := ["tasks", "..", "etc"];
    assert s[..2] == ["tasks", ".."];
    assert s[..2][..1] == ["tasks"];
    assert NormalizeFrom(true, [], ["tasks"]) == ["tasks"];
    assert NormalizeFrom(true, [], ["tasks", ".."]) == [];
  }

  /** A blank bucket in the message falls back to the default; a usable one is kept untrimmed. */
  lemma BucketChoices()
    ensures DetermineS3Bucket(None, "code-bucket") == "code-bucket"
    ensures DetermineS3Bucket(Some(" \t"), "code-bucket") == "code-bucket"
    ensures DetermineS3Bucket(Some(" team "), "code-bucket") == " team "
  {
    assert !IsBlank(" team ") by {
      assert " team "[1] == 't';
    }
  }
}
