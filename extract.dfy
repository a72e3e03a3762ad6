/**
 * What `extractZipFile` does to the file system, entry by entry: the
 * traversal guard, directory creation, the overwriting copy and the
 * counter of extracted files, with the containment theorem.
 */
module Extraction {
  import opened Results
  import opened Paths
  import opened Files

  /** One record of the archive, as ZipInputStream yields it, with its bytes already read. */
  datatype Entry = Entry(name: string, contents: seq<byte>)

  /**
   * `ZipEntry.isDirectory()`: the name ends with '/'. The slash marks the
   * entry; it adds no name to the path the entry resolves to.
   */
  predicate IsDirectory(e: Entry): (b: bool)
    ensures b ==> |e.name| > 0 && Parse(e.name).segs == Parse(e.name[..|e.name| - 1]).segs
    ensures |e.name| > 0 && e.name[|e.name| - 1] == '/' ==> b
  {
    if |e.name| > 0 && e.name[|e.name| - 1] == '/' then
      SplitTrailingSeparator(e.name[..|e.name| - 1]);
      assert e.name == e.name[..|e.name| - 1] + "/";
      true
    else false
  }

  /** A decoded archive: its entries in order; `truncated` when reading fails after them. */
  datatype Archive = Archive(entries: seq<Entry>, truncated: bool)

  /** `targetDir.resolve(entry.getName())`. */
  function TargetPath(targetDir: Path, e: Entry): Path {
    Resolve(targetDir, Parse(e.name))
  }

  /** The location the entry would be written to once the system resolves "." and "..". */
  function Candidate(targetDir: Path, e: Entry): Path {
    Normalize(TargetPath(targetDir, e))
  }

  /**
   * The traversal guard, `targetPath.normalize().startsWith(targetDir.normalize())`.
   * An absolute name is judged by its own normal form alone, whatever the
   * target; a relative name whose normal form climbs no ".." always passes.
   */
  predicate Accepts(targetDir: Path, e: Entry): (b: bool)
    ensures Parse(e.name).absolute ==> (b <==> StartsWith(Normalize(Parse(e.name)), Normalize(targetDir)))
    ensures !Parse(e.name).absolute && ".." !in Normalize(Parse(e.name)).segs ==> b
  {
    DescendingNameStaysInside(targetDir, Parse(e.name));
    StartsWith(Candidate(targetDir, e), Normalize(targetDir))
  }

  /** A NUL character makes `resolve` throw InvalidPathException. */
  predicate HasNul(e: Entry) {
    '\0' in e.name
  }

  /** The file system and the `extractedFiles` counter so far, and whether an exception ended the loop. */
  datatype Progress = Progress(tree: Tree, count: nat, failed: bool)

  /**
   * Why an accepted entry throws: a directory entry meets a file on its
   * way; a file entry has no parent (`getParent()` of a root is null),
   * meets a file on the way to its parent, or finds at its target
   * something the copy cannot delete first.
   */
  predicate Blocked(t: Tree, locked: set<Path>, target: Path, isDir: bool) {
    if isDir then FileOnTheWay(t, target)
    else |target.segs| == 0 || FileOnTheWay(t, Parent(target)) || (target in t && (target in locked || HasEntriesBelow(t, target)))
  }

  /**
   * Creating the directories of a file's parent touches neither the file's
   * own path nor anything below it: every new entry is a directory above it.
   */
  lemma ParentCreated(t: Tree, target: Path, u: Tree)
    requires |target.segs| > 0 && CreateDirectoriesIn(t, Parent(target)) == Some(u)
    ensures target in u <==> target in t
    ensures HasEntriesBelow(u, target) <==> HasEntriesBelow(t, target)
    ensures forall q :: q in u && q !in t ==> u[q] == Dir && StrictAncestor(q, target)
  {
    forall q | q in u && q !in t ensures StrictAncestor(q, target) {
      StartsWithTransitive(target, Parent(target), q);
    }
  }

  /** Creating the directories of `target` adds, besides `target`, only directories above it. */
  lemma DirCreated(t: Tree, target: Path, u: Tree)
    requires CreateDirectoriesIn(t, target) == Some(u)
    ensures forall q :: q in u && q !in t && q != target ==> u[q] == Dir && StrictAncestor(q, target)
  {
    forall q | q in u && q !in t && q != target ensures StrictAncestor(q, target) {
      if |q.segs| == |target.segs| {
        StartsWithSameLength(target, q);
      }
    }
  }

  /**
   * One iteration of the extraction loop, for the entry `e` with `count`
   * files extracted so far. It throws exactly on a NUL in the name or on
   * an accepted entry that is `Blocked`; it touches nothing but the
   * candidate and new directories above it, and changes the candidate
   * only by writing the file of an accepted file entry.
   */
  function ExtractEntry(t: Tree, locked: set<Path>, targetDir: Path, e: Entry, count: nat): (r: Progress)
    ensures HasNul(e) ==> r == Progress(t, count, true)
    ensures !HasNul(e) && !Accepts(targetDir, e) ==> r == Progress(t, count, false)
    ensures r.failed <==> HasNul(e) || (Accepts(targetDir, e) && Blocked(t, locked, Candidate(targetDir, e), IsDirectory(e)))
    ensures !r.failed && Accepts(targetDir, e) && IsDirectory(e) ==> r.count == count && IsDir(r.tree, Candidate(targetDir, e))
    ensures !r.failed && Accepts(targetDir, e) && !IsDirectory(e) ==>
              r.count == count + 1 && Candidate(targetDir, e) in r.tree && r.tree[Candidate(targetDir, e)] == File(e.contents)
    ensures r.failed ==> r.count == count
    ensures forall q :: q in t && q != Candidate(targetDir, e) ==> q in r.tree && r.tree[q] == t[q]
    ensures Candidate(targetDir, e) in t && (r.failed || !Accepts(targetDir, e) || IsDirectory(e)) ==>
              Candidate(targetDir, e) in r.tree && r.tree[Candidate(targetDir, e)] == t[Candidate(targetDir, e)]
    ensures forall q :: q in r.tree && q !in t && q != Candidate(targetDir, e) ==> r.tree[q] == Dir && StrictAncestor(q, Candidate(targetDir, e))
    ensures KeepsEntries(t, r.tree)
  {
    if HasNul(e) then Progress(t, count, true)
    else if !Accepts(targetDir, e) then Progress(t, count, false)
    else
      var target := Candidate(targetDir, e);
      if IsDirectory(e) then
        match CreateDirectoriesIn(t, target)
        case None => Progress(t, count, true)
        case Some(u) =>
          DirCreated(t, target, u);
          Progress(u, count, false)
      else if |target.segs| == 0 then
        // getParent() of a root is null
        Progress(t, count, true)
      else
        match CreateDirectoriesIn(t, Parent(target))
        case None => Progress(t, count, true)
        case Some(u) =>
          ParentCreated(t, target, u);
          match CopyInto(u, target, e.contents, locked)
          case None => Progress(u, count, true)
          case Some(w) => Progress(w, count + 1, false)
  }

  /**
   * The extraction loop over `entries` from a zero counter; an exception
   * stops it where it is. It never removes an entry, and it counts at
   * most one file per entry.
   */
  function ExtractAll(t: Tree, locked: set<Path>, targetDir: Path, entries: seq<Entry>): (r: Progress)
    ensures KeepsEntries(t, r.tree)
    ensures r.count <= |entries|
    decreases |entries|
  {
    if entries == [] then Progress(t, 0, false)
    else
      var prev := ExtractAll(t, locked, targetDir, entries[..|entries| - 1]);
      if prev.failed then prev
      else ExtractEntry(prev.tree, locked, targetDir, entries[|entries| - 1], prev.count)
  }

  /**
   * The whole of `extractZipFile`: open the archive at `zip`, read its
   * entries, extract them. Without a regular file at `zip` it throws
   * before touching anything; a read error after the entries makes it
   * throw as well.
   */
  function ExtractArchive(t: Tree, locked: set<Path>, zip: Path, targetDir: Path, unzip: seq<byte> -> Archive): (r: Progress)
    ensures zip !in t || !t[zip].File? ==> r == Progress(t, 0, true)
    ensures zip in t && t[zip].File? && unzip(t[zip].data).truncated ==> r.failed
    ensures zip in t && t[zip].File? ==> r.count <= |unzip(t[zip].data).entries|
    ensures zip in t && t[zip].File? && !unzip(t[zip].data).truncated ==>
              r == ExtractAll(t, locked, targetDir, unzip(t[zip].data).entries)
    ensures zip in t && t[zip].File? ==>
              r.tree == ExtractAll(t, locked, targetDir, unzip(t[zip].data).entries).tree &&
              r.count == ExtractAll(t, locked, targetDir, unzip(t[zip].data).entries).count
    ensures KeepsEntries(t, r.tree)
  {
    if zip !in t || !t[zip].File? then Progress(t, 0, true)
    else
      var archive := unzip(t[zip].data);
      var r := ExtractAll(t, locked, targetDir, archive.entries);
      if archive.truncated then r.(failed := true) else r
  }

  /** Every regular file of `t` is still a regular file in `u` (its bytes may differ). */
  ghost predicate KeepsFiles(t: Tree, u: Tree) {
    forall q :: q in t && t[q].File? ==> q in u && u[q].File?
  }

  /**
   * Extraction never turns a regular file into a directory: an entry
   * whose target is a file either overwrites it with another file or
   * throws, and the directories it creates are all new.
   */
  lemma {:induction false} ExtractAllKeepsFiles(t: Tree, locked: set<Path>, targetDir: Path, entries: seq<Entry>)
    ensures KeepsFiles(t, ExtractAll(t, locked, targetDir, entries).tree)
    decreases |entries|
  {
    if entries != [] {
      var init := entries[..|entries| - 1];
      ExtractAllKeepsFiles(t, locked, targetDir, init);
      var prev := ExtractAll(t, locked, targetDir, init);
      if !prev.failed {
        var last := entries[|entries| - 1];
        var r := ExtractEntry(prev.tree, locked, targetDir, last, prev.count);
        assert KeepsFiles(prev.tree, r.tree);
      }
    }
  }

  /** The number of entries acted on as files: accepted by the guard and not directories. */
  function AcceptedFiles(targetDir: Path, entries: seq<Entry>): nat
    decreases |entries|
  {
    if entries == [] then 0
    else
      var e := entries[|entries| - 1];
      AcceptedFiles(targetDir, entries[..|entries| - 1]) + (if Accepts(targetDir, e) && !IsDirectory(e) then 1 else 0)
  }

  /**
   * Completeness of the guard for descending names: a relative name whose
   * normal form climbs no ".." is accepted, and lands at the target's
   * normal form followed by the name's.
   */
  lemma DescendingNameAccepted(targetDir: Path, e: Entry)
    requires !Parse(e.name).absolute
    requires ".." !in Normalize(Parse(e.name)).segs
    ensures Accepts(targetDir, e)
    ensures Candidate(targetDir, e) == Path(targetDir.absolute, Normalize(targetDir).segs + Normalize(Parse(e.name)).segs)
  {
    DescendingNameStaysInside(targetDir, Parse(e.name));
  }

  /** A prefix of `cand` that is new to a well-formed `t` lies below `root`, an existing prefix of `cand`. */
  lemma NewPrefixInside(t: Tree, cand: Path, root: Path, q: Path)
    requires WellFormed(t) && ExistsIn(t, root)
    requires StartsWith(cand, root) && StartsWith(cand, q)
    requires |q.segs| > 0 && q !in t
    ensures StartsWith(q, root)
  {
    if |q.segs| >= |root.segs| {
      assert q.segs[..|root.segs|] == cand.segs[..|q.segs|][..|root.segs|];
    } else {
      assert q == Prefix(root, |q.segs|) by {
        assert root.segs[..|q.segs|] == cand.segs[..|root.segs|][..|q.segs|];
      }
    }
  }

  /** Creating the directories up to a prefix `p` of `cand` changes nothing outside `root`. */
  lemma CreateDirectoriesInside(t: Tree, cand: Path, root: Path, p: Path)
    requires WellFormed(t) && ExistsIn(t, root) && ValidPath(p)
    requires StartsWith(cand, root) && StartsWith(cand, p)
    requires CreateDirectoriesIn(t, p).Some?
    ensures UnchangedOutside(t, CreateDirectoriesIn(t, p).value, root)
    ensures WellFormed(CreateDirectoriesIn(t, p).value)
  {
    var u := CreateDirectoriesIn(t, p).value;
    CreateDirectoriesWellFormed(t, p);
    forall q | q in u && q !in t ensures StartsWith(q, root) {
      StartsWithTransitive(cand, p, q);
      NewPrefixInside(t, cand, root, q);
    }
  }

  /**
   * One entry changes nothing outside the normalized target directory,
   * keeps the tree well-formed and keeps the target directory in place.
   */
  lemma ExtractEntryInside(t: Tree, locked: set<Path>, targetDir: Path, e: Entry, count: nat)
    requires WellFormed(t) && ValidPath(targetDir)
    requires ExistsIn(t, Normalize(targetDir))
    ensures WellFormed(ExtractEntry(t, locked, targetDir, e, count).tree)
    ensures UnchangedOutside(t, ExtractEntry(t, locked, targetDir, e, count).tree, Normalize(targetDir))
  {
    var root := Normalize(targetDir);
    if !HasNul(e) && Accepts(targetDir, e) {
      var target := Candidate(targetDir, e);
      assert StartsWith(target, target);
      if IsDirectory(e) {
        if CreateDirectoriesIn(t, target).Some? {
          CreateDirectoriesInside(t, target, root, target);
        }
      } else if |target.segs| > 0 {
        var par := Parent(target);
        if CreateDirectoriesIn(t, par).Some? {
          CreateDirectoriesInside(t, target, root, par);
        }
      }
    }
  }

  /**
   * The containment theorem: however the entry names are written, the
   * extraction loop changes nothing outside the normalized target
   * directory (everything it creates or writes lies within it) and keeps
   * the file system well-formed.
   */
  lemma {:induction false} ExtractAllInside(t: Tree, locked: set<Path>, targetDir: Path, entries: seq<Entry>)
    requires WellFormed(t) && ValidPath(targetDir)
    requires ExistsIn(t, Normalize(targetDir))
    ensures WellFormed(ExtractAll(t, locked, targetDir, entries).tree)
    ensures UnchangedOutside(t, ExtractAll(t, locked, targetDir, entries).tree, Normalize(targetDir))
    decreases |entries|
  {
    if entries != [] {
      var init := entries[..|entries| - 1];
      ExtractAllInside(t, locked, targetDir, init);
      var prev := ExtractAll(t, locked, targetDir, init);
      if !prev.failed {
        ExtractEntryInside(prev.tree, locked, targetDir, entries[|entries| - 1], prev.count);
      }
    }
  }

  /** Once an entry has thrown, the later entries are never read: the loop ends as it was. */
  lemma {:induction false} ExtractAllStops(t: Tree, locked: set<Path>, targetDir: Path, entries: seq<Entry>, i: nat)
    requires i <= |entries|
    requires ExtractAll(t, locked, targetDir, entries[..i]).failed
    ensures ExtractAll(t, locked, targetDir, entries) == ExtractAll(t, locked, targetDir, entries[..i])
    decreases |entries|
  {
    if i == |entries| {
      assert entries[..i] == entries;
    } else {
      var init := entries[..|entries| - 1];
      assert init[..i] == entries[..i];
      ExtractAllStops(t, locked, targetDir, init, i);
    }
  }

  /**
   * A run that ends without an exception counts exactly the accepted
   * non-directory entries, which is at most the number of entries.
   */
  lemma {:induction false} ExtractAllCount(t: Tree, locked: set<Path>, targetDir: Path, entries: seq<Entry>)
    requires !ExtractAll(t, locked, targetDir, entries).failed
    ensures ExtractAll(t, locked, targetDir, entries).count == AcceptedFiles(targetDir, entries)
    ensures AcceptedFiles(targetDir, entries) <= |entries|
    decreases |entries|
  {
    if entries != [] {
      ExtractAllCount(t, locked, targetDir, entries[..|entries| - 1]);
    }
  }

  /**
   * Last duplicate wins: after a run without an exception, an accepted
   * file entry that no later accepted file entry shares a candidate with
   * has left its bytes at its candidate. Nothing a later entry does
   * (another file, a directory, a rejected or a skipped name) undoes it.
   */
  lemma {:induction false} ExtractAllLastWins(t: Tree, locked: set<Path>, targetDir: Path, entries: seq<Entry>, i: nat)
    requires !ExtractAll(t, locked, targetDir, entries).failed
    requires i < |entries| && Accepts(targetDir, entries[i]) && !IsDirectory(entries[i])
    requires forall j :: i < j < |entries| && Accepts(targetDir, entries[j]) && !IsDirectory(entries[j]) ==>
               Candidate(targetDir, entries[j]) != Candidate(targetDir, entries[i])
    ensures var r := ExtractAll(t, locked, targetDir, entries).tree;
            Candidate(targetDir, entries[i]) in r && r[Candidate(targetDir, entries[i])] == File(entries[i].contents)
    decreases |entries|
  {
    if i == |entries| - 1 {
      LastFileWritten(t, locked, targetDir, entries);
    } else {
      var init := entries[..|entries| - 1];
      var prev := ExtractAll(t, locked, targetDir, init);
      var cand := Candidate(targetDir, entries[i]);
      ExtractAllLast(t, locked, targetDir, entries);
      assert init[i] == entries[i];
      forall j | i < j < |init| && Accepts(targetDir, init[j]) && !IsDirectory(init[j])
        ensures Candidate(targetDir, init[j]) != cand
      {
        assert init[j] == entries[j];
      }
      ExtractAllLastWins(t, locked, targetDir, init, i);
      EntryKeepsFile(prev.tree, locked, targetDir, entries[|entries| - 1], prev.count, cand, entries[i].contents);
    }
  }

  /** In a run that did not throw, an accepted last file entry has its bytes at its candidate. */
  lemma LastFileWritten(t: Tree, locked: set<Path>, targetDir: Path, entries: seq<Entry>)
    requires |entries| > 0 && !ExtractAll(t, locked, targetDir, entries).failed
    requires Accepts(targetDir, entries[|entries| - 1]) && !IsDirectory(entries[|entries| - 1])
    ensures var r := ExtractAll(t, locked, targetDir, entries).tree;
            var e := entries[|entries| - 1];
            Candidate(targetDir, e) in r && r[Candidate(targetDir, e)] == File(e.contents)
  {
    ExtractAllLast(t, locked, targetDir, entries);
  }

  /** The run over the first `i + 1` entries is the run over the first `i`, then, unless that threw, entry `i`. */
  lemma ExtractAllStep(t: Tree, locked: set<Path>, targetDir: Path, entries: seq<Entry>, i: nat)
    requires i < |entries|
    ensures var prev := ExtractAll(t, locked, targetDir, entries[..i]);
            ExtractAll(t, locked, targetDir, entries[..i + 1]) ==
              if prev.failed then prev else ExtractEntry(prev.tree, locked, targetDir, entries[i], prev.count)
  {
    assert entries[..i + 1][..i] == entries[..i];
  }

  /** A non-empty run that did not throw is the run over all but the last entry, which did not throw either, and then that entry. */
  lemma ExtractAllLast(t: Tree, locked: set<Path>, targetDir: Path, entries: seq<Entry>)
    requires |entries| > 0 && !ExtractAll(t, locked, targetDir, entries).failed
    ensures var prev := ExtractAll(t, locked, targetDir, entries[..|entries| - 1]);
            && !prev.failed
            && ExtractAll(t, locked, targetDir, entries) == ExtractEntry(prev.tree, locked, targetDir, entries[|entries| - 1], prev.count)
  {
  }

  /** An entry that does not throw and is not an accepted file entry for `p` leaves the file at `p` as it was. */
  lemma EntryKeepsFile(t: Tree, locked: set<Path>, targetDir: Path, e: Entry, count: nat, p: Path, data: seq<byte>)
    requires p in t && t[p] == File(data)
    requires !ExtractEntry(t, locked, targetDir, e, count).failed
    requires Accepts(targetDir, e) && !IsDirectory(e) ==> Candidate(targetDir, e) != p
    ensures p in ExtractEntry(t, locked, targetDir, e, count).tree
    ensures ExtractEntry(t, locked, targetDir, e, count).tree[p] == File(data)
  {
  }

  /**
   * Completeness: after a run without an exception, every entry the guard
   * accepted has its candidate in the file system, as a directory or as a
   * file.
   */
  lemma {:induction false} ExtractAllComplete(t: Tree, locked: set<Path>, targetDir: Path, entries: seq<Entry>, i: nat)
    requires !ExtractAll(t, locked, targetDir, entries).failed
    requires i < |entries| && Accepts(targetDir, entries[i])
    ensures ExistsIn(ExtractAll(t, locked, targetDir, entries).tree, Candidate(targetDir, entries[i]))
    decreases |entries|
  {
    var init := entries[..|entries| - 1];
    var prev := ExtractAll(t, locked, targetDir, init);
    assert !prev.failed;
    if i < |entries| - 1 {
      assert init[i] == entries[i];
      ExtractAllComplete(t, locked, targetDir, init, i);
    }
  }

  /**
   * An archive whose every entry the guard rejects (an empty one
   * included) leaves the file system as it was, with a count of zero and
   * no error.
   */
  lemma {:induction false} AllRejectedChangesNothing(t: Tree, locked: set<Path>, targetDir: Path, entries: seq<Entry>)
    requires forall i :: 0 <= i < |entries| ==> !HasNul(entries[i]) && !Accepts(targetDir, entries[i])
    ensures ExtractAll(t, locked, targetDir, entries) == Progress(t, 0, false)
    decreases |entries|
  {
    if entries != [] {
      AllRejectedChangesNothing(t, locked, targetDir, entries[..|entries| - 1]);
    }
  }
}
