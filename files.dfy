/**
 * A local file system, abstracted to a map from normalized paths to
 * nodes, and the `java.nio.file.Files` operations the storage service
 * uses on it. The roots ("/" and the relative "") always exist as
 * directories and are not keys of the map.
 */
module Files {
  import opened Results
  import opened Paths
  import opened PathOrder

  type byte = bv8

  datatype Node = Dir | File(data: seq<byte>)

  type Tree = map<Path, Node>

  function Prefix(p: Path, k: nat): (r: Path)
    requires k <= |p.segs|
    ensures StartsWith(p, r) && |r.segs| == k
  {
    Path(p.absolute, p.segs[..k])
  }

  function Parent(p: Path): (r: Path)
    requires |p.segs| > 0
    ensures StrictAncestor(r, p) && |r.segs| == |p.segs| - 1
  {
    Prefix(p, |p.segs| - 1)
  }

  predicate ExistsIn(t: Tree, p: Path) {
    p.segs == [] || p in t
  }

  predicate IsDir(t: Tree, p: Path) {
    p.segs == [] || (p in t && t[p] == Dir)
  }

  /** Some entry lies strictly below `p`: for a directory, it is not empty. */
  predicate HasEntriesBelow(t: Tree, p: Path) {
    exists c :: c in t && StrictAncestor(p, c)
  }

  /** Every key is a valid non-root path and every proper ancestor of a key is a directory key. */
  ghost predicate WellFormed(t: Tree) {
    && (forall p :: p in t ==> |p.segs| > 0 && ValidPath(p))
    && (forall p, k :: p in t && 0 < k < |p.segs| ==> Prefix(p, k) in t && t[Prefix(p, k)] == Dir)
  }

  /** Nothing outside the subtree at `root` differs between `t` and `u`. */
  ghost predicate UnchangedOutside(t: Tree, u: Tree, root: Path) {
    forall p :: !StartsWith(p, root) ==> (p in t <==> p in u) && (p in t ==> u[p] == t[p])
  }

  /** Every entry of `t` is still in `u`. */
  ghost predicate KeepsEntries(t: Tree, u: Tree) {
    forall p :: p in t ==> p in u
  }

  /** The non-root prefixes of `p`, `p` included. */
  function Ancestry(p: Path): set<Path> {
    set k | 0 < k <= |p.segs| :: Prefix(p, k)
  }

  predicate FileOnTheWay(t: Tree, p: Path) {
    exists k :: 0 < k <= |p.segs| && Prefix(p, k) in t && t[Prefix(p, k)].File?
  }

  /**
   * `Files.createDirectories(p)`: fails when `p` or one of its ancestors
   * is a regular file; otherwise every missing prefix becomes a directory.
   */
  function CreateDirectoriesIn(t: Tree, p: Path): (r: Option<Tree>)
    ensures r.Some? <==> !FileOnTheWay(t, p)
    ensures r.Some? ==> IsDir(r.value, p)
    ensures r.Some? ==> forall k :: 0 < k <= |p.segs| ==> IsDir(r.value, Prefix(p, k))
    ensures r.Some? ==> forall q :: q in t ==> q in r.value && r.value[q] == t[q]
    ensures r.Some? ==> forall q :: q in r.value && q !in t ==> r.value[q] == Dir && StartsWith(p, q) && |q.segs| > 0
  {
    if FileOnTheWay(t, p) then None
    else
      var u := t + map q | q in Ancestry(p) :: Dir;
      assert |p.segs| > 0 ==> p == Prefix(p, |p.segs|);
      assert forall q :: q in u && q !in t ==> exists k :: 0 < k <= |p.segs| && q == Prefix(p, k);
      Some(u)
  }

  lemma CreateDirectoriesWellFormed(t: Tree, p: Path)
    requires WellFormed(t) && ValidPath(p)
    requires CreateDirectoriesIn(t, p).Some?
    ensures WellFormed(CreateDirectoriesIn(t, p).value)
  {
    AddedDirectoriesWellFormed(t, CreateDirectoriesIn(t, p).value, p);
  }

  /** Adding directories that are prefixes of a valid `p` whose own prefixes are all directories keeps a tree well-formed. */
  lemma AddedDirectoriesWellFormed(t: Tree, u: Tree, p: Path)
    requires WellFormed(t) && ValidPath(p)
    requires forall q :: q in t ==> q in u && u[q] == t[q]
    requires forall q :: q in u && q !in t ==> StartsWith(p, q) && |q.segs| > 0
    requires forall k :: 0 < k <= |p.segs| ==> IsDir(u, Prefix(p, k))
    ensures WellFormed(u)
  {
    forall q, k | q in u && 0 < k < |q.segs| ensures Prefix(q, k) in u && u[Prefix(q, k)] == Dir {
      if q !in t {
        assert Prefix(q, k) == Prefix(p, k) by {
          assert q.segs[..k] == p.segs[..|q.segs|][..k];
        }
      }
    }
    forall q | q in u && q !in t ensures ValidPath(q) {
      assert forall i :: 0 <= i < |q.segs| ==> q.segs[i] == p.segs[i];
    }
  }

  /** Creating directories that already exist changes nothing: the operation is idempotent. */
  lemma CreateDirectoriesIdempotent(t: Tree, p: Path)
    requires CreateDirectoriesIn(t, p).Some?
    ensures CreateDirectoriesIn(CreateDirectoriesIn(t, p).value, p) == CreateDirectoriesIn(t, p)
  {
    var u := CreateDirectoriesIn(t, p).value;
    var v := CreateDirectoriesIn(u, p).value;
    assert forall q :: q in v ==> q in u && v[q] == u[q];
    assert v == u;
  }

  /**
   * `Files.copy(in, p, REPLACE_EXISTING)`: as the JDK does it,
   * `deleteIfExists(p)` and then a new file at `p`. It fails when the
   * parent is not a directory, or when an existing `p` cannot be deleted
   * (refused, or a non-empty directory); on success `p` holds the new
   * bytes and nothing else changes.
   */
  function CopyInto(t: Tree, p: Path, data: seq<byte>, locked: set<Path>): (r: Option<Tree>)
    ensures r.Some? <==> |p.segs| > 0 && IsDir(t, Parent(p)) && (p in t ==> p !in locked && !HasEntriesBelow(t, p))
    ensures r.Some? ==> r.value == t[p := File(data)]
    ensures WellFormed(t) && ValidPath(p) && r.Some? ==> WellFormed(r.value)
  {
    match DeleteIfExistsIn(t, p, locked)
    case None => None
    case Some(u) =>
      assert u[p := File(data)] == t[p := File(data)];
      assert |p.segs| > 0 ==> (IsDir(u, Parent(p)) <==> IsDir(t, Parent(p)));
      CreateFileIn(u, p, data)
  }

  /** Writing a file at `p`, below a directory and with nothing under `p`, keeps a tree well-formed. */
  lemma WriteWellFormed(t: Tree, p: Path, data: seq<byte>)
    requires |p.segs| > 0 && IsDir(t, Parent(p))
    ensures WellFormed(t) && ValidPath(p) && (p in t ==> !HasEntriesBelow(t, p)) ==> WellFormed(t[p := File(data)])
  {
    if WellFormed(t) && ValidPath(p) && (p in t ==> !HasEntriesBelow(t, p)) {
      var u := t[p := File(data)];
      forall q, k | q in u && 0 < k < |q.segs| ensures Prefix(q, k) in u && u[Prefix(q, k)] == Dir {
        if q == p {
          var par := Parent(p);
          if k < |p.segs| - 1 {
            assert Prefix(par, k) == Prefix(p, k);
          } else {
            assert Prefix(p, k) == par;
          }
        } else if Prefix(q, k) == p {
          assert StrictAncestor(p, q);
          assert false;
        }
      }
    }
  }

  /**
   * `ResponseTransformer.toFile(p)`, the download target: it fails when
   * the parent is not a directory or something exists at `p` already;
   * otherwise `p` is a new file with the bytes, and a well-formed tree
   * stays well-formed.
   */
  function CreateFileIn(t: Tree, p: Path, data: seq<byte>): (r: Option<Tree>)
    ensures r.Some? <==> |p.segs| > 0 && IsDir(t, Parent(p)) && p !in t
    ensures r.Some? ==> r.value == t[p := File(data)]
    ensures WellFormed(t) && ValidPath(p) && r.Some? ==> WellFormed(r.value)
  {
    if |p.segs| == 0 || !IsDir(t, Parent(p)) || p in t then None
    else
      WriteWellFormed(t, p, data);
      Some(t[p := File(data)])
  }

  /**
   * `Files.delete(p)`: fails when nothing is at `p`, when `p` is a
   * non-empty directory, or when the system refuses (`p` in `locked`);
   * otherwise `p` alone goes, and a well-formed tree stays well-formed.
   */
  function DeleteIn(t: Tree, p: Path, locked: set<Path>): (r: Option<Tree>)
    ensures r.Some? <==> p in t && p !in locked && !HasEntriesBelow(t, p)
    ensures r.Some? ==> r.value == t - {p}
    ensures WellFormed(t) && r.Some? ==> WellFormed(r.value)
  {
    if p !in t || p in locked || HasEntriesBelow(t, p) then None
    else Some(t - {p})
  }

  /**
   * `Files.deleteIfExists(p)`: fails only when an existing `p` cannot be
   * deleted; afterwards nothing is at `p`, nothing else changed, and a
   * well-formed tree stays well-formed.
   */
  function DeleteIfExistsIn(t: Tree, p: Path, locked: set<Path>): (r: Option<Tree>)
    ensures r.Some? <==> (p in t ==> p !in locked && !HasEntriesBelow(t, p))
    ensures r.Some? ==> r.value == t - {p} && p !in r.value
    ensures WellFormed(t) && r.Some? ==> WellFormed(r.value)
  {
    if p !in t then
      assert t - {p} == t;
      Some(t)
    else DeleteIn(t, p, locked)
  }

  /**
   * `Files.walk(dir)`: `dir` and everything below it. In a well-formed
   * tree the walk is closed on the way up to `dir`: every walked entry is
   * reached from `dir` through walked directories.
   */
  function Walk(t: Tree, dir: Path): (r: set<Path>)
    ensures forall p :: p in r <==> p in t && StartsWith(p, dir)
    ensures WellFormed(t) ==> forall p, k :: p in r && |dir.segs| <= k < |p.segs| && 0 < k ==> Prefix(p, k) in r && t[Prefix(p, k)] == Dir
  {
    var r := set p | p in t && StartsWith(p, dir);
    assert WellFormed(t) ==> forall p, k :: p in r && |dir.segs| <= k < |p.segs| && 0 < k ==> Prefix(p, k) in r && t[Prefix(p, k)] == Dir by {
      if WellFormed(t) {
        forall p, k | p in r && |dir.segs| <= k < |p.segs| && 0 < k ensures Prefix(p, k) in r {
          assert Prefix(p, k).segs[..|dir.segs|] == p.segs[..|dir.segs|];
        }
      }
    }
    r
  }

  /**
   * Deletes each path of `order` in turn, best effort: a failed deletion
   * leaves that path and goes on. Only paths of `order` can go, and what
   * stays is unchanged.
   */
  function DeleteEach(t: Tree, order: seq<Path>, locked: set<Path>): (r: Tree)
    ensures forall p :: p in r ==> p in t && r[p] == t[p]
    ensures forall p :: p in t && p !in order ==> p in r
    decreases |order|
  {
    if order == [] then t
    else
      var init := order[..|order| - 1];
      var prev := DeleteEach(t, init, locked);
      assert forall p :: p in order && p != order[|order| - 1] ==> p in init;
      match DeleteIn(prev, order[|order| - 1], locked)
      case None => prev
      case Some(u) => u
  }

  /** Something under `dir` that is at or below `p` cannot be deleted, so `p` survives a recursive delete. */
  predicate Pinned(t: Tree, locked: set<Path>, dir: Path, p: Path) {
    exists d :: d in t && d in locked && StartsWith(d, dir) && StartsWith(d, p)
  }

  /**
   * What a best-effort recursive delete of `dir` leaves: everything
   * outside `dir`, and what is pinned. It only removes; nothing outside
   * `dir` changes, and no refused path goes.
   */
  function Cleared(t: Tree, locked: set<Path>, dir: Path): (r: Tree)
    ensures forall p :: p in r ==> p in t && r[p] == t[p]
    ensures UnchangedOutside(t, r, dir)
    ensures forall p :: p in t && p in locked ==> p in r
  {
    assert forall p :: p in t && p in locked && StartsWith(p, dir) ==> Pinned(t, locked, dir, p) by {
      forall p | p in t && p in locked && StartsWith(p, dir) ensures Pinned(t, locked, dir, p) {
        assert StartsWith(p, p);
      }
    }
    map p | p in t && (!StartsWith(p, dir) || Pinned(t, locked, dir, p)) :: t[p]
  }

  /** Some strict ancestor of `p` is a regular file. */
  predicate FileAbove(t: Tree, p: Path) {
    exists k :: 0 < k < |p.segs| && Prefix(p, k) in t && t[Prefix(p, k)].File?
  }

  /**
   * After a recursive delete of `dir`, a file lies on the way to `dir`
   * exactly when one lies above it, or `dir` is itself a file whose
   * deletion was refused.
   */
  lemma ClearedOnTheWay(t: Tree, locked: set<Path>, dir: Path)
    ensures FileOnTheWay(Cleared(t, locked, dir), dir) <==>
            FileAbove(t, dir) || (|dir.segs| > 0 && dir in t && t[dir].File? && Pinned(t, locked, dir, dir))
  {
    var c := Cleared(t, locked, dir);
    if |dir.segs| > 0 {
      assert Prefix(dir, |dir.segs|) == dir;
    }
    forall k | 0 < k < |dir.segs| ensures (Prefix(dir, k) in c <==> Prefix(dir, k) in t) {
      assert !StartsWith(Prefix(dir, k), dir);
    }
  }

  /** With nothing at `dir`, a file lies on the way to `dir` exactly when one lies above it. */
  lemma AbsentOnTheWay(t: Tree, dir: Path)
    ensures dir !in t ==> (FileOnTheWay(t, dir) <==> FileAbove(t, dir))
  {
    if |dir.segs| > 0 {
      assert Prefix(dir, |dir.segs|) == dir;
    }
  }

  /** After the first `i` paths of `order`: each of them is gone unless pinned; nothing else moved. */
  ghost predicate DeletedUpTo(t: Tree, locked: set<Path>, dir: Path, order: seq<Path>, i: nat, r: Tree)
    requires i <= |order|
  {
    forall p :: (p in r <==> p in t && (p !in order[..i] || Pinned(t, locked, dir, p))) && (p in r ==> r[p] == t[p])
  }

  lemma {:induction false} DeleteEachPrefix(t: Tree, locked: set<Path>, dir: Path, order: seq<Path>, i: nat)
    requires forall p :: p in t ==> ValidPath(p)
    requires forall p :: p in order <==> p in Walk(t, dir)
    requires Distinct(order) && SortedDescending(order)
    requires i <= |order|
    ensures DeletedUpTo(t, locked, dir, order, i, DeleteEach(t, order[..i], locked))
    decreases i
  {
    if i == 0 {
      assert order[..0] == [];
    } else {
      var j := i - 1;
      DeleteEachPrefix(t, locked, dir, order, j);
      var r := DeleteEach(t, order[..j], locked);
      DeleteEachLast(t, order, locked, j);
      if Pinned(t, locked, dir, order[j]) {
        PinnedStays(t, locked, dir, order, j, r);
        DeletedNext(t, locked, dir, order, j, r, r);
      } else {
        UnpinnedGoes(t, locked, dir, order, j, r);
        DeletedNext(t, locked, dir, order, j, r, r - {order[j]});
      }
    }
  }

  /** The run over the first `j + 1` paths is the run over the first `j`, then one more deletion. */
  lemma DeleteEachLast(t: Tree, order: seq<Path>, locked: set<Path>, j: nat)
    requires j < |order|
    ensures var r := DeleteEach(t, order[..j], locked);
            DeleteEach(t, order[..j + 1], locked) == match DeleteIn(r, order[j], locked) case None => r case Some(u) => u
  {
    assert order[..j + 1][..j] == order[..j];
  }

  /** A pinned path cannot be deleted when its turn comes: what pins it is still there. */
  lemma PinnedStays(t: Tree, locked: set<Path>, dir: Path, order: seq<Path>, j: nat, r: Tree)
    requires forall p :: p in order <==> p in Walk(t, dir)
    requires j < |order| && DeletedUpTo(t, locked, dir, order, j, r)
    requires Pinned(t, locked, dir, order[j])
    ensures DeleteIn(r, order[j], locked).None?
  {
    var p := order[j];
    var d :| d in t && d in locked && StartsWith(d, dir) && StartsWith(d, p);
    assert Pinned(t, locked, dir, d);
    if d != p {
      if |d.segs| == |p.segs| {
        StartsWithSameLength(d, p);
      }
      assert d in r && StrictAncestor(p, d);
    }
  }

  /** An unpinned path is deleted when its turn comes: everything below it went before. */
  lemma UnpinnedGoes(t: Tree, locked: set<Path>, dir: Path, order: seq<Path>, j: nat, r: Tree)
    requires forall p :: p in t ==> ValidPath(p)
    requires forall p :: p in order <==> p in Walk(t, dir)
    requires Distinct(order) && SortedDescending(order)
    requires j < |order| && DeletedUpTo(t, locked, dir, order, j, r)
    requires !Pinned(t, locked, dir, order[j])
    ensures DeleteIn(r, order[j], locked) == Some(r - {order[j]})
  {
    var p := order[j];
    assert p in Walk(t, dir);
    assert p !in order[..j];
    assert p in r;
    assert p !in locked;
    forall c | c in r && StrictAncestor(p, c) ensures false {
      StartsWithTransitive(c, p, dir);
      assert c in Walk(t, dir);
      var m :| 0 <= m < |order| && order[m] == c;
      assert Less(p, c);
      assert m < j;
      assert c in order[..j];
      var d :| d in t && d in locked && StartsWith(d, dir) && StartsWith(d, c);
      StartsWithTransitive(d, c, p);
    }
  }

  /** One more path of `order` has had its turn. */
  lemma DeletedNext(t: Tree, locked: set<Path>, dir: Path, order: seq<Path>, j: nat, r: Tree, r': Tree)
    requires Distinct(order)
    requires j < |order| && DeletedUpTo(t, locked, dir, order, j, r)
    requires Pinned(t, locked, dir, order[j]) ==> r' == r
    requires !Pinned(t, locked, dir, order[j]) ==> r' == r - {order[j]}
    ensures DeletedUpTo(t, locked, dir, order, j + 1, r')
  {
    assert order[..j + 1] == order[..j] + [order[j]];
  }

  /**
   * Deleting the walked tree of `dir` in descending order, best effort,
   * removes exactly what is not pinned by an undeletable entry below it:
   * every descendant goes before its ancestor, so an ancestor only stays
   * when something under it had to stay.
   */
  lemma DeleteEachClears(t: Tree, locked: set<Path>, dir: Path, order: seq<Path>)
    requires forall p :: p in t ==> ValidPath(p)
    requires forall p :: p in order <==> p in Walk(t, dir)
    requires Distinct(order) && SortedDescending(order)
    ensures DeleteEach(t, order, locked) == Cleared(t, locked, dir)
  {
    DeleteEachPrefix(t, locked, dir, order, |order|);
    assert order[..|order|] == order;
  }

  /** With nothing locked under `dir`, a recursive delete leaves nothing at or below `dir`. */
  lemma ClearedRemovesAll(t: Tree, locked: set<Path>, dir: Path)
    requires forall d :: d in locked && d in t ==> !StartsWith(d, dir)
    ensures forall p :: p in Cleared(t, locked, dir) <==> p in t && !StartsWith(p, dir)
  {
  }

  /** In a well-formed tree, every non-root path that a key starts with is itself a key. */
  lemma AncestorPresent(t: Tree, p: Path, a: Path)
    requires WellFormed(t) && p in t && StartsWith(p, a) && |a.segs| > 0
    ensures a in t
  {
    if |a.segs| == |p.segs| {
      StartsWithSameLength(p, a);
    } else {
      assert Prefix(p, |a.segs|) == a;
    }
  }

  /** When `dir` does not exist there is nothing below it, and a recursive delete changes nothing. */
  lemma ClearedAbsent(t: Tree, locked: set<Path>, dir: Path)
    requires WellFormed(t) && !ExistsIn(t, dir)
    ensures Cleared(t, locked, dir) == t
  {
    forall p | p in t ensures !StartsWith(p, dir) {
      if StartsWith(p, dir) {
        AncestorPresent(t, p, dir);
      }
    }
  }

  lemma ClearedWellFormed(t: Tree, locked: set<Path>, dir: Path)
    requires WellFormed(t)
    ensures WellFormed(Cleared(t, locked, dir))
  {
    var u := Cleared(t, locked, dir);
    forall q, k | q in u && 0 < k < |q.segs| ensures Prefix(q, k) in u && u[Prefix(q, k)] == Dir {
      var a := Prefix(q, k);
      if StartsWith(a, dir) {
        StartsWithTransitive(q, a, dir);
        var d :| d in t && d in locked && StartsWith(d, dir) && StartsWith(d, q);
        StartsWithTransitive(d, q, a);
        assert Pinned(t, locked, dir, a);
      }
    }
  }

  /** The machine's file system, with the set of paths whose deletion the operating system refuses. */
  class FileSystem {
    var nodes: Tree
    const locked: set<Path>

    ghost predicate Valid()
      reads this
    {
      WellFormed(nodes)
    }

    constructor (nodes: Tree, locked: set<Path>)
      requires WellFormed(nodes)
      ensures Valid() && this.nodes == nodes && this.locked == locked
    {
      this.nodes := nodes;
      this.locked := locked;
    }

    /** `Files.exists(p)`. */
    function Exists(p: Path): bool
      reads this
    {
      ExistsIn(nodes, p)
    }

    /** `Files.createDirectories(p)`; `ok` is false where it throws. */
    method CreateDirectories(p: Path) returns (ok: bool)
      requires Valid() && ValidPath(p)
      modifies this
      ensures Valid()
      ensures ok == CreateDirectoriesIn(old(nodes), p).Some?
      ensures nodes == if ok then CreateDirectoriesIn(old(nodes), p).value else old(nodes)
    {
      var r := CreateDirectoriesIn(nodes, p);
      ok := r.Some?;
      if ok {
        CreateDirectoriesWellFormed(nodes, p);
        nodes := r.value;
      }
    }

    /** `Files.copy(in, p, REPLACE_EXISTING)` with the stream's bytes `data`. */
    method Copy(p: Path, data: seq<byte>) returns (ok: bool)
      requires Valid() && ValidPath(p)
      modifies this
      ensures Valid()
      ensures ok == CopyInto(old(nodes), p, data, locked).Some?
      ensures nodes == if ok then CopyInto(old(nodes), p, data, locked).value else old(nodes)
    {
      var r := CopyInto(nodes, p, data, locked);
      ok := r.Some?;
      if ok {
        nodes := r.value;
      }
    }

    /** A new regular file at `p`, failing if anything is there already. */
    method CreateFile(p: Path, data: seq<byte>) returns (ok: bool)
      requires Valid() && ValidPath(p)
      modifies this
      ensures Valid()
      ensures ok == CreateFileIn(old(nodes), p, data).Some?
      ensures nodes == if ok then CreateFileIn(old(nodes), p, data).value else old(nodes)
    {
      var r := CreateFileIn(nodes, p, data);
      ok := r.Some?;
      if ok {
        nodes := r.value;
      }
    }

    /** `Files.delete(p)`; `ok` is false where it throws. */
    method Delete(p: Path) returns (ok: bool)
      requires Valid()
      modifies this
      ensures Valid()
      ensures ok == DeleteIn(old(nodes), p, locked).Some?
      ensures nodes == if ok then DeleteIn(old(nodes), p, locked).value else old(nodes)
    {
      var r := DeleteIn(nodes, p, locked);
      ok := r.Some?;
      if ok {
        nodes := r.value;
      }
    }

    /** `Files.deleteIfExists(p)`; `ok` is false where it throws. */
    method DeleteIfExists(p: Path) returns (ok: bool)
      requires Valid()
      modifies this
      ensures Valid()
      ensures ok == DeleteIfExistsIn(old(nodes), p, locked).Some?
      ensures nodes == if ok then DeleteIfExistsIn(old(nodes), p, locked).value else old(nodes)
    {
      if p in nodes {
        ok := Delete(p);
      } else {
        ok := true;
      }
    }
  }
}
