/**
 * The order `UnixPath.compareTo` puts paths in (the bytes of the path
 * strings, compared lexicographically), and the descending sort that
 * `deleteDirectory` applies to a walked tree before deleting it.
 */
module PathOrder {
  import opened Paths

  /** The names joined by '/'. */
  function JoinSegments(segs: seq<string>): string {
    if |segs| == 0 then ""
    else if |segs| == 1 then segs[0]
    else JoinSegments(segs[..|segs| - 1]) + "/" + segs[|segs| - 1]
  }

  /** The string form of a path, as `toString` gives it. */
  function Render(p: Path): string {
    (if p.absolute then "/" else "") + JoinSegments(p.segs)
  }

  /** A string free of separators is a single piece, or none when empty. */
  lemma {:induction false} SplitPlain(s: string, cur: string)
    requires '/' !in s && '/' !in cur
    ensures Split(s, cur) == if cur + s == [] then [] else [cur + s]
    decreases |s|
  {
    if s == [] {
      assert cur + s == cur;
    } else {
      assert (cur + [s[0]]) + s[1..] == cur + s;
      SplitPlain(s[1..], cur + [s[0]]);
    }
  }

  lemma {:induction false} JoinFirst(segs: seq<string>)
    requires |segs| > 0 && ValidSegment(segs[0])
    ensures |JoinSegments(segs)| > 0 && JoinSegments(segs)[0] == segs[0][0]
    decreases |segs|
  {
    if |segs| > 1 {
      var init := segs[..|segs| - 1];
      JoinFirst(init);
    }
  }

  lemma {:induction false} SplitJoin(segs: seq<string>)
    requires forall i :: 0 <= i < |segs| ==> ValidSegment(segs[i])
    ensures Split(JoinSegments(segs), []) == segs
    decreases |segs|
  {
    if |segs| == 1 {
      SplitPlain(segs[0], []);
      assert [] + segs[0] == segs[0];
    } else if |segs| > 1 {
      var init := segs[..|segs| - 1];
      var last := segs[|segs| - 1];
      SplitJoin(init);
      SplitAtSeparator(JoinSegments(init), last, []);
      SplitPlain(last, []);
      assert [] + last == last;
      assert init + [last] == segs;
    }
  }

  /** Parsing the string form of a path gives the path back. */
  lemma ParseRender(p: Path)
    requires ValidPath(p)
    ensures Parse(Render(p)) == p
  {
    var j := JoinSegments(p.segs);
    SplitJoin(p.segs);
    if p.absolute {
      assert ("/" + j)[0] == '/' && ("/" + j)[1..] == j;
    } else {
      assert "" + j == j;
      if p.segs != [] {
        JoinFirst(p.segs);
      }
    }
  }

  /** Lexicographic order on strings; a proper prefix comes first. */
  predicate StrLess(a: string, b: string) {
    if a == [] then b != []
    else b != [] && (a[0] < b[0] || (a[0] == b[0] && StrLess(a[1..], b[1..])))
  }

  /**
   * `p.compareTo(q) < 0`: no path is below itself, and a proper ancestor
   * is below each of its descendants, so that the reversed order visits
   * the entries of a directory before the directory.
   */
  predicate Less(p: Path, q: Path): (r: bool)
    ensures p == q ==> !r
    ensures ValidPath(q) && StrictAncestor(p, q) ==> r
  {
    StrLessIrreflexive(Render(p));
    AncestorRendersLess(p, q);
    StrLess(Render(p), Render(q))
  }

  predicate IsStrictPrefix(a: string, b: string) {
    |a| < |b| && b[..|a|] == a
  }

  lemma {:induction false} StrLessIrreflexive(a: string)
    ensures !StrLess(a, a)
  {
    if a != [] {
      StrLessIrreflexive(a[1..]);
    }
  }

  lemma {:induction false} StrLessTransitive(a: string, b: string, c: string)
    requires StrLess(a, b) && StrLess(b, c)
    ensures StrLess(a, c)
  {
    if a != [] && a[0] == b[0] && b[0] == c[0] {
      StrLessTransitive(a[1..], b[1..], c[1..]);
    }
  }

  lemma {:induction false} StrictPrefixIsLess(a: string, b: string)
    requires IsStrictPrefix(a, b)
    ensures StrLess(a, b)
  {
    if a != [] {
      assert b[0] == a[0];
      assert b[1..][..|a[1..]|] == a[1..];
      StrictPrefixIsLess(a[1..], b[1..]);
    }
  }

  /** Joining fewer leading names of valid segments gives a proper prefix of the whole. */
  lemma {:induction false} JoinPrefix(segs: seq<string>, k: nat)
    requires forall i :: 0 <= i < |segs| ==> ValidSegment(segs[i])
    requires k < |segs|
    ensures IsStrictPrefix(JoinSegments(segs[..k]), JoinSegments(segs))
    decreases |segs|
  {
    var n := |segs|;
    var init := segs[..n - 1];
    if n == 1 {
      assert segs[..k] == [];
    } else if k == n - 1 {
      assert segs[..k] == init;
      var j := JoinSegments(init);
      assert JoinSegments(segs) == j + "/" + segs[n - 1];
      assert (j + "/" + segs[n - 1])[..|j|] == j;
    } else {
      assert init[..k] == segs[..k];
      JoinPrefix(init, k);
      var j := JoinSegments(init);
      assert JoinSegments(segs) == j + "/" + segs[n - 1];
      assert (j + "/" + segs[n - 1])[..|j|] == j;
    }
  }

  /** The string of a proper ancestor sorts before the string of each of its descendants. */
  lemma AncestorRendersLess(a: Path, p: Path)
    ensures ValidPath(p) && StrictAncestor(a, p) ==> StrLess(Render(a), Render(p))
  {
    if ValidPath(p) && StrictAncestor(a, p) {
      JoinPrefix(p.segs, |a.segs|);
      var ja := JoinSegments(a.segs);
      var jp := JoinSegments(p.segs);
      if p.absolute {
        assert ("/" + jp)[..|"/" + ja|] == "/" + ja;
        StrictPrefixIsLess("/" + ja, "/" + jp);
      } else {
        assert "" + ja == ja && "" + jp == jp;
        StrictPrefixIsLess(ja, jp);
      }
    }
  }

  /** No element after position `i` sorts above the element at `i`. */
  predicate SortedDescending(order: seq<Path>) {
    forall i, j :: 0 <= i < j < |order| ==> !Less(order[i], order[j])
  }

  predicate Distinct(order: seq<Path>) {
    forall i, j :: 0 <= i < j < |order| ==> order[i] != order[j]
  }

  /** An element of `s` that nothing in `s` sorts above. */
  method MaxOf(s: set<Path>) returns (m: Path)
    requires s != {}
    ensures m in s
    ensures forall q :: q in s ==> !Less(m, q)
  {
    m :| m in s;
    var seen := {m};
    StrLessIrreflexive(Render(m));
    while seen != s
      invariant seen <= s && m in seen
      invariant forall q :: q in seen ==> !Less(m, q)
      decreases |s - seen|
    {
      var q :| q in s - seen;
      if Less(m, q) {
        forall x | x in seen ensures !Less(q, x) {
          if Less(q, x) {
            StrLessTransitive(Render(m), Render(q), Render(x));
          }
        }
        StrLessIrreflexive(Render(q));
        m := q;
      }
      seen := seen + {q};
    }
  }

  /** The state of the selection sort: `order` holds the elements of `s` taken so far, in order, and `rest` the others. */
  ghost predicate Selecting(s: set<Path>, order: seq<Path>, rest: set<Path>) {
    && (forall p :: p in order || p in rest <==> p in s)
    && (forall i :: 0 <= i < |order| ==> order[i] !in rest)
    && Distinct(order)
    && SortedDescending(order)
    && (forall i, q :: 0 <= i < |order| && q in rest ==> !Less(order[i], q))
  }

  /** Moving an element that nothing remaining sorts above from `rest` to the end of `order` keeps the state. */
  lemma SelectStep(s: set<Path>, order: seq<Path>, rest: set<Path>, m: Path)
    requires Selecting(s, order, rest)
    requires m in rest && forall q :: q in rest ==> !Less(m, q)
    ensures Selecting(s, order + [m], rest - {m})
  {
    var o := order + [m];
    forall i, j | 0 <= i < j < |o| ensures !Less(o[i], o[j]) && o[i] != o[j] {
      if j == |order| {
        assert o[i] == order[i] && o[j] == m;
      } else {
        assert o[i] == order[i] && o[j] == order[j];
      }
    }
    forall i, q | 0 <= i < |o| && q in rest - {m} ensures !Less(o[i], q) {
      if i < |order| {
        assert o[i] == order[i];
      }
    }
    forall p ensures p in o || p in rest - {m} <==> p in s {
      assert p in o <==> p in order || p == m;
    }
    forall i | 0 <= i < |o| ensures o[i] !in rest - {m} {
      if i < |order| {
        assert o[i] == order[i];
      }
    }
  }

  /**
   * `paths.sorted((p1, p2) -> -p1.compareTo(p2))`: the walked paths in
   * descending order, each exactly once.
   */
  method SortDescending(s: set<Path>) returns (order: seq<Path>)
    ensures forall p :: p in order <==> p in s
    ensures Distinct(order)
    ensures SortedDescending(order)
  {
    var rest := s;
    order := [];
    while rest != {}
      invariant Selecting(s, order, rest)
      decreases |rest|
    {
      var m := MaxOf(rest);
      SelectStep(s, order, rest, m);
      order := order + [m];
      rest := rest - {m};
    }
  }
}
