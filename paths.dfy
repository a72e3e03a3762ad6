/**
 * Unix-style paths, as java.nio's UnixPath treats them: a path is an
 * absolute flag and a sequence of name segments. This module gives the
 * string parsing (`Paths.get`, `Path.resolve(String)`), `normalize` and
 * `startsWith`, which together make up the traversal guard of the
 * archive extractor.
 */
module Paths {

  datatype Path = Path(absolute: bool, segs: seq<string>)

  /** A name element: non-empty and free of the separator. */
  predicate ValidSegment(s: string) {
    |s| > 0 && '/' !in s
  }

  predicate ValidPath(p: Path) {
    forall i :: 0 <= i < |p.segs| ==> ValidSegment(p.segs[i])
  }

  /**
   * Splits `s` on '/', dropping empty pieces, so that repeated and
   * trailing separators vanish as they do when a UnixPath is built.
   * `cur` is the piece read so far.
   */
  function Split(s: string, cur: string): (r: seq<string>)
    requires '/' !in cur
    ensures forall i :: 0 <= i < |r| ==> ValidSegment(r[i])
    decreases |s|
  {
    if s == [] then
      (if cur == [] then [] else [cur])
    else if s[0] == '/' then
      (if cur == [] then [] else [cur]) + Split(s[1..], [])
    else
      Split(s[1..], cur + [s[0]])
  }

  /** The path a string denotes; it is absolute when it starts with '/'. */
  function Parse(s: string): (p: Path)
    ensures ValidPath(p)
    ensures p.absolute <==> (|s| > 0 && s[0] == '/')
  {
    Path(|s| > 0 && s[0] == '/', Split(s, []))
  }

  /** The string `Paths.get(first, more)` parses: the parts joined by '/', empty parts left out. */
  function JoinNames(first: string, more: string): string {
    if more == [] then first
    else if first == [] then more
    else first + "/" + more
  }

  /**
   * `base.resolve(other)`: an absolute `other` wins; a relative one lands
   * below `base`, continuing it with `other`'s names. Valid parts give a
   * valid path.
   */
  function Resolve(base: Path, other: Path): (r: Path)
    ensures other.absolute ==> r == other
    ensures !other.absolute ==> StartsWith(r, base) && r.segs[|base.segs|..] == other.segs
    ensures ValidPath(base) && ValidPath(other) ==> ValidPath(r)
  {
    var r := if other.absolute then other else Path(base.absolute, base.segs + other.segs);
    assert !other.absolute ==> r.segs[..|base.segs|] == base.segs && r.segs[|base.segs|..] == other.segs;
    assert ValidPath(base) && ValidPath(other) ==> ValidPath(r) by {
      if ValidPath(base) && ValidPath(other) && !other.absolute {
        forall i | 0 <= i < |r.segs| ensures ValidSegment(r.segs[i]) {
          if i < |base.segs| {
            assert r.segs[i] == base.segs[i];
          } else {
            assert r.segs[i] == other.segs[i - |base.segs|];
          }
        }
      }
    }
    r
  }

  /** `p.startsWith(prefix)`, compared name by name, never character by character. */
  predicate StartsWith(p: Path, prefix: Path) {
    p.absolute == prefix.absolute && |prefix.segs| <= |p.segs| && p.segs[..|prefix.segs|] == prefix.segs
  }

  /** `a` is a proper ancestor of `p`. */
  predicate StrictAncestor(a: Path, p: Path) {
    StartsWith(p, a) && |a.segs| < |p.segs|
  }

  lemma StartsWithTransitive(a: Path, b: Path, c: Path)
    requires StartsWith(a, b) && StartsWith(b, c)
    ensures StartsWith(a, c)
  {
    assert a.segs[..|c.segs|] == a.segs[..|b.segs|][..|c.segs|];
  }

  /** Of two paths of the same length, one starts with the other only when they are equal. */
  lemma StartsWithSameLength(a: Path, b: Path)
    requires StartsWith(a, b) && |a.segs| == |b.segs|
    ensures a == b
  {
    assert a.segs == a.segs[..|b.segs|];
  }

  /**
   * One step of UnixPath.normalize: "." is dropped; ".." removes the
   * preceding name unless that is itself ".."; with nothing to remove it
   * is dropped at an absolute root and kept in a relative path.
   */
  function Step(absolute: bool, acc: seq<string>, s: string): seq<string> {
    if s == "." then acc
    else if s == ".." then
      (if |acc| > 0 && acc[|acc| - 1] != ".." then acc[..|acc| - 1]
       else if absolute then acc
       else acc + [".."])
    else acc + [s]
  }

  /** A normal segment sequence: no ".", and ".." only as a leading run of a relative path. */
  predicate IsNormal(absolute: bool, segs: seq<string>) {
    && (forall i :: 0 <= i < |segs| ==> segs[i] != ".")
    && (absolute ==> forall i :: 0 <= i < |segs| ==> segs[i] != "..")
    && (forall i, j :: 0 <= i < j < |segs| && segs[j] == ".." ==> segs[i] == "..")
  }

  /** Applies `Step` to each of `segs` in turn, starting from `acc`. */
  function NormalizeFrom(absolute: bool, acc: seq<string>, segs: seq<string>): (r: seq<string>)
    ensures IsNormal(absolute, acc) ==> IsNormal(absolute, r)
    ensures (forall i :: 0 <= i < |acc| ==> ValidSegment(acc[i])) && (forall i :: 0 <= i < |segs| ==> ValidSegment(segs[i]))
            ==> forall i :: 0 <= i < |r| ==> ValidSegment(r[i])
    decreases |segs|
  {
    if segs == [] then acc
    else Step(absolute, NormalizeFrom(absolute, acc, segs[..|segs| - 1]), segs[|segs| - 1])
  }

  /** `p.normalize()`: the path with "." and ".." resolved, without consulting any file system. */
  function Normalize(p: Path): (r: Path)
    ensures r.absolute == p.absolute
    ensures IsNormal(r.absolute, r.segs)
    ensures ValidPath(p) ==> ValidPath(r)
  {
    Path(p.absolute, NormalizeFrom(p.absolute, [], p.segs))
  }

  /** Normalizing a concatenation is normalizing the second part from where the first left off. */
  lemma {:induction false} NormalizeFromAppend(absolute: bool, acc: seq<string>, a: seq<string>, b: seq<string>)
    ensures NormalizeFrom(absolute, acc, a + b) == NormalizeFrom(absolute, NormalizeFrom(absolute, acc, a), b)
    decreases |b|
  {
    if b == [] {
      assert a + b == a;
    } else {
      var b' := b[..|b| - 1];
      assert (a + b)[..|a + b| - 1] == a + b';
      assert (a + b)[|a + b| - 1] == b[|b| - 1];
      NormalizeFromAppend(absolute, acc, a, b');
    }
  }

  /** A normal sequence is left as it is. */
  lemma {:induction false} NormalIsFixed(absolute: bool, segs: seq<string>)
    requires IsNormal(absolute, segs)
    ensures NormalizeFrom(absolute, [], segs) == segs
    decreases |segs|
  {
    if segs != [] {
      var init := segs[..|segs| - 1];
      NormalInit(absolute, segs);
      NormalIsFixed(absolute, init);
      assert init + [segs[|segs| - 1]] == segs;
    }
  }

  /** Dropping the last name of a normal sequence leaves a normal sequence, which `Step` then extends by that name. */
  lemma NormalInit(absolute: bool, segs: seq<string>)
    requires IsNormal(absolute, segs) && segs != []
    ensures IsNormal(absolute, segs[..|segs| - 1])
    ensures Step(absolute, segs[..|segs| - 1], segs[|segs| - 1]) == segs[..|segs| - 1] + [segs[|segs| - 1]]
  {
    var init := segs[..|segs| - 1];
    var last := segs[|segs| - 1];
    assert forall i :: 0 <= i < |init| ==> init[i] == segs[i];
    if last == ".." && |init| > 0 {
      assert init[|init| - 1] == segs[|init| - 1];
    }
  }

  /** `normalize` is idempotent. */
  lemma NormalizeIdempotent(p: Path)
    ensures Normalize(Normalize(p)) == Normalize(p)
  {
    NormalIsFixed(p.absolute, Normalize(p).segs);
  }

  /** Resolving against a base and normalizing equals continuing the base's normal form with the name. */
  lemma ResolveNormalize(base: Path, name: Path)
    requires !name.absolute
    ensures Normalize(Resolve(base, name)).segs == NormalizeFrom(base.absolute, Normalize(base).segs, name.segs)
  {
    NormalizeFromAppend(base.absolute, [], base.segs, name.segs);
  }

  /** A ".." already in a relative sequence survives one more step. */
  lemma StepKeepsClimb(acc: seq<string>, s: string)
    ensures ".." in acc ==> ".." in Step(false, acc, s)
  {
    if ".." in acc {
      var i :| 0 <= i < |acc| && acc[i] == "..";
      if s == ".." && |acc| > 0 && acc[|acc| - 1] != ".." {
        assert Step(false, acc, s)[i] == "..";
      } else if s != "." {
        assert Step(false, acc, s)[i] == "..";
      }
    }
  }

  /**
   * Continuing any sequence `a` with a name whose own (relative) normal
   * form `r` holds no ".." simply appends `r` to `a`.
   */
  lemma {:induction false} DescendingContinuation(absolute: bool, a: seq<string>, n: seq<string>)
    requires ".." !in NormalizeFrom(false, [], n)
    ensures NormalizeFrom(absolute, a, n) == a + NormalizeFrom(false, [], n)
    decreases |n|
  {
    if n == [] {
      assert a + [] == a;
    } else {
      var n' := n[..|n| - 1];
      var s := n[|n| - 1];
      var r' := NormalizeFrom(false, [], n');
      assert NormalizeFrom(false, [], n) == Step(false, r', s);
      StepKeepsClimb(r', s);
      DescendingContinuation(absolute, a, n');
      assert NormalizeFrom(absolute, a, n') == a + r';
      if s == ".." {
        assert |r'| > 0 && r'[|r'| - 1] != "..";
        assert (a + r')[..|a + r'| - 1] == a + r'[..|r'| - 1];
      } else if s != "." {
        assert (a + r') + [s] == a + (r' + [s]);
      }
    }
  }

  /**
   * A relative name whose own normal form climbs no "..": resolved
   * against `base` and normalized, it lands at the base's normal form
   * followed by the name's normal form, so it starts with the base.
   */
  lemma DescendingNameStaysInside(base: Path, name: Path)
    ensures !name.absolute && ".." !in Normalize(name).segs ==>
              Normalize(Resolve(base, name)).segs == Normalize(base).segs + Normalize(name).segs &&
              StartsWith(Normalize(Resolve(base, name)), Normalize(base))
  {
    if !name.absolute && ".." !in Normalize(name).segs {
      ResolveNormalize(base, name);
      DescendingContinuation(base.absolute, Normalize(base).segs, name.segs);
      var nb := Normalize(base).segs;
      assert (nb + Normalize(name).segs)[..|nb|] == nb;
    }
  }

  /** Splitting text that contains a separator splits each side independently. */
  lemma {:induction false} SplitAtSeparator(a: string, b: string, cur: string)
    requires '/' !in cur
    ensures Split(a + "/" + b, cur) == Split(a, cur) + Split(b, [])
    decreases |a|
  {
    if a == [] {
      assert a + "/" + b == "/" + b;
      assert ("/" + b)[1..] == b;
    } else {
      assert (a + "/" + b)[0] == a[0];
      assert (a + "/" + b)[1..] == a[1..] + "/" + b;
      if a[0] == '/' {
        SplitAtSeparator(a[1..], b, []);
      } else {
        SplitAtSeparator(a[1..], b, cur + [a[0]]);
      }
    }
  }

  /** A trailing separator adds no name. */
  lemma SplitTrailingSeparator(s: string)
    ensures Split(s + "/", []) == Split(s, [])
  {
    SplitAtSeparator(s, "", []);
    assert s + "/" + "" == s + "/";
  }

  /** `Paths.get(first, more)` with both parts non-empty: the names of `first` followed by those of `more`. */
  lemma JoinNamesParse(first: string, more: string)
    requires first != [] && more != []
    ensures Parse(JoinNames(first, more)) == Path(Parse(first).absolute, Parse(first).segs + Parse(more).segs)
  {
    SplitAtSeparator(first, more, []);
    assert (first + "/" + more)[0] == first[0];
  }
}
