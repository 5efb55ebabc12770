/**
 * The trigram index of the search cache: three-byte windows encoded as integers, sorted and
 * deduplicated in place, and compared by a two-pointer merge. Proved equal to the Jaccard index
 * of the sets of windows.
 */
module Trigrams {
  type Byte = b: int | 0 <= b < 256

  type Window = w: seq<Byte> | |w| == 3 witness [0, 0, 0]

  /** uint32(w[0])<<16 | uint32(w[1])<<8 | uint32(w[2]). */
  function Code(w: Window): int {
    var x: int, y: int, z: int := w[0], w[1], w[2];
    x * 0x10000 + y * 0x100 + z
  }

  lemma DigitsInjective(x: int, y: int, z: int, a: int, b: int, c: int)
    requires 0 <= x < 256 && 0 <= y < 256 && 0 <= z < 256
    requires 0 <= a < 256 && 0 <= b < 256 && 0 <= c < 256
    requires x * 0x10000 + y * 0x100 + z == a * 0x10000 + b * 0x100 + c
    ensures x == a && y == b && z == c
  {
    assert 0x10000 * (x - a) == 0x100 * (b - y) + (c - z);
    assert -0x10000 < 0x100 * (b - y) + (c - z) < 0x10000;
    assert x == a;
  }

  lemma CodeInjective(v: Window, w: Window)
    ensures Code(v) == Code(w) <==> v == w
    ensures 0 <= Code(v) < 0x1_0000_0000
  {
    if Code(v) == Code(w) {
      DigitsInjective(v[0], v[1], v[2], w[0], w[1], w[2]);
      assert v == w;
    }
  }

  function WindowAt(s: seq<Byte>, i: int): Window
    requires 0 <= i <= |s| - 3
  {
    s[i..i + 3]
  }

  function Windows(s: seq<Byte>): set<Window> {
    set i | 0 <= i <= |s| - 3 :: WindowAt(s, i)
  }

  /** The windows of a string are all that occur in it, three bytes in a row, and no others. */
  lemma WindowsExactly(s: seq<Byte>, w: Window)
    ensures w in Windows(s) <==>
      exists i :: 0 <= i && i + 3 <= |s| && s[i] == w[0] && s[i + 1] == w[1] && s[i + 2] == w[2]
  {
    if w in Windows(s) {
      var i :| 0 <= i <= |s| - 3 && WindowAt(s, i) == w;
      assert s[i] == w[0] && s[i + 1] == w[1] && s[i + 2] == w[2];
    }
    if i :| 0 <= i && i + 3 <= |s| && s[i] == w[0] && s[i + 1] == w[1] && s[i + 2] == w[2] {
      assert WindowAt(s, i) == w;
    }
  }

  function Codes(ws: set<Window>): set<int> {
    set w | w in ws :: Code(w)
  }

  function Elements(s: seq<int>): set<int> {
    set x | x in s
  }

  /** The Jaccard index |A * B| / |A + B|; two empty sets are alike. */
  function Jaccard<T>(a: set<T>, b: set<T>): real {
    if a == {} && b == {} then 1.0 else SizeOfUnion(a, b); |a * b| as real / |a + b| as real
  }

  lemma SizeOfUnion<T>(a: set<T>, b: set<T>)
    ensures |a + b| == |a| + |b| - |a * b|
    ensures a != {} || b != {} ==> |a + b| > 0
  {
    assert a != {} ==> (exists x :: x in a && x in a + b);
    assert b != {} ==> (exists x :: x in b && x in a + b);
  }

  /** The index times the size of the union is the size of the intersection. */
  lemma JaccardExactly<T>(a: set<T>, b: set<T>)
    ensures a != {} || b != {} ==> Jaccard(a, b) * (|a + b| as real) == |a * b| as real
    ensures a == b == {} ==> Jaccard(a, b) == 1.0
  {
    SizeOfUnion(a, b);
    if a != {} || b != {} {
      RatioTimes(|a * b|, |a + b|);
    }
  }

  lemma RatioTimes(n: nat, d: nat)
    requires d > 0
    ensures n as real / d as real * (d as real) == n as real
  {
  }

  predicate Increasing(s: seq<int>) {
    forall i, j | 0 <= i < j < |s| :: s[i] < s[j]
  }

  predicate Sorted(s: seq<int>) {
    forall i, j | 0 <= i < j < |s| :: s[i] <= s[j]
  }

  /** slices.Sort, as insertion. */
  function Insert(x: int, s: seq<int>): (r: seq<int>)
    requires Sorted(s)
    ensures Sorted(r) && |r| == |s| + 1 && Elements(r) == Elements(s) + {x}
  {
    if s == [] || x <= s[0] then [x] + s
    else
      var r := [s[0]] + Insert(x, s[1..]);
      InsertKeeps(x, s, Insert(x, s[1..]));
      r
  }

  lemma InsertKeeps(x: int, s: seq<int>, rest: seq<int>)
    requires Sorted(s) && s != [] && s[0] < x
    requires Sorted(rest) && Elements(rest) == Elements(s[1..]) + {x}
    ensures Sorted([s[0]] + rest) && Elements([s[0]] + rest) == Elements(s) + {x}
  {
    forall y | y in rest ensures s[0] <= y {
      assert y in Elements(rest);
      assert y in s[1..] || y == x;
      assert forall k | 0 < k < |s| :: s[0] <= s[k] == s[1..][k - 1];
    }
    assert forall k | 0 <= k < |rest| :: rest[k] in rest;
    assert s == [s[0]] + s[1..];
    assert Elements([s[0]] + rest) == {s[0]} + Elements(rest);
    assert Elements(s) == {s[0]} + Elements(s[1..]);
  }

  function Sort(s: seq<int>): (r: seq<int>)
    ensures Sorted(r) && |r| == |s| && Elements(r) == Elements(s)
  {
    if s == [] then []
    else
      assert Elements(s) == Elements(s[1..]) + {s[0]};
      Insert(s[0], Sort(s[1..]))
  }

  lemma ElementsAppend(s: seq<int>, x: int)
    ensures Elements(s + [x]) == Elements(s) + {x}
  {
  }

  lemma Extend(t: seq<int>, s: seq<int>, i: nat)
    requires Sorted(s) && 1 <= i < |s|
    requires Increasing(t) && t != [] && t[|t| - 1] == s[i - 1] && Elements(t) == Elements(s[..i])
    ensures s[i] != s[i - 1] ==> Increasing(t + [s[i]]) && Elements(t + [s[i]]) == Elements(s[..i + 1])
    ensures s[i] == s[i - 1] ==> Elements(t) == Elements(s[..i + 1])
  {
    assert s[..i + 1] == s[..i] + [s[i]];
    assert s[i - 1] in s[..i];
    ElementsAppend(s[..i], s[i]);
    ElementsAppend(t, s[i]);
  }

  /** The deduplication in place; comparing with the neighbour is right although it may be overwritten. */
  method Dedup(a: array<int>) returns (n: nat)
    requires a.Length >= 1 && Sorted(a[..])
    modifies a
    ensures 1 <= n <= a.Length
    ensures Increasing(a[..n])
    ensures Elements(a[..n]) == Elements(old(a[..]))
  {
    ghost var s := a[..];
    n := 1;
    for i := 1 to a.Length
      invariant 1 <= n <= i
      invariant forall k | i - 1 <= k < a.Length :: a[k] == s[k]
      invariant Increasing(a[..n]) && a[n - 1] == s[i - 1]
      invariant Elements(a[..n]) == Elements(s[..i])
    {
      Extend(a[..n], s, i);
      if a[i] != a[i - 1] {
        ghost var t := a[..n];
        a[n] := a[i];
        assert a[..n + 1] == t + [s[i]];
        n := n + 1;
      }
    }
    assert s[..a.Length] == s;
  }

  /** buildTrigrams. */
  method BuildTrigrams(s: seq<Byte>) returns (t: seq<int>)
    ensures Increasing(t)
    ensures Elements(t) == Codes(Windows(s))
  {
    if |s| < 3 {
      return [];
    }
    var trigrams := new int[|s| - 2];
    for i := 0 to |s| - 2
      invariant forall k | 0 <= k < i :: trigrams[k] == Code(WindowAt(s, k))
    {
      trigrams[i] := Code(WindowAt(s, i));
    }
    CodesInOrder(s, trigrams[..]);
    var sorted := Sort(trigrams[..]);
    forall i | 0 <= i < |sorted| {
      trigrams[i] := sorted[i];
    }
    assert trigrams[..] == sorted;
    var n := Dedup(trigrams);
    t := trigrams[..n];
  }

  lemma CodesInOrder(s: seq<Byte>, t: seq<int>)
    requires |s| >= 3 && |t| == |s| - 2
    requires forall k | 0 <= k < |t| :: t[k] == Code(WindowAt(s, k))
    ensures Elements(t) == Codes(Windows(s))
  {
    forall x | x in Elements(t) ensures x in Codes(Windows(s)) {
      var k :| 0 <= k < |t| && t[k] == x;
      assert WindowAt(s, k) in Windows(s);
    }
    forall x | x in Codes(Windows(s)) ensures x in Elements(t) {
      var w :| w in Windows(s) && Code(w) == x;
      var k :| 0 <= k <= |s| - 3 && WindowAt(s, k) == w;
      assert t[k] == x;
    }
  }

  lemma {:induction false} IncreasingSize(s: seq<int>)
    requires Increasing(s)
    ensures |Elements(s)| == |s|
  {
    if s != [] {
      var k := |s| - 1;
      IncreasingSize(s[..k]);
      assert s == s[..k] + [s[k]];
      assert Elements(s) == Elements(s[..k]) + {s[k]};
      assert s[k] !in s[..k];
    }
  }

  lemma MergeStep(a: seq<int>, b: seq<int>)
    requires Increasing(a) && Increasing(b) && a != [] && b != []
    ensures a[0] == b[0] ==> |Elements(a) * Elements(b)| == 1 + |Elements(a[1..]) * Elements(b[1..])|
    ensures a[0] < b[0] ==> Elements(a) * Elements(b) == Elements(a[1..]) * Elements(b)
    ensures a[0] > b[0] ==> Elements(a) * Elements(b) == Elements(a) * Elements(b[1..])
  {
    assert a == [a[0]] + a[1..] && b == [b[0]] + b[1..];
    assert Elements(a) == {a[0]} + Elements(a[1..]);
    assert Elements(b) == {b[0]} + Elements(b[1..]);
    assert a[0] !in a[1..] && b[0] !in b[1..];
    assert a[0] < b[0] ==> a[0] !in b;
    assert b[0] < a[0] ==> b[0] !in a;
    if a[0] == b[0] {
      assert Elements(a) * Elements(b) == {a[0]} + Elements(a[1..]) * Elements(b[1..]);
    }
  }

  /** What the pointers have not passed yet has this many elements in common. */
  ghost function Common(a: seq<int>, b: seq<int>, i: nat, j: nat): nat
    requires i <= |a| && j <= |b|
  {
    |Elements(a[i..]) * Elements(b[j..])|
  }

  lemma CommonStep(a: seq<int>, b: seq<int>, i: nat, j: nat)
    requires Increasing(a) && Increasing(b) && i < |a| && j < |b|
    ensures a[i] == b[j] ==> Common(a, b, i, j) == 1 + Common(a, b, i + 1, j + 1)
    ensures a[i] < b[j] ==> Common(a, b, i, j) == Common(a, b, i + 1, j)
    ensures a[i] > b[j] ==> Common(a, b, i, j) == Common(a, b, i, j + 1)
  {
    MergeStep(a[i..], b[j..]);
    assert a[i..][1..] == a[i + 1..] && b[j..][1..] == b[j + 1..];
  }

  lemma CommonEnds(a: seq<int>, b: seq<int>, i: nat, j: nat)
    requires i <= |a| && j <= |b|
    ensures i == |a| || j == |b| ==> Common(a, b, i, j) == 0
    ensures Common(a, b, 0, 0) == |Elements(a) * Elements(b)|
  {
    if i == |a| || j == |b| {
      assert Elements(a[i..]) * Elements(b[j..]) == {};
    }
    assert a[0..] == a && b[0..] == b;
  }

  function Ratio(n: nat, d: nat): real
    requires d > 0
  {
    n as real / d as real
  }

  lemma MergedSizes(a: seq<int>, b: seq<int>, intersection: nat)
    requires Increasing(a) && Increasing(b) && (a != [] || b != [])
    requires intersection == |Elements(a) * Elements(b)|
    ensures |a| + |b| - intersection > 0
    ensures Ratio(intersection, |a| + |b| - intersection) == Jaccard(Elements(a), Elements(b))
  {
    IncreasingSize(a);
    IncreasingSize(b);
    SizeOfUnion(Elements(a), Elements(b));
    assert |Elements(a)| > 0 || |Elements(b)| > 0;
  }

  lemma SimilarityExactly(a: seq<int>, b: seq<int>)
    ensures a == b == [] ==> Jaccard(Elements(a), Elements(b)) == 1.0
    ensures a != [] || b != [] ==>
      Jaccard(Elements(a), Elements(b)) * (|Elements(a) + Elements(b)| as real)
        == |Elements(a) * Elements(b)| as real
  {
    JaccardExactly(Elements(a), Elements(b));
    assert a != [] ==> a[0] in Elements(a);
    assert b != [] ==> b[0] in Elements(b);
  }

  /** jaccardSimilarity: the merge counts the intersection. */
  method JaccardSimilarity(a: seq<int>, b: seq<int>) returns (sim: real)
    requires Increasing(a) && Increasing(b)
    ensures sim == Jaccard(Elements(a), Elements(b))
    ensures a != [] || b != [] ==>
      sim * (|Elements(a) + Elements(b)| as real) == |Elements(a) * Elements(b)| as real
  {
    hide Common, Jaccard, Elements, Ratio;
    SimilarityExactly(a, b);
    if |a| == 0 && |b| == 0 {
      return 1.0;
    }
    var i, j := 0, 0;
    var intersection := 0;
    ghost var total := Common(a, b, 0, 0);
    while i < |a| && j < |b|
      invariant 0 <= i <= |a| && 0 <= j <= |b|
      invariant intersection + Common(a, b, i, j) == total
      decreases |a| + |b| - i - j
    {
      CommonStep(a, b, i, j);
      if a[i] == b[j] {
        intersection := intersection + 1;
        i := i + 1;
        j := j + 1;
      } else if a[i] < b[j] {
        i := i + 1;
      } else {
        j := j + 1;
      }
    }
    CommonEnds(a, b, i, j);
    var union := |a| + |b| - intersection;
    MergedSizes(a, b, intersection);
    sim := Ratio(intersection, union);
  }

  /** The similarity of two normalised queries: the Jaccard index of their windows. */
  function Similarity(s: seq<Byte>, t: seq<Byte>): real {
    Jaccard(Windows(s), Windows(t))
  }

  lemma {:induction false} CodesSize(ws: set<Window>)
    ensures |Codes(ws)| == |ws|
  {
    if ws != {} {
      var w :| w in ws;
      CodesSize(ws - {w});
      forall v | v in ws - {w} ensures Code(v) != Code(w) {
        CodeInjective(v, w);
      }
      assert Code(w) !in Codes(ws - {w});
      assert Codes(ws) == Codes(ws - {w}) + {Code(w)};
    }
  }

  /** Comparing codes is comparing windows: no two windows share a code. */
  lemma CodesExact(a: set<Window>, b: set<Window>)
    ensures Jaccard(Codes(a), Codes(b)) == Jaccard(a, b)
  {
    forall v, w | v in a && w in b && Code(v) == Code(w) ensures v == w {
      CodeInjective(v, w);
    }
    assert Codes(a * b) == Codes(a) * Codes(b);
    assert Codes(a + b) == Codes(a) + Codes(b);
    CodesSize(a * b);
    CodesSize(a + b);
    CodesSize(a);
    CodesSize(b);
  }

  lemma SizesOfParts<T>(a: set<T>, b: set<T>)
    ensures |a * b| <= |a + b|
    ensures |a * b| == |a + b| <==> a == b
    ensures |a * b| == 0 <==> a !! b
  {
    var rest := (a + b) - a * b;
    assert a + b == a * b + rest && a * b !! rest;
    assert |a + b| == |a * b| + |rest|;
    assert rest == {} <==> a == b by {
      if rest == {} {
        assert forall x | x in a + b :: x !in rest;
      }
    }
  }

  lemma RatioLaws(n: nat, d: nat)
    requires n <= d && d > 0
    ensures 0.0 <= n as real / d as real <= 1.0
    ensures n as real / d as real == 1.0 <==> n == d
    ensures n as real / d as real == 0.0 <==> n == 0
  {
    var q := n as real / d as real;
    assert q * (d as real) == n as real;
  }

  /** The index is symmetric, lies in [0, 1], is 1 exactly on equal sets and 0 exactly on disjoint ones. */
  lemma JaccardLaws<T>(a: set<T>, b: set<T>)
    ensures Jaccard(a, b) == Jaccard(b, a)
    ensures 0.0 <= Jaccard(a, b) <= 1.0
    ensures Jaccard(a, b) == 1.0 <==> a == b
    ensures Jaccard(a, b) == 0.0 <==> a !! b && a + b != {}
  {
    assert a * b == b * a && a + b == b + a;
    SizeOfUnion(a, b);
    SizesOfParts(a, b);
    if a != {} || b != {} {
      RatioLaws(|a * b|, |a + b|);
    }
  }

  /** Queries too short for a window are alike whatever they say, and unlike every longer one. */
  lemma ShortQueries(s: seq<Byte>, t: seq<Byte>)
    requires |s| < 3
    ensures Similarity(s, t) == if |t| < 3 then 1.0 else 0.0
  {
    JaccardLaws(Windows(s), Windows(t));
    assert Windows(s) == {};
    if |t| >= 3 {
      assert WindowAt(t, 0) in Windows(t);
    }
  }
}
