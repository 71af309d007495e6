/** The Levenshtein distance of `distanceLevenstein` (DicoSynonymes.cpp lines
    861-873) and the similarity score of `similitude` (lines 388-392). */
module EditDistance {

  import StemTree

  function Min3(x: nat, y: nat, z: nat): (m: nat)
    ensures m <= x && m <= y && m <= z
    ensures m == x || m == y || m == z
  {
    if x <= y && x <= z then x else if y <= z then y else z
  }

  /** The recurrence the grid `d` tabulates: `Lev(a[..i], b[..j])` is the value
      of cell `d[i][j]`. A deletion, an insertion or a substitution (free when
      the two last characters agree) extends a shorter edit. */
  ghost function Lev(a: string, b: string): nat
    decreases |a| + |b|
  {
    if |a| == 0 then |b|
    else if |b| == 0 then |a|
    else
      var a', b' := a[..|a| - 1], b[..|b| - 1];
      Min3(Lev(a', b) + 1, Lev(a, b') + 1,
           Lev(a', b') + (if a[|a| - 1] == b[|b| - 1] then 0 else 1))
  }

  /** `distanceLevenstein`: fills the (|a|+1) x (|b|+1) grid row by row and
      returns its last cell. */
  method Distance(a: string, b: string) returns (dist: nat)
    ensures dist == Lev(a, b)
  {
    var m, n := |a|, |b|;
    var d := new nat[m + 1, n + 1];
    d[0, 0] := 0;
    for i := 1 to m + 1
      invariant forall p :: 0 <= p < i ==> d[p, 0] == p
    {
      d[i, 0] := i;
    }
    for j := 1 to n + 1
      invariant forall p :: 0 <= p <= m ==> d[p, 0] == p
      invariant forall q :: 0 <= q < j ==> d[0, q] == q
    {
      d[0, j] := j;
    }
    assert forall q :: 0 <= q <= n ==> d[0, q] == Lev(a[..0], b[..q]);
    for i := 1 to m + 1
      invariant forall q :: 0 <= q <= n ==> d[i - 1, q] == Lev(a[..i - 1], b[..q])
      invariant forall p :: i <= p <= m ==> d[p, 0] == p
    {
      FillRow(d, a, b, i);
    }
    assert a[..m] == a && b[..n] == b;
    dist := d[m, n];
  }

  /** The inner loop: row `i` from row `i - 1` and the first cell of row `i`. */
  method FillRow(d: array2<nat>, a: string, b: string, i: nat)
    requires d.Length0 == |a| + 1 && d.Length1 == |b| + 1 && 1 <= i <= |a|
    requires forall q :: 0 <= q <= |b| ==> d[i - 1, q] == Lev(a[..i - 1], b[..q])
    requires d[i, 0] == i
    modifies d
    ensures forall q :: 0 <= q <= |b| ==> d[i, q] == Lev(a[..i], b[..q])
    ensures forall p, q :: 0 <= p < d.Length0 && 0 <= q < d.Length1 && p != i ==> d[p, q] == old(d[p, q])
  {
    assert d[i, 0] == Lev(a[..i], b[..0]);
    for j := 1 to |b| + 1
      invariant forall q :: 0 <= q <= |b| ==> d[i - 1, q] == Lev(a[..i - 1], b[..q])
      invariant forall q :: 0 <= q < j ==> d[i, q] == Lev(a[..i], b[..q])
      invariant forall p, q :: 0 <= p < d.Length0 && 0 <= q < d.Length1 && p != i ==> d[p, q] == old(d[p, q])
    {
      LevStep(a, b, i, j);
      d[i, j] := Min3(d[i - 1, j] + 1, d[i, j - 1] + 1,
                      d[i - 1, j - 1] + (if a[i - 1] == b[j - 1] then 0 else 1));
    }
  }

  /** One cell of the grid in terms of its three neighbours. */
  lemma LevStep(a: string, b: string, i: nat, j: nat)
    requires 1 <= i <= |a| && 1 <= j <= |b|
    ensures Lev(a[..i], b[..j]) ==
              Min3(Lev(a[..i - 1], b[..j]) + 1, Lev(a[..i], b[..j - 1]) + 1,
                   Lev(a[..i - 1], b[..j - 1]) + (if a[i - 1] == b[j - 1] then 0 else 1))
  {
    assert a[..i][..i - 1] == a[..i - 1];
    assert b[..j][..j - 1] == b[..j - 1];
  }

  /** Identical words are at distance 0. */
  lemma {:induction false} LevIdentical(a: string)
    ensures Lev(a, a) == 0
    decreases |a|
  {
    if |a| > 0 {
      LevIdentical(a[..|a| - 1]);
    }
  }

  /** The distance is at most the longer word's length. */
  lemma {:induction false} LevAtMostLonger(a: string, b: string)
    ensures Lev(a, b) <= StemTree.Max(|a|, |b|)
    decreases |a| + |b|
  {
    if |a| > 0 && |b| > 0 {
      LevAtMostLonger(a[..|a| - 1], b[..|b| - 1]);
    }
  }

  /** The distance is at least the difference of the lengths. */
  lemma {:induction false} LevAtLeastLengthGap(a: string, b: string)
    ensures Lev(a, b) >= |a| - |b| && Lev(a, b) >= |b| - |a|
    decreases |a| + |b|
  {
    if |a| > 0 && |b| > 0 {
      LevAtLeastLengthGap(a[..|a| - 1], b);
      LevAtLeastLengthGap(a, b[..|b| - 1]);
      LevAtLeastLengthGap(a[..|a| - 1], b[..|b| - 1]);
    }
  }

  /** Only identical words are at distance 0. */
  lemma {:induction false} LevZeroImpliesEqual(a: string, b: string)
    requires Lev(a, b) == 0
    ensures a == b
    decreases |a| + |b|
  {
    LevAtLeastLengthGap(a, b);
    if |a| > 0 {
      var a', b' := a[..|a| - 1], b[..|b| - 1];
      LevAtLeastLengthGap(a', b);
      LevAtLeastLengthGap(a, b');
      LevZeroImpliesEqual(a', b');
      assert a == a' + [a[|a| - 1]] && b == b' + [b[|b| - 1]];
    }
  }

  /** The distance is 0 exactly for identical words. */
  lemma LevZeroIffEqual(a: string, b: string)
    ensures Lev(a, b) == 0 <==> a == b
  {
    if a == b {
      LevIdentical(a);
    } else if Lev(a, b) == 0 {
      LevZeroImpliesEqual(a, b);
    }
  }

  /** The distance does not depend on which word comes first. */
  lemma {:induction false} LevSymmetric(a: string, b: string)
    ensures Lev(a, b) == Lev(b, a)
    decreases |a| + |b|
  {
    if |a| > 0 && |b| > 0 {
      var a', b' := a[..|a| - 1], b[..|b| - 1];
      LevSymmetric(a', b);
      LevSymmetric(a, b');
      LevSymmetric(a', b');
    }
  }

  /** `similitude`: 1 - distance / length of the longer word, as a real. Two
      empty words (a division 0/0 in the source) score 1. */
  ghost function Similarity(a: string, b: string): (s: real)
    ensures 0.0 <= s <= 1.0
  {
    if |a| == 0 && |b| == 0 then 1.0
    else
      LevAtMostLonger(a, b);
      RatioInUnit(Lev(a, b), StemTree.Max(|a|, |b|));
      1.0 - (Lev(a, b) as real) / (StemTree.Max(|a|, |b|) as real)
  }

  lemma RatioInUnit(x: nat, y: nat)
    requires 0 < y && x <= y
    ensures 0.0 <= (x as real) / (y as real) <= 1.0
  {
    var q := (x as real) / (y as real);
    assert q * (y as real) == x as real;
  }

  /** A score of 1 means the words are identical, and only then. */
  lemma SimilarityOneIffEqual(a: string, b: string)
    ensures Similarity(a, b) == 1.0 <==> a == b
  {
    LevZeroIffEqual(a, b);
    if |a| > 0 || |b| > 0 {
      var q := (Lev(a, b) as real) / (StemTree.Max(|a|, |b|) as real);
      assert q == 0.0 <==> Lev(a, b) == 0;
    }
  }

  /** `similitude`, computed through `distanceLevenstein`. */
  method Similitude(a: string, b: string) returns (s: real)
    ensures s == Similarity(a, b)
    ensures 0.0 <= s <= 1.0
  {
    var dist := Distance(a, b);
    if |a| == 0 && |b| == 0 {
      s := 1.0;
    } else {
      s := 1.0 - (dist as real) / (StemTree.Max(|a|, |b|) as real);
    }
  }
}
