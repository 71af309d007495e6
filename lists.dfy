/** The list edits of DicoSynonymes.cpp: the membership scans over `flexions`,
    `appSynonymes` and a synonym group, `std::list::remove`, and the erase loop
    of `supprimerSynonyme` (lines 298-304). */
module Lists {

  /** The scanning loops: whether `x` occurs in `s`. */
  method Find<T(==)>(s: seq<T>, x: T) returns (found: bool)
    ensures found <==> x in s
  {
    found := false;
    for i := 0 to |s|
      invariant found <==> x in s[..i]
    {
      if s[i] == x {
        found := true;
      }
    }
  }

  /** `std::list::remove(x)`: every occurrence of `x` goes, the other elements
      keep their order. */
  function Without(s: seq<string>, x: string): (r: seq<string>)
    ensures x !in r
    ensures forall y :: y in r <==> y in s && y != x
    ensures |r| <= |s|
  {
    if |s| == 0 then []
    else if s[|s| - 1] == x then Without(s[..|s| - 1], x)
    else Without(s[..|s| - 1], x) + [s[|s| - 1]]
  }

  /** Removal takes out exactly the occurrences of `x`. */
  lemma {:induction false} WithoutMultiset(s: seq<string>, x: string)
    ensures multiset(Without(s, x)) == multiset(s)[x := 0]
  {
    if |s| > 0 {
      var s' := s[..|s| - 1];
      WithoutMultiset(s', x);
      assert s == s' + [s[|s| - 1]];
    }
  }

  /** Removing an absent element changes nothing. */
  lemma {:induction false} WithoutAbsent(s: seq<string>, x: string)
    requires x !in s
    ensures Without(s, x) == s
  {
    if |s| > 0 {
      var s' := s[..|s| - 1];
      WithoutAbsent(s', x);
      assert s == s' + [s[|s| - 1]];
    }
  }

  /** A first element other than `x` stays first. */
  lemma {:induction false} WithoutKeepsFront(s: seq<string>, x: string)
    requires |s| > 0 && s[0] != x
    ensures |Without(s, x)| > 0 && Without(s, x)[0] == s[0]
  {
    if |s| > 1 {
      WithoutKeepsFront(s[..|s| - 1], x);
    }
  }

  /** A first element equal to `x` is simply dropped. */
  lemma {:induction false} WithoutDropsFront(s: seq<string>, x: string)
    requires |s| > 0 && s[0] == x
    ensures Without(s, x) == Without(s[1..], x)
  {
    if |s| > 1 {
      var s' := s[..|s| - 1];
      WithoutDropsFront(s', x);
      assert s'[1..] == s[1..][..|s[1..]| - 1];
    }
  }

  /** The walk of the erase loop, counted from position `p` of the original
      membership list `app`: at a match the loop erases the list's FIRST entry
      (the iterator it erases through stays at the front; the `std::next` that
      was meant to move it has its result discarded), the list shifts left
      under the index, and the index still steps on, so the next entry looked
      at lies two further on in `app`. The result is the number of entries
      erased. */
  function Hits(app: seq<int>, g: int, p: nat): (h: nat)
    ensures p <= |app| ==> h <= |app| - p
    decreases |app| - p
  {
    if p >= |app| then 0
    else if app[p] == g then 1 + Hits(app, g, p + 2)
    else Hits(app, g, p + 1)
  }

  /** The erase loop of `supprimerSynonyme` on the membership list `app` of
      the removed synonym: as many entries are dropped from the front as the
      loop finds matches. */
  method EraseGroupId(app: seq<int>, g: int) returns (res: seq<int>)
    ensures res == app[Hits(app, g, 0)..]
  {
    res := app;
    var i := 0;
    ghost var erased := 0;
    while i < |res|
      invariant erased <= |app| && res == app[erased..]
      invariant erased + Hits(app, g, erased + i) == Hits(app, g, 0)
      decreases |res| - i
    {
      if res[i] == g {
        res := res[1..];
        erased := erased + 1;
      }
      i := i + 1;
    }
  }

  /** A list without the id is left as it was. */
  lemma {:induction false} HitsAbsent(app: seq<int>, g: int, p: nat)
    requires g !in app
    ensures Hits(app, g, p) == 0
    decreases |app| - p
  {
    if p < |app| {
      HitsAbsent(app, g, p + 1);
    }
  }

  /** A list holding the id loses at least its front entry: the walk steps one
      by one up to the first occurrence. */
  lemma {:induction false} HitsPresent(app: seq<int>, g: int, p: nat)
    requires p <= |app| && g in app[p..]
    ensures Hits(app, g, p) >= 1
    decreases |app| - p
  {
    if app[p] != g {
      assert app[p..] == [app[p]] + app[p + 1..];
      HitsPresent(app, g, p + 1);
    }
  }

  /** The loop never erases more entries than there are occurrences of the id
      from where it starts. */
  lemma {:induction false} HitsAtMostOccurrences(app: seq<int>, g: int, p: nat)
    requires p <= |app|
    ensures Hits(app, g, p) <= multiset(app[p..])[g]
    decreases |app| - p
  {
    if p < |app| {
      assert app[p..] == [app[p]] + app[p + 1..];
      if app[p] == g {
        if p + 2 <= |app| {
          HitsAtMostOccurrences(app, g, p + 2);
          assert app[p + 1..] == [app[p + 1]] + app[p + 2..];
        }
      } else {
        HitsAtMostOccurrences(app, g, p + 1);
      }
    }
  }

  /** The quirk on a small case: removing the synonym from group 1 when its
      membership list is [0, 1] leaves [1]; the id of group 0 is erased and
      the id of group 1 stays. */
  lemma EraseDropsFrontEntry()
    ensures Hits([0, 1], 1, 0) == 1
    ensures [0, 1][Hits([0, 1], 1, 0)..] == [1]
  {
    assert Hits([0, 1], 1, 1) == 1 + Hits([0, 1], 1, 3);
  }
}
