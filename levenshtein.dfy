/**
 * Edit distance between two track titles (itunesify.py `levenshtein_distance`):
 * insertions, deletions and substitutions each cost one, characters compared
 * exactly. `Dist` is the recursive definition over prefixes; the method
 * `LevenshteinDistance` is the source's two-row dynamic programme, proved to
 * compute it.
 */
module Levenshtein {

  function Min3(a: nat, b: nat, c: nat): (m: nat)
    ensures m <= a && m <= b && m <= c
    ensures m == a || m == b || m == c
  {
    if a <= b && a <= c then a else if b <= c then b else c
  }

  function Cost(x: char, y: char): nat {
    if x == y then 0 else 1
  }

  /** The edit distance of `a` and `b`, defined on their last characters. */
  function Dist(a: string, b: string): nat
    decreases |a| + |b|
  {
    if |a| == 0 then |b|
    else if |b| == 0 then |a|
    else Min3(Dist(a[..|a| - 1], b) + 1,
              Dist(a, b[..|b| - 1]) + 1,
              Dist(a[..|a| - 1], b[..|b| - 1]) + Cost(a[|a| - 1], b[|b| - 1]))
  }

  /** Swapping the arguments does not change the distance (the source swaps so the longer comes first). */
  lemma {:induction false} DistSymmetric(a: string, b: string)
    ensures Dist(a, b) == Dist(b, a)
    decreases |a| + |b|
  {
    if |a| > 0 && |b| > 0 {
      DistSymmetric(a[..|a| - 1], b);
      DistSymmetric(a, b[..|b| - 1]);
      DistSymmetric(a[..|a| - 1], b[..|b| - 1]);
    }
  }

  /** The distance never exceeds the length of the longer string. */
  lemma {:induction false} DistAtMostLonger(a: string, b: string)
    ensures Dist(a, b) <= if |a| >= |b| then |a| else |b|
    decreases |a| + |b|
  {
    if |a| > 0 && |b| > 0 {
      DistAtMostLonger(a[..|a| - 1], b[..|b| - 1]);
    }
  }

  /** The distance is at least the difference of the lengths. */
  lemma {:induction false} DistAtLeastLengthGap(a: string, b: string)
    ensures Dist(a, b) >= |a| - |b| && Dist(a, b) >= |b| - |a|
    decreases |a| + |b|
  {
    if |a| > 0 && |b| > 0 {
      DistAtLeastLengthGap(a[..|a| - 1], b);
      DistAtLeastLengthGap(a, b[..|b| - 1]);
      DistAtLeastLengthGap(a[..|a| - 1], b[..|b| - 1]);
    }
  }

  /** Distance zero exactly for equal strings. */
  lemma {:induction false} DistZeroIffEqual(a: string, b: string)
    ensures Dist(a, b) == 0 <==> a == b
    decreases |a| + |b|
  {
    if |a| > 0 && |b| > 0 {
      var a', b' := a[..|a| - 1], b[..|b| - 1];
      assert a == a' + [a[|a| - 1]] && b == b' + [b[|b| - 1]];
      DistZeroIffEqual(a', b');
      if a == b {
        assert a' == b';
      }
      if Dist(a, b) == 0 {
        assert Dist(a', b') + Cost(a[|a| - 1], b[|b| - 1]) == 0;
      }
    }
  }

  /** The distance to the empty string is the length, in both argument orders. */
  lemma DistToEmpty(s: string)
    ensures Dist(s, "") == |s| && Dist("", s) == |s|
  {
  }

  lemma DistFirstRow(s1: string, s2: string, k: nat)
    requires k <= |s2|
    ensures Dist(s1[..0], s2[..k]) == k
  {
    assert s1[..0] == "";
  }

  lemma DistFirstColumn(s1: string, s2: string, i: nat)
    requires i <= |s1|
    ensures Dist(s1[..i], s2[..0]) == i
  {
    assert s2[..0] == "";
  }

  /** One step of the recurrence, stated for the prefixes the loops index. */
  lemma DistStep(s1: string, s2: string, i: nat, j: nat)
    requires i < |s1| && j < |s2|
    ensures Dist(s1[..i + 1], s2[..j + 1])
         == Min3(Dist(s1[..i], s2[..j + 1]) + 1,
                 Dist(s1[..i + 1], s2[..j]) + 1,
                 Dist(s1[..i], s2[..j]) + Cost(s1[i], s2[j]))
  {
    var a, b := s1[..i + 1], s2[..j + 1];
    assert a[..|a| - 1] == s1[..i] && b[..|b| - 1] == s2[..j];
  }

  /** One cell of the table, computed from its three neighbours. */
  lemma DistCell(s1: string, s2: string, i: nat, j: nat, insertions: nat, deletions: nat, substitutions: nat)
    requires i < |s1| && j < |s2|
    requires insertions == Dist(s1[..i], s2[..j + 1]) + 1
    requires deletions == Dist(s1[..i + 1], s2[..j]) + 1
    requires substitutions == Dist(s1[..i], s2[..j]) + Cost(s1[i], s2[j])
    ensures Min3(insertions, deletions, substitutions) == Dist(s1[..i + 1], s2[..j + 1])
  {
    DistStep(s1, s2, i, j);
  }

  /**
   * One pass of the outer loop: from the row for the first `i` characters of
   * `s1` to the row for the first `i + 1`.
   */
  method NextRow(s1: string, s2: string, i: nat, prev: seq<nat>) returns (cur: seq<nat>)
    requires i < |s1| && |prev| == |s2| + 1
    requires forall k :: 0 <= k <= |s2| ==> prev[k] == Dist(s1[..i], s2[..k])
    ensures |cur| == |s2| + 1
    ensures forall k :: 0 <= k <= |s2| ==> cur[k] == Dist(s1[..i + 1], s2[..k])
  {
    var c1 := s1[i];
    cur := [i + 1];
    DistFirstColumn(s1, s2, i + 1);
    var j := 0;
    while j < |s2|
      invariant 0 <= j <= |s2|
      invariant |cur| == j + 1
      invariant forall k :: 0 <= k <= j ==> cur[k] == Dist(s1[..i + 1], s2[..k])
    {
      var c2 := s2[j];
      var insertions := prev[j + 1] + 1;
      var deletions := cur[j] + 1;
      var substitutions := prev[j] + Cost(c1, c2);
      var next := Min3(insertions, deletions, substitutions);
      DistCell(s1, s2, i, j, insertions, deletions, substitutions);
      cur := cur + [next];
      j := j + 1;
    }
  }

  /**
   * The source's two-row dynamic programme: `prev` holds the distances from
   * the first `i` characters of the longer string to every prefix of the
   * shorter one.
   */
  method LevenshteinDistance(s1: string, s2: string) returns (d: nat)
    ensures d == Dist(s1, s2)
    decreases if |s1| < |s2| then 1 else 0
  {
    if |s1| < |s2| {
      d := LevenshteinDistance(s2, s1);
      DistSymmetric(s2, s1);
      return;
    }
    if |s2| == 0 {
      return |s1|;
    }
    var prev: seq<nat> := seq(|s2| + 1, k => k);
    forall k | 0 <= k <= |s2| ensures prev[k] == Dist(s1[..0], s2[..k]) {
      DistFirstRow(s1, s2, k);
    }
    var i := 0;
    while i < |s1|
      invariant 0 <= i <= |s1|
      invariant |prev| == |s2| + 1
      invariant forall k :: 0 <= k <= |s2| ==> prev[k] == Dist(s1[..i], s2[..k])
    {
      prev := NextRow(s1, s2, i, prev);
      i := i + 1;
    }
    assert s1[..|s1|] == s1 && s2[..|s2|] == s2;
    d := prev[|s2|];
  }
}
