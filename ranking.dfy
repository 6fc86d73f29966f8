/** Scores, the comparator given to `scoredTherapists.sort` and the in-place sort itself
    (app/api/match/route.ts). A score is kept as the integer the route rounds to, in
    ten-thousandths, so ranking and tie-breaking are exact. */
module Ranking {

  import opened LexOrder

  /** One entry of the response: the catalog entry's display fields and its rounded score,
      `score` ten-thousandths. */
  datatype ScoredMatch = ScoredMatch(
    id: string,
    name: string,
    bio: string,
    specialties: seq<string>,
    nextAvailableAt: string,
    score: int)

  /** `Math.round(similarity * 10000)`: the nearest integer, a half rounded up. */
  function RoundScore(similarity: real): (k: int)
    ensures similarity * 10000.0 - 0.5 < k as real <= similarity * 10000.0 + 0.5
  {
    (similarity * 10000.0 + 0.5).Floor
  }

  /** Rounding never reverses the order of two similarities. */
  lemma RoundScoreMonotonic(s: real, t: real)
    requires s <= t
    ensures RoundScore(s) <= RoundScore(t)
  {
    var x, y := s * 10000.0 + 0.5, t * 10000.0 + 0.5;
    assert x <= y;
  }

  /** The comparator: negative when `x` goes first, that is a higher score, or the same score and
      an id that sorts earlier; zero when the scores and the ids are the same. */
  function Compare(x: ScoredMatch, y: ScoredMatch): int {
    if y.score != x.score then y.score - x.score else LexCompare(x.id, y.id)
  }

  /** The comparator is consistent, as `Array.prototype.sort` needs: swapping its operands flips
      the sign, it is zero exactly on the same score and id, and "not after" is transitive. */
  lemma CompareConsistent(x: ScoredMatch, y: ScoredMatch, z: ScoredMatch)
    ensures Compare(x, y) == -Compare(y, x)
    ensures Compare(x, y) == 0 <==> x.score == y.score && x.id == y.id
    ensures Compare(x, y) <= 0 && Compare(y, z) <= 0 ==> Compare(x, z) <= 0
  {
    LexCompareAntisymmetric(x.id, y.id);
    LexCompareZero(x.id, y.id);
    if Compare(x, y) <= 0 && Compare(y, z) <= 0 && x.score == y.score == z.score {
      LexCompareTransitive(x.id, y.id, z.id);
    }
  }

  /** The order the route's sort leaves behind: scores never increase, and among equal scores the
      ids never decrease. */
  predicate Sorted(s: seq<ScoredMatch>) {
    forall i :: 0 < i < |s| ==> Compare(s[i - 1], s[i]) <= 0
  }

  /** In a sorted list every record goes before every later one, not only its neighbour. */
  lemma {:induction false} SortedPairwise(s: seq<ScoredMatch>, i: int, j: int)
    requires Sorted(s) && 0 <= i <= j < |s|
    ensures Compare(s[i], s[j]) <= 0
    decreases j - i
  {
    if i == j {
      CompareConsistent(s[i], s[j], s[j]);
    } else {
      SortedPairwise(s, i + 1, j);
      CompareConsistent(s[i], s[i + 1], s[j]);
    }
  }

  /** What a sorted record list says about scores and ids. */
  lemma SortedMeaning(s: seq<ScoredMatch>, i: int, j: int)
    requires Sorted(s) && 0 <= i < j < |s|
    ensures s[i].score >= s[j].score
    ensures s[i].score == s[j].score ==> LexCompare(s[i].id, s[j].id) <= 0
  {
    SortedPairwise(s, i, j);
  }

  /** No two records share an id (`Domain.DistinctRosterIds` for scored records). */
  predicate DistinctIds(s: seq<ScoredMatch>) {
    forall i, j :: 0 <= i < j < |s| ==> s[i].id != s[j].id
  }

  /** With distinct ids there is only one sorted arrangement of a list: the result does not depend
      on which sorting algorithm the runtime uses. */
  lemma {:induction false} SortedUnique(s: seq<ScoredMatch>, t: seq<ScoredMatch>)
    requires Sorted(s) && Sorted(t) && DistinctIds(s)
    requires multiset(s) == multiset(t)
    ensures s == t
  {
    if s == [] {
      assert |t| == |multiset(t)| == 0;
    } else {
      SameFirst(s, t);
      Rest(s);
      Rest(t);
      SortedUnique(s[1..], t[1..]);
    }
  }

  /** Dropping the first record keeps a list sorted and its ids distinct. */
  lemma Rest(s: seq<ScoredMatch>)
    requires s != []
    ensures Sorted(s) ==> Sorted(s[1..])
    ensures DistinctIds(s) ==> DistinctIds(s[1..])
    ensures multiset(s[1..]) == multiset(s) - multiset{s[0]}
    ensures s == [s[0]] + s[1..]
  {
    assert s == [s[0]] + s[1..];
  }

  /** A list with distinct ids holds each record at most once. */
  lemma {:induction false} AtMostOnce(s: seq<ScoredMatch>, x: ScoredMatch)
    requires DistinctIds(s)
    ensures multiset(s)[x] <= 1
  {
    if s != [] {
      Rest(s);
      AtMostOnce(s[1..], x);
      if s[0] == x {
        assert forall k :: 0 <= k < |s[1..]| ==> s[1..][k].id != x.id by {
          forall k | 0 <= k < |s[1..]| ensures s[1..][k].id != x.id {
            assert s[1..][k] == s[k + 1];
          }
        }
        assert x !in multiset(s[1..]);
      }
    }
  }

  /** A record found at two positions is counted twice. */
  lemma Twice(t: seq<ScoredMatch>, i: int, j: int)
    requires 0 <= i < j < |t| && t[i] == t[j]
    ensures multiset(t)[t[i]] >= 2
  {
    assert t == t[..j] + t[j..];
    assert t[..j][i] == t[i] && t[j..][0] == t[j];
    assert t[i] in multiset(t[..j]) && t[i] in multiset(t[j..]);
  }

  /** In a list with distinct ids, an id names one record. */
  lemma SameIdSameRecord(s: seq<ScoredMatch>, x: ScoredMatch, y: ScoredMatch)
    requires DistinctIds(s) && x in multiset(s) && y in multiset(s) && x.id == y.id
    ensures x == y
  {
    var p :| 0 <= p < |s| && s[p] == x;
    var q :| 0 <= q < |s| && s[q] == y;
    assert p == q;
  }

  /** Rearranging a list keeps its ids distinct. */
  lemma DistinctIdsPermuted(s: seq<ScoredMatch>, t: seq<ScoredMatch>)
    requires DistinctIds(s) && multiset(s) == multiset(t)
    ensures DistinctIds(t)
  {
    forall i, j | 0 <= i < j < |t| ensures t[i].id != t[j].id {
      if t[i].id == t[j].id {
        assert t[i] in multiset(s) && t[j] in multiset(s);
        SameIdSameRecord(s, t[i], t[j]);
        Twice(t, i, j);
        AtMostOnce(s, t[i]);
      }
    }
  }

  /** Two sorted arrangements of one list with distinct ids start with the same record. */
  lemma SameFirst(s: seq<ScoredMatch>, t: seq<ScoredMatch>)
    requires Sorted(s) && Sorted(t) && DistinctIds(s)
    requires multiset(s) == multiset(t) && s != []
    ensures t != [] && s[0] == t[0]
  {
    assert s[0] in multiset(t);
    var j :| 0 <= j < |t| && t[j] == s[0];
    assert t[0] in multiset(s);
    var k :| 0 <= k < |s| && s[k] == t[0];
    SortedPairwise(t, 0, j);
    SortedPairwise(s, 0, k);
    CompareConsistent(s[0], t[0], t[0]);
    assert k == 0;
  }

  /** Insertion sort by the comparator, in place: each record in turn is moved left past the
      records it goes before. */
  method SortMatches(a: array<ScoredMatch>)
    modifies a
    ensures Sorted(a[..])
    ensures multiset(a[..]) == multiset(old(a[..]))
  {
    if a.Length == 0 {
      return;
    }
    var i := 1;
    while i < a.Length
      invariant 1 <= i <= a.Length
      invariant Sorted(a[..i])
      invariant multiset(a[..]) == multiset(old(a[..]))
    {
      InsertLeft(a, i);
      i := i + 1;
    }
    assert a[..] == a[..a.Length];
  }

  /** Neighbours in `s[lo..hi]` are in comparator order. */
  predicate SortedRange(s: seq<ScoredMatch>, lo: int, hi: int)
    requires 0 <= lo <= hi <= |s|
  {
    forall k :: lo < k < hi ==> Compare(s[k - 1], s[k]) <= 0
  }

  /** Midway through one insertion: `s[..j]` and `s[j..i + 1]` are sorted, and the record moving
      left, at `j`, may be dropped between `s[j - 1]` and `s[j + 1]`. */
  predicate Inserting(s: seq<ScoredMatch>, j: int, i: int)
    requires 0 <= j <= i < |s|
  {
    SortedRange(s, 0, j) && SortedRange(s, j, i + 1) &&
    (0 < j < i ==> Compare(s[j - 1], s[j + 1]) <= 0)
  }

  /** Swapping the moving record with a left neighbour that should come after it keeps the
      insertion going. */
  lemma InsertingStep(s: seq<ScoredMatch>, j: int, i: int)
    requires 0 < j <= i < |s| && Inserting(s, j, i) && Compare(s[j - 1], s[j]) > 0
    ensures Inserting(s[j - 1 := s[j]][j := s[j - 1]], j - 1, i)
  {
    var t := s[j - 1 := s[j]][j := s[j - 1]];
    CompareConsistent(s[j - 1], s[j], s[j]);
    if 1 < j {
      assert Compare(t[j - 2], t[j]) <= 0;
    }
    forall k | j - 1 < k < i + 1 ensures Compare(t[k - 1], t[k]) <= 0 {
      if k > j + 1 {
        assert t[k - 1] == s[k - 1] && t[k] == s[k];
      }
    }
  }

  /** Before the first swap the record to insert sits at `i`, after the sorted prefix. */
  lemma InsertingStart(s: seq<ScoredMatch>, i: int)
    requires 0 < i < |s| && Sorted(s[..i])
    ensures Inserting(s, i, i)
  {
    forall k | 0 < k < i ensures Compare(s[k - 1], s[k]) <= 0 {
      assert s[k - 1] == s[..i][k - 1] && s[k] == s[..i][k];
    }
  }

  /** The insertion has stopped: `s[..i + 1]` is sorted. */
  lemma InsertingDone(s: seq<ScoredMatch>, j: int, i: int)
    requires 0 <= j <= i < |s| && Inserting(s, j, i)
    requires j == 0 || Compare(s[j - 1], s[j]) <= 0
    ensures Sorted(s[..i + 1])
  {
    var p := s[..i + 1];
    forall k | 0 < k < |p| ensures Compare(p[k - 1], p[k]) <= 0 {
      assert p[k - 1] == s[k - 1] && p[k] == s[k];
    }
  }

  /** One insertion step: with `a[..i]` sorted, moves `a[i]` left until `a[..i + 1]` is sorted.
      It swaps only when the comparator is positive, so records it calls equal keep their order. */
  method InsertLeft(a: array<ScoredMatch>, i: int)
    requires 0 < i < a.Length && Sorted(a[..i])
    modifies a
    ensures Sorted(a[..i + 1])
    ensures a[i + 1..] == old(a[i + 1..])
    ensures multiset(a[..]) == multiset(old(a[..]))
  {
    var j := i;
    InsertingStart(a[..], i);
    while 0 < j && Compare(a[j - 1], a[j]) > 0
      invariant 0 <= j <= i
      invariant Inserting(a[..], j, i)
      invariant a[i + 1..] == old(a[i + 1..])
      invariant multiset(a[..]) == multiset(old(a[..]))
    {
      InsertingStep(a[..], j, i);
      Swap(a, j - 1);
      j := j - 1;
    }
    InsertingDone(a[..], j, i);
  }

  /** Exchanges two neighbouring records. */
  method Swap(a: array<ScoredMatch>, k: int)
    requires 0 <= k < a.Length - 1
    modifies a
    ensures a[..] == old(a[..])[k := old(a[k + 1])][k + 1 := old(a[k])]
    ensures multiset(a[..]) == multiset(old(a[..]))
  {
    a[k], a[k + 1] := a[k + 1], a[k];
  }
}
