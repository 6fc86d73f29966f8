/** The id tie-break `a.id.localeCompare(b.id)`, taken as plain lexicographic order on characters. */
module LexOrder {

  /** Negative, zero or positive as `s` sorts before, equal to, or after `t`. */
  function LexCompare(s: string, t: string): (c: int)
    ensures -1 <= c <= 1
  {
    if s == [] then (if t == [] then 0 else -1)
    else if t == [] then 1
    else if s[0] < t[0] then -1
    else if t[0] < s[0] then 1
    else LexCompare(s[1..], t[1..])
  }

  /** Swapping the operands flips the sign. */
  lemma {:induction false} LexCompareAntisymmetric(s: string, t: string)
    ensures LexCompare(s, t) == -LexCompare(t, s)
  {
    if s != [] && t != [] && s[0] == t[0] {
      LexCompareAntisymmetric(s[1..], t[1..]);
    }
  }

  /** Only equal strings compare as equal. */
  lemma {:induction false} LexCompareZero(s: string, t: string)
    ensures LexCompare(s, t) == 0 <==> s == t
  {
    if s != [] && t != [] && s[0] == t[0] {
      LexCompareZero(s[1..], t[1..]);
      assert s == [s[0]] + s[1..] && t == [t[0]] + t[1..];
    }
  }

  /** "Not after" is transitive. */
  lemma {:induction false} LexCompareTransitive(s: string, t: string, u: string)
    requires LexCompare(s, t) <= 0 && LexCompare(t, u) <= 0
    ensures LexCompare(s, u) <= 0
  {
    if s != [] && t != [] && u != [] && s[0] == t[0] == u[0] {
      LexCompareTransitive(s[1..], t[1..], u[1..]);
    }
  }
}
