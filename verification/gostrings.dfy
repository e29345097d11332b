/** The two helpers from Go's `strings` package that the mining loop relies on,
    and the "difficulty" predicate built from them: a hash meets difficulty `d`
    when it starts with `d` copies of the character '0'. */
module GoStrings {

  /** `strings.Repeat` applied to a one-character string. Go panics on a
      negative count, so the count is a `nat` here. */
  function Repeat(c: char, count: nat): (r: string)
    ensures |r| == count
    ensures forall i :: 0 <= i < count ==> r[i] == c
  {
    if count == 0 then [] else Repeat(c, count - 1) + [c]
  }

  /** `strings.HasPrefix`: `s` begins with `prefix`. */
  predicate HasPrefix(s: string, prefix: string)
  {
    |prefix| <= |s| && s[..|prefix|] == prefix
  }

  /** The mining loop's exit test, `strings.HasPrefix(hash, strings.Repeat("0", d))`. */
  predicate LeadingZeros(s: string, d: nat)
  {
    HasPrefix(s, Repeat('0', d))
  }

  /** The exit test means exactly: the first `d` characters exist and are all '0'. */
  lemma LeadingZerosMeaning(s: string, d: nat)
    ensures LeadingZeros(s, d) <==> d <= |s| && forall i :: 0 <= i < d ==> s[i] == '0'
  {
  }

  /** Difficulty 0 accepts every string, including the empty one; a positive
      difficulty rejects the empty string. */
  lemma LeadingZerosOfEmpty(d: nat)
    ensures LeadingZeros("", d) <==> d == 0
  {
  }

  /** A hash that meets a difficulty also meets every smaller one. */
  lemma LeadingZerosMonotone(s: string, d: nat, e: nat)
    requires LeadingZeros(s, d)
    requires e <= d
    ensures LeadingZeros(s, e)
  {
  }
}
