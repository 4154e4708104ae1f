/** String helpers shared by the serializer, the response resolver and the log naming. */
module Strings {

  /** `s.EndsWith(suffix)`, compared character by character. */
  predicate EndsWith(s: string, suffix: string) {
    |suffix| <= |s| && s[|s| - |suffix|..] == suffix
  }

  /** `k` copies of `p`, one after the other. */
  function Repeat(p: string, k: nat): (r: string)
    ensures |r| == k * |p|
  {
    if k == 0 then "" else Repeat(p, k - 1) + p
  }

  /** One copy in front of `k` copies is `k + 1` copies: the other way of unfolding Repeat. */
  lemma {:induction false} RepeatPrepend(p: string, k: nat)
    ensures p + Repeat(p, k) == Repeat(p, k + 1)
  {
    if k > 0 {
      RepeatPrepend(p, k - 1);
      assert p + Repeat(p, k) == (p + Repeat(p, k - 1)) + p;
    }
  }

  lemma EmptyAppend(s: string)
    ensures "" + s == s
  {
  }

  lemma AppendAssoc(s: string, a: string, b: string)
    ensures s + a + b == s + (a + b)
  {
  }

  /** Appending three pieces one by one is appending their concatenation. */
  lemma AppendThree(s: string, a: string, b: string, c: string)
    ensures s + a + b + c == s + (a + b + c)
  {
  }
}
