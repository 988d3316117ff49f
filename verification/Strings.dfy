/** Small facts about concatenation, kept apart so that other proofs do not repeat them. */
module Strings {
  import opened Decimals

  lemma Assoc(a: string, b: string, c: string)
    ensures (a + b) + c == a + (b + c)
  { }

  lemma Cancel(c: char, r: string, d: char, q: string)
    requires [c] + r == [d] + q
    ensures c == d && r == q
  {
    assert ([c] + r)[0] == c && ([d] + q)[0] == d;
    assert ([c] + r)[1..] == r && ([d] + q)[1..] == q;
  }

  lemma HeadTail(c: char, r: string)
    ensures [c] + r != "" && ([c] + r)[0] == c && ([c] + r)[1..] == r
  { }

  lemma Uncons(s: string)
    requires s != ""
    ensures s == [s[0]] + s[1..]
  { }

  // ---------------------------------------------------------------- words

  predicate IsWordChar(c: char) {
    'a' <= c <= 'z' || IsDigit(c)
  }

  predicate IsWord(s: string) {
    forall c :: c in s ==> IsWordChar(c)
  }

  /** `s` does not continue a word. */
  predicate EndsWord(s: string) {
    s == "" || !IsWordChar(s[0])
  }

  lemma {:induction false} WordsSplit(a: string, b: string, r: string, q: string)
    requires IsWord(a) && IsWord(b) && EndsWord(r) && EndsWord(q)
    requires a + r == b + q
    ensures a == b && r == q
  {
    assert a != "" ==> a[0] in a && (a + r)[0] == a[0];
    assert b != "" ==> b[0] in b && (b + q)[0] == b[0];
    if a == "" || b == "" {
      assert a + r == if a == "" then r else a + r;
      assert b + q == if b == "" then q else b + q;
    } else {
      assert a[0] == (a + r)[0] == (b + q)[0] == b[0];
      assert (a + r)[1..] == a[1..] + r && (b + q)[1..] == b[1..] + q;
      WordsSplit(a[1..], b[1..], r, q);
    }
  }
}
