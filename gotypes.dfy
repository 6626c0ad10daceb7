/** Go's fixed-width integers and its ordering of strings. */
module GoTypes {

  const TWO_TO_64: int := 0x1_0000_0000_0000_0000

  /** Go `uint64`. */
  type U64 = x: int | 0 <= x < TWO_TO_64

  /** Go `int32` (a process id). */
  type I32 = x: int | -0x8000_0000 <= x < 0x8000_0000

  /** Go's `a - b` on two `uint64` operands: the difference taken modulo 2^64,
      so a smaller minuend wraps around instead of going negative. */
  function Sub64(a: U64, b: U64): (r: U64)
    ensures a >= b ==> r == a - b
    ensures a < b ==> r == TWO_TO_64 - (b - a)
    ensures (r + b) % TWO_TO_64 == a
  {
    (a - b) % TWO_TO_64
  }

  /** Go's `<` on strings: lexicographic on the encoded text. Comparing UTF-8
      bytes lexicographically orders strings as comparing their code points does,
      so the model compares characters. */
  predicate LexLess(a: string, b: string)
    decreases |a|
  {
    |b| > 0 && (|a| == 0 || a[0] < b[0] || (a[0] == b[0] && LexLess(a[1..], b[1..])))
  }

  lemma {:induction false} LexIrreflexive(a: string)
    ensures !LexLess(a, a)
    decreases |a|
  {
    if |a| > 0 {
      LexIrreflexive(a[1..]);
    }
  }

  lemma {:induction false} LexTransitive(a: string, b: string, c: string)
    requires LexLess(a, b) && LexLess(b, c)
    ensures LexLess(a, c)
    decreases |a|
  {
    if |a| > 0 && a[0] == b[0] == c[0] {
      LexTransitive(a[1..], b[1..], c[1..]);
    }
  }

  /** Any two strings are equal or ordered one way or the other. */
  lemma {:induction false} LexTotal(a: string, b: string)
    ensures a == b || LexLess(a, b) || LexLess(b, a)
    decreases |a|
  {
    if |a| > 0 && |b| > 0 && a[0] == b[0] {
      LexTotal(a[1..], b[1..]);
      if a[1..] == b[1..] {
        assert a == [a[0]] + a[1..] && b == [b[0]] + b[1..];
      }
    }
  }

  lemma LexAsymmetric(a: string, b: string)
    requires LexLess(a, b)
    ensures !LexLess(b, a)
  {
    if LexLess(b, a) {
      LexTransitive(a, b, a);
      LexIrreflexive(a);
    }
  }
}
