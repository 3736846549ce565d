/**
 * Small facts about sequences and arithmetic that the proofs of the other
 * modules use as single steps: regrouping a concatenation, splitting a
 * sequence at an index, and one step of a product.
 */
module Util {
  /** Splitting a sequence at k and joining the halves gives it back. */
  lemma TakeDrop<T>(s: seq<T>, k: nat)
    requires k <= |s|
    ensures s[..k] + s[k..] == s
  {
  }

  /** One more row of height h adds h to a product. */
  lemma MulSucc(n: int, h: int)
    ensures n * h + h == (n + 1) * h
  {
  }

  /** Regrouping the tokens of a parenthesised expression followed by more tokens. */
  lemma Regroup<T>(x: T, a: seq<T>, y: T, b: seq<T>, z: T, rest: seq<T>)
    ensures var ts := [x] + a + [y] + b + [z] + rest;
      && ts[0] == x
      && ts[1..] == a + ([y] + b + ([z] + rest))
      && ([y] + b + ([z] + rest))[0] == y
      && ([y] + b + ([z] + rest))[1..] == b + ([z] + rest)
  {
    var ts := [x] + a + [y] + b + [z] + rest;
    assert ts == [x] + (a + ([y] + b + ([z] + rest)));
  }

  /** Regrouping the seven pieces of a rendered compound expression. */
  lemma Regroup7<T>(x1: seq<T>, x2: seq<T>, x3: seq<T>, x4: seq<T>, x5: seq<T>, x6: seq<T>, x7: seq<T>)
    ensures x1 + (x2 + (((x3 + x4) + x5) + (x6 + x7))) == x1 + x2 + x3 + x4 + x5 + x6 + x7
  {
    assert x2 + (((x3 + x4) + x5) + (x6 + x7)) == x2 + x3 + x4 + x5 + x6 + x7;
  }
}
