/** Definitions shared by the modules of the model. */
module Common {
  datatype Option<+T> = None | Some(value: T)

  datatype Coin = Coin(denom: string, amount: nat)

  const TWO_31: nat := 0x8000_0000
  const TWO_32: nat := 0x1_0000_0000
  const TWO_63: nat := 0x8000_0000_0000_0000
  const TWO_64: nat := 0x1_0000_0000_0000_0000

  ghost predicate Distinct<T>(xs: seq<T>) {
    forall i, j :: 0 <= i < j < |xs| ==> xs[i] != xs[j]
  }

  /** Multiplying by a natural number keeps the order. */
  lemma MulOrder(x: int, y: int, g: nat)
    requires x <= y
    ensures x * g <= y * g
  {
  }

  /** A sequence cut in two, and at one element. */
  lemma CutBefore<T>(s: seq<T>, i: nat)
    requires i <= |s|
    ensures s == s[..i] + s[i..]
  {
  }

  lemma CutAt<T>(s: seq<T>, i: nat)
    requires i < |s|
    ensures s == s[..i] + [s[i]] + s[i + 1..]
  {
  }

  lemma Reassociate<T>(a: seq<T>, b: seq<T>, c: seq<T>)
    ensures a + (b + c) == a + b + c
  {
  }

  type uint64 = x: int | 0 <= x < TWO_64
}
