/** Keys of the EVM transaction index in its ordered key-value store. */
module TxIndexKeys {
  import opened Common
  import opened Wire

  const KEY_PREFIX_TX_HASH: byte := 1
  const KEY_PREFIX_TX_INDEX: byte := 2
  const TX_INDEX_KEY_LENGTH: nat := 1 + 8 + 8

  /** The low n bytes of v, most significant first. */
  function BigEndian(v: nat, n: nat): (b: Bytes)
    ensures |b| == n
  {
    if n == 0 then [] else BigEndian(v / 256, n - 1) + [v % 256]
  }

  function FromBigEndian(b: Bytes): nat {
    if b == [] then 0 else FromBigEndian(b[..|b| - 1]) * 256 + b[|b| - 1]
  }

  /** Conversion of a signed integer to uint64, and of a uint64 to int64. */
  function ToUint64(x: int): nat { x % TWO_64 }

  function ToInt64(x: nat): int {
    var y := x % TWO_64;
    if y >= TWO_63 then y - TWO_64 else y
  }

  function TxHashKey(hash: Bytes): Bytes { [KEY_PREFIX_TX_HASH] + hash }

  function TxIndexKey(height: int, txIndex: int): Bytes {
    [KEY_PREFIX_TX_INDEX] + BigEndian(ToUint64(height), 8) + BigEndian(ToUint64(txIndex), 8)
  }

  datatype BlockNumber = BlockNumber(value: int) | WrongKeyLength(length: nat)

  /** The block number in an index key. */
  function ParseBlockNumber(key: Bytes): BlockNumber {
    if |key| != TX_INDEX_KEY_LENGTH then WrongKeyLength(|key|) else BlockNumber(ToInt64(FromBigEndian(key[1..9])))
  }

  /** Byte-lexicographic order, the order of the store's iterators. */
  predicate LexLess(a: Bytes, b: Bytes) {
    b != [] && (a == [] || a[0] < b[0] || (a[0] == b[0] && LexLess(a[1..], b[1..])))
  }

  function Pow256(n: nat): nat {
    if n == 0 then 1 else 256 * Pow256(n - 1)
  }

  lemma EightBytesHoldUint64()
    ensures Pow256(8) == TWO_64
  {
    assert Pow256(4) == TWO_32;
    assert Pow256(6) == 256 * 256 * Pow256(4);
  }

  lemma {:induction false} FromToBigEndian(v: nat, n: nat)
    requires v < Pow256(n)
    ensures FromBigEndian(BigEndian(v, n)) == v
  {
    if n > 0 {
      FromToBigEndian(v / 256, n - 1);
      var b := BigEndian(v, n);
      assert b[..|b| - 1] == BigEndian(v / 256, n - 1);
    }
  }

  lemma {:induction false} LexConcat(a: Bytes, b: Bytes, c: Bytes, d: Bytes)
    requires |a| == |b|
    ensures LexLess(a + c, b + d) <==> LexLess(a, b) || (a == b && LexLess(c, d))
  {
    if a == [] {
      assert a + c == c && b + d == d;
    } else {
      assert (a + c)[1..] == a[1..] + c && (b + d)[1..] == b[1..] + d;
      assert a == b <==> a[0] == b[0] && a[1..] == b[1..] by {
        assert a == [a[0]] + a[1..] && b == [b[0]] + b[1..];
      }
      LexConcat(a[1..], b[1..], c, d);
    }
  }

  lemma {:induction false} BigEndianOrder(x: nat, y: nat, n: nat)
    requires x < Pow256(n) && y < Pow256(n)
    ensures LexLess(BigEndian(x, n), BigEndian(y, n)) <==> x < y
    ensures BigEndian(x, n) == BigEndian(y, n) <==> x == y
  {
    FromToBigEndian(x, n);
    FromToBigEndian(y, n);
    if n > 0 {
      BigEndianOrder(x / 256, y / 256, n - 1);
      var c: Bytes := [x % 256];
      var d: Bytes := [y % 256];
      LexConcat(BigEndian(x / 256, n - 1), BigEndian(y / 256, n - 1), c, d);
      assert LexLess(c, d) <==> c[0] < d[0];
    }
  }

  ghost predicate InRange(height: int, txIndex: int) {
    0 <= height < TWO_63 && 0 <= txIndex < TWO_31
  }

  /** For non-negative heights and indices the store's key order is the numeric
      order of (height, index), and different pairs have different keys. */
  lemma KeyOrder(h1: int, i1: int, h2: int, i2: int)
    requires InRange(h1, i1) && InRange(h2, i2)
    ensures LexLess(TxIndexKey(h1, i1), TxIndexKey(h2, i2)) <==> h1 < h2 || (h1 == h2 && i1 < i2)
    ensures TxIndexKey(h1, i1) == TxIndexKey(h2, i2) <==> h1 == h2 && i1 == i2
  {
    hide BigEndian, Pow256;
    EightBytesHoldUint64();
    var a1, b1 := BigEndian(h1, 8), BigEndian(i1, 8);
    var a2, b2 := BigEndian(h2, 8), BigEndian(i2, 8);
    BigEndianOrder(h1, h2, 8);
    BigEndianOrder(i1, i2, 8);
    var p: Bytes := [KEY_PREFIX_TX_INDEX];
    LexConcat(p, p, a1 + b1, a2 + b2);
    LexConcat(a1, a2, b1, b2);
    assert TxIndexKey(h1, i1) == p + (a1 + b1) && TxIndexKey(h2, i2) == p + (a2 + b2);
    assert !LexLess(p, p);
    assert a1 == TxIndexKey(h1, i1)[1..9] && b1 == TxIndexKey(h1, i1)[9..];
    assert a2 == TxIndexKey(h2, i2)[1..9] && b2 == TxIndexKey(h2, i2)[9..];
  }

  lemma ParseOfKey(height: int, txIndex: int)
    requires InRange(height, txIndex)
    ensures ParseBlockNumber(TxIndexKey(height, txIndex)) == BlockNumber(height)
    ensures forall key: Bytes :: ParseBlockNumber(key).WrongKeyLength? <==> |key| != 17
  {
    hide BigEndian, Pow256, FromBigEndian;
    EightBytesHoldUint64();
    FromToBigEndian(height, 8);
    assert TxIndexKey(height, txIndex)[1..9] == BigEndian(height, 8);
  }

  /** The bounds of the index iterators select exactly the keys of the index prefix. */
  lemma IteratorRange(key: Bytes)
    ensures !LexLess(key, [KEY_PREFIX_TX_INDEX]) && LexLess(key, [KEY_PREFIX_TX_INDEX + 1])
       <==> key != [] && key[0] == KEY_PREFIX_TX_INDEX
  {
    var lo: Bytes := [KEY_PREFIX_TX_INDEX];
    var hi: Bytes := [KEY_PREFIX_TX_INDEX + 1];
    assert lo[1..] == [] && hi[1..] == [];
    assert key != [] ==> !LexLess(key[1..], lo[1..]) && !LexLess(key[1..], hi[1..]);
  }
}
