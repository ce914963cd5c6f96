/** The protobuf wire format read and written by the generated codecs: base-128
    varints, length-delimited records, and the unknown-field skipper with its
    group depth. Reading functions take the unread suffix `s` of the buffer and
    the index `off` at which it starts, because the generated code computes its
    end indices in 64-bit signed arithmetic and reports a wrapped index as an
    invalid length. */
module Wire {
  import opened Common

  type byte = x: int | 0 <= x < 256
  type Bytes = seq<byte>

  datatype WireError =
    | IntOverflow | UnexpectedEOF | InvalidLength | UnexpectedEndOfGroup | IllegalWireType
    | EndGroupForNonGroup | IllegalTag | WrongWireType

  datatype Result<+T> = Ok(value: T) | Err(error: WireError) {
    predicate IsFailure() { Err? }
    function PropagateFailure<U>(): Result<U>
      requires Err?
    {
      Err(error)
    }
    function Extract(): T
      requires Ok?
    {
      value
    }
  }

  /** A value read from the front of the unread bytes, and how many bytes it took. */
  datatype Read<+T> = Read(item: T, len: nat)

  // ---------- varints ----------

  function EncodeVarint(v: nat): (b: Bytes)
    ensures |b| >= 1
  {
    if v < 128 then [v] else [v % 128 + 128] + EncodeVarint(v / 128)
  }

  /** Number of binary digits of x (Go's bits.Len64). */
  function BitLen(x: nat): nat {
    if x == 0 then 0 else 1 + BitLen(x / 2)
  }

  function SetLowBit(x: nat): nat { x / 2 * 2 + 1 }

  function Sov(x: nat): nat { (BitLen(SetLowBit(x)) + 6) / 7 }

  lemma BitLenHalves(x: nat)
    requires x >= 128
    ensures BitLen(x) == 7 + BitLen(x / 128)
  {
    assert BitLen(x) == 1 + BitLen(x / 2);
    assert BitLen(x / 2) == 1 + BitLen(x / 4) by { assert x / 2 / 2 == x / 4; }
    assert BitLen(x / 4) == 1 + BitLen(x / 8) by { assert x / 4 / 2 == x / 8; }
    assert BitLen(x / 8) == 1 + BitLen(x / 16) by { assert x / 8 / 2 == x / 16; }
    assert BitLen(x / 16) == 1 + BitLen(x / 32) by { assert x / 16 / 2 == x / 32; }
    assert BitLen(x / 32) == 1 + BitLen(x / 64) by { assert x / 32 / 2 == x / 64; }
    assert BitLen(x / 64) == 1 + BitLen(x / 128) by { assert x / 64 / 2 == x / 128; }
  }

  lemma BitLenSmall(x: nat)
    requires 0 < x < 128
    ensures 1 <= BitLen(x) <= 7
  {
    var y := x / 2;
    var z := y / 2;
    var w := z / 2;
    var u := w / 2;
    var t := u / 2;
    var q := t / 2;
    assert q < 2;
    assert BitLen(q) <= 1;
    assert BitLen(t) <= 2;
    assert BitLen(u) <= 3;
    assert BitLen(w) <= 4;
    assert BitLen(z) <= 5;
    assert BitLen(y) <= 6;
  }

  /** The size formula by bit length counts exactly the bytes the encoder produces. */
  lemma {:induction false} SovIsLength(v: nat)
    ensures |EncodeVarint(v)| == Sov(v)
  {
    var x := SetLowBit(v);
    if v < 128 {
      BitLenSmall(x);
    } else {
      SovIsLength(v / 128);
      BitLenHalves(x);
      assert x / 128 / 2 == v / 128 / 2;
      assert BitLen(x / 128) == BitLen(SetLowBit(v / 128)) by {
        assert x / 128 == v / 128;
        assert BitLen(v / 128) == 1 + BitLen(v / 128 / 2);
        assert SetLowBit(v / 128) / 2 == v / 128 / 2;
      }
    }
  }

  /** Reads base-128 groups, `k` of which have been read before; the result is
      the unbounded little-endian value of the groups that remain. */
  function ReadGroups(s: Bytes, k: nat): (r: Result<Read<nat>>)
    ensures r.Ok? ==> 1 <= r.value.len <= |s|
  {
    if k >= 10 then Err(IntOverflow)
    else if s == [] then Err(UnexpectedEOF)
    else if s[0] < 128 then Ok(Read(s[0], 1))
    else
      var rest :- ReadGroups(s[1..], k + 1);
      Ok(Read(s[0] % 128 + 128 * rest.item, 1 + rest.len))
  }

  /** A varint as the decoders see it: ten groups at most, kept modulo 2^64. */
  function ReadVarint(s: Bytes): (r: Result<Read<nat>>)
    ensures r.Ok? ==> 1 <= r.value.len <= |s| && r.value.item < TWO_64
  {
    var g :- ReadGroups(s, 0);
    Ok(Read(g.item % TWO_64, g.len))
  }

  function Pow128(k: nat): nat
  {
    if k == 0 then 1 else 128 * Pow128(k - 1)
  }

  lemma {:induction false} ReadGroupsOfEncoded(v: nat, rest: Bytes, k: nat)
    requires k < 10 && v < Pow128(10 - k)
    ensures ReadGroups(EncodeVarint(v) + rest, k) == Ok(Read(v, |EncodeVarint(v)|))
  {
    var s := EncodeVarint(v) + rest;
    if v >= 128 {
      assert s[1..] == EncodeVarint(v / 128) + rest;
      assert Pow128(10 - k) == 128 * Pow128(9 - k);
      assert Pow128(0) == 1 && v >= Pow128(1);
      ReadGroupsOfEncoded(v / 128, rest, k + 1);
    }
  }

  lemma TenGroupsHoldUint64()
    ensures Pow128(10) >= TWO_64
  {
    NineGroups();
  }

  lemma NineGroups()
    ensures Pow128(9) == 0x8000_0000_0000_0000
  {
    assert Pow128(2) == 0x4000;
    assert Pow128(4) == 0x1000_0000 by { assert Pow128(3) == 128 * 0x4000; }
    assert Pow128(6) == 0x400_0000_0000 by { assert Pow128(5) == 128 * 0x1000_0000; }
    assert Pow128(8) == 0x100_0000_0000_0000 by { assert Pow128(7) == 128 * 0x400_0000_0000; }
  }

  /** Decoding an encoded uint64 returns it and its exact length, whatever follows. */
  lemma VarintRoundTrip(v: nat, rest: Bytes)
    requires v < TWO_64
    ensures ReadVarint(EncodeVarint(v) + rest) == Ok(Read(v, |EncodeVarint(v)|))
    ensures |EncodeVarint(v)| == Sov(v)
  {
    hide Pow128, EncodeVarint, Sov, ReadGroups;
    assert v < Pow128(10 - 0) by { TenGroupsHoldUint64(); }
    ReadGroupsOfEncoded(v, rest, 0);
    SovIsLength(v);
  }

  /** Byte strings that are one varint: continuation bits on all bytes but the last. */
  ghost predicate IsVarint(b: Bytes) {
    && 1 <= |b| <= 10
    && b[|b| - 1] < 128
    && forall i :: 0 <= i < |b| - 1 ==> b[i] >= 128
  }

  lemma {:induction false} GroupsAppend(b: Bytes, g: byte)
    ensures GroupsValue(b + [g]) == GroupsValue(b) + Pow128(|b|) * (g % 128)
    decreases |b|
  {
    if b == [] {
      assert b + [g] == [g] && [g][1..] == [];
    } else {
      assert (b + [g])[1..] == b[1..] + [g];
      GroupsAppend(b[1..], g);
      assert Pow128(|b|) == 128 * Pow128(|b| - 1);
      assert 128 * (Pow128(|b| - 1) * (g % 128)) == Pow128(|b|) * (g % 128);
    }
  }

  function GroupsValue(b: Bytes): nat {
    if b == [] then 0 else b[0] % 128 + 128 * GroupsValue(b[1..])
  }

  ghost function VarintValue(b: Bytes): nat { GroupsValue(b) % TWO_64 }

  lemma {:induction false} ReadGroupsAccepts(b: Bytes, rest: Bytes, k: nat)
    requires b != [] && |b| + k <= 10
    requires b[|b| - 1] < 128
    requires forall i :: 0 <= i < |b| - 1 ==> b[i] >= 128
    ensures ReadGroups(b + rest, k) == Ok(Read(GroupsValue(b), |b|))
  {
    if |b| == 1 {
      assert b[1..] == [];
    } else {
      assert (b + rest)[1..] == b[1..] + rest;
      assert b[0] >= 128;
      forall i | 0 <= i < |b[1..]| - 1 ensures b[1..][i] >= 128 { assert b[1..][i] == b[i + 1]; }
      ReadGroupsAccepts(b[1..], rest, k + 1);
    }
  }

  lemma {:induction false} ReadGroupsRejectsRest(s: Bytes, k: nat)
    requires ReadGroups(s, k).Ok?
    ensures var n := ReadGroups(s, k).value.len;
            && n + k <= 10 && s[n - 1] < 128
            && (forall i :: 0 <= i < n - 1 ==> s[i] >= 128)
  {
    if s[0] >= 128 {
      ReadGroupsRejectsRest(s[1..], k + 1);
      var n := ReadGroups(s, k).value.len;
      forall i | 0 <= i < n - 1 ensures s[i] >= 128 {
        if i > 0 { assert s[i] == s[1..][i - 1]; }
      }
    }
  }

  /** The varint loop succeeds exactly on inputs that start with one varint, and
      what it returns depends on those bytes only. */
  lemma ReadVarintExact(s: Bytes, n: nat)
    requires n <= |s|
    ensures IsVarint(s[..n]) <==> (ReadVarint(s).Ok? && ReadVarint(s).value.len == n)
    ensures IsVarint(s[..n]) ==> ReadVarint(s).value.item == VarintValue(s[..n])
  {
    if IsVarint(s[..n]) {
      ReadGroupsAccepts(s[..n], s[n..], 0);
      assert s[..n] + s[n..] == s;
    }
    if ReadVarint(s).Ok? && ReadVarint(s).value.len == n {
      ReadGroupsRejectsRest(s, 0);
    }
  }

  lemma {:induction false} ReadGroupsFails(s: Bytes, k: nat)
    requires k <= 10
    ensures ReadGroups(s, k) == Err(UnexpectedEOF) <==> |s| < 10 - k && forall i :: 0 <= i < |s| ==> s[i] >= 128
    ensures ReadGroups(s, k) == Err(IntOverflow) <==> |s| >= 10 - k && forall i :: 0 <= i < 10 - k ==> s[i] >= 128
    ensures ReadGroups(s, k).Err? ==> ReadGroups(s, k).error in {UnexpectedEOF, IntOverflow}
    decreases |s|
  {
    if k < 10 && s != [] {
      ReadGroupsFails(s[1..], k + 1);
      assert forall i :: 0 < i < |s| ==> s[i] == s[1..][i - 1];
      assert forall i :: 0 <= i < |s[1..]| ==> s[1..][i] == s[i + 1];
    }
  }

  /** How reading a varint fails: the input ends within it, or ten continued groups. */
  lemma ReadVarintFails(s: Bytes)
    ensures ReadVarint(s) == Err(UnexpectedEOF) <==> |s| < 10 && forall i :: 0 <= i < |s| ==> s[i] >= 128
    ensures ReadVarint(s) == Err(IntOverflow) <==> |s| >= 10 && forall i :: 0 <= i < 10 ==> s[i] >= 128
  {
    ReadGroupsFails(s, 0);
  }

  lemma VarintErrorKinds(s: Bytes)
    ensures ReadVarint(s).Err? ==> ReadVarint(s).error in {UnexpectedEOF, IntOverflow}
  {
    ReadGroupsFails(s, 0);
  }

  lemma ReadVarintOf(b: Bytes, rest: Bytes)
    requires IsVarint(b)
    ensures ReadVarint(b + rest) == Ok(Read(VarintValue(b), |b|))
  {
    assert (b + rest)[..|b|] == b;
    ReadVarintExact(b + rest, |b|);
  }

  // ---------- length-delimited payloads ----------

  /** The end of a payload that starts `n` bytes into s and claims `length`
      bytes: the generated code adds the claim to its signed 64-bit index. */
  function PayloadEnd(off: nat, s: Bytes, n: nat, length: nat): (r: Result<nat>)
    ensures r.Ok? ==> r.value == n + length <= |s|
  {
    if length >= TWO_63 || off + n + length >= TWO_63 then Err(InvalidLength)
    else if n + length > |s| then Err(UnexpectedEOF)
    else Ok(n + length)
  }

  function ReadDelimited(off: nat, s: Bytes): (r: Result<Read<Bytes>>)
    ensures r.Ok? ==> 1 <= r.value.len <= |s|
  {
    var l :- ReadVarint(s);
    var end :- PayloadEnd(off, s, l.len, l.item);
    Ok(Read(s[l.len..end], end))
  }

  // ---------- the unknown-field skipper ----------

  /** Where a record ends whose tag took `n` bytes and is followed by `rest`. */
  function RecordEnd(wireType: nat, n: nat, rest: Bytes): (r: Result<Read<nat>>)
    ensures r.Ok? ==> r.value.len >= n && r.value.item == wireType <= 5
  {
    match wireType
    case 0 =>
      var v :- ReadVarint(rest);
      Ok(Read(0, n + v.len))
    case 1 => Ok(Read(1, n + 8))
    case 2 =>
      var l :- ReadVarint(rest);
      if l.item >= TWO_63 then Err(InvalidLength) else Ok(Read(2, n + l.len + l.item))
    case 3 => Ok(Read(3, n))
    case 4 => Ok(Read(4, n))
    case 5 => Ok(Read(5, n + 4))
    case _ => Err(IllegalWireType)
  }

  /** Wire type and length of the record at the front of s: its tag and, for the
      wire types that have one, its payload. Fixed and delimited payloads may
      reach past the end of s; the loops around check that afterwards. */
  function RecordLen(s: Bytes): (r: Result<Read<nat>>)
    ensures r.Ok? ==> r.value.len >= 1 && r.value.item <= 5
  {
    var tag :- ReadVarint(s);
    RecordEnd(tag.item % 8, tag.len, s[tag.len..])
  }

  /** skipModule, entered with `depth` groups open after `off` bytes. A result
      larger than |s| is a record that claims more bytes than there are. */
  function Skip(off: nat, s: Bytes, depth: nat): (r: Result<nat>)
    ensures r.Ok? ==> r.value >= 1
    decreases |s|
  {
    if s == [] then Err(UnexpectedEOF)
    else
      var rec :- RecordLen(s);
      if rec.item == 4 && depth == 0 then Err(UnexpectedEndOfGroup)
      else
        var d := if rec.item == 3 then depth + 1 else if rec.item == 4 then depth - 1 else depth;
        if off + rec.len >= TWO_63 then Err(InvalidLength)
        else if d == 0 then Ok(rec.len)
        else if rec.len > |s| then Err(UnexpectedEOF)
        else
          var more :- Skip(off + rec.len, s[rec.len..], d);
          Ok(rec.len + more)
  }

  // ---------- what a skipped field is: a tree of records ----------

  /** A complete field: a scalar, a fixed-width value, a delimited payload, or a
      group whose body is closed by its own end marker. The skipper does not
      compare the field numbers of the two markers. */
  datatype Item =
    | Scalar(tag: Bytes, value: Bytes)
    | Fixed(tag: Bytes, data: Bytes)
    | Delimited(tag: Bytes, length: Bytes, data: Bytes)
    | Group(tag: Bytes, body: seq<Item>, close: Bytes)

  ghost function Render(it: Item): Bytes
    decreases it, 1
  {
    match it
    case Scalar(tag, value) => tag + value
    case Fixed(tag, data) => tag + data
    case Delimited(tag, length, data) => tag + length + data
    case Group(tag, body, close) => tag + RenderAll(body) + close
  }

  ghost function RenderAll(items: seq<Item>): Bytes
    decreases items, 0
  {
    if items == [] then [] else Render(items[0]) + RenderAll(items[1..])
  }

  ghost predicate TagOf(tag: Bytes, wireType: nat) {
    IsVarint(tag) && VarintValue(tag) % 8 == wireType
  }

  ghost predicate WellFormed(it: Item)
    decreases it, 1
  {
    match it
    case Scalar(tag, value) => TagOf(tag, 0) && IsVarint(value)
    case Fixed(tag, data) => (TagOf(tag, 1) && |data| == 8) || (TagOf(tag, 5) && |data| == 4)
    case Delimited(tag, length, data) => TagOf(tag, 2) && IsVarint(length) && VarintValue(length) == |data| < TWO_63
    case Group(tag, body, close) => TagOf(tag, 3) && AllWellFormed(body) && TagOf(close, 4)
  }

  ghost predicate AllWellFormed(items: seq<Item>)
    decreases items, 0
  {
    items != [] ==> WellFormed(items[0]) && AllWellFormed(items[1..])
  }

  ghost function Shift(r: Result<nat>, n: nat): Result<nat> {
    match r
    case Ok(m) => Ok(n + m)
    case Err(e) => Err(e)
  }

  /** Reading a tag off the front of a rendered record. */
  lemma RecordOfLeaf(it: Item, rest: Bytes)
    requires WellFormed(it) && !it.Group?
    ensures var r := RecordLen(Render(it) + rest);
            r.Ok? && r.value.len == |Render(it)| && r.value.item in {0, 1, 2, 5}
  {
    hide ReadVarint, VarintValue, IsVarint;
    var s := Render(it) + rest;
    match it {
      case Scalar(tag, value) =>
        assert s == tag + (value + rest);
        ReadVarintOf(tag, value + rest);
        assert s[|tag|..] == value + rest;
        ReadVarintOf(value, rest);
      case Fixed(tag, data) =>
        assert s == tag + (data + rest);
        ReadVarintOf(tag, data + rest);
      case Delimited(tag, length, data) =>
        assert s == tag + (length + data + rest);
        ReadVarintOf(tag, length + data + rest);
        assert s[|tag|..] == length + (data + rest);
        ReadVarintOf(length, data + rest);
    }
  }

  lemma RecordOfMarker(tag: Bytes, wireType: nat, rest: Bytes)
    requires wireType in {3, 4} && TagOf(tag, wireType)
    ensures RecordLen(tag + rest) == Ok(Read(wireType, |tag|))
  {
    ReadVarintOf(tag, rest);
  }

  /** Completeness inside a group: the skipper walks over every well-formed field
      in one stride and is then where it would have been at its end. */
  lemma {:induction false} SkipWalksItem(off: nat, it: Item, rest: Bytes, depth: nat)
    requires WellFormed(it) && depth >= 1
    requires off + |Render(it)| + |rest| < TWO_63
    ensures Skip(off, Render(it) + rest, depth) == Shift(Skip(off + |Render(it)|, rest, depth), |Render(it)|)
    decreases it, 1
  {
    hide ReadVarint, VarintValue, IsVarint, RecordLen;
    var s := Render(it) + rest;
    if it.Group? {
      SkipGroup(off, it, rest, depth);
    } else {
      RecordOfLeaf(it, rest);
      assert s != [];
      assert s[|Render(it)|..] == rest;
    }
  }

  lemma SkipOpen(off: nat, tag: Bytes, rest: Bytes, depth: nat)
    requires TagOf(tag, 3) && off + |tag| + |rest| < TWO_63
    ensures Skip(off, tag + rest, depth) == Shift(Skip(off + |tag|, rest, depth + 1), |tag|)
  {
    hide RecordLen, IsVarint, VarintValue;
    RecordOfMarker(tag, 3, rest);
    assert (tag + rest)[|tag|..] == rest;
    assert tag + rest != [];
  }

  lemma SkipClose(off: nat, close: Bytes, rest: Bytes, depth: nat)
    requires TagOf(close, 4) && off + |close| + |rest| < TWO_63
    ensures Skip(off, close + rest, depth + 1)
         == if depth == 0 then Ok(|close|) else Shift(Skip(off + |close|, rest, depth), |close|)
  {
    hide RecordLen, IsVarint, VarintValue;
    RecordOfMarker(close, 4, rest);
    assert (close + rest)[|close|..] == rest;
    assert close + rest != [];
  }

  lemma {:induction false} SkipGroup(off: nat, it: Item, rest: Bytes, depth: nat)
    requires WellFormed(it) && it.Group?
    requires off + |Render(it)| + |rest| < TWO_63
    ensures Skip(off, Render(it) + rest, depth)
         == if depth == 0 then Ok(|Render(it)|) else Shift(Skip(off + |Render(it)|, rest, depth), |Render(it)|)
    decreases it, 0
  {
    hide Skip, TagOf, RenderAll, AllWellFormed;
    var Group(tag, body, close) := it;
    var b := RenderAll(body);
    assert Render(it) + rest == tag + (b + (close + rest));
    SkipOpen(off, tag, b + (close + rest), depth);
    SkipWalksItems(off + |tag|, body, close + rest, depth + 1);
    SkipClose(off + |tag| + |b|, close, rest, depth);
  }

  lemma {:induction false} SkipWalksItems(off: nat, items: seq<Item>, rest: Bytes, depth: nat)
    requires AllWellFormed(items) && depth >= 1
    requires off + |RenderAll(items)| + |rest| < TWO_63
    ensures Skip(off, RenderAll(items) + rest, depth)
         == Shift(Skip(off + |RenderAll(items)|, rest, depth), |RenderAll(items)|)
    decreases items, 0
  {
    hide ReadVarint, VarintValue, IsVarint, RecordLen, Skip;
    if items == [] {
      assert RenderAll(items) + rest == rest;
    } else {
      var tail := RenderAll(items[1..]) + rest;
      assert RenderAll(items) + rest == Render(items[0]) + tail;
      SkipWalksItem(off, items[0], tail, depth);
      SkipWalksItems(off + |Render(items[0])|, items[1..], rest, depth);
    }
  }

  /** Completeness: called on the first byte of a well-formed field, the skipper
      returns exactly the length of that field, whatever follows. */
  lemma SkipComplete(it: Item, rest: Bytes)
    requires WellFormed(it) && |Render(it)| + |rest| < TWO_63
    ensures Skip(0, Render(it) + rest, 0) == Ok(|Render(it)|)
  {
    if it.Group? {
      SkipGroup(0, it, rest, 0);
    } else {
      RecordOfLeaf(it, rest);
      assert Render(it) + rest != [];
    }
  }

  /** What is left of an open group: the rest of its body and its end marker. */
  datatype Frame = Frame(body: seq<Item>, close: Bytes)

  ghost predicate GoodFrames(frames: seq<Frame>) {
    forall f <- frames :: AllWellFormed(f.body) && TagOf(f.close, 4)
  }

  ghost function RenderFrames(frames: seq<Frame>): Bytes {
    if frames == [] then [] else RenderAll(frames[0].body) + frames[0].close + RenderFrames(frames[1..])
  }

  ghost function Push(it: Item, frames: seq<Frame>): seq<Frame>
    requires frames != []
  {
    [Frame([it] + frames[0].body, frames[0].close)] + frames[1..]
  }

  lemma PushRender(it: Item, frames: seq<Frame>)
    requires frames != [] && WellFormed(it) && GoodFrames(frames)
    ensures GoodFrames(Push(it, frames))
    ensures RenderFrames(Push(it, frames)) == Render(it) + RenderFrames(frames)
  {
    hide WellFormed, TagOf, Render;
    var body := [it] + frames[0].body;
    assert body[1..] == frames[0].body;
    assert Push(it, frames)[1..] == frames[1..];
    assert frames[0] in frames;
    assert AllWellFormed(body);
    assert RenderAll(body) == Render(it) + RenderAll(frames[0].body);
    forall f | f in Push(it, frames) ensures AllWellFormed(f.body) && TagOf(f.close, 4) {
      if f != Frame(body, frames[0].close) { assert f in frames[1..]; assert f in frames; }
      else { assert frames[0] in frames; }
    }
  }

  /** The field read by one non-marker record. */
  lemma LeafOfRecord(s: Bytes) returns (it: Item)
    requires RecordLen(s).Ok? && RecordLen(s).value.item in {0, 1, 2, 5}
    requires RecordLen(s).value.len <= |s|
    ensures WellFormed(it) && !it.Group? && Render(it) == s[..RecordLen(s).value.len]
    ensures it.tag == s[..ReadVarint(s).value.len]
  {
    hide ReadVarint, VarintValue, IsVarint;
    var n := ReadVarint(s).value.len;
    var len := RecordLen(s).value.len;
    var tag := s[..n];
    ReadVarintExact(s, n);
    match ReadVarint(s).value.item % 8 {
      case 0 =>
        var m := ReadVarint(s[n..]).value.len;
        ReadVarintExact(s[n..], m);
        it := Scalar(tag, s[n..][..m]);
        assert Render(it) == s[..len];
      case 2 =>
        var m := ReadVarint(s[n..]).value.len;
        ReadVarintExact(s[n..], m);
        it := Delimited(tag, s[n..][..m], s[n + m..len]);
        assert Render(it) == s[..len];
      case _ =>
        it := Fixed(tag, s[n..len]);
        assert Render(it) == s[..len];
    }
  }

  lemma MarkerOfRecord(s: Bytes)
    requires RecordLen(s).Ok? && RecordLen(s).value.item in {3, 4}
    ensures RecordLen(s).value.len <= |s|
    ensures TagOf(s[..RecordLen(s).value.len], RecordLen(s).value.item)
    ensures RecordLen(s).value.len == ReadVarint(s).value.len
  {
    ReadVarintExact(s, ReadVarint(s).value.len);
  }

  /** An end marker in front of the frames of the groups around it. */
  lemma CloseFrame(close: Bytes, inner: seq<Frame>) returns (frames: seq<Frame>)
    requires TagOf(close, 4) && GoodFrames(inner)
    ensures |frames| == |inner| + 1 && GoodFrames(frames)
    ensures RenderFrames(frames) == close + RenderFrames(inner)
  {
    hide TagOf;
    frames := [Frame([], close)] + inner;
    assert frames[1..] == inner;
    assert RenderAll([]) + close == close;
  }

  /** A start marker turns the innermost frame into a complete group. */
  lemma OpenFrame(tag: Bytes, inner: seq<Frame>) returns (frames: seq<Frame>)
    requires TagOf(tag, 3) && |inner| >= 2 && GoodFrames(inner)
    ensures |frames| == |inner| - 1 && GoodFrames(frames)
    ensures RenderFrames(frames) == tag + RenderFrames(inner)
  {
    hide TagOf;
    assert inner[0] in inner;
    var it := Group(tag, inner[0].body, inner[0].close);
    assert forall f :: f in inner[1..] ==> f in inner;
    PushRender(it, inner[1..]);
    frames := Push(it, inner[1..]);
    hide GoodFrames, RenderAll, AllWellFormed, RenderFrames;
    GroupRender(tag, inner[0].body, inner[0].close, RenderFrames(inner[1..]));
    FirstFrame(inner);
  }

  lemma FirstFrame(frames: seq<Frame>)
    requires frames != []
    ensures RenderFrames(frames) == RenderAll(frames[0].body) + frames[0].close + RenderFrames(frames[1..])
  {
  }

  lemma GroupRender(tag: Bytes, body: seq<Item>, close: Bytes, rest: Bytes)
    ensures Render(Group(tag, body, close)) + rest == tag + (RenderAll(body) + close + rest)
  {
    hide RenderAll;
  }

  /** Soundness with groups open: what the skipper consumed is the remainder of
      each open group, innermost first, all of it well formed. */
  lemma {:induction false} SkipSoundInside(off: nat, s: Bytes, depth: nat) returns (frames: seq<Frame>)
    requires depth >= 1 && Skip(off, s, depth).Ok? && Skip(off, s, depth).value <= |s|
    ensures |frames| == depth && GoodFrames(frames)
    ensures RenderFrames(frames) == s[..Skip(off, s, depth).value]
    decreases |s|
  {
    hide ReadVarint, VarintValue, IsVarint, RecordLen;
    var rec := RecordLen(s).value;
    var n := rec.len;
    var total := Skip(off, s, depth).value;
    if rec.item in {3, 4} { MarkerOfRecord(s); }
    if rec.item == 4 && depth == 1 {
      frames := [Frame([], s[..n])];
      assert RenderFrames(frames[1..]) == [];
      assert RenderFrames(frames) == s[..n];
      return;
    }
    var d := if rec.item == 3 then depth + 1 else if rec.item == 4 then depth - 1 else depth;
    var inner := SkipSoundInside(off + n, s[n..], d);
    assert s[..total] == s[..n] + s[n..][..total - n];
    if rec.item == 4 {
      frames := CloseFrame(s[..n], inner);
    } else if rec.item == 3 {
      frames := OpenFrame(s[..n], inner);
    } else {
      var it := LeafOfRecord(s);
      PushRender(it, inner);
      frames := Push(it, inner);
    }
  }

  /** Soundness on every byte string: when the skipper accepts and stays inside
      the buffer, the bytes it consumed are one well-formed field, with every
      group start closed by a matching end. */
  lemma SkipSound(s: Bytes) returns (it: Item)
    requires Skip(0, s, 0).Ok? && Skip(0, s, 0).value <= |s|
    ensures WellFormed(it) && Render(it) == s[..Skip(0, s, 0).value]
    ensures it.tag == s[..ReadVarint(s).value.len]
  {
    hide ReadVarint, VarintValue, IsVarint, RecordLen, AllWellFormed;
    var rec := RecordLen(s).value;
    var n := rec.len;
    if rec.item == 3 {
      MarkerOfRecord(s);
      var inner := SkipSoundInside(n, s[n..], 1);
      assert inner[0] in inner;
      it := Group(s[..n], inner[0].body, inner[0].close);
      var total := Skip(0, s, 0).value;
      assert inner[1..] == [];
      assert RenderFrames(inner) == RenderAll(inner[0].body) + inner[0].close;
      assert s[..total] == s[..n] + s[n..][..total - n];
      assert Render(it) == s[..n] + (RenderAll(inner[0].body) + inner[0].close);
    } else {
      it := LeafOfRecord(s);
    }
  }

  /** Both directions: the skipper stops after n bytes of the buffer exactly when
      those n bytes are one well-formed field. */
  lemma SkipExact(s: Bytes, n: nat)
    requires n <= |s| < TWO_63
    ensures Skip(0, s, 0) == Ok(n) <==> exists it :: WellFormed(it) && Render(it) == s[..n]
  {
    hide Skip, WellFormed, Render;
    if Skip(0, s, 0) == Ok(n) {
      var it := SkipSound(s);
      assert WellFormed(it) && Render(it) == s[..n];
    }
    assert s == s[..n] + s[n..];
    forall it | WellFormed(it) && Render(it) == s[..n] ensures Skip(0, s, 0) == Ok(n) {
      SkipComplete(it, s[n..]);
    }
  }

  // ---------- how skipping fails ----------

  lemma {:induction false} SkipErrorKindsInside(off: nat, s: Bytes, depth: nat)
    ensures Skip(off, s, depth).Err? ==>
      Skip(off, s, depth).error in {UnexpectedEOF, IntOverflow, InvalidLength, IllegalWireType, UnexpectedEndOfGroup}
    decreases |s|
  {
    hide ReadVarint;
    if s != [] {
      VarintErrorKinds(s);
      if ReadVarint(s).Ok? { VarintErrorKinds(s[ReadVarint(s).value.len..]); }
      if RecordLen(s).Ok? && RecordLen(s).value.len <= |s| {
        var rec := RecordLen(s).value;
        var d := if rec.item == 3 then depth + 1 else if rec.item == 4 && depth > 0 then depth - 1 else depth;
        SkipErrorKindsInside(off + rec.len, s[rec.len..], d);
      }
    }
  }

  lemma SkipErrorKinds(s: Bytes)
    ensures Skip(0, s, 0).Err? ==>
      Skip(0, s, 0).error in {UnexpectedEOF, IntOverflow, InvalidLength, IllegalWireType, UnexpectedEndOfGroup}
  {
    SkipErrorKindsInside(0, s, 0);
  }

  /** How skipping fails at the first record, by its tag. */
  lemma SkipErrors(s: Bytes)
    requires |s| < 0x4000_0000_0000_0000
    ensures ReadVarint(s).Err? ==> Skip(0, s, 0) == Err(ReadVarint(s).error)
    ensures ReadVarint(s).Ok? ==>
      var tag := ReadVarint(s).value; var w := tag.item % 8; var r := Skip(0, s, 0);
      && (w == 4 ==> r == Err(UnexpectedEndOfGroup))
      && (w == 6 || w == 7 ==> r == Err(IllegalWireType))
      && (w == 1 || w == 5 ==> r.Ok?)
      && (w == 0 || w == 2 ==> r == AfterTag(w, tag.len, ReadVarint(s[tag.len..])))
  {
    hide ReadVarint;
    VarintNeedsInput(s);
  }

  /** With the tag in n bytes: a scalar ends with its varint, a payload where its
      length says, unless that is beyond the signed 64-bit range. */
  function AfterTag(wireType: nat, n: nat, varint: Result<Read<nat>>): Result<nat> {
    if varint.Err? then Err(varint.error)
    else if wireType == 0 then Ok(n + varint.value.len)
    else
      var end := n + varint.value.len + varint.value.item;
      if end >= 0x8000_0000_0000_0000 then Err(InvalidLength) else Ok(end)
  }

  lemma VarintNeedsInput(s: Bytes)
    ensures s == [] ==> ReadVarint(s) == Err(UnexpectedEOF)
  {
  }
}
