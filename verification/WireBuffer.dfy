/** The imperative side of the codec: varints written into and read out of a
    buffer by index, the skipper's loop, and the shared Unmarshal loop. */
module WireBuffer {
  import opened Common
  import opened Wire
  import opened MessageCodec

  /** uint8(v & 0x7f | 0x80) */
  function ContinuationByte(v: nat): byte { v % 128 + 128 }

  lemma EncodeStep(v: nat)
    ensures EncodeVarint(v) == if v < 128 then [v] else [ContinuationByte(v)] + EncodeVarint(v / 128)
  {
  }

  /** encodeVarint: writes v so that it ends at offset, and returns where it begins. */
  method EncodeVarintAt(dAtA: array<byte>, offset: nat, v: nat) returns (base: nat)
    requires v < TWO_64 && Sov(v) <= offset <= dAtA.Length
    modifies dAtA
    ensures base + Sov(v) == offset
    ensures dAtA[base..offset] == EncodeVarint(v)
    ensures dAtA[..base] == old(dAtA[..base]) && dAtA[offset..] == old(dAtA[offset..])
  {
    hide Sov, EncodeVarint, ContinuationByte;
    SovIsLength(v);
    base := offset - Sov(v);
    var i, x := base, v;
    while x >= 128
      invariant base <= i < offset && i + |EncodeVarint(x)| == offset
      invariant dAtA[base..i] + EncodeVarint(x) == EncodeVarint(v)
      invariant dAtA[..base] == old(dAtA[..base]) && dAtA[offset..] == old(dAtA[offset..])
      decreases x
    {
      EncodeStep(x);
      ghost var was, more := dAtA[base..i], EncodeVarint(x / 128);
      Reassociate(was, [ContinuationByte(x)], more);
      dAtA[i] := ContinuationByte(x);
      assert dAtA[base..i + 1] == was + [ContinuationByte(x)];
      x := x / 128;
      i := i + 1;
    }
    EncodeStep(x);
    ghost var was := dAtA[base..i];
    dAtA[i] := x;
    assert dAtA[base..i + 1] == was + [x];
  }

  lemma AddGroup(wire: nat, raw: nat, group: nat, weight: nat)
    requires wire == raw % TWO_64
    ensures (wire + group * weight) % TWO_64 == (raw + weight * group) % TWO_64
  {
    var q := raw / TWO_64;
    var x := wire + weight * group;
    assert raw + weight * group == x + q * TWO_64;
    assert (x + q * TWO_64) % TWO_64 == x % TWO_64 by { ModAdd(x, q); }
  }

  lemma ModAdd(x: nat, q: nat)
    ensures (x + q * TWO_64) % TWO_64 == x % TWO_64
  {
  }

  lemma GroupBound(raw: nat, group: nat, weight: nat)
    requires raw < weight && group < 128
    ensures raw + weight * group < 128 * weight
  {
    assert weight * group <= weight * 127;
  }

  /** How the groups still to be read complete the ones already read. */
  ghost predicate Resumes(whole: Result<Read<nat>>, raw: nat, taken: nat, rest: Result<Read<nat>>, weight: nat) {
    if rest.Ok? then whole == Ok(Read(raw + weight * rest.value.item, taken + rest.value.len)) else whole == rest
  }

  lemma ResumeEnd(s: Bytes, k: nat, whole: Result<Read<nat>>, raw: nat, taken: nat, weight: nat)
    requires Resumes(whole, raw, taken, ReadGroups(s, k), weight)
    ensures k >= 10 ==> whole == Err(IntOverflow)
    ensures k < 10 && s == [] ==> whole == Err(UnexpectedEOF)
  {
  }

  lemma ResumeStart(whole: Result<Read<nat>>)
    ensures Resumes(whole, 0, 0, whole, 1)
  {
  }

  lemma ResumeStep(whole: Result<Read<nat>>, raw: nat, taken: nat, s: Bytes, k: nat, weight: nat)
    requires k < 10 && s != [] && Resumes(whole, raw, taken, ReadGroups(s, k), weight)
    ensures s[0] < 128 ==> whole == Ok(Read(raw + weight * s[0], taken + 1))
    ensures s[0] >= 128 ==>
              Resumes(whole, raw + weight * (s[0] % 128), taken + 1, ReadGroups(s[1..], k + 1), 128 * weight)
  {
    var g := ReadGroups(s[1..], k + 1);
    if s[0] >= 128 && g.Ok? {
      assert weight * (s[0] % 128 + 128 * g.value.item) == weight * (s[0] % 128) + 128 * weight * g.value.item;
    }
  }

  /** The loop `for shift := 0; ; shift += 7` of the decoders, from index start.
      `|=` is modelled as addition modulo 2^64: the groups read before lie below
      the bit the next group is shifted to (invariant raw < weight). */
  method ReadVarintAt(dAtA: Bytes, start: nat) returns (r: Result<nat>, iNdEx: nat)
    requires start <= |dAtA|
    ensures match ReadVarint(dAtA[start..])
            case Ok(v) => r == Ok(v.item) && iNdEx == start + v.len
            case Err(e) => r == Err(e)
  {
    hide ReadGroups, Resumes;
    iNdEx := start;
    var wire: nat, shift: nat, weight: nat := 0, 0, 1;
    ghost var k: nat, raw: nat := 0, 0;
    ghost var whole := ReadGroups(dAtA[start..], 0);
    ResumeStart(whole);
    while true
      invariant start <= iNdEx <= |dAtA| && shift == 7 * k && k <= 10 && weight >= 1
      invariant wire == raw % TWO_64 && raw < weight
      invariant Resumes(whole, raw, iNdEx - start, ReadGroups(dAtA[iNdEx..], k), weight)
      decreases 10 - k
    {
      if shift >= 64 {
        ResumeEnd(dAtA[iNdEx..], k, whole, raw, iNdEx - start, weight);
        return Err(IntOverflow), iNdEx;
      }
      if iNdEx >= |dAtA| {
        ResumeEnd(dAtA[iNdEx..], k, whole, raw, iNdEx - start, weight);
        return Err(UnexpectedEOF), iNdEx;
      }
      var b := dAtA[iNdEx];
      ResumeStep(whole, raw, iNdEx - start, dAtA[iNdEx..], k, weight);
      assert dAtA[iNdEx..][1..] == dAtA[iNdEx + 1..];
      iNdEx := iNdEx + 1;
      AddGroup(wire, raw, b % 128, weight);
      GroupBound(raw, b % 128, weight);
      wire := (wire + b % 128 * weight) % TWO_64;
      raw := raw + weight * (b % 128);
      if b < 128 {
        return Ok(wire), iNdEx;
      }
      shift, weight, k := shift + 7, 128 * weight, k + 1;
    }
  }

  /** One record of the skipper's loop, seen from the specification. */
  lemma SkipRecord(dAtA: Bytes, at: nat, depth: nat)
    requires at < |dAtA|
    ensures var s := dAtA[at..]; var rec := RecordLen(s); var all := Shift(Skip(at, s, depth), at);
      match rec
      case Err(e) => all == Err(e)
      case Ok(rec) =>
        if rec.item == 4 && depth == 0 then all == Err(UnexpectedEndOfGroup)
        else
          var next := at + rec.len;
          var d := if rec.item == 3 then depth + 1 else if rec.item == 4 then depth - 1 else depth;
          if next >= TWO_63 then all == Err(InvalidLength)
          else if d == 0 then all == Ok(next)
          else if next > |dAtA| then all == Err(UnexpectedEOF)
          else all == Shift(Skip(next, dAtA[next..], d), next)
  {
    hide RecordLen;
    var s := dAtA[at..];
    if RecordLen(s).Ok? {
      var n := RecordLen(s).value.len;
      assert n <= |s| ==> s[n..] == dAtA[at + n..];
    }
  }

  lemma SkipAtEnd(s: Bytes, off: nat, depth: nat)
    ensures s == [] ==> Skip(off, s, depth) == Err(UnexpectedEOF)
  {
  }

  lemma RecordError(s: Bytes)
    requires ReadVarint(s).Err?
    ensures RecordLen(s) == Err(ReadVarint(s).error)
  {
  }

  /** skipModule. */
  method SkipModule(dAtA: Bytes) returns (r: Result<nat>)
    requires |dAtA| < TWO_63
    ensures r == Skip(0, dAtA, 0)
  {
    hide ReadVarint, RecordLen, Skip;
    var iNdEx: nat, depth: nat := 0, 0;
    while iNdEx < |dAtA|
      invariant depth > 0 || iNdEx == 0
      invariant iNdEx <= |dAtA| ==> Skip(0, dAtA, 0) == Shift(Skip(iNdEx, dAtA[iNdEx..], depth), iNdEx)
      invariant iNdEx > |dAtA| ==> Skip(0, dAtA, 0) == Err(UnexpectedEOF)
      decreases |dAtA| - iNdEx
    {
      ghost var at := iNdEx;
      SkipRecord(dAtA, at, depth);
      var tag, next := ReadVarintAt(dAtA, iNdEx);
      if tag.Err? {
        RecordError(dAtA[at..]);
        return Err(tag.error);
      }
      r, iNdEx := SkipPayload(dAtA, at, next, tag.value % 8);
      if r.Err? {
        return;
      }
      match r.value {
        case 3 => depth := depth + 1;
        case 4 =>
          if depth == 0 {
            return Err(UnexpectedEndOfGroup);
          }
          depth := depth - 1;
        case _ =>
      }
      if iNdEx >= TWO_63 {
        return Err(InvalidLength);
      }
      if depth == 0 {
        return Ok(iNdEx);
      }
    }
    SkipAtEnd(dAtA[|dAtA|..], iNdEx, depth);
    return Err(UnexpectedEOF);
  }

  /** The switch on the wire type inside skipModule, for the record whose tag
      occupies dAtA[at..next]. */
  method SkipPayload(dAtA: Bytes, ghost at: nat, next: nat, wireType: nat) returns (r: Result<nat>, iNdEx: nat)
    requires at <= next <= |dAtA|
    requires ReadVarint(dAtA[at..]).Ok?
    requires ReadVarint(dAtA[at..]).value.len == next - at && ReadVarint(dAtA[at..]).value.item % 8 == wireType
    ensures match RecordLen(dAtA[at..])
            case Ok(rec) => r == Ok(rec.item) && iNdEx == at + rec.len
            case Err(e) => r == Err(e)
  {
    hide ReadVarint;
    iNdEx := next;
    assert dAtA[at..][next - at..] == dAtA[next..];
    match wireType {
      case 0 =>
        var v, after := ReadVarintAt(dAtA, next);
        if v.Err? {
          return Err(v.error), next;
        }
        iNdEx := after;
      case 1 => iNdEx := next + 8;
      case 2 =>
        var l, after := ReadVarintAt(dAtA, next);
        if l.Err? {
          return Err(l.error), next;
        }
        if l.value >= TWO_63 {
          return Err(InvalidLength), next;
        }
        iNdEx := after + l.value;
      case 3 =>
      case 4 =>
      case 5 => iNdEx := next + 4;
      case _ => return Err(IllegalWireType), next;
    }
    r := Ok(wireType);
  }

  /** The loop of a generated Unmarshal, for the message type described by c. */
  method Unmarshal<M>(c: Codec<M>, dAtA: Bytes, m0: M) returns (r: Result<M>)
    requires |dAtA| < TWO_63
    ensures r == Decode(c, 0, dAtA, m0)
  {
    hide NextField, ReadVarint;
    var l, iNdEx, m := |dAtA|, 0, m0;
    while iNdEx < l
      invariant iNdEx <= l && Decode(c, 0, dAtA, m0) == Decode(c, iNdEx, dAtA[iNdEx..], m)
    {
      ghost var s := dAtA[iNdEx..];
      var f, next := ReadFieldAt(c.kind, dAtA, iNdEx);
      if f.Err? {
        return Err(f.error);
      }
      var m' := c.apply(m, f.value);
      if m'.Err? {
        return m';
      }
      assert s[next - iNdEx..] == dAtA[next..];
      m, iNdEx := m'.value, next;
    }
    return Ok(m);
  }

  /** case of a varint field: its value lies at index next. */
  method ReadScalarAt(dAtA: Bytes, fieldNum: int, wireType: nat, ghost preIndex: nat, next: nat)
    returns (r: Result<RawField>, iNdEx: nat)
    requires preIndex <= next <= |dAtA|
    ensures match ScalarField(fieldNum, wireType, next - preIndex, dAtA[next..])
            case Ok(f) => r == Ok(f.item) && iNdEx == preIndex + f.len
            case Err(e) => r == Err(e)
  {
    hide ReadVarint;
    if wireType != 0 {
      return Err(WrongWireType), next;
    }
    var v, after := ReadVarintAt(dAtA, next);
    iNdEx := after;
    r := if v.Ok? then Ok(VarintOf(fieldNum, v.value)) else Err(v.error);
  }

  lemma SliceOfSuffix(s: Bytes, at: nat, i: nat, j: nat)
    requires at <= i <= j <= |s|
    ensures s[at..][i - at..j - at] == s[i..j]
  {
  }

  /** case of a string or message field: its length lies at index next. */
  method ReadDelimitedAt(dAtA: Bytes, fieldNum: int, wireType: nat, ghost preIndex: nat, next: nat)
    returns (r: Result<RawField>, iNdEx: nat)
    requires preIndex <= next <= |dAtA| < TWO_63
    ensures match DelimitedField(fieldNum, wireType, next - preIndex, next, dAtA[next..])
            case Ok(f) => r == Ok(f.item) && iNdEx == preIndex + f.len
            case Err(e) => r == Err(e)
  {
    hide ReadVarint;
    if wireType != 2 {
      return Err(WrongWireType), next;
    }
    var length, after := ReadVarintAt(dAtA, next);
    if length.Err? {
      return Err(length.error), next;
    }
    if length.value >= TWO_63 {
      return Err(InvalidLength), next;
    }
    var postIndex := after + length.value;
    if postIndex >= TWO_63 {
      return Err(InvalidLength), next;
    }
    if postIndex > |dAtA| {
      return Err(UnexpectedEOF), next;
    }
    SliceOfSuffix(dAtA, next, after, postIndex);
    r, iNdEx := Ok(BytesOf(fieldNum, dAtA[after..postIndex])), postIndex;
  }

  /** default: the field that starts at preIndex is skipped and kept. */
  method ReadUnknownAt(dAtA: Bytes, preIndex: nat) returns (r: Result<RawField>, iNdEx: nat)
    requires preIndex <= |dAtA| < TWO_63
    ensures match KeptField(preIndex, dAtA[preIndex..])
            case Ok(f) => r == Ok(f.item) && iNdEx == preIndex + f.len
            case Err(e) => r == Err(e)
  {
    hide Skip;
    var skippy := SkipModule(dAtA[preIndex..]);
    if skippy.Err? {
      return Err(skippy.error), preIndex;
    }
    iNdEx := preIndex + skippy.value;
    if iNdEx >= TWO_63 {
      return Err(InvalidLength), preIndex;
    }
    if iNdEx > |dAtA| {
      return Err(UnexpectedEOF), preIndex;
    }
    SliceOfSuffix(dAtA, preIndex, preIndex, iNdEx);
    r := Ok(UnknownOf(dAtA[preIndex..iNdEx]));
  }

  /** One pass of that loop: the tag at index preIndex and what the switch on the
      field number reads after it. */
  method ReadFieldAt(kind: int -> Kind, dAtA: Bytes, preIndex: nat) returns (r: Result<RawField>, iNdEx: nat)
    requires preIndex < |dAtA| < TWO_63
    ensures match NextField(kind, preIndex, dAtA[preIndex..])
            case Ok(f) => r == Ok(f.item) && iNdEx == preIndex + f.len
            case Err(e) => r == Err(e)
  {
    hide ReadVarint, FieldNumber, ScalarField, DelimitedField, KeptField;
    var wire, next := ReadVarintAt(dAtA, preIndex);
    if wire.Err? {
      return Err(wire.error), preIndex;
    }
    assert dAtA[preIndex..][next - preIndex..] == dAtA[next..];
    var fieldNum, wireType := FieldNumber(wire.value), wire.value % 8;
    if wireType == 4 {
      return Err(EndGroupForNonGroup), preIndex;
    }
    if fieldNum <= 0 {
      return Err(IllegalTag), preIndex;
    }
    match kind(fieldNum) {
      case VarintField => r, iNdEx := ReadScalarAt(dAtA, fieldNum, wireType, preIndex, next);
      case BytesField => r, iNdEx := ReadDelimitedAt(dAtA, fieldNum, wireType, preIndex, next);
      case UnknownField => r, iNdEx := ReadUnknownAt(dAtA, preIndex);
    }
  }
}
