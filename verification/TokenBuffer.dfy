/** Marshal as the generated code does it: a buffer of exactly the computed size,
    filled from its end, each field in front of the ones after it. */
module TokenBuffer {
  import opened Common
  import opened Wire
  import opened MessageCodec
  import opened Messages
  import opened WireBuffer

  // ---------- size ----------

  function SizeBytes(b: Bytes): nat {
    if |b| > 0 then 1 + |b| + Sov(|b|) else 0
  }

  function SizeUint32(v: nat): nat {
    if v != 0 then 1 + Sov(v) else 0
  }

  function SizeModule(m: Module): nat { SizeBytes(m.authority) }

  function SizeDistribution(d: WalletDistribution): nat {
    SizeBytes(d.address) + SizeUint32(d.percent) + |d.unknown|
  }

  function SizeTax(t: TokenTax): nat {
    SizeBytes(t.percent) + SizeBytes(t.recipientAddress) + |t.unknown|
  }

  function SizeDistributions(ds: seq<WalletDistribution>): nat {
    if ds == [] then 0
    else var l := SizeDistribution(ds[0]); 1 + l + Sov(l) + SizeDistributions(ds[1..])
  }

  function SizeToken(t: Token): nat {
    SizeBytes(t.id) + SizeBytes(t.name) + SizeBytes(t.symbol) + SizeBytes(t.initialSupply) + SizeBytes(t.totalSupply)
    + SizeUint32(t.decimals) + SizeBytes(t.logo) + SizeDistributions(t.distributions)
    + (if t.tax.Some? then var l := SizeTax(t.tax.value); 1 + l + Sov(l) else 0)
    + SizeBytes(t.creator) + SizeBytes(t.remainingSupply) + (if t.unlimited then 2 else 0)
    + SizeBytes(t.minimalDenom) + |t.unknown|
  }

  lemma PartSizes(tag: byte, b: Bytes, v: nat)
    ensures |BytesPart(tag, b)| == SizeBytes(b)
    ensures |Tagged(tag, b)| == 1 + |b| + Sov(|b|)
    ensures |Uint32Part(tag, v)| == SizeUint32(v)
  {
    SovIsLength(|b|);
    SovIsLength(v);
  }

  lemma DistributionSize(d: WalletDistribution)
    ensures |EncodeDistribution(d)| == SizeDistribution(d)
  {
    PartSizes(0x0a, d.address, 0);
    PartSizes(0x10, [], d.percent);
  }

  lemma {:induction false} DistributionsSize(ds: seq<WalletDistribution>)
    ensures |DistributionsPart(ds)| == SizeDistributions(ds)
  {
    if ds != [] {
      DistributionSize(ds[0]);
      PartSizes(0x42, EncodeDistribution(ds[0]), 0);
      DistributionsSize(ds[1..]);
    }
  }

  lemma TaxSize(t: TokenTax)
    ensures |EncodeTax(t)| == SizeTax(t)
  {
    PartSizes(0x0a, t.percent, 0);
    PartSizes(0x12, t.recipientAddress, 0);
  }

  /** The size computed first is the number of bytes the encoding has. */
  lemma TokenSize(t: Token)
    ensures |EncodeToken(t)| == SizeToken(t)
  {
    hide BytesPart, Uint32Part, SizeBytes, SizeUint32, Tagged, Sov, EncodeTax, SizeTax;
    PartSizes(0x0a, t.id, 0);
    PartSizes(0x12, t.name, 0);
    PartSizes(0x1a, t.symbol, 0);
    PartSizes(0x22, t.initialSupply, 0);
    PartSizes(0x2a, t.totalSupply, 0);
    PartSizes(0x30, [], t.decimals);
    PartSizes(0x3a, t.logo, 0);
    DistributionsSize(t.distributions);
    if t.tax.Some? {
      TaxSize(t.tax.value);
      PartSizes(0x4a, EncodeTax(t.tax.value), 0);
    }
    PartSizes(0x52, t.creator, 0);
    PartSizes(0x5a, t.remainingSupply, 0);
    PartSizes(0x6a, t.minimalDenom, 0);
  }

  // ---------- backwards fill ----------

  /** i -= len(raw); copy(dAtA[i:], raw) */
  method PutRaw(dAtA: array<byte>, i: nat, raw: Bytes) returns (j: nat)
    requires |raw| <= i <= dAtA.Length
    modifies dAtA
    ensures j + |raw| == i
    ensures dAtA[j..] == raw + old(dAtA[i..]) && dAtA[..j] == old(dAtA[..j])
  {
    j := i - |raw|;
    var k := 0;
    while k < |raw|
      invariant 0 <= k <= |raw|
      invariant dAtA[j..j + k] == raw[..k]
      invariant dAtA[i..] == old(dAtA[i..]) && dAtA[..j] == old(dAtA[..j])
    {
      dAtA[j + k] := raw[k];
      k := k + 1;
    }
    assert dAtA[j..] == dAtA[j..i] + dAtA[i..];
  }

  method PutVarint(dAtA: array<byte>, i: nat, v: nat) returns (j: nat)
    requires v < TWO_64 && |EncodeVarint(v)| <= i <= dAtA.Length
    modifies dAtA
    ensures j + |EncodeVarint(v)| == i
    ensures dAtA[j..] == EncodeVarint(v) + old(dAtA[i..]) && dAtA[..j] == old(dAtA[..j])
  {
    SovIsLength(v);
    j := EncodeVarintAt(dAtA, i, v);
    assert dAtA[j..] == dAtA[j..i] + dAtA[i..];
  }

  method PutTag(dAtA: array<byte>, i: nat, tag: byte) returns (j: nat)
    requires 1 <= i <= dAtA.Length
    modifies dAtA
    ensures j + 1 == i
    ensures dAtA[j..] == [tag] + old(dAtA[i..]) && dAtA[..j] == old(dAtA[..j])
  {
    j := i - 1;
    dAtA[j] := tag;
  }

  method PutTagged(dAtA: array<byte>, i: nat, tag: byte, b: Bytes) returns (j: nat)
    requires |b| < TWO_64 && |Tagged(tag, b)| <= i <= dAtA.Length
    modifies dAtA
    ensures j + |Tagged(tag, b)| == i
    ensures dAtA[j..] == Tagged(tag, b) + old(dAtA[i..]) && dAtA[..j] == old(dAtA[..j])
  {
    hide EncodeVarint;
    ghost var was, tail := dAtA[..], dAtA[i..];
    var k := PutRaw(dAtA, i, b);
    ghost var one := dAtA[..];
    var l := PutVarint(dAtA, k, |b|);
    ghost var two := dAtA[..];
    j := PutTag(dAtA, l, tag);
    Reassociate(EncodeVarint(|b|), b, tail);
    Reassociate([tag], EncodeVarint(|b|) + b, tail);
    Reassociate([tag], EncodeVarint(|b|), b);
    PrefixUnchanged(was, one, j, k);
    PrefixUnchanged(one, two, j, l);
  }

  lemma PrefixUnchanged(was: Bytes, now: Bytes, j: nat, l: nat)
    requires j <= l <= |was| == |now|
    ensures was[..l] == now[..l] ==> was[..j] == now[..j]
  {
    if was[..l] == now[..l] {
      assert was[..j] == was[..l][..j] && now[..j] == now[..l][..j];
    }
  }

  /** A string field, present only when it is not empty. */
  method PutBytes(dAtA: array<byte>, i: nat, tag: byte, b: Bytes) returns (j: nat)
    requires |b| < TWO_64 && |BytesPart(tag, b)| <= i <= dAtA.Length
    modifies dAtA
    ensures j + |BytesPart(tag, b)| == i
    ensures dAtA[j..] == BytesPart(tag, b) + old(dAtA[i..]) && dAtA[..j] == old(dAtA[..j])
  {
    hide EncodeVarint, Tagged;
    j := i;
    if |b| > 0 {
      j := PutTagged(dAtA, i, tag, b);
    }
  }

  method PutUint32(dAtA: array<byte>, i: nat, tag: byte, v: nat) returns (j: nat)
    requires v < TWO_64 && |Uint32Part(tag, v)| <= i <= dAtA.Length
    modifies dAtA
    ensures j + |Uint32Part(tag, v)| == i
    ensures dAtA[j..] == Uint32Part(tag, v) + old(dAtA[i..])
  {
    hide EncodeVarint;
    j := i;
    if v != 0 {
      ghost var was := dAtA[i..];
      j := PutVarint(dAtA, i, v);
      j := PutTag(dAtA, j, tag);
      Reassociate([tag], EncodeVarint(v), was);
    }
  }

  method MarshalDistribution(d: WalletDistribution) returns (dAtA: array<byte>)
    requires |EncodeDistribution(d)| < TWO_63 && d.percent < TWO_32
    ensures fresh(dAtA) && dAtA[..] == EncodeDistribution(d)
  {
    hide EncodeVarint, Sov, SizeBytes, SizeUint32, Tagged;
    DistributionSize(d);
    dAtA := new byte[SizeDistribution(d)];
    var i := PutRaw(dAtA, dAtA.Length, d.unknown);
    i := PutUint32(dAtA, i, 0x10, d.percent);
    assert dAtA[i..] == Uint32Part(0x10, d.percent) + d.unknown;
    BytesFit(0x0a, d.address);
    i := PutBytes(dAtA, i, 0x0a, d.address);
  }

  lemma BytesFit(tag: byte, b: Bytes)
    ensures |b| <= |BytesPart(tag, b)|
  {
  }

  method MarshalTax(t: TokenTax) returns (dAtA: array<byte>)
    requires |EncodeTax(t)| < TWO_63
    ensures fresh(dAtA) && dAtA[..] == EncodeTax(t)
  {
    hide EncodeVarint, Sov, SizeBytes, SizeUint32, Tagged;
    TaxSize(t);
    dAtA := new byte[SizeTax(t)];
    BytesFit(0x0a, t.percent);
    BytesFit(0x12, t.recipientAddress);
    var i := PutRaw(dAtA, dAtA.Length, t.unknown);
    i := PutBytes(dAtA, i, 0x12, t.recipientAddress);
    assert dAtA[i..] == BytesPart(0x12, t.recipientAddress) + t.unknown;
    i := PutBytes(dAtA, i, 0x0a, t.percent);
  }

  ghost function PartFrom(ds: seq<WalletDistribution>, k: nat): Bytes
    requires k <= |ds|
  {
    DistributionsPart(ds[k..])
  }

  lemma PartFromEnds(ds: seq<WalletDistribution>)
    ensures PartFrom(ds, 0) == DistributionsPart(ds) && PartFrom(ds, |ds|) == []
  {
    assert ds[0..] == ds && ds[|ds|..] == [];
  }

  lemma PartFromStep(ds: seq<WalletDistribution>, k: nat)
    requires k < |ds|
    ensures PartFrom(ds, k) == Tagged(0x42, EncodeDistribution(ds[k])) + PartFrom(ds, k + 1)
    ensures |PartFrom(ds, k)| <= |DistributionsPart(ds)|
    ensures |EncodeDistribution(ds[k])| < |DistributionsPart(ds)|
    decreases k
  {
    assert ds[k..][0] == ds[k] && ds[k..][1..] == ds[k + 1..];
    if k > 0 {
      PartFromStep(ds, k - 1);
    } else {
      assert ds[0..] == ds;
    }
  }

  /** One element of the repeated field. */
  method PutDistribution(dAtA: array<byte>, i: nat, d: WalletDistribution) returns (j: nat)
    requires d.percent < TWO_32 && |EncodeDistribution(d)| < TWO_63
    requires |Tagged(0x42, EncodeDistribution(d))| <= i <= dAtA.Length
    modifies dAtA
    ensures j + |Tagged(0x42, EncodeDistribution(d))| == i
    ensures dAtA[j..] == Tagged(0x42, EncodeDistribution(d)) + old(dAtA[i..])
  {
    hide EncodeDistribution, Tagged;
    var encoded := MarshalDistribution(d);
    j := PutTagged(dAtA, i, 0x42, encoded[..]);
  }

  /** The loop over the repeated field, last element first. */
  method PutDistributions(dAtA: array<byte>, i: nat, ds: seq<WalletDistribution>) returns (j: nat)
    requires forall d <- ds :: d.percent < TWO_32
    requires |DistributionsPart(ds)| <= i <= dAtA.Length && |DistributionsPart(ds)| < TWO_63
    modifies dAtA
    ensures j + |DistributionsPart(ds)| == i
    ensures dAtA[j..] == DistributionsPart(ds) + old(dAtA[i..])
  {
    hide EncodeVarint, EncodeDistribution, Tagged, DistributionsPart, PartFrom;
    ghost var was := dAtA[i..];
    var iNdEx := |ds|;
    j := i;
    PartFromEnds(ds);
    while iNdEx > 0
      invariant 0 <= iNdEx <= |ds|
      invariant j + |PartFrom(ds, iNdEx)| == i
      invariant dAtA[j..] == PartFrom(ds, iNdEx) + was
    {
      iNdEx := iNdEx - 1;
      PartFromStep(ds, iNdEx);
      assert ds[iNdEx] in ds;
      ghost var item, rest := Tagged(0x42, EncodeDistribution(ds[iNdEx])), PartFrom(ds, iNdEx + 1);
      j := PutDistribution(dAtA, j, ds[iNdEx]);
      Reassociate(item, rest, was);
    }
  }

  /** Marshal of a token: allocates the computed size and returns the whole buffer,
      so the fill has to end exactly at index 0. */
  method MarshalToken(t: Token) returns (dAtA: array<byte>)
    requires |EncodeToken(t)| < TWO_63 && t.decimals < TWO_32
    requires forall d <- t.distributions :: d.percent < TWO_32
    ensures fresh(dAtA) && dAtA.Length == SizeToken(t) && dAtA[..] == EncodeToken(t)
  {
    hide EncodeFromCreator, EncodeFromDecimals, SizeToken, BytesPart;
    TokenSize(t);
    TokenFits(t);
    dAtA := new byte[SizeToken(t)];
    var i := PutFromCreator(dAtA, t);
    i := PutFromDecimals(dAtA, i, t);
    BytesFit(0x2a, t.totalSupply);
    i := PutBytes(dAtA, i, 0x2a, t.totalSupply);
    BytesFit(0x22, t.initialSupply);
    i := PutBytes(dAtA, i, 0x22, t.initialSupply);
    BytesFit(0x1a, t.symbol);
    i := PutBytes(dAtA, i, 0x1a, t.symbol);
    BytesFit(0x12, t.name);
    i := PutBytes(dAtA, i, 0x12, t.name);
    BytesFit(0x0a, t.id);
    i := PutBytes(dAtA, i, 0x0a, t.id);
  }

  lemma TokenFits(t: Token)
    ensures |EncodeFromCreator(t)| <= |EncodeFromDecimals(t)| <= |EncodeToken(t)|
    ensures |DistributionsPart(t.distributions)| <= |EncodeToken(t)|
  {
  }

  method PutFromCreator(dAtA: array<byte>, t: Token) returns (i: nat)
    requires |EncodeFromCreator(t)| <= dAtA.Length && |EncodeFromCreator(t)| < TWO_63
    modifies dAtA
    ensures i + |EncodeFromCreator(t)| == dAtA.Length && dAtA[i..] == EncodeFromCreator(t)
  {
    hide BytesPart, BoolPart;
    i := PutRaw(dAtA, dAtA.Length, t.unknown);
    BytesFit(0x6a, t.minimalDenom);
    i := PutBytes(dAtA, i, 0x6a, t.minimalDenom);
    i := PutBool(dAtA, i, 0x60, t.unlimited);
    BytesFit(0x5a, t.remainingSupply);
    i := PutBytes(dAtA, i, 0x5a, t.remainingSupply);
    BytesFit(0x52, t.creator);
    i := PutBytes(dAtA, i, 0x52, t.creator);
    assert [] + t.unknown + [] == t.unknown;
  }

  method PutBool(dAtA: array<byte>, i: nat, tag: byte, v: bool) returns (j: nat)
    requires |BoolPart(tag, v)| <= i <= dAtA.Length
    modifies dAtA
    ensures j + |BoolPart(tag, v)| == i
    ensures dAtA[j..] == BoolPart(tag, v) + old(dAtA[i..])
  {
    ghost var was := dAtA[i..];
    j := i;
    if v {
      j := PutTag(dAtA, j, 1);
      j := PutTag(dAtA, j, tag);
      assert dAtA[j..] == [tag] + ([1] + was);
    }
  }

  method PutTax(dAtA: array<byte>, i: nat, x: Option<TokenTax>) returns (j: nat)
    requires |TaxPart(x)| <= i <= dAtA.Length && |TaxPart(x)| < TWO_63
    modifies dAtA
    ensures j + |TaxPart(x)| == i
    ensures dAtA[j..] == TaxPart(x) + old(dAtA[i..])
  {
    hide EncodeTax;
    j := i;
    if x.Some? {
      var encoded := MarshalTax(x.value);
      j := PutTagged(dAtA, i, 0x4a, encoded[..]);
    }
  }

  method PutFromDecimals(dAtA: array<byte>, from: nat, t: Token) returns (i: nat)
    requires t.decimals < TWO_32 && forall d <- t.distributions :: d.percent < TWO_32
    requires from + |EncodeFromCreator(t)| == dAtA.Length && dAtA[from..] == EncodeFromCreator(t)
    requires |EncodeFromDecimals(t)| <= dAtA.Length && |EncodeFromDecimals(t)| < TWO_63
    modifies dAtA
    ensures i + |EncodeFromDecimals(t)| == dAtA.Length && dAtA[i..] == EncodeFromDecimals(t)
  {
    hide BytesPart, Uint32Part, DistributionsPart, TaxPart, EncodeFromCreator;
    i := PutTax(dAtA, from, t.tax);
    i := PutDistributions(dAtA, i, t.distributions);
    BytesFit(0x3a, t.logo);
    i := PutBytes(dAtA, i, 0x3a, t.logo);
    i := PutUint32(dAtA, i, 0x30, t.decimals);
  }

  // ---------- the message objects ----------

  /** The first n bytes are fields that turn m0 into m, and the next one is faulty:
      it cannot be read, or it is a nested message that does not decode. */
  ghost predicate TokenStopsAt(o: Options, dAtA: Bytes, n: nat, e: WireError, m0: Token, m: Token) {
    && n < |dAtA| && Decode(TokenCodec(o), 0, dAtA[..n], m0) == Ok(m)
    && match NextField(TokenKind, n, dAtA[n..])
       case Err(x) => x == e
       case Ok(f) => ApplyToken(o, m, f.item) == Err(e)
  }

  /** Decoding stops at a uint32 field whose tag has been read and whose value has not. */
  predicate StopsInUint(num: int, s: Bytes) {
    var tag := ReadVarint(s);
    tag.Ok? && FieldNumber(tag.value.item) == num && tag.value.item % 8 == 0
  }

  /** The uint32 field then holds the low bits of the groups read, ten at most. */
  function HalfUint(s: Bytes): nat
    requires ReadVarint(s).Ok?
  {
    var rest := s[ReadVarint(s).value.len..];
    GroupsValue(if |rest| < 10 then rest else rest[..10]) % TWO_32
  }

  /** The message left when decoding stops at the first faulty field (or at the end);
      `half` says what that field leaves behind. */
  function Left<M>(c: Codec<M>, half: (M, nat, Bytes) -> M, off: nat, s: Bytes, m: M): M
    decreases |s|
  {
    if s == [] then m
    else match NextField(c.kind, off, s)
      case Err(_) => half(m, off, s)
      case Ok(f) =>
        match c.apply(m, f.item)
        case Err(_) => half(m, off, s)
        case Ok(m') => Left(c, half, off + f.len, s[f.len..], m')
  }

  function HalfDistribution(d: WalletDistribution, off: nat, s: Bytes): WalletDistribution {
    if StopsInUint(2, s) then d.(percent := HalfUint(s)) else d
  }

  function HalfTax(t: TokenTax, off: nat, s: Bytes): TokenTax { t }

  /** What a faulty field of a token leaves behind: the bits of Decimals read, a nested
      message read up to its own faulty field, or nothing. */
  function HalfToken(o: Options, t: Token, off: nat, s: Bytes): Token {
    match NextField(TokenKind, off, s)
    case Err(_) => if StopsInUint(6, s) then t.(decimals := HalfUint(s)) else t
    case Ok(f) =>
      match f.item
      case BytesOf(8, b) =>
        t.(distributions := t.distributions + [Left(DistributionCodec(o), HalfDistribution, 0, b, EMPTY_DISTRIBUTION)])
      case BytesOf(9, b) =>
        var held := if o.merge && t.tax.Some? then t.tax.value else EMPTY_TAX;
        t.(tax := Some(Left(TaxCodec(o), HalfTax, 0, b, held)))
      case _ => t
  }

  /** The Token message whose Marshal and Unmarshal the runtime calls. */
  class TokenMessage {
    var fields: Token

    constructor ()
      ensures fields == EMPTY_TOKEN
    {
      fields := EMPTY_TOKEN;
    }

    /** Merges a buffer into the message, field by field. After an error it holds what
        the fields before the faulty one made of it, and of that one what was read. */
    method Unmarshal(o: Options, dAtA: Bytes) returns (err: Option<WireError>)
      requires |dAtA| < TWO_63
      modifies this
      ensures match Decode(TokenCodec(o), 0, dAtA, old(fields))
              case Ok(t) => err == None && fields == t
              case Err(e) =>
                && err == Some(e)
                && exists n: nat, m: Token ::
                     TokenStopsAt(o, dAtA, n, e, old(fields), m) && fields == HalfToken(o, m, n, dAtA[n..])
    {
      hide NextField, Decode, ApplyToken, HalfToken;
      var c := TokenCodec(o);
      DecodeNothing(c, 0, fields);
      ghost var held := fields;
      var l, iNdEx := |dAtA|, 0;
      while iNdEx < l
        invariant iNdEx <= l
        invariant Decode(c, 0, dAtA, held) == Decode(c, iNdEx, dAtA[iNdEx..], fields)
        invariant Decode(c, 0, dAtA[..iNdEx], held) == Ok(fields)
      {
        ghost var s, m := dAtA[iNdEx..], fields;
        var f, next := ReadFieldAt(TokenKind, dAtA, iNdEx);
        DecodeFirst(c, iNdEx, s, m);
        if f.Err? {
          assert TokenStopsAt(o, dAtA, iNdEx, f.error, held, m);
          fields := HalfToken(o, fields, iNdEx, dAtA[iNdEx..]);
          return Some(f.error);
        }
        assert s[next - iNdEx..] == dAtA[next..];
        var r := ApplyToken(o, fields, f.value);
        if r.Err? {
          assert TokenStopsAt(o, dAtA, iNdEx, r.error, held, m);
          fields := HalfToken(o, fields, iNdEx, dAtA[iNdEx..]);
          return Some(r.error);
        }
        DecodeSnoc(c, dAtA, iNdEx, held, m, r.value);
        fields := r.value;
        iNdEx := next;
      }
      assert dAtA[l..] == [];
      DecodeNothing(c, l, fields);
      return None;
    }
  }

  /** A half-read number is what the groups there are would mean if the next one were
      zero and the last. */
  lemma HalfUintMeans(s: Bytes)
    requires ReadVarint(s).Ok?
    requires var rest := s[ReadVarint(s).value.len..]; forall i :: 0 <= i < |rest| && i < 10 ==> rest[i] >= 128
    ensures var rest := s[ReadVarint(s).value.len..]; var groups := if |rest| < 10 then rest else rest[..9];
      && ReadVarint(groups + [0]).Ok?
      && HalfUint(s) == ReadVarint(groups + [0]).value.item % 0x1_0000_0000
  {
    hide ReadVarint, GroupsValue;
    var rest := s[ReadVarint(s).value.len..];
    var groups := if |rest| < 10 then rest else rest[..9];
    ClosedGroups(groups);
    if |rest| >= 10 { TenthGroup(rest); }
  }

  /** Continued groups, closed by a zero. */
  lemma ClosedGroups(groups: Bytes)
    requires |groups| <= 9 && forall i :: 0 <= i < |groups| ==> groups[i] >= 128
    ensures ReadVarint(groups + [0]).Ok?
    ensures ReadVarint(groups + [0]).value.item % 0x1_0000_0000 == GroupsValue(groups) % 0x1_0000_0000
  {
    hide ReadVarint, GroupsValue, Pow128;
    var all := groups + [0];
    assert all[..|all|] == all;
    ReadVarintExact(all, |all|);
    GroupsAppend(groups, 0);
  }

  /** The tenth group lies above the low 32 bits. */
  lemma TenthGroup(rest: Bytes)
    requires |rest| >= 10
    ensures GroupsValue(rest[..10]) % 0x1_0000_0000 == GroupsValue(rest[..9]) % 0x1_0000_0000
  {
    hide GroupsValue, Pow128;
    assert rest[..10] == rest[..9] + [rest[9]];
    GroupsAppend(rest[..9], rest[9]);
    NineGroups();
    HighBits(GroupsValue(rest[..9]), rest[9] % 128);
  }

  lemma HighBits(x: nat, g: nat)
    ensures (x + 0x8000_0000_0000_0000 * g) % 0x1_0000_0000 == x % 0x1_0000_0000
  {
    var q := 0x8000_0000 * g;
    assert x + 0x8000_0000_0000_0000 * g == x + 0x1_0000_0000 * q;
  }

  /** What a faulty field of a token leaves, field by field: Decimals (6) holds the bits
      read; Distributions (8) has one more element and Tax (9) is set, each to what its
      own unmarshal left; nothing else changes. */
  lemma HalfReadOnly(o: Options, t: Token, off: nat, s: Bytes)
    requires ReadVarint(s).Ok?
    requires var f := NextField(TokenKind, off, s); f.Ok? ==> ApplyToken(o, t, f.value.item).Err?
    ensures var tag := ReadVarint(s).value.item; var num := FieldNumber(tag); var held := HalfToken(o, t, off, s);
      var f := NextField(TokenKind, off, s);
      && held == t.(decimals := held.decimals, distributions := held.distributions, tax := held.tax)
      && held.decimals == (if f.Err? && num == 6 && tag % 8 == 0 then HalfUint(s) else t.decimals)
      && (f.Err? || num != 8 ==> held.distributions == t.distributions)
      && (f.Err? || num != 9 ==> held.tax == t.tax)
      && (f.Ok? ==> num in {8, 9} && f.value.item.BytesOf?)
      && (f.Ok? && num == 8 ==>
            held.distributions == t.distributions +
              [Left(DistributionCodec(o), HalfDistribution, 0, f.value.item.payload, EMPTY_DISTRIBUTION)])
      && (f.Ok? && num == 9 ==>
            held.tax == Some(Left(TaxCodec(o), HalfTax, 0, f.value.item.payload,
                                  if o.merge && t.tax.Some? then t.tax.value else EMPTY_TAX)))
  {
    hide ReadVarint, FieldNumber, Left, Skip, Decode, HalfUint;
  }

  /** Where decoding stops: behind the fields that were read, with what the faulty one
      leaves of the message they made. */
  lemma {:induction false} LeftStops<M>(
    c: Codec<M>, half: (M, nat, Bytes) -> M, off: nat, s: Bytes, n: nat, m: M, m': M)
    requires n < |s| && off + |s| < TWO_63
    requires Decode(c, off, s[..n], m) == Ok(m') && NextField(c.kind, off + n, s[n..]).Err?
    ensures Left(c, half, off, s, m) == half(m', off + n, s[n..])
    decreases n
  {
    hide NextField;
    if n == 0 {
      assert s[0..] == s;
    } else {
      var head := s[..n];
      DecodeFirst(c, off, head, m);
      var f := NextField(c.kind, off, head).value;
      assert head + s[n..] == s;
      NextFieldLocal(c.kind, off, off, head, s[n..]);
      assert head[f.len..] == s[f.len..][..n - f.len] && s[f.len..][n - f.len..] == s[n..];
      LeftStops(c, half, off + f.len, s[f.len..], n - f.len, c.apply(m, f.item).value, m');
    }
  }

  /** A half-read distribution has the bits of its percentage that were read. */
  lemma HalfDistributionIs(d: WalletDistribution, off: nat, s: Bytes)
    requires ReadVarint(s).Ok?
    ensures var tag := ReadVarint(s).value.item;
      HalfDistribution(d, off, s) ==
        d.(percent := if FieldNumber(tag) == 2 && tag % 8 == 0 then HalfUint(s) else d.percent)
  {
  }

  /** The first n bytes are fields that turn m0 into m, and the next one is faulty. */
  ghost predicate StopsAt(dAtA: Bytes, n: nat, e: WireError, m0: Module, m: Module) {
    n < |dAtA| && Decode(ModuleCodec(), 0, dAtA[..n], m0) == Ok(m) && NextField(ModuleKind, n, dAtA[n..]) == Err(e)
  }

  /** The Module config message. */
  class ModuleMessage {
    var authority: Bytes

    constructor ()
      ensures authority == []
    {
      authority := [];
    }

    /** Fills the end of a buffer that is at least Size() long, touches nothing in
        front of it, and returns how much it wrote. */
    method MarshalToSizedBuffer(dAtA: array<byte>) returns (n: nat)
      requires SizeModule(Module(authority)) <= dAtA.Length && |authority| < TWO_63
      modifies dAtA
      ensures n == SizeModule(Module(authority)) == |EncodeModule(Module(authority))|
      ensures dAtA[dAtA.Length - n..] == EncodeModule(Module(authority))
      ensures dAtA[..dAtA.Length - n] == old(dAtA[..dAtA.Length - n])
    {
      PartSizes(0x0a, authority, 0);
      var i := dAtA.Length;
      if |authority| > 0 {
        i := PutTagged(dAtA, i, 0x0a, authority);
      }
      n := dAtA.Length - i;
    }

    method Marshal() returns (dAtA: array<byte>)
      requires |authority| < TWO_63
      ensures fresh(dAtA) && dAtA[..] == EncodeModule(Module(authority))
    {
      PartSizes(0x0a, authority, 0);
      dAtA := new byte[SizeModule(Module(authority))];
      var n := MarshalToSizedBuffer(dAtA);
    }

    /** Unmarshal, assigning Authority in place as each field 1 is read. After an
        error the message holds what the fields before the faulty one made of it. */
    method Unmarshal(dAtA: Bytes) returns (err: Option<WireError>)
      requires |dAtA| < TWO_63
      modifies this
      ensures match Decode(ModuleCodec(), 0, dAtA, Module(old(authority)))
              case Ok(m) => err == None && Module(authority) == m
              case Err(e) =>
                err == Some(e) && exists n :: StopsAt(dAtA, n, e, Module(old(authority)), Module(authority))
    {
      hide NextField, Decode;
      DecodeNothing(ModuleCodec(), 0, Module(authority));
      ghost var held := Module(authority);
      var l, iNdEx := |dAtA|, 0;
      while iNdEx < l
        invariant iNdEx <= l
        invariant Decode(ModuleCodec(), 0, dAtA, held) == Decode(ModuleCodec(), iNdEx, dAtA[iNdEx..], Module(authority))
        invariant Decode(ModuleCodec(), 0, dAtA[..iNdEx], held) == Ok(Module(authority))
      {
        ghost var s, m := dAtA[iNdEx..], Module(authority);
        var f, next := ReadFieldAt(ModuleKind, dAtA, iNdEx);
        DecodeFirst(ModuleCodec(), iNdEx, s, m);
        if f.Err? {
          assert StopsAt(dAtA, iNdEx, f.error, held, Module(authority));
          return Some(f.error);
        }
        assert s[next - iNdEx..] == dAtA[next..];
        DecodeSnoc(ModuleCodec(), dAtA, iNdEx, held, m, ApplyModule(m, f.value).value);
        match f.value {
          case BytesOf(_, payload) => authority := payload;
          case _ =>
        }
        iNdEx := next;
      }
      assert dAtA[l..] == [];
      DecodeNothing(ModuleCodec(), l, Module(authority));
      return None;
    }
  }
}
