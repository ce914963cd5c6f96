/** The loop every generated Unmarshal runs: read a tag, reject what cannot start
    a field, dispatch on the field number, keep unknown fields. A message type
    supplies the table of its known fields and the effect of one field. */
module MessageCodec {
  import opened Common
  import opened Wire

  datatype Kind = VarintField | BytesField | UnknownField

  datatype RawField =
    | VarintOf(num: int, value: nat)
    | BytesOf(num: int, payload: Bytes)
    | UnknownOf(raw: Bytes)

  datatype Codec<!M> = Codec(kind: int -> Kind, apply: (M, RawField) -> Result<M>)

  /** int32(wire >> 3): numbers above 2^32 alias small ones, the upper half is negative. */
  function FieldNumber(tag: nat): (n: int)
    ensures -0x8000_0000 <= n < 0x8000_0000 && (tag / 8 - n) % 0x1_0000_0000 == 0
  {
    var n := tag / 8 % TWO_32;
    if n >= 0x8000_0000 then n - TWO_32 else n
  }

  /** A tag made of a field number below 2^29 and a wire type has that number. */
  lemma FieldNumberOf(num: nat, wireType: nat)
    requires num < 0x2000_0000 && wireType < 8
    ensures FieldNumber(8 * num + wireType) == num
  {
  }

  /** A known scalar field whose tag took n bytes and is followed by `rest`. */
  function ScalarField(num: int, wireType: nat, n: nat, rest: Bytes): (r: Result<Read<RawField>>)
    ensures r.Ok? ==> n < r.value.len <= n + |rest|
  {
    if wireType != 0 then Err(WrongWireType)
    else
      var v :- ReadVarint(rest);
      Ok(Read(VarintOf(num, v.item), n + v.len))
  }

  /** A known length-delimited field; `off` is the index at which `rest` starts. */
  function DelimitedField(num: int, wireType: nat, n: nat, off: nat, rest: Bytes): (r: Result<Read<RawField>>)
    ensures r.Ok? ==> n < r.value.len <= n + |rest|
  {
    if wireType != 2 then Err(WrongWireType)
    else
      var p :- ReadDelimited(off, rest);
      Ok(Read(BytesOf(num, p.item), n + p.len))
  }

  /** An unknown field, kept whole; s starts with its tag. */
  function KeptField(off: nat, s: Bytes): (r: Result<Read<RawField>>)
    ensures r.Ok? ==> 1 <= r.value.len <= |s|
  {
    var n :- Skip(0, s, 0);
    if off + n >= TWO_63 then Err(InvalidLength)
    else if n > |s| then Err(UnexpectedEOF)
    else Ok(Read(UnknownOf(s[..n]), n))
  }

  function NextField(kind: int -> Kind, off: nat, s: Bytes): (r: Result<Read<RawField>>)
    ensures r.Ok? ==> 1 <= r.value.len <= |s|
  {
    var tag :- ReadVarint(s);
    var num := FieldNumber(tag.item);
    if tag.item % 8 == 4 then Err(EndGroupForNonGroup)
    else if num <= 0 then Err(IllegalTag)
    else match kind(num)
      case VarintField => ScalarField(num, tag.item % 8, tag.len, s[tag.len..])
      case BytesField => DelimitedField(num, tag.item % 8, tag.len, off + tag.len, s[tag.len..])
      case UnknownField => KeptField(off, s)
  }

  /** Unmarshal of the unread bytes s, starting at index off, into message m. */
  function Decode<M>(c: Codec<M>, off: nat, s: Bytes, m: M): Result<M>
    decreases |s|
  {
    if s == [] then Ok(m)
    else
      var f :- NextField(c.kind, off, s);
      var m' :- c.apply(m, f.item);
      Decode(c, off + f.len, s[f.len..], m')
  }

  // ---------- the independent reading: a message is a list of fields ----------

  ghost function ItemNumber(it: Item): int { FieldNumber(VarintValue(it.tag)) }

  /** A field this codec lets through: positive number, and for a known number
      the wire type its declaration asks for. */
  ghost predicate Accepted(kind: int -> Kind, it: Item) {
    && WellFormed(it)
    && ItemNumber(it) > 0
    && match kind(ItemNumber(it))
       case VarintField => it.Scalar?
       case BytesField => it.Delimited?
       case UnknownField => true
  }

  ghost predicate AllAccepted(kind: int -> Kind, items: seq<Item>) {
    forall it <- items :: Accepted(kind, it)
  }

  ghost function FieldOf(kind: int -> Kind, it: Item): RawField
    requires Accepted(kind, it)
  {
    match kind(ItemNumber(it))
    case VarintField => VarintOf(ItemNumber(it), VarintValue(it.value))
    case BytesField => BytesOf(ItemNumber(it), it.data)
    case UnknownField => UnknownOf(Render(it))
  }

  /** The meaning of a list of fields: apply them in order. */
  ghost function Fold<M>(c: Codec<M>, items: seq<Item>, m: M): Result<M>
    requires AllAccepted(c.kind, items)
  {
    if items == [] then Ok(m)
    else
      assert items[0] in items;
      var m' :- c.apply(m, FieldOf(c.kind, items[0]));
      Fold(c, items[1..], m')
  }

  /** The first varint of a rendered field is its tag. */
  lemma TagOfItem(it: Item, rest: Bytes)
    requires WellFormed(it)
    ensures ReadVarint(Render(it) + rest) == Ok(Read(VarintValue(it.tag), |it.tag|))
    ensures VarintValue(it.tag) % 8 != 4
    ensures it.Scalar? <==> VarintValue(it.tag) % 8 == 0
    ensures it.Delimited? <==> VarintValue(it.tag) % 8 == 2
  {
    hide ReadVarint, VarintValue, IsVarint, RenderAll, AllWellFormed;
    var after := match it
      case Scalar(_, value) => value
      case Fixed(_, data) => data
      case Delimited(_, length, data) => length + data
      case Group(_, body, close) => RenderAll(body) + close;
    assert Render(it) + rest == it.tag + (after + rest);
    ReadVarintOf(it.tag, after + rest);
  }

  lemma NextFieldOfItem(kind: int -> Kind, off: nat, it: Item, rest: Bytes)
    requires Accepted(kind, it) && off + |Render(it)| + |rest| < TWO_63
    ensures NextField(kind, off, Render(it) + rest) == Ok(Read(FieldOf(kind, it), |Render(it)|))
  {
    hide ReadVarint, VarintValue, IsVarint, Skip, FieldNumber, RenderAll, AllWellFormed;
    var s := Render(it) + rest;
    TagOfItem(it, rest);
    match kind(ItemNumber(it)) {
      case VarintField =>
        assert s[|it.tag|..] == it.value + rest;
        ReadVarintOf(it.value, rest);
      case BytesField =>
        assert s[|it.tag|..] == it.length + (it.data + rest);
        ReadVarintOf(it.length, it.data + rest);
        assert s[|it.tag|..][|it.length|..|it.length| + |it.data|] == it.data;
      case UnknownField =>
        SkipComplete(it, rest);
        assert s[..|Render(it)|] == Render(it);
    }
  }

  lemma ItemOfNextField(kind: int -> Kind, off: nat, s: Bytes) returns (it: Item)
    requires NextField(kind, off, s).Ok?
    ensures Accepted(kind, it)
    ensures Render(it) == s[..NextField(kind, off, s).value.len]
    ensures FieldOf(kind, it) == NextField(kind, off, s).value.item
  {
    hide ReadVarint, IsVarint, Skip, FieldNumber;
    var tag := ReadVarint(s).value;
    var len := NextField(kind, off, s).value.len;
    ReadVarintExact(s, tag.len);
    match kind(FieldNumber(tag.item)) {
      case VarintField =>
        var v := ReadVarint(s[tag.len..]).value;
        ReadVarintExact(s[tag.len..], v.len);
        it := Scalar(s[..tag.len], s[tag.len..][..v.len]);
        assert Render(it) == s[..len];
      case BytesField =>
        var l := ReadVarint(s[tag.len..]).value;
        ReadVarintExact(s[tag.len..], l.len);
        it := Delimited(s[..tag.len], s[tag.len..][..l.len], s[tag.len + l.len..len]);
        assert Render(it) == s[..len];
      case UnknownField =>
        it := SkipSound(s);
    }
  }

  /** Decoding rendered fields is applying them in order, errors included. */
  lemma {:induction false} DecodeRendered<M>(c: Codec<M>, off: nat, items: seq<Item>, m: M)
    requires AllAccepted(c.kind, items) && off + |RenderAll(items)| < TWO_63
    ensures Decode(c, off, RenderAll(items), m) == Fold(c, items, m)
    decreases items
  {
    hide NextField, Accepted, FieldOf, Render;
    if items != [] {
      assert items[0] in items;
      var first, rest := Render(items[0]), RenderAll(items[1..]);
      NextFieldOfItem(c.kind, off, items[0], rest);
      assert RenderAll(items) == first + rest;
      assert (first + rest)[|first|..] == rest;
      var r := c.apply(m, FieldOf(c.kind, items[0]));
      if r.Ok? {
        DecodeRendered(c, off + |Render(items[0])|, items[1..], r.value);
      }
    }
  }

  /** Whatever decodes is a list of accepted fields with that meaning. */
  lemma {:induction false} DecodeParses<M>(c: Codec<M>, off: nat, s: Bytes, m: M) returns (items: seq<Item>)
    requires Decode(c, off, s, m).Ok?
    ensures AllAccepted(c.kind, items) && RenderAll(items) == s
    ensures Fold(c, items, m) == Decode(c, off, s, m)
    decreases |s|
  {
    hide NextField, Accepted, FieldOf, Render;
    items := [];
    if s != [] {
      var f := NextField(c.kind, off, s).value;
      var it := ItemOfNextField(c.kind, off, s);
      var more := DecodeParses(c, off + f.len, s[f.len..], c.apply(m, f.item).value);
      items := [it] + more;
      assert items[1..] == more;
      assert s == s[..f.len] + s[f.len..];
    }
  }

  /** Soundness and completeness of the decoder on every byte string: it succeeds
      with r exactly when the input splits into accepted fields whose effects,
      applied in order, give r. */
  lemma DecodeExact<M(!new)>(c: Codec<M>, s: Bytes, m: M, r: M)
    requires |s| < TWO_63
    ensures Decode(c, 0, s, m) == Ok(r)
       <==> exists items :: AllAccepted(c.kind, items) && RenderAll(items) == s && Fold(c, items, m) == Ok(r)
  {
    if Decode(c, 0, s, m) == Ok(r) {
      var items := DecodeParses(c, 0, s, m);
    }
    forall items | AllAccepted(c.kind, items) && RenderAll(items) == s && Fold(c, items, m) == Ok(r)
      ensures Decode(c, 0, s, m) == Ok(r)
    {
      DecodeRendered(c, 0, items, m);
    }
  }

  /** A message of one field. */
  lemma DecodeOne<M>(c: Codec<M>, it: Item, m: M)
    requires Accepted(c.kind, it) && |Render(it)| < TWO_63
    ensures Decode(c, 0, Render(it), m) == c.apply(m, FieldOf(c.kind, it))
  {
    hide NextField, Accepted, FieldOf, Render;
    var s := Render(it);
    assert s + [] == s && s[|s|..] == [];
    NextFieldOfItem(c.kind, 0, it, []);
    RenderedNonEmpty(c.kind, it);
    DecodeFirst(c, 0, s, m);
    if c.apply(m, FieldOf(c.kind, it)).Ok? {
      DecodeNothing(c, |s|, c.apply(m, FieldOf(c.kind, it)).value);
    }
  }

  lemma RenderedNonEmpty(kind: int -> Kind, it: Item)
    requires Accepted(kind, it)
    ensures Render(it) != []
  {
    assert it.tag != [];
  }

  /** How a field fails to be read, by its tag. */
  lemma FieldErrors(kind: int -> Kind, off: nat, s: Bytes)
    ensures ReadVarint(s).Err? ==> NextField(kind, off, s) == Err(ReadVarint(s).error)
    ensures ReadVarint(s).Ok? ==>
      var tag := ReadVarint(s).value.item; var r := NextField(kind, off, s);
      && (r == Err(EndGroupForNonGroup) <==> tag % 8 == 4)
      && (r == Err(IllegalTag) <==> tag % 8 != 4 && FieldNumber(tag) <= 0)
      && (r == Err(WrongWireType) <==>
            && tag % 8 != 4 && FieldNumber(tag) > 0
            && ((kind(FieldNumber(tag)).VarintField? && tag % 8 != 0) ||
                (kind(FieldNumber(tag)).BytesField? && tag % 8 != 2)))
  {
    VarintErrorKinds(s);
    if ReadVarint(s).Ok? { VarintErrorKinds(s[ReadVarint(s).value.len..]); }
    SkipErrorKinds(s);
    hide ReadVarint, FieldNumber, Skip;
  }

  /** How a payload fails to be read, by its length, which takes n bytes of s. */
  lemma PayloadErrors(off: nat, s: Bytes)
    ensures ReadVarint(s).Err? ==> ReadDelimited(off, s) == Err(ReadVarint(s).error)
    ensures ReadVarint(s).Ok? ==>
      var n := ReadVarint(s).value.len; var end := n + ReadVarint(s).value.item; var r := ReadDelimited(off, s);
      && (r == Err(InvalidLength) <==> off + end >= 0x8000_0000_0000_0000)
      && (r == Err(UnexpectedEOF) <==> off + end < 0x8000_0000_0000_0000 && end > |s|)
      && (r.Ok? ==> r.value.item == s[n..end] && r.value.len == end)
  {
    hide ReadVarint;
  }

  lemma {:induction false} FoldAppend<M>(c: Codec<M>, xs: seq<Item>, ys: seq<Item>, m: M)
    requires AllAccepted(c.kind, xs) && AllAccepted(c.kind, ys)
    ensures AllAccepted(c.kind, xs + ys)
    ensures Fold(c, xs + ys, m) == if Fold(c, xs, m).Ok? then Fold(c, ys, Fold(c, xs, m).value) else Fold(c, xs, m)
  {
    if xs == [] {
      assert xs + ys == ys;
    } else {
      assert xs[0] in xs;
      assert (xs + ys)[1..] == xs[1..] + ys;
      var r := c.apply(m, FieldOf(c.kind, xs[0]));
      if r.Ok? {
        FoldAppend(c, xs[1..], ys, r.value);
      }
    }
  }

  lemma {:induction false} RenderAppend(xs: seq<Item>, ys: seq<Item>)
    ensures RenderAll(xs + ys) == RenderAll(xs) + RenderAll(ys)
  {
    if xs == [] {
      assert xs + ys == ys;
    } else {
      assert (xs + ys)[1..] == xs[1..] + ys;
      RenderAppend(xs[1..], ys);
      assert RenderAll(xs + ys) == Render(xs[0]) + (RenderAll(xs[1..]) + RenderAll(ys));
    }
  }

  /** Parsing a field never depends on the bytes after it, nor on its position. */
  lemma NextFieldLocal(kind: int -> Kind, off: nat, off': nat, s: Bytes, t: Bytes)
    requires NextField(kind, off, s).Ok? && off' + |s| + |t| < TWO_63
    ensures NextField(kind, off', s + t) == NextField(kind, off, s)
  {
    hide NextField;
    var it := ItemOfNextField(kind, off, s);
    var n := NextField(kind, off, s).value.len;
    NextFieldOfItem(kind, off', it, s[n..] + t);
    assert s + t == Render(it) + (s[n..] + t);
  }

  /** The concatenation law ("last one wins"): once a decodes, the message a ++ b
      is b decoded into what a left behind, and fails exactly when that fails. */
  lemma {:induction false} DecodeConcat<M>(c: Codec<M>, off: nat, a: Bytes, b: Bytes, m: M)
    requires off + |a| + |b| < TWO_63 && Decode(c, off, a, m).Ok?
    ensures Decode(c, off, a + b, m) == Decode(c, off + |a|, b, Decode(c, off, a, m).value)
    decreases |a|
  {
    hide NextField;
    if a == [] {
      assert a + b == b;
    } else {
      var f := NextField(c.kind, off, a).value;
      NextFieldLocal(c.kind, off, off, a, b);
      assert (a + b)[f.len..] == a[f.len..] + b;
      DecodeConcat(c, off + f.len, a[f.len..], b, c.apply(m, f.item).value);
    }
  }

  lemma DecodeNothing<M>(c: Codec<M>, off: nat, m: M)
    ensures Decode(c, off, [], m) == Ok(m)
  {
  }

  lemma DecodeFirst<M>(c: Codec<M>, off: nat, s: Bytes, m: M)
    requires s != []
    ensures match NextField(c.kind, off, s)
      case Err(e) => Decode(c, off, s, m) == Err(e)
      case Ok(f) =>
        match c.apply(m, f.item)
        case Err(e) => Decode(c, off, s, m) == Err(e)
        case Ok(m') => Decode(c, off, s, m) == Decode(c, off + f.len, s[f.len..], m')
  {
    hide NextField;
  }

  /** Reading one more field after a part that has been decoded. */
  lemma DecodeSnoc<M>(c: Codec<M>, s: Bytes, n: nat, m0: M, m: M, m': M)
    requires n <= |s| < TWO_63 && Decode(c, 0, s[..n], m0) == Ok(m) && NextField(c.kind, n, s[n..]).Ok?
    requires c.apply(m, NextField(c.kind, n, s[n..]).value.item) == Ok(m')
    ensures Decode(c, 0, s[..n + NextField(c.kind, n, s[n..]).value.len], m0) == Ok(m')
  {
    hide NextField, Accepted, FieldOf, Render;
    var f := NextField(c.kind, n, s[n..]).value;
    var field := s[n..][..f.len];
    var it := ItemOfNextField(c.kind, n, s[n..]);
    NextFieldOfItem(c.kind, n, it, []);
    assert field + [] == field && field[f.len..] == [];
    DecodeFirst(c, n, field, m);
    DecodeNothing(c, n + f.len, m');
    hide Decode;
    DecodeConcat(c, 0, s[..n], field, m0);
    assert s[..n + f.len] == s[..n] + field;
  }

  /** Success and its result do not depend on where in a larger buffer the bytes lie. */
  lemma {:induction false} DecodeAnywhere<M>(c: Codec<M>, off: nat, off': nat, s: Bytes, m: M)
    requires off + |s| < TWO_63 && off' + |s| < TWO_63
    ensures Decode(c, off, s, m).Ok? <==> Decode(c, off', s, m).Ok?
    ensures Decode(c, off, s, m).Ok? ==> Decode(c, off, s, m) == Decode(c, off', s, m)
  {
    if Decode(c, off, s, m).Ok? {
      var items := DecodeParses(c, off, s, m);
      DecodeRendered(c, off', items, m);
    }
    if Decode(c, off', s, m).Ok? {
      var items := DecodeParses(c, off', s, m);
      DecodeRendered(c, off, items, m);
    }
  }
}
