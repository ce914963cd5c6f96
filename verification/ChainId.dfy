/** Deriving the EVM chain id from a Cosmos chain id "name_EVMID-version". */
module ChainId {
  import opened Common

  const MAX_UINT64: nat := 0xFFFF_FFFF_FFFF_FFFF

  datatype Result = Ok(id: nat) | NonCanonical | NoChainId

  predicate IsDigit(c: char) { '0' <= c <= '9' }

  function DigitOf(c: char): nat
    requires IsDigit(c)
  {
    c as int - '0' as int
  }

  function CharOf(d: nat): (c: char)
    requires d < 10
    ensures IsDigit(c) && DigitOf(c) == d
  {
    ['0', '1', '2', '3', '4', '5', '6', '7', '8', '9'][d]
  }

  /** Canonical decimal (strconv.FormatUint). */
  function Decimal(n: nat): (s: string)
    ensures s != []
  {
    if n < 10 then [CharOf(n)] else Decimal(n / 10) + [CharOf(n % 10)]
  }

  datatype Parsed = Value(n: nat) | Malformed

  /** strconv.ParseUint in base 10 with 64 bits: digits only, at least one. */
  function Digits(s: string): Parsed {
    if s == [] then Value(0)
    else if !IsDigit(s[|s| - 1]) then Malformed
    else match Digits(s[..|s| - 1])
      case Malformed => Malformed
      case Value(n) => Value(10 * n + DigitOf(s[|s| - 1]))
  }

  function ParseUint(s: string): Parsed {
    if s == [] then Malformed
    else match Digits(s)
      case Malformed => Malformed
      case Value(n) => if n > MAX_UINT64 then Malformed else Value(n)
  }

  /** Index of the last / first occurrence, or -1. */
  function LastIndex(s: string, c: char): (i: int)
    ensures -1 <= i < |s|
  {
    if s == [] then -1 else if s[|s| - 1] == c then |s| - 1 else LastIndex(s[..|s| - 1], c)
  }

  function Index(s: string, c: char): (i: int)
    ensures -1 <= i < |s|
  {
    if s == [] then -1
    else if s[0] == c then 0
    else var i := Index(s[1..], c); if i == -1 then -1 else i + 1
  }

  function CosmosChainIDToEVMChainID(chainID: string): Result {
    var idx := LastIndex(chainID, '_');
    if idx == -1 then NoChainId
    else
      var suffix := chainID[idx + 1..];
      var dash := Index(suffix, '-');
      var evmPart := if dash != -1 then suffix[..dash] else suffix;
      match ParseUint(evmPart)
      case Malformed => NoChainId
      case Value(n) => if n == 0 then NoChainId else if Decimal(n) != evmPart then NonCanonical else Ok(n)
  }

  // ---------- decimals ----------

  lemma {:induction false} DecimalParses(n: nat)
    ensures Digits(Decimal(n)) == Value(n)
    ensures forall c <- Decimal(n) :: IsDigit(c)
  {
    var s := Decimal(n);
    if n < 10 {
      assert s[..0] == [];
    } else {
      DecimalParses(n / 10);
      assert s[..|s| - 1] == Decimal(n / 10);
    }
  }

  // ---------- searching ----------

  lemma {:induction false} LastIndexSplits(s: string, c: char)
    ensures LastIndex(s, c) == -1 <==> c !in s
    ensures LastIndex(s, c) >= 0 ==> s[LastIndex(s, c)] == c && c !in s[LastIndex(s, c) + 1..]
  {
    if s != [] {
      var init := s[..|s| - 1];
      LastIndexSplits(init, c);
      assert s == init + [s[|s| - 1]];
      if s[|s| - 1] != c && LastIndex(s, c) >= 0 {
        assert s[LastIndex(s, c) + 1..] == init[LastIndex(s, c) + 1..] + [s[|s| - 1]];
      }
    }
  }

  lemma {:induction false} IndexSplits(s: string, c: char)
    ensures Index(s, c) == -1 <==> c !in s
    ensures Index(s, c) >= 0 ==> s[Index(s, c)] == c && c !in s[..Index(s, c)]
  {
    if s != [] {
      IndexSplits(s[1..], c);
      assert s == [s[0]] + s[1..];
      if s[0] != c && Index(s, c) >= 0 {
        assert s[..Index(s, c)] == [s[0]] + s[1..][..Index(s[1..], c)];
      }
    }
  }

  /** Where the last occurrence of a character is. */
  lemma {:induction false} LastIndexAt(a: string, c: char, b: string)
    requires c !in b
    ensures LastIndex(a + [c] + b, c) == |a| && (a + [c] + b)[|a| + 1..] == b
  {
    var s := a + [c] + b;
    if b == [] {
      assert s[|s| - 1] == c;
    } else {
      assert s[..|s| - 1] == a + [c] + b[..|b| - 1];
      LastIndexAt(a, c, b[..|b| - 1]);
    }
  }

  lemma {:induction false} IndexAt(a: string, c: char, b: string)
    requires c !in a
    ensures Index(a, c) == -1
    ensures b != [] && b[0] == c ==> Index(a + b, c) == |a|
  {
    if a == [] {
      assert a + b == b;
    } else {
      assert (a + b)[1..] == a[1..] + b;
      IndexAt(a[1..], c, b);
    }
  }

  // ---------- the parser ----------

  /** The accepted ids, exactly: some name, '_', the canonical decimal of a positive
      uint64, and then nothing or a '-' and a version without '_'. */
  ghost predicate Canonical(id: string, n: nat, name: string, rest: string) {
    && id == name + ['_'] + Decimal(n) + rest
    && '_' !in rest && (rest == [] || rest[0] == '-')
  }

  lemma AcceptsCanonical(n: nat, name: string, rest: string, id: string)
    requires 1 <= n <= MAX_UINT64 && Canonical(id, n, name, rest)
    ensures CosmosChainIDToEVMChainID(id) == Ok(n)
  {
    hide Decimal, Digits, LastIndex, Index;
    DecimalParses(n);
    var suffix := Decimal(n) + rest;
    assert id == name + ['_'] + suffix;
    LastIndexAt(name, '_', suffix);
    IndexAt(Decimal(n), '-', rest);
    assert suffix[..|Decimal(n)|] == Decimal(n);
    assert rest == [] ==> suffix == Decimal(n);
  }

  lemma ParsedBound(id: string)
    ensures CosmosChainIDToEVMChainID(id).Ok? ==> 1 <= CosmosChainIDToEVMChainID(id).id <= MAX_UINT64
  {
  }

  /** What follows the last '_' of an accepted id: the decimal, then a '-' or nothing. */
  lemma AcceptedSuffix(id: string, n: nat) returns (idx: nat, rest: string)
    requires CosmosChainIDToEVMChainID(id) == Ok(n)
    ensures idx < |id| && idx == LastIndex(id, '_')
    ensures id[idx + 1..] == Decimal(n) + rest && (rest == [] || rest[0] == '-')
  {
    hide Decimal, LastIndex, Index, ParseUint, Digits;
    idx := LastIndex(id, '_');
    var suffix := id[idx + 1..];
    var dash := Index(suffix, '-');
    if dash == -1 {
      rest := [];
    } else {
      IndexSplits(suffix, '-');
      CutBefore(suffix, dash);
      rest := suffix[dash..];
    }
  }

  lemma CanonicalFrom(id: string, idx: nat, n: nat, rest: string)
    requires idx < |id| && id[idx] == '_' && '_' !in id[idx + 1..]
    requires id[idx + 1..] == Decimal(n) + rest && (rest == [] || rest[0] == '-')
    ensures Canonical(id, n, id[..idx], rest)
  {
    hide Decimal;
    CutAt(id, idx);
    var name, d := id[..idx], Decimal(n);
    assert name + ['_'] + (d + rest) == name + ['_'] + d + rest;
    assert forall c <- rest :: c in d + rest;
  }

  lemma AcceptedIsCanonical(id: string, n: nat) returns (name: string, rest: string)
    requires CosmosChainIDToEVMChainID(id) == Ok(n)
    ensures 1 <= n <= MAX_UINT64 && Canonical(id, n, name, rest)
  {
    ParsedBound(id);
    hide Decimal, LastIndex, Index, CosmosChainIDToEVMChainID, Canonical;
    LastIndexSplits(id, '_');
    var idx: nat;
    idx, rest := AcceptedSuffix(id, n);
    name := id[..idx];
    CanonicalFrom(id, idx, n, rest);
  }

  /** Parser and printer undo each other, and the parser accepts nothing else. */
  lemma ChainIdExact(id: string, n: nat)
    ensures CosmosChainIDToEVMChainID(id) == Ok(n)
       <==> 1 <= n <= 0xFFFF_FFFF_FFFF_FFFF && exists name, rest :: Canonical(id, n, name, rest)
  {
    if CosmosChainIDToEVMChainID(id) == Ok(n) {
      var name, rest := AcceptedIsCanonical(id, n);
    }
    if 1 <= n <= MAX_UINT64 && exists name, rest :: Canonical(id, n, name, rest) {
      var name, rest :| Canonical(id, n, name, rest);
      AcceptsCanonical(n, name, rest, id);
    }
  }

  // ---------- leading zeros ----------

  /** A decimal does not start with a zero, except zero itself. */
  lemma {:induction false} NoLeadingZero(n: nat)
    ensures n > 0 ==> Decimal(n)[0] != '0'
    ensures |Decimal(n)| > 1 ==> Decimal(n)[0] != '0'
  {
    if n >= 10 {
      NoLeadingZero(n / 10);
    }
  }

  /** Of all digit strings for a number, the decimal is the one without leading zeros. */
  lemma {:induction false} OnlyDecimal(s: string, n: nat)
    requires s != [] && Digits(s) == Value(n) && s[0] != '0'
    ensures n > 0 && s == Decimal(n)
    decreases |s|
  {
    var init, last := s[..|s| - 1], s[|s| - 1];
    var m := Digits(init).n;
    if init == [] {
      assert n == DigitOf(last);
      SameDigit(last, CharOf(n));
    } else {
      OnlyDecimal(init, m);
      assert n / 10 == m && n % 10 == DigitOf(last);
      SameDigit(last, CharOf(n % 10));
      assert s == init + [last];
    }
  }

  lemma SameDigit(c: char, d: char)
    requires IsDigit(c) && IsDigit(d) && DigitOf(c) == DigitOf(d)
    ensures c == d
  {
    assert c as int == d as int;
  }

  lemma {:induction false} DigitsAreDigits(s: string)
    ensures Digits(s).Value? ==> forall c <- s :: IsDigit(c)
    decreases |s|
  {
    if s != [] {
      DigitsAreDigits(s[..|s| - 1]);
      assert s == s[..|s| - 1] + [s[|s| - 1]];
    }
  }

  /** Digits of a positive uint64 after the last '_', with a zero in front. */
  ghost predicate ZeroPadded(id: string, name: string, digits: string, rest: string) {
    && id == name + ['_'] + digits + rest && digits != [] && digits[0] == '0'
    && Digits(digits).Value? && 1 <= Digits(digits).n <= 0xFFFF_FFFF_FFFF_FFFF
    && '_' !in rest && (rest == [] || rest[0] == '-')
  }

  /** The refusal as non-canonical is for leading zeros, exactly. */
  lemma NonCanonicalIff(id: string)
    ensures CosmosChainIDToEVMChainID(id) == NonCanonical <==>
      exists name, digits, rest :: ZeroPadded(id, name, digits, rest)
  {
    if CosmosChainIDToEVMChainID(id) == NonCanonical {
      var name, digits, rest := PaddedFrom(id);
    }
    forall name, digits, rest | ZeroPadded(id, name, digits, rest)
      ensures CosmosChainIDToEVMChainID(id) == NonCanonical
    {
      PaddedRefused(id, name, digits, rest);
    }
  }

  lemma PaddedRefused(id: string, name: string, digits: string, rest: string)
    requires ZeroPadded(id, name, digits, rest)
    ensures CosmosChainIDToEVMChainID(id) == NonCanonical
  {
    DigitsAreDigits(digits);
    NoLeadingZero(Digits(digits).n);
    hide Decimal, Digits, LastIndex, Index;
    var suffix := digits + rest;
    assert id == name + ['_'] + suffix;
    LastIndexAt(name, '_', suffix);
    IndexAt(digits, '-', rest);
    assert suffix[..|digits|] == digits;
    assert rest == [] ==> suffix == digits;
  }

  /** What follows the last '_' of an id refused as non-canonical. */
  lemma PaddedSuffix(id: string) returns (idx: nat, digits: string, rest: string)
    requires CosmosChainIDToEVMChainID(id) == NonCanonical
    ensures idx < |id| && idx == LastIndex(id, '_')
    ensures id[idx + 1..] == digits + rest && (rest == [] || rest[0] == '-')
    ensures digits != [] && Digits(digits).Value? && 1 <= Digits(digits).n <= MAX_UINT64
    ensures Decimal(Digits(digits).n) != digits
  {
    hide Decimal, LastIndex, Index, Digits;
    idx := LastIndex(id, '_');
    var suffix := id[idx + 1..];
    var dash := Index(suffix, '-');
    if dash == -1 {
      digits, rest := suffix, [];
      assert suffix + [] == suffix;
    } else {
      IndexSplits(suffix, '-');
      CutBefore(suffix, dash);
      digits, rest := suffix[..dash], suffix[dash..];
    }
  }

  lemma PaddedFrom(id: string) returns (name: string, digits: string, rest: string)
    requires CosmosChainIDToEVMChainID(id) == NonCanonical
    ensures ZeroPadded(id, name, digits, rest)
  {
    hide Decimal, LastIndex, Index, Digits, CosmosChainIDToEVMChainID;
    var idx: nat;
    idx, digits, rest := PaddedSuffix(id);
    if digits[0] != '0' { OnlyDecimal(digits, Digits(digits).n); }
    LastIndexSplits(id, '_');
    name := id[..idx];
    PaddedParts(id, idx, digits, rest);
  }

  lemma PaddedParts(id: string, idx: nat, digits: string, rest: string)
    requires idx < |id| && id[idx] == '_' && '_' !in id[idx + 1..] && id[idx + 1..] == digits + rest
    ensures id == id[..idx] + ['_'] + digits + rest && '_' !in rest
  {
    CutAt(id, idx);
    Reassociate(id[..idx] + ['_'], digits, rest);
    assert forall c <- rest :: c in digits + rest;
  }

  /** Printing a chain id and parsing it gives the number back. */
  lemma PrintParse(name: string, n: nat, version: string)
    requires 1 <= n <= MAX_UINT64 && '_' !in version
    ensures CosmosChainIDToEVMChainID(name + ['_'] + Decimal(n) + (['-'] + version)) == Ok(n)
  {
    AcceptsCanonical(n, name, ['-'] + version, name + ['_'] + Decimal(n) + (['-'] + version));
  }
}
