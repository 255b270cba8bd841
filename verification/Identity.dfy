/** Automatic identities: reading and validating the Linux machine ID, the base32 token cut from a
    digest, and how a loaded configuration resolves its client and device IDs. */
module Identity {
  import opened Text
  import opened Topics

  // ----------------------------------------------------------------- machine ID

  datatype MachineIDError = NotHexadecimal | AllZero

  predicate ThirtyTwoHex(id: string) { |id| == 32 && forall i | 0 <= i < |id| :: IsLowerHex(id[i]) }

  /** An initialised machine identity. */
  predicate MachineID(id: string)
  {
    ThirtyTwoHex(id) && exists i | 0 <= i < |id| :: id[i] != '0'
  }

  function Validated(value: string): Result<string, MachineIDError>
  {
    var id := Lower(TrimSpace(value));
    if MachineID(id) then Ok(id) else Err(if ThirtyTwoHex(id) then AllZero else NotHexadecimal)
  }

  method ValidateMachineID(text: string) returns (r: Result<string, MachineIDError>)
    ensures r == Validated(text)
    ensures var id := Lower(TrimSpace(text));
            && (r.Ok? <==> |id| == 32 && (forall i | 0 <= i < 32 :: '0' <= id[i] <= '9' || 'a' <= id[i] <= 'f')
                           && exists i | 0 <= i < 32 :: id[i] != '0')
            && (r.Ok? ==> r.value == id)
            && (r == Err(AllZero) <==> |id| == 32 && forall i | 0 <= i < 32 :: id[i] == '0')
  {
    var value := Lower(TrimSpace(text));
    if |value| != 32 {
      return Err(NotHexadecimal);
    }
    var allZero := true;
    for i := 0 to |value|
      invariant forall k | 0 <= k < i :: IsLowerHex(value[k])
      invariant allZero <==> forall k | 0 <= k < i :: value[k] == '0'
    {
      var r := value[i];
      if !(('0' <= r <= '9') || ('a' <= r <= 'f')) {
        return Err(NotHexadecimal);
      }
      if r != '0' {
        allZero := false;
      }
    }
    return if allZero then Err(AllZero) else Ok(value);
  }

  /** A file names the machine ID `id` exactly when it holds it in any letter case between any
      amounts of white space. */
  ghost predicate Spells(text: string, id: string)
  {
    exists left, word, right | AllSpaces(left) && AllSpaces(right) && Lower(word) == id ::
      text == left + (word + right)
  }

  lemma ValidatedExactly(text: string, id: string)
    ensures Validated(text) == Ok(id) <==> MachineID(id) && Spells(text, id)
  {
    if Validated(text) == Ok(id) {
      var left := TrimLeftSplits(text);
      var right := TrimRightSplits(TrimLeft(text));
      assert text == left + (TrimSpace(text) + right);
    }
    if MachineID(id) && Spells(text, id) {
      var left, word, right :| AllSpaces(left) && AllSpaces(right) && Lower(word) == id
                               && text == left + (word + right);
      SpelledWordIsCutOut(left, word, right);
    }
  }

  lemma SpelledWordIsCutOut(left: string, word: string, right: string)
    requires AllSpaces(left) && AllSpaces(right) && ThirtyTwoHex(Lower(word))
    ensures TrimSpace(left + (word + right)) == word
  {
    assert forall i | 0 <= i < |word| :: IsLowerHex(LowerChar(word[i])) && IsHexAnyCase(word[i]);
    HexIsNotSpace(word[0]);
    HexIsNotSpace(word[31]);
    assert (word + right)[0] == word[0];
    TrimLeftDrops(left, word + right);
    TrimRightDrops(word, right);
  }

  /** Validation keeps what it produced. */
  lemma ValidationIsIdempotent(text: string)
    requires Validated(text).Ok?
    ensures Validated(Validated(text).value) == Validated(text)
  {
    var id := Validated(text).value;
    assert Lower(id) == id by {
      assert forall i | 0 <= i < |id| :: LowerChar(id[i]) == id[i];
    }
    assert id == "" + (id + "");
    assert AllSpaces("") && Lower(id) == id;
    ValidatedExactly(id, id);
  }

  datatype MachineIDFile = EtcMachineID | DbusMachineID

  const MACHINE_ID_FILES := [EtcMachineID, DbusMachineID]

  /** What the host reads of each file; none when it cannot be read. */
  datatype Source = Source(readFile: MachineIDFile -> Option<string>)

  datatype IdentityError = NoSource | InvalidIn(file: MachineIDFile, error: MachineIDError) | Unreadable

  /** The first readable file decides, even when what it holds is not valid. */
  function CanonicalID(source: Option<Source>): Result<string, IdentityError>
  {
    if source.None? then Err(NoSource)
    else
      var etc, dbus := source.value.readFile(EtcMachineID), source.value.readFile(DbusMachineID);
      if etc.Some? then Judged(EtcMachineID, etc.value)
      else if dbus.Some? then Judged(DbusMachineID, dbus.value)
      else Err(Unreadable)
  }

  function Judged(file: MachineIDFile, text: string): Result<string, IdentityError>
  {
    match Validated(text)
    case Ok(id) => Ok(id)
    case Err(e) => Err(InvalidIn(file, e))
  }

  method CanonicalMachineID(source: Option<Source>) returns (r: Result<string, IdentityError>)
    ensures r == CanonicalID(source)
  {
    if source.None? {
      return Err(NoSource);
    }
    for i := 0 to |MACHINE_ID_FILES|
      invariant forall k | 0 <= k < i :: source.value.readFile(MACHINE_ID_FILES[k]).None?
    {
      var path := MACHINE_ID_FILES[i];
      var value := source.value.readFile(path);
      if value.None? {
        continue;
      }
      assert i == 1 ==> source.value.readFile(MACHINE_ID_FILES[0]).None?;
      var canonical := ValidateMachineID(value.value);
      return match canonical
        case Ok(id) => Ok(id)
        case Err(e) => Err(InvalidIn(path, e));
    }
    assert source.value.readFile(MACHINE_ID_FILES[0]).None? && source.value.readFile(MACHINE_ID_FILES[1]).None?;
    return Err(Unreadable);
  }

  // --------------------------------------------------------------------- base32

  /** The base32 alphabet of section 6 of RFC 4648. */
  function Symbol(v: bv5): char
  {
    if v < 26 then ('A' as int + v as int) as char else ('2' as int + (v - 26) as int) as char
  }

  /** Five bytes as one 40-bit number, the first byte most significant. */
  function Group(b0: Byte, b1: Byte, b2: Byte, b3: Byte, b4: Byte): bv40
  {
    ((b0 as bv40) << 32) | ((b1 as bv40) << 24) | ((b2 as bv40) << 16) | ((b3 as bv40) << 8) | (b4 as bv40)
  }

  /** The eight base-32 digits of a 40-bit number. */
  function Digits32(g: bv40): (digits: seq<bv5>)
    ensures |digits| == 8
  {
    [((g >> 35) & 31) as bv5, ((g >> 30) & 31) as bv5, ((g >> 25) & 31) as bv5, ((g >> 20) & 31) as bv5,
     ((g >> 15) & 31) as bv5, ((g >> 10) & 31) as bv5, ((g >> 5) & 31) as bv5, (g & 31) as bv5]
  }

  function EncodeGroup(b: Bytes): (s: string)
    requires |b| == 5
    ensures |s| == 8
  {
    var digits := Digits32(Group(b[0], b[1], b[2], b[3], b[4]));
    seq(8, j requires 0 <= j < 8 => Symbol(digits[j]))
  }

  /** Base32 without padding, 40 bits at a time; a last shorter group is filled with zero bits. */
  function Encode(d: Bytes): (s: string)
    ensures |s| == (8 * |d| + 4) / 5
  {
    if d == [] then ""
    else if |d| < 5 then EncodeGroup(d + Zeros(5 - |d|))[..(8 * |d| + 4) / 5]
    else EncodeGroup(d[..5]) + Encode(d[5..])
  }

  function BitAt(b: Byte, k: nat): bv1
    requires k < 8
  {
    match k
    case 0 => (b >> 7) as bv1
    case 1 => ((b >> 6) & 1) as bv1
    case 2 => ((b >> 5) & 1) as bv1
    case 3 => ((b >> 4) & 1) as bv1
    case 4 => ((b >> 3) & 1) as bv1
    case 5 => ((b >> 2) & 1) as bv1
    case 6 => ((b >> 1) & 1) as bv1
    case _ => (b & 1) as bv1
  }

  /** Bit i of a byte string, the most significant bit of each byte first. */
  function Bit(d: Bytes, i: nat): bv1
    requires i < 8 * |d|
  {
    if i < 8 then BitAt(d[0], i) else Bit(d[1..], i - 8)
  }

  function Five(a: bv1, b: bv1, c: bv1, d: bv1, e: bv1): bv5
  {
    ((a as bv5) << 4) | ((b as bv5) << 3) | ((c as bv5) << 2) | ((d as bv5) << 1) | (e as bv5)
  }

  function FiveFrom(d: Bytes, k: nat): bv5
    requires k + 5 <= 8 * |d|
  {
    Five(Bit(d, k), Bit(d, k + 1), Bit(d, k + 2), Bit(d, k + 3), Bit(d, k + 4))
  }

  /** Bits 5i to 5i+4. */
  function Quintet(d: Bytes, i: nat): bv5
    requires 5 * i + 5 <= 8 * |d|
  {
    FiveFrom(d, 5 * i)
  }

  lemma FirstDigits(a: Byte, b: Byte, c: Byte, d: Byte, e: Byte)
    ensures var digits := Digits32(Group(a, b, c, d, e));
            && digits[0] == Five(BitAt(a, 0), BitAt(a, 1), BitAt(a, 2), BitAt(a, 3), BitAt(a, 4))
            && digits[1] == Five(BitAt(a, 5), BitAt(a, 6), BitAt(a, 7), BitAt(b, 0), BitAt(b, 1))
            && digits[2] == Five(BitAt(b, 2), BitAt(b, 3), BitAt(b, 4), BitAt(b, 5), BitAt(b, 6))
            && digits[3] == Five(BitAt(b, 7), BitAt(c, 0), BitAt(c, 1), BitAt(c, 2), BitAt(c, 3))
  {}

  lemma LastDigits(a: Byte, b: Byte, c: Byte, d: Byte, e: Byte)
    ensures var digits := Digits32(Group(a, b, c, d, e));
            && digits[4] == Five(BitAt(c, 4), BitAt(c, 5), BitAt(c, 6), BitAt(c, 7), BitAt(d, 0))
            && digits[5] == Five(BitAt(d, 1), BitAt(d, 2), BitAt(d, 3), BitAt(d, 4), BitAt(d, 5))
            && digits[6] == Five(BitAt(d, 6), BitAt(d, 7), BitAt(e, 0), BitAt(e, 1), BitAt(e, 2))
            && digits[7] == Five(BitAt(e, 3), BitAt(e, 4), BitAt(e, 5), BitAt(e, 6), BitAt(e, 7))
  {}

  lemma {:induction false} BitIs(d: Bytes, k: nat, t: nat)
    requires k < |d| && t < 8
    ensures Bit(d, 8 * k + t) == BitAt(d[k], t)
  {
    if k > 0 {
      BitIs(d[1..], k - 1, t);
    }
  }

  lemma FirstQuintets(b: Bytes, j: nat)
    requires |b| == 5 && j < 4
    ensures Digits32(Group(b[0], b[1], b[2], b[3], b[4]))[j] == Quintet(b, j)
  {
    FirstDigits(b[0], b[1], b[2], b[3], b[4]);
    match j
    case 0 =>
      BitIs(b, 0, 0);
      BitIs(b, 0, 1);
      BitIs(b, 0, 2);
      BitIs(b, 0, 3);
      BitIs(b, 0, 4);
    case 1 =>
      BitIs(b, 0, 5);
      BitIs(b, 0, 6);
      BitIs(b, 0, 7);
      BitIs(b, 1, 0);
      BitIs(b, 1, 1);
    case 2 =>
      BitIs(b, 1, 2);
      BitIs(b, 1, 3);
      BitIs(b, 1, 4);
      BitIs(b, 1, 5);
      BitIs(b, 1, 6);
    case _ =>
      BitIs(b, 1, 7);
      BitIs(b, 2, 0);
      BitIs(b, 2, 1);
      BitIs(b, 2, 2);
      BitIs(b, 2, 3);
  }

  lemma LastQuintets(b: Bytes, j: nat)
    requires |b| == 5 && 4 <= j < 8
    ensures Digits32(Group(b[0], b[1], b[2], b[3], b[4]))[j] == Quintet(b, j)
  {
    LastDigits(b[0], b[1], b[2], b[3], b[4]);
    match j
    case 4 =>
      BitIs(b, 2, 4);
      BitIs(b, 2, 5);
      BitIs(b, 2, 6);
      BitIs(b, 2, 7);
      BitIs(b, 3, 0);
    case 5 =>
      BitIs(b, 3, 1);
      BitIs(b, 3, 2);
      BitIs(b, 3, 3);
      BitIs(b, 3, 4);
      BitIs(b, 3, 5);
    case 6 =>
      BitIs(b, 3, 6);
      BitIs(b, 3, 7);
      BitIs(b, 4, 0);
      BitIs(b, 4, 1);
      BitIs(b, 4, 2);
    case _ =>
      BitIs(b, 4, 3);
      BitIs(b, 4, 4);
      BitIs(b, 4, 5);
      BitIs(b, 4, 6);
      BitIs(b, 4, 7);
  }

  lemma GroupDigit(b: Bytes, j: nat)
    requires |b| == 5 && j < 8
    ensures EncodeGroup(b)[j] == Symbol(Quintet(b, j))
  {
    if j < 4 {
      FirstQuintets(b, j);
    } else {
      LastQuintets(b, j);
    }
  }

  lemma {:induction false} BitOfPrefix(d: Bytes, e: Bytes, k: nat)
    requires d <= e && k < 8 * |d|
    ensures Bit(d, k) == Bit(e, k)
  {
    if k >= 8 {
      BitOfPrefix(d[1..], e[1..], k - 8);
    }
  }

  lemma {:induction false} BitOfRest(d: Bytes, n: nat, k: nat)
    requires 8 * n + k < 8 * |d|
    ensures Bit(d[n..], k) == Bit(d, 8 * n + k)
  {
    if n == 0 {
      assert d[0..] == d;
    } else {
      BitOfRest(d[1..], n - 1, k);
      assert d[1..][n - 1..] == d[n..];
    }
  }

  lemma EqualFive(d: Bytes, j: nat, e: Bytes, k: nat)
    requires j + 5 <= 8 * |d| && k + 5 <= 8 * |e|
    requires Bit(d, j) == Bit(e, k) && Bit(d, j + 1) == Bit(e, k + 1) && Bit(d, j + 2) == Bit(e, k + 2)
    requires Bit(d, j + 3) == Bit(e, k + 3) && Bit(d, j + 4) == Bit(e, k + 4)
    ensures FiveFrom(d, j) == FiveFrom(e, k)
  {}

  lemma QuintetOfPrefix(d: Bytes, e: Bytes, i: nat)
    requires d <= e && 5 * i + 5 <= 8 * |d|
    ensures Quintet(d, i) == Quintet(e, i)
  {
    var k := 5 * i;
    BitOfPrefix(d, e, k);
    BitOfPrefix(d, e, k + 1);
    BitOfPrefix(d, e, k + 2);
    BitOfPrefix(d, e, k + 3);
    BitOfPrefix(d, e, k + 4);
    EqualFive(d, k, e, k);
  }

  lemma FiveOfRest(d: Bytes, k: nat)
    requires 40 + k + 5 <= 8 * |d|
    ensures FiveFrom(d[5..], k) == FiveFrom(d, 40 + k)
  {
    BitOfRest(d, 5, k);
    BitOfRest(d, 5, k + 1);
    BitOfRest(d, 5, k + 2);
    BitOfRest(d, 5, k + 3);
    BitOfRest(d, 5, k + 4);
    EqualFive(d[5..], k, d, 40 + k);
  }

  lemma QuintetOfRest(d: Bytes, i: nat)
    requires 40 + 5 * i + 5 <= 8 * |d|
    ensures Quintet(d[5..], i) == Quintet(d, i + 8)
  {
    FiveOfRest(d, 5 * i);
    assert 5 * (i + 8) == 40 + 5 * i;
  }

  /** The group-wise encoding of RFC 4648 reads the bit string five bits at a time: symbol i stands
      for bits 5i to 5i+4. */
  lemma {:induction false} EncodeAt(d: Bytes, i: nat)
    requires 5 * i + 5 <= 8 * |d|
    ensures Encode(d)[i] == Symbol(Quintet(d, i))
    decreases i
  {
    if |d| < 5 {
      var filled := d + Zeros(5 - |d|);
      GroupDigit(filled, i);
      QuintetOfPrefix(d, filled, i);
    } else if i < 8 {
      GroupDigit(d[..5], i);
      QuintetOfPrefix(d[..5], d, i);
    } else {
      EncodeAt(d[5..], i - 8);
      QuintetOfRest(d, i - 8);
    }
  }

  // --------------------------------------------------------------------- tokens

  /** deriveIdentityToken after hashing. */
  function Token(d: Digest): (token: string)
    ensures |token| == 20
  {
    Lower(Encode(d)[..20])
  }

  lemma SymbolLower(v: bv5)
    ensures var c := LowerChar(Symbol(v)); 'a' <= c <= 'z' || '2' <= c <= '7'
  {}

  lemma SymbolInjective(v: bv5, w: bv5)
    requires LowerChar(Symbol(v)) == LowerChar(Symbol(w))
    ensures v == w
  {}

  lemma FiveInjective(a: bv1, b: bv1, c: bv1, d: bv1, e: bv1, a': bv1, b': bv1, c': bv1, d': bv1, e': bv1)
    requires Five(a, b, c, d, e) == Five(a', b', c', d', e')
    ensures a == a' && b == b' && c == c' && d == d' && e == e'
  {}

  /** Character i of the token is the lower-case base32 symbol of digest bits 5i to 5i+4. */
  lemma TokenAt(d: Digest, i: nat)
    requires i < 20
    ensures Token(d)[i] == LowerChar(Symbol(Quintet(d, i)))
    ensures 'a' <= Token(d)[i] <= 'z' || '2' <= Token(d)[i] <= '7'
  {
    EncodeAt(d, i);
    SymbolLower(Quintet(d, i));
    assert Encode(d)[..20][i] == Encode(d)[i];
  }

  /** The alphabet of section 6 of RFC 4648 in lower case. */
  const LOWER_ALPHABET := "abcdefghijklmnopqrstuvwxyz234567"

  lemma SymbolIs(v: bv5)
    ensures LowerChar(Symbol(v)) == LOWER_ALPHABET[v as int]
  {
    if v < 26 {
      assert 'a' as int + v as int == LOWER_ALPHABET[v as int] as int;
    } else {
      assert '2' as int + (v as int - 26) == LOWER_ALPHABET[v as int] as int;
    }
  }

  /** The bit of a byte, the most significant one first. */
  ghost predicate IsSet(d: Bytes, k: nat)
    requires k < 8 * |d|
  {
    d[k / 8] & BIT_MASKS[k % 8] != 0
  }

  const BIT_MASKS: seq<bv8> := [0x80, 0x40, 0x20, 0x10, 0x08, 0x04, 0x02, 0x01]

  lemma MaskReads(b: Byte, t: nat)
    requires t < 8
    ensures BitAt(b, t) == 1 <==> b & BIT_MASKS[t] != 0
  {
    match t
    case 0 => assert BIT_MASKS[t] == 0x80;
    case 1 => assert BIT_MASKS[t] == 0x40;
    case 2 => assert BIT_MASKS[t] == 0x20;
    case 3 => assert BIT_MASKS[t] == 0x10;
    case 4 => assert BIT_MASKS[t] == 0x08;
    case 5 => assert BIT_MASKS[t] == 0x04;
    case 6 => assert BIT_MASKS[t] == 0x02;
    case _ => assert BIT_MASKS[t] == 0x01;
  }

  lemma BitExactly(d: Bytes, k: nat)
    requires k < 8 * |d|
    ensures Bit(d, k) == 1 <==> IsSet(d, k)
  {
    BitIs(d, k / 8, k % 8);
    MaskReads(d[k / 8], k % 8);
  }

  /** Each character of a token is the letter or digit of the alphabet whose number has the five digest
      bits, the first one most significant. */
  lemma TokenReads(d: Digest, i: nat) returns (v: bv5)
    requires i < 20
    ensures Token(d)[i] == LOWER_ALPHABET[v as int]
    ensures (v & 16 != 0 <==> IsSet(d, 5 * i)) && (v & 8 != 0 <==> IsSet(d, 5 * i + 1))
    ensures (v & 4 != 0 <==> IsSet(d, 5 * i + 2)) && (v & 2 != 0 <==> IsSet(d, 5 * i + 3))
    ensures v & 1 != 0 <==> IsSet(d, 5 * i + 4)
  {
    v := Quintet(d, i);
    TokenAt(d, i);
    SymbolIs(v);
    BitExactly(d, 5 * i);
    BitExactly(d, 5 * i + 1);
    BitExactly(d, 5 * i + 2);
    BitExactly(d, 5 * i + 3);
    BitExactly(d, 5 * i + 4);
    FiveReads(Bit(d, 5 * i), Bit(d, 5 * i + 1), Bit(d, 5 * i + 2), Bit(d, 5 * i + 3), Bit(d, 5 * i + 4));
  }

  lemma FiveReads(a: bv1, b: bv1, c: bv1, d: bv1, e: bv1)
    ensures var v := Five(a, b, c, d, e);
            && (v & 16 != 0 <==> a == 1) && (v & 8 != 0 <==> b == 1) && (v & 4 != 0 <==> c == 1)
            && (v & 2 != 0 <==> d == 1) && (v & 1 != 0 <==> e == 1)
  {}

  ghost predicate AgreeOn(d: Digest, e: Digest, bits: nat)
    requires bits <= 256
  {
    forall i | 0 <= i < bits :: Bit(d, i) == Bit(e, i)
  }

  /** Two tokens are equal exactly when the first 100 bits of the digests are. */
  lemma TokensEqualExactly(d: Digest, e: Digest)
    ensures Token(d) == Token(e) <==> AgreeOn(d, e, 100)
  {
    if Token(d) == Token(e) {
      forall k | 0 <= k < 100 ensures Bit(d, k) == Bit(e, k) {
        EqualChar(d, e, k / 5);
        EqualQuintet(d, e, k / 5, k);
      }
    }
    if AgreeOn(d, e, 100) {
      forall i | 0 <= i < 20 ensures Token(d)[i] == Token(e)[i] {
        EqualBits(d, e, i);
      }
    }
  }

  lemma EqualBits(d: Digest, e: Digest, i: nat)
    requires i < 20 && AgreeOn(d, e, 100)
    ensures Token(d)[i] == Token(e)[i]
  {
    TokenAt(d, i);
    TokenAt(e, i);
    var k := 5 * i;
    assert Bit(d, k) == Bit(e, k) && Bit(d, k + 1) == Bit(e, k + 1) && Bit(d, k + 2) == Bit(e, k + 2);
    assert Bit(d, k + 3) == Bit(e, k + 3) && Bit(d, k + 4) == Bit(e, k + 4);
  }

  lemma EqualChar(d: Digest, e: Digest, i: nat)
    requires i < 20 && Token(d)[i] == Token(e)[i]
    ensures Quintet(d, i) == Quintet(e, i)
  {
    TokenAt(d, i);
    TokenAt(e, i);
    SymbolInjective(Quintet(d, i), Quintet(e, i));
  }

  lemma EqualQuintet(d: Digest, e: Digest, i: nat, k: nat)
    requires i < 20 && Quintet(d, i) == Quintet(e, i) && 5 * i <= k < 5 * i + 5
    ensures Bit(d, k) == Bit(e, k)
  {
    var b := 5 * i;
    FiveInjective(Bit(d, b), Bit(d, b + 1), Bit(d, b + 2), Bit(d, b + 3), Bit(d, b + 4),
                  Bit(e, b), Bit(e, b + 1), Bit(e, b + 2), Bit(e, b + 3), Bit(e, b + 4));
    assert k == b || k == b + 1 || k == b + 2 || k == b + 3 || k == b + 4;
  }

  /** The text that is hashed. */
  function HashInput(namespace: string, machineID: string): string
  {
    namespace + "\0" + machineID
  }

  /** Machine IDs all have 32 characters, so the hashed text determines both of its parts. */
  lemma HashInputInjective(ns: string, id: string, ns': string, id': string)
    requires MachineID(id) && MachineID(id') && HashInput(ns, id) == HashInput(ns', id')
    ensures ns == ns' && id == id'
  {
    var text := HashInput(ns, id);
    assert id == text[|text| - 32..] && id' == text[|text| - 32..];
    assert ns == text[..|text| - 33] && ns' == text[..|text| - 33];
  }

  // ----------------------------------------------------------------- resolution

  type Hash = string -> Digest

  const CLIENT_NAMESPACE := "zimaos-monitor/mqtt-client/v1"
  const DEVICE_NAMESPACE := "zimaos-monitor/device/v1"

  function DeriveClientID(machineID: string, sha256: Hash): string
  {
    "zm-" + Token(sha256(HashInput(CLIENT_NAMESPACE, machineID)))
  }

  function DeriveDeviceID(machineID: string, sha256: Hash): string
  {
    "zimaos_" + Token(sha256(HashInput(DEVICE_NAMESPACE, machineID)))
  }

  predicate SafeDiscoveryDeviceID(deviceID: string)
  {
    deviceID != "" && !exists c | c in deviceID :: c in "/+#\0"
  }

  /** Every automatic device ID is one ordinary topic level. */
  lemma AutomaticDeviceIDIsSafe(machineID: string, sha256: Hash)
    ensures SafeDiscoveryDeviceID(DeriveDeviceID(machineID, sha256))
    ensures DiscoveryTopicFilter(DeriveDeviceID(machineID, sha256)).Some?
    ensures '/' !in DeriveDeviceID(machineID, sha256)
  {
    var d := sha256(HashInput(DEVICE_NAMESPACE, machineID));
    forall i | 0 <= i < 20 ensures Token(d)[i] !in "/+#\0" {
      TokenAt(d, i);
    }
    var id := DeriveDeviceID(machineID, sha256);
    forall c | c in id ensures c !in "/+#\0" {
      var i :| 0 <= i < |id| && id[i] == c;
      if i >= 7 {
        assert id[i] == Token(d)[i - 7];
      }
    }
  }

  /** Two machines share an automatic device ID exactly when their digests share 100 bits. */
  lemma AutomaticDeviceIDsCollideExactly(id: string, id': string, sha256: Hash)
    ensures DeriveDeviceID(id, sha256) == DeriveDeviceID(id', sha256)
       <==> AgreeOn(sha256(HashInput(DEVICE_NAMESPACE, id)), sha256(HashInput(DEVICE_NAMESPACE, id')), 100)
  {
    var d, e := sha256(HashInput(DEVICE_NAMESPACE, id)), sha256(HashInput(DEVICE_NAMESPACE, id'));
    TokensEqualExactly(d, e);
    assert DeriveDeviceID(id, sha256)[7..] == Token(d) && DeriveDeviceID(id', sha256)[7..] == Token(e);
  }

  datatype Provenance = Explicit | Automatic

  datatype Warning =
    | ClientOmitted(id: string)
    | DeviceOmitted(id: string)
    | SharedLegacyClient
    | UnsafeDevice(id: string)

  datatype Identity = Identity(clientID: string, deviceID: string, client: Provenance, device: Provenance,
                               warnings: seq<Warning>)

  predicate SharedLegacyID(clientID: string) { clientID == "zimaos-monitor" }

  function AddIf(ws: seq<Warning>, holds: bool, w: Warning): seq<Warning>
  {
    if holds then ws + [w] else ws
  }

  /** The identity built from the given IDs, empty where omitted, and the machine ID for those. */
  function Filled(clientID: string, deviceID: string, machineID: string, sha256: Hash): Identity
  {
    var c := if clientID == "" then DeriveClientID(machineID, sha256) else clientID;
    var d := if deviceID == "" then DeriveDeviceID(machineID, sha256) else deviceID;
    Identity(c, d, ProvenanceOf(clientID), ProvenanceOf(deviceID),
             AddIf(AddIf([], clientID == "", ClientOmitted(c)), deviceID == "", DeviceOmitted(d)))
  }

  function ProvenanceOf(given: string): Provenance
  {
    if given == "" then Automatic else Explicit
  }

  /** The warnings about given IDs. */
  function Checked(i: Identity): Identity
  {
    var ws := AddIf(i.warnings, i.client == Explicit && SharedLegacyID(i.clientID), SharedLegacyClient);
    i.(warnings := AddIf(ws, i.device == Explicit && !SafeDiscoveryDeviceID(i.deviceID), UnsafeDevice(i.deviceID)))
  }

  /** The resolved identity; the machine ID is asked for only when an ID is omitted. */
  function Resolved(clientID: string, deviceID: string, source: Option<Source>, sha256: Hash)
    : Result<Identity, IdentityError>
  {
    if clientID != "" && deviceID != "" then Ok(Checked(Identity(clientID, deviceID, Explicit, Explicit, [])))
    else
      match CanonicalID(source)
      case Err(e) => Err(e)
      case Ok(id) => Ok(Checked(Filled(clientID, deviceID, id, sha256)))
  }

  /** The part of a loaded configuration that identity resolution fills in. */
  class Config {
    var clientID: string
    var deviceID: string
    var clientProvenance: Provenance
    var deviceProvenance: Provenance
    var warnings: seq<Warning>

    constructor (clientID: string, deviceID: string)
      ensures this.clientID == clientID && this.deviceID == deviceID && warnings == []
    {
      this.clientID, this.deviceID := clientID, deviceID;
      clientProvenance, deviceProvenance, warnings := Explicit, Explicit, [];
    }

    ghost function Value(): Identity
      reads this
    {
      Identity(clientID, deviceID, clientProvenance, deviceProvenance, warnings)
    }

    method ResolveIdentity(source: Option<Source>, sha256: Hash) returns (error: Option<IdentityError>)
      requires warnings == []
      modifies this
      ensures match Resolved(old(clientID), old(deviceID), source, sha256)
              case Ok(identity) => error == None && Value() == identity
              case Err(e) => error == Some(e)
    {
      clientProvenance := if clientID == "" then Automatic else Explicit;
      deviceProvenance := if deviceID == "" then Automatic else Explicit;
      if clientProvenance == Automatic || deviceProvenance == Automatic {
        var machineID := CanonicalMachineID(source);
        if machineID.Err? {
          return Some(machineID.error);
        }
        FillOmitted(machineID.value, sha256);
      }
      WarnOfExplicit();
      return None;
    }

    method FillOmitted(machineID: string, sha256: Hash)
      requires warnings == []
      requires clientProvenance == ProvenanceOf(clientID) && deviceProvenance == ProvenanceOf(deviceID)
      modifies `clientID, `deviceID, `warnings
      ensures Value() == Filled(old(clientID), old(deviceID), machineID, sha256)
    {
      if clientProvenance == Automatic {
        clientID := DeriveClientID(machineID, sha256);
        warnings := warnings + [ClientOmitted(clientID)];
      }
      if deviceProvenance == Automatic {
        deviceID := DeriveDeviceID(machineID, sha256);
        warnings := warnings + [DeviceOmitted(deviceID)];
      }
    }

    method WarnOfExplicit()
      modifies `warnings
      ensures Value() == Checked(old(Value()))
    {
      if clientProvenance == Explicit && SharedLegacyID(clientID) {
        warnings := warnings + [SharedLegacyClient];
      }
      if deviceProvenance == Explicit && !SafeDiscoveryDeviceID(deviceID) {
        warnings := warnings + [UnsafeDevice(deviceID)];
      }
    }
  }

  /** WARNING EXACTLY. A loaded configuration carries the unsafe-ID warning exactly when discovery
      cleanup will be skipped for its device ID, and it names that ID. */
  lemma UnsafeWarningExactly(clientID: string, deviceID: string, source: Option<Source>, sha256: Hash)
    requires Resolved(clientID, deviceID, source, sha256).Ok?
    ensures var i := Resolved(clientID, deviceID, source, sha256).value;
            && (UnsafeDevice(i.deviceID) in i.warnings <==> DiscoveryTopicFilter(i.deviceID).None?)
            && (forall w | w in i.warnings && w.UnsafeDevice? :: w.id == i.deviceID)
  {
    var r := CanonicalID(source);
    if deviceID == "" {
      AutomaticDeviceIDIsSafe(r.value, sha256);
    }
  }

  /** A given part of an identity is kept, an omitted one is derived from the machine ID. */
  lemma ResolvedExactly(clientID: string, deviceID: string, source: Option<Source>, sha256: Hash)
    requires Resolved(clientID, deviceID, source, sha256).Ok?
    ensures var i := Resolved(clientID, deviceID, source, sha256).value;
            && (clientID != "" ==> i.clientID == clientID && i.client == Explicit)
            && (deviceID != "" ==> i.deviceID == deviceID && i.device == Explicit)
            && (clientID == "" ==>
                  i.client == Automatic && HasPart(source, "zimaos-monitor/mqtt-client/v1", "zm-", i.clientID, sha256))
            && (deviceID == "" ==>
                  i.device == Automatic && HasPart(source, "zimaos-monitor/device/v1", "zimaos_", i.deviceID, sha256))
  {}

  /** The ID is the prefix and the token of the namespace, a NUL and the host's machine ID. */
  ghost predicate HasPart(source: Option<Source>, namespace: string, prefix: string, id: string, sha256: Hash)
  {
    exists machineID | CanonicalID(source) == Ok(machineID) ::
      id == prefix + Token(sha256(namespace + "\0" + machineID))
  }

  /** Each warning is given exactly for its cause. */
  lemma WarnedExactly(clientID: string, deviceID: string, source: Option<Source>, sha256: Hash, w: Warning)
    requires Resolved(clientID, deviceID, source, sha256).Ok?
    ensures var i := Resolved(clientID, deviceID, source, sha256).value;
            w in i.warnings <==> IsDue(w, clientID, deviceID, i)
  {
    UnsafeExactly(deviceID);
  }

  ghost predicate IsDue(w: Warning, clientID: string, deviceID: string, i: Identity)
  {
    match w
    case ClientOmitted(id) => clientID == "" && id == i.clientID
    case DeviceOmitted(id) => deviceID == "" && id == i.deviceID
    case SharedLegacyClient => clientID == "zimaos-monitor"
    case UnsafeDevice(id) =>
      id == deviceID && ('/' in deviceID || '+' in deviceID || '#' in deviceID || '\0' in deviceID)
  }

  lemma UnsafeExactly(deviceID: string)
    ensures deviceID != "" && !SafeDiscoveryDeviceID(deviceID)
       <==> '/' in deviceID || '+' in deviceID || '#' in deviceID || '\0' in deviceID
  {
    forall c ensures c in "/+#\0" <==> c == '/' || c == '+' || c == '#' || c == '\0' {}
  }

  /** The text of the file that decides the host's identity: the first one that can be read. */
  ghost predicate Decides(source: Source, text: string)
  {
    || source.readFile(EtcMachineID) == Some(text)
    || (source.readFile(EtcMachineID).None? && source.readFile(DbusMachineID) == Some(text))
  }

  /** The host's identity is what the first readable file spells. */
  lemma CanonicalIDExactly(source: Source, id: string)
    ensures CanonicalID(Some(source)) == Ok(id)
       <==> MachineID(id) && exists text :: Spells(text, id) && Decides(source, text)
  {
    var etc, dbus := source.readFile(EtcMachineID), source.readFile(DbusMachineID);
    if etc.Some? {
      ValidatedExactly(etc.value, id);
    } else if dbus.Some? {
      ValidatedExactly(dbus.value, id);
    }
  }

  /** Loading fails for want of an identity exactly when an ID is omitted and no file that decides
      spells a machine ID. */
  lemma FailsExactly(clientID: string, deviceID: string, source: Option<Source>, sha256: Hash)
    ensures Resolved(clientID, deviceID, source, sha256).Err?
       <==> && (clientID == "" || deviceID == "")
            && !(source.Some? && exists id, text :: MachineID(id) && Spells(text, id) && Decides(source.value, text))
  {
    if source.Some? {
      forall id {
        CanonicalIDExactly(source.value, id);
      }
      if CanonicalID(source).Ok? {
        CanonicalIDExactly(source.value, CanonicalID(source).value);
      }
    }
  }

  /** Installations with automatic IDs get distinct, safe nodes unless two digests share 100 bits. */
  lemma AutomaticInstallationsAreApart(ids: seq<string>, sha256: Hash)
    requires forall i, j | 0 <= i < j < |ids| ::
               !AgreeOn(sha256(HashInput(DEVICE_NAMESPACE, ids[i])), sha256(HashInput(DEVICE_NAMESPACE, ids[j])), 100)
    ensures forall i | 0 <= i < |ids| :: SafeLevel(DeriveDeviceID(ids[i], sha256))
    ensures forall i, j | 0 <= i < j < |ids| :: DeriveDeviceID(ids[i], sha256) != DeriveDeviceID(ids[j], sha256)
  {
    forall i | 0 <= i < |ids| ensures SafeLevel(DeriveDeviceID(ids[i], sha256)) {
      AutomaticDeviceIDIsSafe(ids[i], sha256);
    }
    forall i, j | 0 <= i < j < |ids| ensures DeriveDeviceID(ids[i], sha256) != DeriveDeviceID(ids[j], sha256) {
      AutomaticDeviceIDsCollideExactly(ids[i], ids[j], sha256);
    }
  }
}
