/** String vocabulary shared by the components: splitting on a separator, decimal numerals,
    trimming, and the ASCII part of case folding.
    A Go string is modelled as the sequence of its Unicode scalar values. */
module Text {

  datatype Option<+T> = None | Some(value: T)
  {
    function GetOr(default: T): T
    {
      if Some? then value else default
    }
  }

  datatype Result<+T, +E> = Ok(value: T) | Err(error: E)

  // ---------------------------------------------------------------- splitting

  /** strings.Split for a one-character separator. */
  function Split(s: string, sep: char): (levels: seq<string>)
    ensures |levels| >= 1
  {
    if s == "" then [""]
    else
      var rest := Split(s[1..], sep);
      if s[0] == sep then [""] + rest
      else [[s[0]] + rest[0]] + rest[1..]
  }

  function Join(levels: seq<string>, sep: char): string
  {
    if |levels| == 0 then ""
    else if |levels| == 1 then levels[0]
    else levels[0] + [sep] + Join(levels[1..], sep)
  }

  /** The levels of a split contain no separator, and joining them restores the string. */
  lemma {:induction false} JoinSplit(s: string, sep: char)
    ensures Join(Split(s, sep), sep) == s
    ensures forall level | level in Split(s, sep) :: sep !in level
  {
    if s != "" {
      JoinSplit(s[1..], sep);
      var rest := Split(s[1..], sep);
      if s[0] == sep {
        assert Split(s, sep)[1..] == rest;
      } else {
        assert Split(s, sep)[1..] == rest[1..];
      }
    }
  }

  /** Splitting after a separator-free prefix peels off exactly that prefix. */
  lemma {:induction false} SplitPeel(level: string, rest: string, sep: char)
    requires sep !in level
    ensures Split(level + [sep] + rest, sep) == [level] + Split(rest, sep)
  {
    var s := level + [sep] + rest;
    if level == "" {
      assert s[1..] == rest;
    } else {
      SplitPeel(level[1..], rest, sep);
      assert s[1..] == level[1..] + [sep] + rest;
      assert [level[0]] + level[1..] == level;
    }
  }

  /** The part after the last separator is the last level. */
  lemma {:induction false} LastLevel(front: string, last: string, sep: char)
    requires sep !in last
    ensures Split(front + [sep] + last, sep)[|Split(front + [sep] + last, sep)| - 1] == last
  {
    var s := front + [sep] + last;
    if front == "" {
      assert s[1..] == last;
      SplitWhole(last, sep);
    } else {
      LastLevel(front[1..], last, sep);
      assert s[1..] == front[1..] + [sep] + last;
      LongSplit(front[1..] + [sep] + last, sep, |front| - 1);
    }
  }

  /** A string with a separator in it has at least two levels. */
  lemma {:induction false} LongSplit(s: string, sep: char, i: nat)
    requires i < |s| && s[i] == sep
    ensures |Split(s, sep)| >= 2
  {
    if i > 0 {
      LongSplit(s[1..], sep, i - 1);
    }
  }

  lemma {:induction false} SplitWhole(level: string, sep: char)
    requires sep !in level
    ensures Split(level, sep) == [level]
  {
    if level != "" {
      SplitWhole(level[1..], sep);
      assert [level[0]] + level[1..] == level;
    }
  }

  /** Separator-free levels are recovered from their join: Split is the only inverse of Join. */
  lemma {:induction false} SplitJoin(levels: seq<string>, sep: char)
    requires |levels| >= 1
    requires forall level | level in levels :: sep !in level
    ensures Split(Join(levels, sep), sep) == levels
  {
    if |levels| == 1 {
      SplitWhole(levels[0], sep);
      assert levels == [levels[0]];
    } else {
      SplitJoin(levels[1..], sep);
      SplitPeel(levels[0], Join(levels[1..], sep), sep);
      assert levels == [levels[0]] + levels[1..];
    }
  }

  // ----------------------------------------------------------------- decimals

  predicate IsDigit(c: char) { '0' <= c <= '9' }

  predicate AllDigits(s: string) { forall i | 0 <= i < |s| :: IsDigit(s[i]) }

  /** A hexadecimal digit in lower case. */
  predicate IsLowerHex(c: char) { IsDigit(c) || 'a' <= c <= 'f' }

  predicate IsHexAnyCase(c: char) { IsLowerHex(c) || 'A' <= c <= 'F' }

  function DigitValue(c: char): nat
    requires IsDigit(c)
  {
    c as int - '0' as int
  }

  function Digit(d: nat): char
    requires d < 10
  {
    ('0' as int + d) as char
  }

  /** The number a digit string denotes; the empty string denotes zero. */
  function DecimalValue(s: string): nat
    requires AllDigits(s)
  {
    if s == "" then 0 else 10 * DecimalValue(s[..|s| - 1]) + DigitValue(s[|s| - 1])
  }

  /** strconv.FormatUint(n, 10), also the %d verb for a non-negative number. */
  function Decimal(n: nat): string
  {
    if n < 10 then [Digit(n)] else Decimal(n / 10) + [Digit(n % 10)]
  }

  lemma {:induction false} DecimalRoundTrip(n: nat)
    ensures Decimal(n) != ""
    ensures AllDigits(Decimal(n))
    ensures DecimalValue(Decimal(n)) == n
  {
    if n >= 10 {
      DecimalRoundTrip(n / 10);
      assert Decimal(n)[..|Decimal(n)| - 1] == Decimal(n / 10);
    }
  }

  lemma DecimalInjective(m: nat, n: nat)
    requires Decimal(m) == Decimal(n)
    ensures m == n
  {
    DecimalRoundTrip(m);
    DecimalRoundTrip(n);
  }

  /** Reading more digits never gives a smaller number. */
  lemma {:induction false} DecimalValueMonotone(s: string, k: nat)
    requires AllDigits(s) && k <= |s|
    ensures DecimalValue(s[..k]) <= DecimalValue(s)
  {
    if k == |s| {
      assert s[..k] == s;
    } else {
      DecimalValueMonotone(s[..|s| - 1], k);
      assert s[..|s| - 1][..k] == s[..k];
    }
  }

  // ----------------------------------------------------------------- trimming

  /** unicode.IsSpace: the White_Space characters. */
  predicate IsSpace(c: char)
  {
    || c in "\t\n\r " || c == '\U{0B}' || c == '\U{0C}' || c == '\U{85}' || c == '\U{A0}'
    || c == '\U{1680}' || '\U{2000}' <= c <= '\U{200A}' || c == '\U{2028}' || c == '\U{2029}'
    || c == '\U{202F}' || c == '\U{205F}' || c == '\U{3000}'
  }

  lemma HexIsNotSpace(c: char)
    requires IsHexAnyCase(c)
    ensures !IsSpace(c)
  {}

  /** unicode.IsControl: category Cc. */
  predicate IsControl(c: char)
  {
    c <= '\U{1F}' || '\U{7F}' <= c <= '\U{9F}'
  }

  function TrimLeft(s: string): string
  {
    if s != "" && IsSpace(s[0]) then TrimLeft(s[1..]) else s
  }

  function TrimRight(s: string): string
  {
    if s != "" && IsSpace(s[|s| - 1]) then TrimRight(s[..|s| - 1]) else s
  }

  /** strings.TrimSpace */
  function TrimSpace(s: string): string
  {
    TrimRight(TrimLeft(s))
  }

  predicate Trimmed(s: string)
  {
    s != "" ==> !IsSpace(s[0]) && !IsSpace(s[|s| - 1])
  }

  lemma {:induction false} TrimRightPrefix(s: string)
    ensures TrimRight(s) <= s
    ensures TrimRight(s) != "" ==> !IsSpace(TrimRight(s)[|TrimRight(s)| - 1])
  {
    if s != "" && IsSpace(s[|s| - 1]) {
      TrimRightPrefix(s[..|s| - 1]);
    }
  }

  lemma {:induction false} TrimLeftClean(s: string)
    ensures TrimLeft(s) != "" ==> !IsSpace(TrimLeft(s)[0])
  {
    if s != "" && IsSpace(s[0]) {
      TrimLeftClean(s[1..]);
    }
  }

  lemma TrimSpaceTrimmed(s: string)
    ensures Trimmed(TrimSpace(s))
    ensures Trimmed(s) ==> TrimSpace(s) == s
  {
    TrimLeftClean(s);
    TrimRightPrefix(TrimLeft(s));
  }

  predicate AllSpaces(s: string) { forall i | 0 <= i < |s| :: IsSpace(s[i]) }

  lemma {:induction false} TrimLeftDrops(pad: string, s: string)
    requires AllSpaces(pad) && (s != "" ==> !IsSpace(s[0]))
    ensures TrimLeft(pad + s) == s
  {
    if pad == "" {
      assert pad + s == s;
    } else {
      assert (pad + s)[1..] == pad[1..] + s;
      TrimLeftDrops(pad[1..], s);
    }
  }

  lemma {:induction false} TrimRightDrops(s: string, pad: string)
    requires AllSpaces(pad) && (s != "" ==> !IsSpace(s[|s| - 1]))
    ensures TrimRight(s + pad) == s
  {
    if pad == "" {
      assert s + pad == s;
    } else {
      assert (s + pad)[..|s + pad| - 1] == s + pad[..|pad| - 1];
      TrimRightDrops(s, pad[..|pad| - 1]);
    }
  }

  lemma {:induction false} TrimLeftSplits(s: string) returns (pad: string)
    ensures AllSpaces(pad) && s == pad + TrimLeft(s)
  {
    if s != "" && IsSpace(s[0]) {
      var rest := TrimLeftSplits(s[1..]);
      pad := [s[0]] + rest;
    } else {
      pad := "";
    }
  }

  lemma {:induction false} TrimRightSplits(s: string) returns (pad: string)
    ensures AllSpaces(pad) && s == TrimRight(s) + pad
  {
    if s != "" && IsSpace(s[|s| - 1]) {
      var rest := TrimRightSplits(s[..|s| - 1]);
      pad := rest + [s[|s| - 1]];
    } else {
      pad := "";
    }
  }

  // -------------------------------------------------------------------- cases

  /** unicode.ToLower on the ASCII letters and on the two other characters that it maps to ASCII;
      every other character is kept. */
  function LowerChar(c: char): char
  {
    if 'A' <= c <= 'Z' then (c as int + 32) as char
    else if c == '\U{130}' then 'i'
    else if c == '\U{212A}' then 'k'
    else c
  }

  function Lower(s: string): (t: string)
    ensures |t| == |s|
    ensures forall i | 0 <= i < |s| :: t[i] == LowerChar(s[i])
  {
    if s == "" then "" else [LowerChar(s[0])] + Lower(s[1..])
  }

  // -------------------------------------------------------------------- bytes

  type Byte = bv8

  /** The contents of a file or a message. */
  type Bytes = seq<Byte>

  function Zeros(n: nat): (z: Bytes)
    ensures |z| == n
  {
    seq(n, _ => 0)
  }

  /** A SHA-256 digest. */
  type Digest = d: Bytes | |d| == 32 witness Zeros(32)
}
