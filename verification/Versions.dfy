/** Release versions: the stable and development grammars, bounded parsing, and the order that
    decides whether a release may be installed. */
module Versions {
  import opened Text

  const UINT64_LIMIT: nat := 0x1_0000_0000_0000_0000

  /** Major, minor and patch. */
  datatype Triple = Triple(parts: seq<nat>)

  ghost predicate IsTriple(t: Triple)
  {
    |t.parts| == 3 && forall i | 0 <= i < 3 :: t.parts[i] < UINT64_LIMIT
  }

  predicate Digits(s: string) { s != "" && AllDigits(s) }

  // ------------------------------------------------------------------ grammars

  function Stable(prefix: string, a: string, b: string, c: string): string
  {
    prefix + a + "." + b + "." + c
  }

  /** ^v?(\d+)\.(\d+)\.(\d+)$ with its three groups. */
  ghost predicate MatchesStable(s: string, a: string, b: string, c: string)
  {
    Digits(a) && Digits(b) && Digits(c) && (s == Stable("", a, b, c) || s == Stable("v", a, b, c))
  }

  function StripV(s: string): string
  {
    if s != "" && s[0] == 'v' then s[1..] else s
  }

  /** The three groups of the stable pattern, if it matches. */
  function FindStable(s: string): Option<seq<string>>
  {
    var levels := Split(StripV(s), '.');
    if |levels| == 3 && Digits(levels[0]) && Digits(levels[1]) && Digits(levels[2]) then Some(levels) else None
  }

  lemma JoinThree(a: string, b: string, c: string, sep: char)
    ensures Join([a, b, c], sep) == a + [sep] + b + [sep] + c
  {
    assert [a, b, c][1..] == [b, c] && [b, c][1..] == [c];
    assert Join([b, c], sep) == b + [sep] + c;
  }

  /** Three separator-free parts, and nothing else, split into themselves. */
  lemma SplitThreeExactly(s: string, a: string, b: string, c: string, sep: char)
    requires sep !in a && sep !in b && sep !in c
    ensures Split(s, sep) == [a, b, c] <==> s == a + [sep] + b + [sep] + c
  {
    JoinThree(a, b, c, sep);
    SplitJoin([a, b, c], sep);
    JoinSplit(s, sep);
  }

  lemma StripVExactly(s: string, core: string)
    requires core != "" && core[0] != 'v'
    ensures StripV(s) == core <==> s == core || s == "v" + core
  {
    assert ("v" + core)[1..] == core;
    if StripV(s) == core && s != core {
      assert s == [s[0]] + s[1..];
    }
  }

  /** The split-based matcher finds exactly the groups of the pattern. */
  lemma FindStableExactly(s: string, a: string, b: string, c: string)
    ensures FindStable(s) == Some([a, b, c]) <==> MatchesStable(s, a, b, c)
  {
    if Digits(a) && Digits(b) && Digits(c) {
      var core := a + "." + b + "." + c;
      SplitThreeExactly(StripV(s), a, b, c, '.');
      StripVExactly(s, core);
      assert Stable("", a, b, c) == core;
      assert Stable("v", a, b, c) == "v" + core;
    }
  }

  function Development(base: string, commits: string, hash: string, dirty: bool): string
  {
    base + "-" + commits + "-g" + hash + if dirty then "-dirty" else ""
  }

  /** ^v?\d+\.\d+\.\d+-\d+-g[0-9a-f]+(?:-dirty)?$ */
  ghost predicate MatchesDevelopment(s: string)
  {
    exists base, commits, hash, dirty ::
      && FindStable(base).Some? && Digits(commits) && hash != "" && (forall c | c in hash :: IsLowerHex(c))
      && s == Development(base, commits, hash, dirty)
  }

  predicate IsDevelopment(s: string)
  {
    var parts := Split(s, '-');
    && (|parts| == 3 || (|parts| == 4 && parts[3] == "dirty"))
    && FindStable(parts[0]).Some?
    && Digits(parts[1])
    && |parts[2]| > 1 && parts[2][0] == 'g' && (forall c | c in parts[2][1..] :: IsLowerHex(c))
  }

  lemma StableLacksDash(base: string)
    requires FindStable(base).Some?
    ensures '-' !in base
  {
    var g := FindStable(base).value;
    assert g == [g[0], g[1], g[2]];
    FindStableExactly(base, g[0], g[1], g[2]);
  }

  lemma HashSplit(hash: string, dirty: bool)
    requires '-' !in hash
    ensures Split("g" + hash + (if dirty then "-dirty" else ""), '-')
         == ["g" + hash] + if dirty then ["dirty"] else []
  {
    if dirty {
      assert "g" + hash + "-dirty" == ("g" + hash) + ['-'] + "dirty";
      SplitPeel("g" + hash, "dirty", '-');
      SplitWhole("dirty", '-');
    } else {
      assert "g" + hash + "" == "g" + hash;
      SplitWhole("g" + hash, '-');
    }
  }

  lemma DevelopmentSplit(base: string, commits: string, hash: string, dirty: bool)
    requires '-' !in base && '-' !in commits && '-' !in hash
    ensures Split(Development(base, commits, hash, dirty), '-')
         == [base, commits, "g" + hash] + if dirty then ["dirty"] else []
  {
    var rest := "g" + hash + if dirty then "-dirty" else "";
    HashSplit(hash, dirty);
    assert Development(base, commits, hash, dirty) == base + ['-'] + (commits + ['-'] + rest);
    SplitPeel(base, commits + ['-'] + rest, '-');
    SplitPeel(commits, rest, '-');
  }

  lemma IsDevelopmentExactly(s: string)
    ensures IsDevelopment(s) <==> MatchesDevelopment(s)
  {
    if MatchesDevelopment(s) {
      var base, commits, hash, dirty :|
        && FindStable(base).Some? && Digits(commits) && hash != "" && (forall c | c in hash :: IsLowerHex(c))
        && s == Development(base, commits, hash, dirty);
      DevelopmentIsAccepted(base, commits, hash, dirty);
    }
    if IsDevelopment(s) {
      var parts := Split(s, '-');
      JoinSplit(s, '-');
      assert parts[2] == "g" + parts[2][1..];
      RejoinDevelopment(parts, parts[2][1..], |parts| == 4);
    }
  }

  lemma DevelopmentIsAccepted(base: string, commits: string, hash: string, dirty: bool)
    requires FindStable(base).Some? && Digits(commits) && hash != "" && (forall c | c in hash :: IsLowerHex(c))
    ensures IsDevelopment(Development(base, commits, hash, dirty))
  {
    StableLacksDash(base);
    DevelopmentSplit(base, commits, hash, dirty);
    assert ("g" + hash)[1..] == hash;
  }

  lemma RejoinDevelopment(parts: seq<string>, hash: string, dirty: bool)
    requires |parts| == (if dirty then 4 else 3)
    requires parts == (if dirty then [parts[0], parts[1], "g" + hash, "dirty"] else [parts[0], parts[1], "g" + hash])
    ensures Join(parts, '-') == Development(parts[0], parts[1], hash, dirty)
  {
    var g := "g" + hash;
    if dirty {
      assert parts[1..] == [parts[1], g, "dirty"] && parts[1..][1..] == [g, "dirty"];
      assert parts[1..][1..][1..] == ["dirty"];
      assert Join([g, "dirty"], '-') == g + "-dirty";
      assert Join(parts, '-') == parts[0] + "-" + (parts[1] + "-" + (g + "-dirty"));
    } else {
      JoinThree(parts[0], parts[1], g, '-');
    }
  }

  // ------------------------------------------------------------------- parsing

  /** strconv.ParseUint(s, 10, 64) on a digit string. */
  function ParseUint64(s: string): Option<nat>
    requires AllDigits(s)
  {
    if DecimalValue(s) < UINT64_LIMIT then Some(DecimalValue(s)) else None
  }

  function Parsed(value: string): Option<Triple>
  {
    var groups := FindStable(value);
    if groups.None? then None
    else
      var a, b, c := ParseUint64(groups.value[0]), ParseUint64(groups.value[1]), ParseUint64(groups.value[2]);
      if a.Some? && b.Some? && c.Some? then Some(Triple([a.value, b.value, c.value])) else None
  }

  method ParseVersion(value: string) returns (parsed: Option<Triple>)
    ensures parsed == Parsed(value)
    ensures parsed.Some? ==> IsTriple(parsed.value)
  {
    var groups := FindStable(value);
    if groups.None? {
      return None;
    }
    var parts: seq<nat> := [];
    for i := 0 to 3
      invariant |parts| == i
      invariant forall k | 0 <= k < i :: ParseUint64(groups.value[k]) == Some(parts[k])
    {
      var n := ParseUint64(groups.value[i]);
      if n.None? {
        return None;
      }
      parts := parts + [n.value];
    }
    assert parts == [parts[0], parts[1], parts[2]];
    return Some(Triple(parts));
  }

  function Format(withV: bool, t: Triple): string
    requires IsTriple(t)
  {
    Stable(if withV then "v" else "", Decimal(t.parts[0]), Decimal(t.parts[1]), Decimal(t.parts[2]))
  }

  /** Formatting a triple, with or without the v, and parsing it gives the triple back. */
  lemma FormatThenParse(withV: bool, t: Triple)
    requires IsTriple(t)
    ensures Parsed(Format(withV, t)) == Some(t)
  {
    var a, b, c := Decimal(t.parts[0]), Decimal(t.parts[1]), Decimal(t.parts[2]);
    DecimalRoundTrip(t.parts[0]);
    DecimalRoundTrip(t.parts[1]);
    DecimalRoundTrip(t.parts[2]);
    FindStableExactly(Format(withV, t), a, b, c);
    assert t.parts == [t.parts[0], t.parts[1], t.parts[2]];
  }

  /** What parses: a string of the stable grammar whose three numbers fit in 64 bits. */
  lemma ParsedExactly(s: string, t: Triple)
    ensures Parsed(s) == Some(t)
       <==> exists a, b, c ::
              && MatchesStable(s, a, b, c) && IsTriple(t)
              && t.parts == [DecimalValue(a), DecimalValue(b), DecimalValue(c)]
  {
    if Parsed(s) == Some(t) {
      var g := FindStable(s).value;
      assert g == [g[0], g[1], g[2]];
      FindStableExactly(s, g[0], g[1], g[2]);
    }
    if a, b, c :| MatchesStable(s, a, b, c) && IsTriple(t)
                  && t.parts == [DecimalValue(a), DecimalValue(b), DecimalValue(c)]
    {
      FindStableExactly(s, a, b, c);
      assert t.parts[0] < UINT64_LIMIT && t.parts[1] < UINT64_LIMIT && t.parts[2] < UINT64_LIMIT;
    }
  }

  // --------------------------------------------------------------------- order

  /** Lexicographic: the first differing part decides. */
  predicate Below(x: Triple, y: Triple)
    requires |x.parts| == |y.parts| == 3
  {
    exists i | 0 <= i < 3 :: x.parts[i] < y.parts[i] && forall j | 0 <= j < i :: x.parts[j] == y.parts[j]
  }

  /** The numbers of a stable tag, however large. */
  function Tag(v: string): Option<Triple>
  {
    var groups := FindStable(v);
    if groups.None? then None
    else
      var g := groups.value;
      Some(Triple([DecimalValue(g[0]), DecimalValue(g[1]), DecimalValue(g[2])]))
  }

  /** Both are stable tags and the first has the lower numbers. */
  predicate TagBelow(a: string, b: string)
  {
    Tag(a).Some? && Tag(b).Some? && Below(Tag(a).value, Tag(b).value)
  }

  lemma StableIsTrimmed(v: string)
    requires FindStable(v).Some?
    ensures v != "" && Trimmed(v)
  {
    var g := FindStable(v).value;
    FindStableExactly(v, g[0], g[1], g[2]);
    assert g == [g[0], g[1], g[2]];
    assert v[|v| - 1] == g[2][|g[2]| - 1] && IsDigit(g[2][|g[2]| - 1]);
    assert v[0] == 'v' || (v[0] == g[0][0] && IsDigit(g[0][0]));
  }

  lemma ParsedIsTag(v: string)
    requires Parsed(v).Some?
    ensures Tag(v) == Parsed(v)
  {}

  predicate Newer(current: string, latest: string)
  {
    var l, c := Parsed(latest), Parsed(current);
    && l.Some?
    && if c.Some? then Below(c.value, l.value) else current == "dev" || IsDevelopment(current)
  }

  method IsNewer(current: string, latest: string) returns (newer: bool)
    ensures newer <==> Newer(current, latest)
  {
    var latestParts := ParseVersion(latest);
    if latestParts.None? {
      return false;
    }
    var currentParts := ParseVersion(current);
    if currentParts.None? {
      return current == "dev" || IsDevelopment(current);
    }
    for i := 0 to 3
      invariant forall j | 0 <= j < i :: currentParts.value.parts[j] == latestParts.value.parts[j]
    {
      if latestParts.value.parts[i] != currentParts.value.parts[i] {
        return latestParts.value.parts[i] > currentParts.value.parts[i];
      }
    }
    return false;
  }

  lemma BelowIsStrictOrder(x: Triple, y: Triple, z: Triple)
    requires |x.parts| == |y.parts| == |z.parts| == 3
    ensures !Below(x, x)
    ensures Below(x, y) ==> !Below(y, x)
    ensures Below(x, y) && Below(y, z) ==> Below(x, z)
    ensures !Below(x, y) && !Below(y, x) <==> x == y
  {
    assert x == y <==> x.parts[0] == y.parts[0] && x.parts[1] == y.parts[1] && x.parts[2] == y.parts[2] by {
      if x.parts[0] == y.parts[0] && x.parts[1] == y.parts[1] && x.parts[2] == y.parts[2] {
        assert x.parts == y.parts;
      }
    }
    assert forall p: Triple, q: Triple | |p.parts| == |q.parts| == 3 ::
        Below(p, q) <==> BelowCases(p, q) by {
      forall p: Triple, q: Triple | |p.parts| == |q.parts| == 3 ensures Below(p, q) <==> BelowCases(p, q) {
        BelowByCases(p, q);
      }
    }
  }

  predicate BelowCases(x: Triple, y: Triple)
    requires |x.parts| == |y.parts| == 3
  {
    || x.parts[0] < y.parts[0]
    || (x.parts[0] == y.parts[0] && x.parts[1] < y.parts[1])
    || (x.parts[0] == y.parts[0] && x.parts[1] == y.parts[1] && x.parts[2] < y.parts[2])
  }

  lemma BelowByCases(x: Triple, y: Triple)
    requires |x.parts| == |y.parts| == 3
    ensures Below(x, y) <==> BelowCases(x, y)
  {
    if BelowCases(x, y) {
      var i := if x.parts[0] < y.parts[0] then 0 else if x.parts[1] < y.parts[1] then 1 else 2;
      assert x.parts[i] < y.parts[i];
    }
  }

  /** Newer is a strict partial order on all strings. */
  lemma NewerIsStrictPartialOrder(a: string, b: string, c: string)
    ensures !Newer(a, a)
    ensures Newer(a, b) ==> !Newer(b, a)
    ensures Newer(a, b) && Newer(b, c) ==> Newer(a, c)
  {
    var zero := Triple([0, 0, 0]);
    BelowIsStrictOrder(Parsed(a).GetOr(zero), Parsed(b).GetOr(zero), Parsed(c).GetOr(zero));
  }

  /** Two versions that parse are incomparable exactly when they denote the same triple. */
  lemma IncomparableExactly(a: string, b: string)
    requires Parsed(a).Some? && Parsed(b).Some?
    ensures !Newer(a, b) && !Newer(b, a) <==> Parsed(a) == Parsed(b)
  {
    BelowIsStrictOrder(Parsed(a).value, Parsed(b).value, Parsed(b).value);
  }

  lemma DevIsNotStable()
    ensures FindStable("dev").None?
  {
    SplitWhole("dev", '.');
  }

  lemma DevelopmentIsNotStable(s: string)
    requires FindStable(s).Some?
    ensures !IsDevelopment(s)
  {
    StableLacksDash(s);
    SplitWhole(s, '-');
  }

  /** A development build is below every version that parses. */
  lemma DevelopmentIsBelowEveryRelease(a: string, b: string)
    requires a == "dev" || MatchesDevelopment(a)
    requires Parsed(b).Some?
    ensures Newer(a, b) && !Newer(b, a)
  {
    if a == "dev" {
      DevIsNotStable();
    } else {
      IsDevelopmentExactly(a);
      if FindStable(a).Some? {
        DevelopmentIsNotStable(a);
      }
    }
  }

  /** A version whose numbers do not fit in 64 bits is never updated and never installed. */
  lemma OverflowIsIncomparable(a: string, b: string)
    requires FindStable(a).Some? && Parsed(a).None?
    ensures !Newer(a, b) && !Newer(b, a)
  {
    DevIsNotStable();
    DevelopmentIsNotStable(a);
  }

  /** A stable version with these numbers, each below 2^64. */
  ghost predicate Denotes(s: string, major: nat, minor: nat, patch: nat)
  {
    && major < 0x1_0000_0000_0000_0000 && minor < 0x1_0000_0000_0000_0000 && patch < 0x1_0000_0000_0000_0000
    && exists a, b, c | MatchesStable(s, a, b, c) ::
         DecimalValue(a) == major && DecimalValue(b) == minor && DecimalValue(c) == patch
  }

  lemma DenotesExactly(s: string, major: nat, minor: nat, patch: nat)
    ensures Denotes(s, major, minor, patch) <==> Parsed(s) == Some(Triple([major, minor, patch]))
  {
    var t := Triple([major, minor, patch]);
    ParsedExactly(s, t);
    assert t.parts[0] == major && t.parts[1] == minor && t.parts[2] == patch;
    if a, b, c :| MatchesStable(s, a, b, c) && IsTriple(t)
                  && t.parts == [DecimalValue(a), DecimalValue(b), DecimalValue(c)]
    {
      assert DecimalValue(a) == t.parts[0] && DecimalValue(b) == t.parts[1] && DecimalValue(c) == t.parts[2];
    }
  }

  /** The numbers of the first version are below those of the second, the leading ones deciding. */
  ghost predicate NumbersBelow(current: string, major: nat, minor: nat, patch: nat)
  {
    exists x: nat, y: nat, z: nat | Denotes(current, x, y, z) ::
      x < major || (x == major && (y < minor || (y == minor && z < patch)))
  }

  /** THE ORDER. A release is newer exactly when it denotes numbers, and the current version is `dev`, a
      development build, or a version with lower numbers. */
  lemma NewerExactly(current: string, latest: string)
    ensures Newer(current, latest)
       <==> exists major: nat, minor: nat, patch: nat | Denotes(latest, major, minor, patch) ::
              Updates(current, major, minor, patch)
  {
    if Parsed(latest).Some? {
      var l := PartsOf(latest);
      DenotedOnce(latest, l[0], l[1], l[2]);
      UpdatesExactly(current, latest, l);
      assert Denotes(latest, l[0], l[1], l[2]);
    } else {
      NothingDenoted(latest);
    }
  }

  ghost predicate Updates(current: string, major: nat, minor: nat, patch: nat)
  {
    current == "dev" || MatchesDevelopment(current) || NumbersBelow(current, major, minor, patch)
  }

  lemma UpdatesExactly(current: string, latest: string, l: seq<nat>)
    requires |l| == 3 && Parsed(latest) == Some(Triple(l))
    ensures Newer(current, latest) <==> Updates(current, l[0], l[1], l[2])
  {
    IsDevelopmentExactly(current);
    if Parsed(current).Some? {
      DevelopmentIsNotParsed(current);
      var c := PartsOf(current);
      DenotedOnce(current, c[0], c[1], c[2]);
      BelowByCases(Triple(c), Triple(l));
      assert Denotes(current, c[0], c[1], c[2]);
      assert NumbersBelow(current, l[0], l[1], l[2]) <==> BelowCases(Triple(c), Triple(l));
    } else {
      NothingDenoted(current);
    }
  }

  lemma PartsOf(s: string) returns (parts: seq<nat>)
    requires Parsed(s).Some?
    ensures |parts| == 3 && Parsed(s) == Some(Triple(parts))
    ensures Parsed(s) == Some(Triple([parts[0], parts[1], parts[2]]))
  {
    parts := Parsed(s).value.parts;
    assert parts == [parts[0], parts[1], parts[2]];
  }

  lemma DenotedOnce(s: string, major: nat, minor: nat, patch: nat)
    requires Parsed(s) == Some(Triple([major, minor, patch]))
    ensures forall x: nat, y: nat, z: nat :: Denotes(s, x, y, z) <==> x == major && y == minor && z == patch
  {
    forall x: nat, y: nat, z: nat ensures Denotes(s, x, y, z) <==> x == major && y == minor && z == patch {
      DenotesExactly(s, x, y, z);
      if [x, y, z] == [major, minor, patch] {
        assert [x, y, z][0] == major && [x, y, z][1] == minor && [x, y, z][2] == patch;
      }
    }
  }

  lemma NothingDenoted(s: string)
    requires Parsed(s).None?
    ensures forall x: nat, y: nat, z: nat :: !Denotes(s, x, y, z)
  {
    forall x: nat, y: nat, z: nat ensures !Denotes(s, x, y, z) {
      DenotesExactly(s, x, y, z);
    }
  }

  lemma DevelopmentIsNotParsed(s: string)
    requires Parsed(s).Some?
    ensures s != "dev" && !IsDevelopment(s)
  {
    DevIsNotStable();
    DevelopmentIsNotStable(s);
  }

  /** A current version of any other form, such as a bare hash or a dirty tag, is never updated. */
  lemma OtherTextsAreNeverUpdated(current: string, latest: string)
    requires current != "dev" && !MatchesDevelopment(current)
    requires forall a, b, c :: !MatchesStable(current, a, b, c)
    ensures !Newer(current, latest)
  {
    NewerExactly(current, latest);
  }
}
