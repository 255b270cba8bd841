/** From a release to a candidate binary: asset selection, bounded download, checksum, and extraction
    of the one binary from the archive. */
module Artifact {
  import opened Text
  import opened Versions

  /** Bytes that a reader delivers, and whether it then fails instead of ending. */
  datatype Stream = Stream(bytes: Bytes, broken: bool)

  const MAX_BINARY_SIZE := 100 * 0x10_0000

  // ------------------------------------------------------------------ selection

  datatype Asset = Asset(name: string, url: string, digest: string)

  /** The decoded answer of the release feed. */
  datatype Feed = Feed(tag: string, url: string, draft: bool, prerelease: bool, assets: seq<Asset>)

  /** What the feed answers; the body may fail to decode. */
  datatype Answer = Answer(status: int, feed: Option<Feed>)

  datatype Release =
    Release(version: string, releaseURL: string, assetURL: string, checksumURL: string, sha256: string)

  function AssetName(tag: string): string
  {
    "zimaos-monitor-" + tag + "-linux-amd64.tar.gz"
  }

  function ChecksumName(tag: string): string
  {
    AssetName(tag) + ".sha256"
  }

  function TrimPrefix(s: string, prefix: string): string
  {
    if prefix <= s then s[|prefix|..] else s
  }

  /** The last asset of that name. */
  function LastNamed(assets: seq<Asset>, name: string): Option<Asset>
  {
    if assets == [] then None
    else
      var last := |assets| - 1;
      if assets[last].name == name then Some(assets[last]) else LastNamed(assets[..last], name)
  }

  lemma {:induction false} LastNamedExactly(assets: seq<Asset>, name: string)
    ensures LastNamed(assets, name).None? <==> forall a | a in assets :: a.name != name
    ensures LastNamed(assets, name).Some? ==>
              exists i | 0 <= i < |assets| ::
                && assets[i] == LastNamed(assets, name).value && assets[i].name == name
                && forall j | i < j < |assets| :: assets[j].name != name
  {
    if assets != [] {
      var last := |assets| - 1;
      LastNamedExactly(assets[..last], name);
      assert assets == assets[..last] + [assets[last]];
    }
  }

  function ReleaseOf(tag: string, url: string, binary: Option<Asset>, checksum: Option<Asset>): Release
  {
    Release(tag, url,
            if binary.Some? then binary.value.url else "",
            if checksum.Some? then checksum.value.url else "",
            if binary.Some? then TrimPrefix(binary.value.digest, "sha256:") else "")
  }

  /** What each field of a release says about the feed it was taken from: of assets with one name the last
      counts, and "sha256:" in front of a digest is not part of it. */
  ghost predicate Shows(feed: Feed, r: Release)
  {
    var binary := LastNamed(feed.assets, "zimaos-monitor-" + feed.tag + "-linux-amd64.tar.gz");
    var checksum := LastNamed(feed.assets, "zimaos-monitor-" + feed.tag + "-linux-amd64.tar.gz.sha256");
    && r.version == feed.tag && r.releaseURL == feed.url
    && r.assetURL == (if binary.Some? then binary.value.url else "")
    && r.checksumURL == (if checksum.Some? then checksum.value.url else "")
    && (binary.None? ==> r.sha256 == "")
    && (binary.Some? ==> IsDigestText(binary.value.digest, r.sha256))
  }

  /** The digest text without its label. */
  ghost predicate IsDigestText(digest: string, text: string)
  {
    digest == "sha256:" + text || (digest == text && !("sha256:" <= digest))
  }

  lemma TrimmedDigest(digest: string)
    ensures IsDigestText(digest, TrimPrefix(digest, "sha256:"))
    ensures forall text | IsDigestText(digest, text) :: text == TrimPrefix(digest, "sha256:")
  {
    forall text | digest == "sha256:" + text ensures text == TrimPrefix(digest, "sha256:") {
      assert digest[7..] == text;
    }
  }

  lemma ShownOnce(feed: Feed, r: Release, other: Release)
    requires Shows(feed, r) && Shows(feed, other)
    ensures r == other
  {
    var binary := LastNamed(feed.assets, "zimaos-monitor-" + feed.tag + "-linux-amd64.tar.gz");
    if binary.Some? {
      TrimmedDigest(binary.value.digest);
    }
  }

  lemma ReleaseShows(feed: Feed)
    ensures Shows(feed, ReleaseOf(feed.tag, feed.url, LastNamed(feed.assets, AssetName(feed.tag)),
                                  LastNamed(feed.assets, ChecksumName(feed.tag))))
  {
    var binary := LastNamed(feed.assets, AssetName(feed.tag));
    if binary.Some? {
      TrimmedDigest(binary.value.digest);
    }
    assert ChecksumName(feed.tag) == "zimaos-monitor-" + feed.tag + "-linux-amd64.tar.gz.sha256";
  }

  predicate IsStableRelease(feed: Feed) { !feed.draft && !feed.prerelease && FindStable(feed.tag).Some? }

  /** The release to install: refused unless the request succeeds and the release is stable; of assets
      with one name the last counts. */
  method FetchLatest(answer: Option<Answer>) returns (release: Option<Release>)
    ensures release.Some?
       <==> && answer.Some? && answer.value.status == 200 && answer.value.feed.Some?
            && !answer.value.feed.value.draft && !answer.value.feed.value.prerelease
            && FindStable(answer.value.feed.value.tag).Some?
    ensures release.Some? ==> Shows(answer.value.feed.value, release.value)
  {
    if answer.None? || answer.value.status != 200 || answer.value.feed.None? {
      return None;
    }
    var feed := answer.value.feed.value;
    if !IsStableRelease(feed) {
      return None;
    }
    assert |ChecksumName(feed.tag)| > |AssetName(feed.tag)|;
    var r := SelectAssets(feed, AssetName(feed.tag), ChecksumName(feed.tag));
    ReleaseShows(feed);
    return Some(r);
  }

  method SelectAssets(feed: Feed, assetName: string, checksumName: string) returns (r: Release)
    requires assetName != checksumName
    ensures r == ReleaseOf(feed.tag, feed.url, LastNamed(feed.assets, assetName), LastNamed(feed.assets, checksumName))
  {
    var assets := feed.assets;
    r := Release(feed.tag, feed.url, "", "", "");
    for i := 0 to |assets|
      invariant r == ReleaseOf(feed.tag, feed.url, LastNamed(assets[..i], assetName),
                               LastNamed(assets[..i], checksumName))
    {
      var asset := assets[i];
      if asset.name == assetName {
        r := r.(assetURL := asset.url, sha256 := TrimPrefix(asset.digest, "sha256:"));
      } else if asset.name == checksumName {
        r := r.(checksumURL := asset.url);
      }
      assert assets[..i + 1][..i] == assets[..i];
    }
    assert assets[..|assets|] == assets;
  }

  // -------------------------------------------------------------------- copying

  /** io.Copy from io.LimitReader(source, limit), whatever pieces the reads return. */
  method CopyLimited(source: Stream, limit: nat) returns (copied: Bytes, failed: bool)
    ensures copied == if |source.bytes| <= limit then source.bytes else source.bytes[..limit]
    ensures source.broken && |source.bytes| < limit ==> failed
    ensures failed ==> source.broken && |source.bytes| <= limit
  {
    copied, failed := [], false;
    while |copied| < limit
      invariant |copied| <= limit && |copied| <= |source.bytes| && copied == source.bytes[..|copied|]
      invariant !failed
      decreases limit - |copied|
    {
      var done := |copied|;
      if done == |source.bytes| {
        return copied, source.broken;
      }
      var piece: int := *;
      if piece < 1 || done + piece > limit || done + piece > |source.bytes| {
        piece := 1;
      }
      copied := copied + source.bytes[done..done + piece];
      var withError: bool := *;
      if withError && |copied| == |source.bytes| && source.broken {
        return copied, true;
      }
    }
  }

  // ------------------------------------------------------------------ checksums

  function HexDigit(v: bv4): char
  {
    match v
    case 0 => '0'
    case 1 => '1'
    case 2 => '2'
    case 3 => '3'
    case 4 => '4'
    case 5 => '5'
    case 6 => '6'
    case 7 => '7'
    case 8 => '8'
    case 9 => '9'
    case 10 => 'a'
    case 11 => 'b'
    case 12 => 'c'
    case 13 => 'd'
    case 14 => 'e'
    case _ => 'f'
  }

  function HexValue(c: char): bv4
    requires IsHexAnyCase(c)
  {
    match c
    case '0' => 0
    case '1' => 1
    case '2' => 2
    case '3' => 3
    case '4' => 4
    case '5' => 5
    case '6' => 6
    case '7' => 7
    case '8' => 8
    case '9' => 9
    case 'a' => 10
    case 'b' => 11
    case 'c' => 12
    case 'd' => 13
    case 'e' => 14
    case 'A' => 10
    case 'B' => 11
    case 'C' => 12
    case 'D' => 13
    case 'E' => 14
    case _ => 15
  }

  /** hex.EncodeToString */
  function HexText(d: Bytes): (s: string)
    ensures |s| == 2 * |d|
  {
    if d == [] then "" else [HexDigit((d[0] >> 4) as bv4), HexDigit((d[0] & 15) as bv4)] + HexText(d[1..])
  }

  predicate IsHexText(s: string)
  {
    |s| % 2 == 0 && forall i | 0 <= i < |s| :: IsHexAnyCase(s[i])
  }

  /** hex.DecodeString, in either letter case. */
  function DecodedHex(s: string): (d: Bytes)
    requires IsHexText(s)
    ensures 2 * |d| == |s|
  {
    if s == "" then []
    else [((HexValue(s[0]) as bv8) << 4) | (HexValue(s[1]) as bv8)] + DecodedHex(s[2..])
  }

  lemma HexValueDenotes(c: char)
    requires IsHexAnyCase(c)
    ensures LowerChar(c) == HexDigit(HexValue(c))
  {}

  lemma HexDigitInjective(v: bv4, w: bv4)
    requires HexDigit(v) == HexDigit(w)
    ensures v == w
  {}

  lemma HexDigitExactly(c: char, v: bv4)
    requires IsHexAnyCase(c)
    ensures LowerChar(c) == HexDigit(v) <==> HexValue(c) == v
  {
    HexValueDenotes(c);
    if LowerChar(c) == HexDigit(v) {
      HexDigitInjective(v, HexValue(c));
    }
  }

  lemma ByteExactly(b: Byte, high: bv4, low: bv4)
    ensures b == ((high as bv8) << 4) | (low as bv8) <==> (b >> 4) as bv4 == high && (b & 15) as bv4 == low
  {}

  /** A checksum in either letter case is accepted for exactly the digest that it denotes. */
  lemma {:induction false} LowerHexExactly(s: string, d: Bytes)
    requires IsHexText(s)
    ensures Lower(s) == HexText(d) <==> DecodedHex(s) == d
  {
    if s == "" || d == [] {
    } else {
      LowerHexExactly(s[2..], d[1..]);
      HexDigitExactly(s[0], (d[0] >> 4) as bv4);
      HexDigitExactly(s[1], (d[0] & 15) as bv4);
      ByteExactly(d[0], HexValue(s[0]), HexValue(s[1]));
      LowerPair(s);
      PairsEqual(LowerChar(s[0]), LowerChar(s[1]), Lower(s[2..]), HexDigit((d[0] >> 4) as bv4),
                 HexDigit((d[0] & 15) as bv4), HexText(d[1..]));
      assert d == [d[0]] + d[1..];
    }
  }

  lemma LowerPair(s: string)
    requires |s| >= 2
    ensures Lower(s) == [LowerChar(s[0]), LowerChar(s[1])] + Lower(s[2..])
  {
    assert s[1..][1..] == s[2..];
  }

  lemma PairsEqual(a: char, b: char, s: string, c: char, d: char, t: string)
    ensures [a, b] + s == [c, d] + t <==> a == c && b == d && s == t
  {
    if [a, b] + s == [c, d] + t {
      assert ([a, b] + s)[0] == a && ([a, b] + s)[1] == b && ([a, b] + s)[2..] == s;
      assert ([c, d] + t)[0] == c && ([c, d] + t)[1] == d && ([c, d] + t)[2..] == t;
    }
  }

  function FirstField(s: string): string
  {
    UpToSpace(TrimLeft(s))
  }

  function UpToSpace(s: string): string
  {
    if s == "" || IsSpace(s[0]) then "" else [s[0]] + UpToSpace(s[1..])
  }

  /** How many bytes UTF-8 takes for a character. */
  function Width(c: char): nat
  {
    if c < '\U{80}' then 1 else if c < '\U{800}' then 2 else if c < '\U{10000}' then 3 else 4
  }

  function ByteLength(s: string): nat
  {
    if s == "" then 0 else Width(s[0]) + ByteLength(s[1..])
  }

  /** The text of the first `limit` bytes; each byte of a character that is cut counts as one that is
      invalid. */
  function FirstBytes(s: string, limit: nat): string
  {
    if s == "" then ""
    else if Width(s[0]) <= limit then [s[0]] + FirstBytes(s[1..], limit - Width(s[0]))
    else seq(limit, _ => INVALID)
  }

  const INVALID: char := '\U{FFFD}'
  const READ_LIMIT: nat := 4097

  /** At most 4097 bytes of a checksum file are read. */
  function ReadOf(payload: string): string
  {
    FirstBytes(payload, READ_LIMIT)
  }

  /** What is read begins with a text that is shorter, and goes on with what is left of the limit. */
  lemma {:induction false} FirstBytesGoOn(a: string, b: string, limit: nat)
    requires ByteLength(a) <= limit
    ensures FirstBytes(a + b, limit) == a + FirstBytes(b, limit - ByteLength(a))
  {
    if a == "" {
      assert a + b == b;
    } else {
      assert (a + b)[1..] == a[1..] + b;
      FirstBytesGoOn(a[1..], b, limit - Width(a[0]));
      assert a == [a[0]] + a[1..];
    }
  }

  /** A read text without invalid bytes was in the file, within the limit. */
  lemma {:induction false} FirstBytesCome(s: string, a: string, b: string, limit: nat)
    requires FirstBytes(s, limit) == a + b && INVALID !in a
    ensures a <= s && ByteLength(a) <= limit && b == FirstBytes(s[|a|..], limit - ByteLength(a))
  {
    if a == "" {
      assert a + b == b && s[0..] == s;
    } else {
      assert (a + b)[0] == a[0] && (a + b)[1..] == a[1..] + b;
      FirstBytesCome(s[1..], a[1..], b, limit - Width(s[0]));
      assert s == [s[0]] + s[1..] && a == [a[0]] + a[1..] && s[1..][|a| - 1..] == s[|a|..];
    }
  }

  /** After the first field the file ends, or the limit is reached, or white space is read. */
  predicate EndsField(rest: string, left: int)
  {
    left >= 0 && (rest == "" || left == 0 || (IsSpace(rest[0]) && Width(rest[0]) <= left))
  }

  lemma EndsFieldExactly(rest: string, left: nat)
    ensures StartsBlank(FirstBytes(rest, left)) <==> EndsField(rest, left)
  {}

  /** The checksum that a published file names: its first field, if that is 64 hexadecimal digits. */
  function PublishedChecksum(payload: string): Option<string>
  {
    var field := FirstField(ReadOf(payload));
    if |field| == 64 && IsHexText(field) then Some(Lower(field)) else None
  }

  /** The text starts, after white space, with a field that spells the digest in either letter case. */
  ghost predicate Publishes(text: string, d: Bytes)
  {
    exists lead, field, rest | AllSpaces(lead) && IsHexText(field) && DecodedHex(field) == d && StartsBlank(rest) ::
      text == lead + (field + rest)
  }

  predicate StartsBlank(rest: string) { rest != "" ==> IsSpace(rest[0]) }

  /** The file does so within the first `limit` bytes. */
  ghost predicate PublishesWithin(payload: string, d: Bytes, limit: nat)
  {
    exists lead, field, rest | AllSpaces(lead) && IsHexText(field) && DecodedHex(field) == d ::
      payload == lead + (field + rest) && EndsField(rest, limit - ByteLength(lead) - |field|)
  }

  lemma ReadIsChecked(text: string, d: Digest)
    ensures var field := FirstField(text);
            |field| == 64 && IsHexText(field) && Lower(field) == HexText(d) <==> Publishes(text, d)
  {
    if |FirstField(text)| == 64 && IsHexText(FirstField(text)) && Lower(FirstField(text)) == HexText(d) {
      var lead := TrimLeftSplits(text);
      var rest := UpToSpaceSplits(TrimLeft(text));
      LowerHexExactly(FirstField(text), d);
      assert text == lead + (FirstField(text) + rest);
    }
    if Publishes(text, d) {
      var lead, field, rest :| AllSpaces(lead) && IsHexText(field) && DecodedHex(field) == d && StartsBlank(rest)
                               && text == lead + (field + rest);
      FieldIsCutOut(lead, field, rest);
      LowerHexExactly(field, d);
    }
  }

  lemma {:induction false} HexLength(s: string)
    requires forall i | 0 <= i < |s| :: IsHexAnyCase(s[i])
    ensures ByteLength(s) == |s| && INVALID !in s
  {
    if s != "" {
      HexLength(s[1..]);
      assert s == [s[0]] + s[1..];
    }
  }

  lemma ReadWasWithin(payload: string, limit: nat, lead: string, field: string, rest: string) returns (behind: string)
    requires AllSpaces(lead) && IsHexText(field) && StartsBlank(rest)
    requires FirstBytes(payload, limit) == lead + (field + rest)
    ensures payload == lead + (field + behind) && EndsField(behind, limit - ByteLength(lead) - |field|)
  {
    HexLength(field);
    FirstBytesCome(payload, lead, field + rest, limit);
    var middle := payload[|lead|..];
    FirstBytesCome(middle, field, rest, limit - ByteLength(lead));
    behind := middle[|field|..];
    EndsFieldExactly(behind, limit - ByteLength(lead) - |field|);
  }

  lemma WithinIsRead(payload: string, limit: nat, lead: string, field: string, behind: string) returns (rest: string)
    requires IsHexText(field) && payload == lead + (field + behind)
    requires EndsField(behind, limit - ByteLength(lead) - |field|)
    ensures FirstBytes(payload, limit) == lead + (field + rest) && StartsBlank(rest)
  {
    HexLength(field);
    FirstBytesGoOn(lead, field + behind, limit);
    FirstBytesGoOn(field, behind, limit - ByteLength(lead));
    EndsFieldExactly(behind, limit - ByteLength(lead) - |field|);
    rest := FirstBytes(behind, limit - ByteLength(lead) - |field|);
  }

  /** A file publishes a digest within the limit exactly when what is read of it does. */
  lemma ReadPublishesExactly(payload: string, d: Digest, limit: nat)
    ensures Publishes(FirstBytes(payload, limit), d) <==> PublishesWithin(payload, d, limit)
  {
    if Publishes(FirstBytes(payload, limit), d) {
      var lead, field, rest :| AllSpaces(lead) && IsHexText(field) && DecodedHex(field) == d && StartsBlank(rest)
                               && FirstBytes(payload, limit) == lead + (field + rest);
      var behind := ReadWasWithin(payload, limit, lead, field, rest);
    }
    if PublishesWithin(payload, d, limit) {
      var lead, field, behind :| AllSpaces(lead) && IsHexText(field) && DecodedHex(field) == d
                                 && payload == lead + (field + behind)
                                 && EndsField(behind, limit - ByteLength(lead) - |field|);
      var rest := WithinIsRead(payload, limit, lead, field, behind);
    }
  }

  /** A checksum file is accepted for exactly the digest that its first field spells, if the field ends
      within the bytes that are read. */
  lemma PublishedChecksumExactly(payload: string, d: Digest)
    ensures PublishedChecksum(payload) == Some(HexText(d)) <==> PublishesWithin(payload, d, READ_LIMIT)
  {
    ReadIsChecked(ReadOf(payload), d);
    ReadPublishesExactly(payload, d, READ_LIMIT);
  }

  lemma FieldIsCutOut(lead: string, field: string, rest: string)
    requires AllSpaces(lead) && field != "" && IsHexText(field) && StartsBlank(rest)
    ensures FirstField(lead + (field + rest)) == field
  {
    forall i | 0 <= i < |field| ensures !IsSpace(field[i]) {
      HexIsNotSpace(field[i]);
    }
    assert (field + rest)[0] == field[0];
    TrimLeftDrops(lead, field + rest);
    UpToSpaceIs(field, rest);
  }

  lemma {:induction false} UpToSpaceSplits(s: string) returns (rest: string)
    ensures s == UpToSpace(s) + rest && StartsBlank(rest)
  {
    if s == "" || IsSpace(s[0]) {
      rest := s;
    } else {
      rest := UpToSpaceSplits(s[1..]);
    }
  }

  lemma {:induction false} UpToSpaceIs(field: string, rest: string)
    requires forall i | 0 <= i < |field| :: !IsSpace(field[i])
    requires StartsBlank(rest)
    ensures UpToSpace(field + rest) == field
  {
    if field == "" {
      assert field + rest == rest;
    } else {
      assert (field + rest)[1..] == field[1..] + rest;
      UpToSpaceIs(field[1..], rest);
    }
  }

  predicate NoUpperCase(s: string) { forall i | 0 <= i < |s| :: !('A' <= s[i] <= 'F') }

  /** A checksum taken from the feed is compared as it stands: it passes for exactly the digest it spells,
      and only without an upper-case digit. */
  lemma FeedDigestExactly(expected: string, d: Bytes)
    ensures expected == HexText(d) <==> IsHexText(expected) && DecodedHex(expected) == d && NoUpperCase(expected)
  {
    HexTextIsLower(d);
    if IsHexText(expected) && NoUpperCase(expected) {
      LowerIsKept(expected);
      LowerHexExactly(expected, d);
    }
    if expected == HexText(d) {
      LowerIsKept(expected);
      LowerHexExactly(expected, d);
    }
  }

  lemma {:induction false} LowerIsKept(s: string)
    requires IsHexText(s) && NoUpperCase(s)
    ensures Lower(s) == s
  {
    forall i | 0 <= i < |s| ensures Lower(s)[i] == s[i] {
      assert IsHexAnyCase(s[i]);
    }
  }

  lemma {:induction false} HexTextIsLower(d: Bytes)
    ensures IsHexText(HexText(d)) && NoUpperCase(HexText(d))
  {
    if d != [] {
      HexTextIsLower(d[1..]);
      HexDigitIsLower((d[0] >> 4) as bv4);
      HexDigitIsLower((d[0] & 15) as bv4);
    }
  }

  lemma HexDigitIsLower(v: bv4)
    ensures IsHexAnyCase(HexDigit(v)) && !('A' <= HexDigit(v) <= 'F')
  {}

  // ----------------------------------------------------------------- extraction

  /** filepath.Base on Linux. */
  function Base(path: string): string
  {
    if path == "" then "."
    else
      var s := StripSlashes(path);
      if s == "" then "/" else AfterSlash(s)
  }

  function StripSlashes(path: string): (s: string)
    ensures |s| <= |path|
  {
    if path != "" && path[|path| - 1] == '/' then StripSlashes(path[..|path| - 1]) else path
  }

  function AfterSlash(s: string): string
  {
    if s == "" || s[|s| - 1] == '/' then "" else AfterSlash(s[..|s| - 1]) + [s[|s| - 1]]
  }

  predicate AllSlashes(s: string) { forall i | 0 <= i < |s| :: s[i] == '/' }

  lemma {:induction false} StripSlashesIs(path: string, slashes: string)
    requires AllSlashes(slashes) && (path != "" ==> path[|path| - 1] != '/')
    ensures StripSlashes(path + slashes) == path
  {
    if slashes == "" {
      assert path + slashes == path;
    } else {
      assert (path + slashes)[..|path + slashes| - 1] == path + slashes[..|slashes| - 1];
      StripSlashesIs(path, slashes[..|slashes| - 1]);
    }
  }

  lemma {:induction false} StripSlashesSplits(path: string) returns (slashes: string)
    ensures AllSlashes(slashes) && path == StripSlashes(path) + slashes
    ensures StripSlashes(path) != "" ==> StripSlashes(path)[|StripSlashes(path)| - 1] != '/'
  {
    slashes := "";
    if path != "" && path[|path| - 1] == '/' {
      var fewer := StripSlashesSplits(path[..|path| - 1]);
      slashes := fewer + "/";
    }
  }

  lemma {:induction false} AfterSlashIs(directory: string, name: string)
    requires '/' !in name && (directory != "" ==> directory[|directory| - 1] == '/')
    ensures AfterSlash(directory + name) == name
  {
    if name == "" {
      assert directory + name == directory;
    } else {
      assert (directory + name)[..|directory + name| - 1] == directory + name[..|name| - 1];
      AfterSlashIs(directory, name[..|name| - 1]);
    }
  }

  lemma {:induction false} AfterSlashSplits(s: string) returns (directory: string)
    ensures s == directory + AfterSlash(s) && '/' !in AfterSlash(s)
    ensures directory != "" ==> directory[|directory| - 1] == '/'
  {
    if s == "" || s[|s| - 1] == '/' {
      directory := s;
    } else {
      directory := AfterSlashSplits(s[..|s| - 1]);
    }
  }

  /** The entry is the binary, in whatever directory the archive keeps it. */
  ghost predicate NamesFile(path: string, name: string)
  {
    exists directory, slashes | (directory != "" ==> directory[|directory| - 1] == '/') && AllSlashes(slashes) ::
      path == (directory + name) + slashes
  }

  lemma BaseExactly(path: string, name: string)
    requires name != "" && name != "." && '/' !in name
    ensures Base(path) == name <==> NamesFile(path, name)
  {
    if Base(path) == name {
      var slashes := StripSlashesSplits(path);
      var directory := AfterSlashSplits(StripSlashes(path));
      assert path == (directory + name) + slashes;
    }
    if NamesFile(path, name) {
      var directory, slashes :| (directory != "" ==> directory[|directory| - 1] == '/') && AllSlashes(slashes)
                                && path == (directory + name) + slashes;
      assert (directory + name)[|directory + name| - 1] == name[|name| - 1];
      StripSlashesIs(directory + name, slashes);
      AfterSlashIs(directory, name);
    }
  }

  datatype EntryType = RegularFile | OtherType

  /** What the archive reader hands out for one entry. */
  datatype Entry = Entry(name: string, kind: EntryType, size: int, content: Stream)
  {
    predicate IsBinary() { Base(name) == "zimaos-monitor" }

    /** A fully readable regular file of an admissible size. */
    predicate Usable()
    {
      && kind == RegularFile && 1 <= size <= MAX_BINARY_SIZE
      && |content.bytes| == size && !content.broken
    }
  }

  /** The entries that can be read, and whether the archive then ends without an error. */
  datatype Archive = Archive(entries: seq<Entry>, clean: bool)

  /** Entry i is the only binary of the archive, and it is usable. */
  ghost predicate HoldsBinary(a: Archive, i: int)
  {
    && 0 <= i < |a.entries| && a.clean && a.entries[i].IsBinary() && a.entries[i].Usable()
    && forall j | 0 <= j < |a.entries| && j != i :: !a.entries[j].IsBinary()
  }

  datatype Response = Response(status: nat, declared: int, body: Stream)

  /** The answer is small enough by what it declares and by what it delivers. */
  predicate Acceptable(r: Response, limit: nat)
  {
    r.status == 200 && r.declared <= limit && |r.body.bytes| <= limit && !r.body.broken
  }

  /** The answer for the checksum file; no payload when it cannot be read. */
  datatype ChecksumAnswer = ChecksumAnswer(status: nat, payload: Option<string>)

  /** What the network and the system answer to one update. */
  datatype Answers = Answers(
    download: Option<Response>,
    checksum: Option<ChecksumAnswer>,
    sha256: Bytes -> Digest,
    unpack: Bytes -> Option<Archive>,
    version: Bytes -> Option<string>)

  function DownloadChecksum(answer: Option<ChecksumAnswer>): Option<string>
  {
    if answer.None? || answer.value.status != 200 || answer.value.payload.None? then None
    else PublishedChecksum(answer.value.payload.value)
  }

  function Expected(r: Release, answers: Answers): Option<string>
  {
    if r.sha256 != "" then Some(r.sha256) else DownloadChecksum(answers.checksum)
  }

  predicate Complete(r: Release) { r.assetURL != "" && (r.sha256 != "" || r.checksumURL != "") }

  /** The archive is the one the release vouches for. */
  ghost predicate Vouched(r: Release, answers: Answers)
  {
    && Complete(r) && answers.download.Some? && Acceptable(answers.download.value, 2 * MAX_BINARY_SIZE)
    && Expected(r, answers) == Some(HexText(answers.sha256(answers.download.value.body.bytes)))
  }

  /** The candidate is the only binary of the archive the release vouches for, and says so. */
  ghost predicate Genuine(r: Release, answers: Answers, candidate: Bytes)
  {
    && Vouched(r, answers)
    && IsTheBinaryOf(answers.unpack(answers.download.value.body.bytes), candidate)
    && answers.version(candidate).Some? && TrimSpace(answers.version(candidate).value) == r.version
  }

  ghost predicate IsTheBinaryOf(archive: Option<Archive>, candidate: Bytes)
  {
    archive.Some? && exists i :: HoldsBinary(archive.value, i) && candidate == archive.value.entries[i].content.bytes
  }

  /** The download is accepted: it answers 200 and neither declares nor delivers more than 200 MiB. */
  ghost predicate Delivers(response: Option<Response>, archive: Bytes)
  {
    && response.Some? && response.value.status == 200 && response.value.declared <= 209_715_200
    && response.value.body == Stream(archive, false) && |archive| <= 209_715_200
  }

  /** The feed or, if it has no digest, the checksum file that it names spells the digest. */
  ghost predicate Spelled(feed: Feed, answers: Answers, d: Digest)
  {
    var name := "zimaos-monitor-" + feed.tag + "-linux-amd64.tar.gz";
    var binary, checksum := LastNamed(feed.assets, name), LastNamed(feed.assets, name + ".sha256");
    && binary.Some? && binary.value.url != ""
    && exists text | IsDigestText(binary.value.digest, text) ::
         if text != "" then
           IsHexText(text) && DecodedHex(text) == d && NoUpperCase(text)
         else
           && checksum.Some? && checksum.value.url != ""
           && answers.checksum.Some? && answers.checksum.value.status == 200
           && answers.checksum.value.payload.Some?
           && PublishesWithin(answers.checksum.value.payload.value, d, 4097)
  }

  /** FROM FEED TO ARCHIVE. The release that a feed shows vouches for the download exactly when the download
      is accepted and the feed, or else the checksum file, spells its digest. */
  lemma VouchedExactly(feed: Feed, r: Release, answers: Answers)
    requires Shows(feed, r)
    ensures Vouched(r, answers)
       <==> exists archive :: Delivers(answers.download, archive) && Spelled(feed, answers, answers.sha256(archive))
  {
    if answers.download.Some? {
      var archive := answers.download.value.body.bytes;
      var d := answers.sha256(archive);
      SpelledExactly(feed, r, answers, d);
      assert Delivers(answers.download, archive)
         <==> Acceptable(answers.download.value, 2 * MAX_BINARY_SIZE);
      assert forall other | Delivers(answers.download, other) :: other == archive;
    }
  }

  lemma SpelledExactly(feed: Feed, r: Release, answers: Answers, d: Digest)
    requires Shows(feed, r)
    ensures Spelled(feed, answers, d) <==> Complete(r) && Expected(r, answers) == Some(HexText(d))
  {
    var name := "zimaos-monitor-" + feed.tag + "-linux-amd64.tar.gz";
    assert name + ".sha256" == "zimaos-monitor-" + feed.tag + "-linux-amd64.tar.gz.sha256";
    var binary := LastNamed(feed.assets, name);
    if binary.Some? {
      TrimmedDigest(binary.value.digest);
      FeedDigestExactly(r.sha256, d);
      if answers.checksum.Some? && answers.checksum.value.payload.Some? {
        PublishedChecksumExactly(answers.checksum.value.payload.value, d);
      }
    }
  }

  /** A digest in the feed, labelled as the feed does, vouches for exactly the archives that have it. */
  lemma LabelledDigestVouchesExactly(feed: Feed, r: Release, answers: Answers, d: Digest)
    requires Shows(feed, r)
    requires var binary := LastNamed(feed.assets, "zimaos-monitor-" + feed.tag + "-linux-amd64.tar.gz");
             binary.Some? && binary.value.url != "" && binary.value.digest == "sha256:" + HexText(d)
    ensures Vouched(r, answers)
       <==> exists archive :: Delivers(answers.download, archive) && answers.sha256(archive) == d
  {
    VouchedExactly(feed, r, answers);
    var digest := "sha256:" + HexText(d);
    TrimmedDigest(digest);
    FeedDigestExactly(HexText(d), d);
    assert IsDigestText(digest, HexText(d));
    forall e: Digest ensures Spelled(feed, answers, e) <==> e == d {
      assert HexText(d) != "";
    }
  }

  /** The version command prints the version, between white space. */
  ghost predicate Prints(output: Option<string>, version: string)
  {
    exists before, after | AllSpaces(before) && AllSpaces(after) :: output == Some(before + (version + after))
  }

  lemma PrintsExactly(output: Option<string>, version: string)
    requires version != "" && Trimmed(version)
    ensures Prints(output, version) <==> output.Some? && TrimSpace(output.value) == version
  {
    if output.Some? && TrimSpace(output.value) == version {
      var before := TrimLeftSplits(output.value);
      var after := TrimRightSplits(TrimLeft(output.value));
      assert output.value == before + (version + after);
    }
    if Prints(output, version) {
      var before, after :| AllSpaces(before) && AllSpaces(after) && output == Some(before + (version + after));
      assert (version + after)[0] == version[0];
      TrimLeftDrops(before, version + after);
      TrimRightDrops(version, after);
    }
  }

  /** Entry i is a regular file of 1 byte to 100 MiB that reads whole, and the only one called
      zimaos-monitor. */
  ghost predicate OnlyBinary(a: Archive, i: int, content: Bytes)
  {
    && 0 <= i < |a.entries| && a.clean && NamesFile(a.entries[i].name, "zimaos-monitor")
    && a.entries[i].kind == RegularFile && a.entries[i].content == Stream(content, false)
    && a.entries[i].size == |content| && 1 <= |content| <= 104_857_600
    && forall j | 0 <= j < |a.entries| && j != i :: !NamesFile(a.entries[j].name, "zimaos-monitor")
  }

  /** WHAT IS INSTALLED. The candidate of a stable release is genuine exactly when the archive is vouched
      for, the candidate is the only binary in it, and it prints the version of the release. */
  lemma GenuineExactly(r: Release, answers: Answers, candidate: Bytes)
    requires FindStable(r.version).Some?
    ensures Genuine(r, answers, candidate)
       <==> && Vouched(r, answers) && Prints(answers.version(candidate), r.version)
            && exists a, i ::
                 answers.unpack(answers.download.value.body.bytes) == Some(a) && OnlyBinary(a, i, candidate)
  {
    StableIsTrimmed(r.version);
    PrintsExactly(answers.version(candidate), r.version);
    if Vouched(r, answers) {
      var archive := answers.unpack(answers.download.value.body.bytes);
      if archive.Some? {
        forall i ensures OnlyBinary(archive.value, i, candidate)
                    <==> HoldsBinary(archive.value, i) && candidate == archive.value.entries[i].content.bytes
        {
          OnlyBinaryExactly(archive.value, i, candidate);
        }
      }
    }
  }

  lemma OnlyBinaryExactly(a: Archive, i: int, content: Bytes)
    ensures OnlyBinary(a, i, content) <==> HoldsBinary(a, i) && content == a.entries[i].content.bytes
  {
    forall j | 0 <= j < |a.entries|
      ensures a.entries[j].IsBinary() <==> NamesFile(a.entries[j].name, "zimaos-monitor")
    {
      BaseExactly(a.entries[j].name, "zimaos-monitor");
    }
  }

  lemma UniqueCandidate(r: Release, answers: Answers, c: Bytes)
    requires Vouched(r, answers) && IsTheBinaryOf(answers.unpack(answers.download.value.body.bytes), c)
    ensures forall d :: Genuine(r, answers, d) ==> d == c
  {
    forall d | Genuine(r, answers, d) ensures d == c {
      TheBinaryIsUnique(answers.unpack(answers.download.value.body.bytes), c, d);
    }
  }

  lemma BinaryExists(a: Archive)
    ensures (exists c :: IsTheBinaryOf(Some(a), c)) <==> exists i :: HoldsBinary(a, i)
  {
    if i :| HoldsBinary(a, i) {
      assert IsTheBinaryOf(Some(a), a.entries[i].content.bytes);
    }
  }

  lemma TheBinaryIsUnique(archive: Option<Archive>, c: Bytes, d: Bytes)
    requires IsTheBinaryOf(archive, c) && IsTheBinaryOf(archive, d)
    ensures c == d
  {
    var i :| HoldsBinary(archive.value, i) && c == archive.value.entries[i].content.bytes;
    var j :| HoldsBinary(archive.value, j) && d == archive.value.entries[j].content.bytes;
    assert i == j;
  }

  /** The fresh directory of one update: the downloaded archive and the extracted candidate. */
  class WorkDirectory {
    var archive: Option<Bytes>
    var candidate: Option<Bytes>
    /** How the operations on local files have ended: creating, writing, syncing, opening and reading. */
    var attempts: seq<bool>

    constructor ()
      ensures archive == None && candidate == None && attempts == []
    {
      archive, candidate, attempts := None, None, [];
    }

    /** One operation of the local system, which may fail. */
    method Attempt() returns (ok: bool)
      modifies `attempts
      ensures attempts == old(attempts) + [ok] && attempts[|attempts| - 1] == ok
    {
      ok := *;
      attempts := attempts + [ok];
    }

    /** No operation since the first n has failed. */
    ghost predicate Succeeded(n: nat)
      reads this
    {
      forall i | n <= i < |attempts| :: attempts[i]
    }

    /** Downloads into a new file: exactly what is acceptable, unless a local operation fails. */
    method DownloadFile(response: Option<Response>, limit: nat) returns (ok: bool)
      requires archive == None
      modifies `archive, `attempts
      ensures old(attempts) <= attempts
      ensures ok <==> Succeeded(|old(attempts)|) && response.Some? && Acceptable(response.value, limit)
      ensures ok ==> archive == Some(response.value.body.bytes)
    {
      ok := false;
      if response.None? || response.value.status != 200 || response.value.declared > limit {
        return;
      }
      var created := Attempt();
      if !created {
        return;
      }
      var written, failed := CopyLimited(response.value.body, limit + 1);
      archive := Some(written);
      var stored := Attempt();
      if !stored || failed || |written| > limit {
        return;
      }
      ok := Attempt();
    }

    /** Everything between the release metadata and the backup: unless a local operation fails, it
        succeeds exactly when there is a genuine candidate, and then the candidate is that one. */
    method ObtainCandidate(r: Release, answers: Answers) returns (ok: bool)
      requires archive == None && candidate == None
      modifies this
      ensures old(attempts) <= attempts
      ensures ok <==> Succeeded(|old(attempts)|) && exists c :: Genuine(r, answers, c)
      ensures ok ==> candidate.Some? && Genuine(r, answers, candidate.value)
    {
      ok := false;
      if r.assetURL == "" || (r.sha256 == "" && r.checksumURL == "") {
        return;
      }
      var made := Attempt();
      if !made {
        return;
      }
      var downloaded := DownloadFile(answers.download, 2 * MAX_BINARY_SIZE);
      if !downloaded {
        return;
      }
      var expected := Some(r.sha256);
      if r.sha256 == "" {
        expected := DownloadChecksum(answers.checksum);
        if expected.None? {
          return;
        }
      }
      var hashed := Attempt();
      if !hashed || HexText(answers.sha256(archive.value)) != expected.value {
        return;
      }
      ok := ExtractCandidate(answers.unpack(archive.value));
      if !ok {
        return;
      }
      UniqueCandidate(r, answers, candidate.value);
      var version := answers.version(candidate.value);
      ok := version.Some? && TrimSpace(version.value) == r.version;
      assert ok ==> Genuine(r, answers, candidate.value);
    }

    method ExtractCandidate(archive: Option<Archive>) returns (ok: bool)
      requires candidate == None
      modifies `candidate, `attempts
      ensures old(attempts) <= attempts
      ensures ok <==> Succeeded(|old(attempts)|) && exists c :: IsTheBinaryOf(archive, c)
      ensures ok ==> candidate.Some? && IsTheBinaryOf(archive, candidate.value)
    {
      ok := Attempt();
      if !ok || archive.None? {
        return false;
      }
      BinaryExists(archive.value);
      ok := ExtractBinary(archive.value);
    }

    /** Extracts the one binary of an archive into a new file. */
    method ExtractBinary(a: Archive) returns (ok: bool)
      requires candidate == None
      modifies `candidate, `attempts
      ensures old(attempts) <= attempts
      ensures ok <==> Succeeded(|old(attempts)|) && exists i :: HoldsBinary(a, i)
      ensures ok ==> exists i :: HoldsBinary(a, i) && candidate == Some(a.entries[i].content.bytes)
    {
      var found := false;
      ghost var at: Option<nat> := None;
      for k := 0 to |a.entries|
        invariant old(attempts) <= attempts && Succeeded(|old(attempts)|)
        invariant Scanned(a, k, at) && found == at.Some?
        invariant candidate == if at.Some? then Some(a.entries[at.value].content.bytes) else None
      {
        var e := a.entries[k];
        if !e.IsBinary() {
          ScanSkips(a, k, at);
          continue;
        }
        if found || e.kind != RegularFile || e.size <= 0 || e.size > MAX_BINARY_SIZE {
          ScanRefuses(a, k, at);
          return false;
        }
        ok := CopyEntry(e);
        if !ok {
          if Succeeded(|old(attempts)|) {
            ScanRefuses(a, k, at);
          }
          return;
        }
        ScanFinds(a, k);
        found, at := true, Some(k);
      }
      ScanEnds(a, at);
      ok := a.clean && found;
    }

    method CopyEntry(e: Entry) returns (ok: bool)
      requires candidate == None && e.kind == RegularFile && 1 <= e.size <= MAX_BINARY_SIZE
      modifies `candidate, `attempts
      ensures old(attempts) <= attempts
      ensures ok <==> Succeeded(|old(attempts)|) && e.Usable()
      ensures ok ==> candidate == Some(e.content.bytes)
    {
      var created := Attempt();
      if !created {
        return false;
      }
      var written, failed := CopyLimited(e.content, MAX_BINARY_SIZE + 1);
      candidate := Some(written);
      var stored := Attempt();
      ok := stored && !failed && |written| == e.size && |written| <= MAX_BINARY_SIZE;
    }
  }

  /** The first n entries hold no binary, or exactly one at the given place, and that is usable. */
  ghost predicate Scanned(a: Archive, n: nat, at: Option<nat>)
  {
    && n <= |a.entries|
    && (at.Some? ==> at.value < n && a.entries[at.value].IsBinary() && a.entries[at.value].Usable())
    && forall j | 0 <= j < n && Some(j) != at :: !a.entries[j].IsBinary()
  }

  lemma ScanSkips(a: Archive, k: nat, at: Option<nat>)
    requires Scanned(a, k, at) && k < |a.entries| && !a.entries[k].IsBinary()
    ensures Scanned(a, k + 1, at)
  {}

  lemma ScanFinds(a: Archive, k: nat)
    requires Scanned(a, k, None) && k < |a.entries| && a.entries[k].IsBinary() && a.entries[k].Usable()
    ensures Scanned(a, k + 1, Some(k))
  {}

  lemma ScanRefuses(a: Archive, k: nat, at: Option<nat>)
    requires Scanned(a, k, at) && k < |a.entries| && a.entries[k].IsBinary()
    requires at.Some? || !a.entries[k].Usable()
    ensures !exists i :: HoldsBinary(a, i)
  {}

  lemma ScanEnds(a: Archive, at: Option<nat>)
    requires Scanned(a, |a.entries|, at)
    ensures (exists i :: HoldsBinary(a, i)) <==> a.clean && at.Some?
    ensures a.clean && at.Some? ==> HoldsBinary(a, at.value)
  {
    if a.clean && at.Some? {
      assert HoldsBinary(a, at.value);
    }
  }
}
