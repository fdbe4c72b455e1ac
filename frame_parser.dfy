/** `hexParser`: decodes one logged XBee AT Command Response frame, given as hex
    text, by fixed offsets. The start delimiter and the length field are read
    but never checked. */
module FrameParser {
  import opened Text
  import opened Numerals
  import opened Checksum

  /** The fields `hexParser` returns in its dictionary. `checksumCalculated`
      is a one-element tuple in the source (a trailing comma) and is a
      one-element sequence here. */
  datatype Frame = Frame(
    startDelimiter: string,
    length: nat,
    frameType: string,
    frameId: string,
    destination64: string,
    destination16: string,
    atCommand: string,
    status: string,
    dbmResponse: string,
    checksum: string,
    checksumAdded: string,
    checksumCalculated: seq<string>,
    hexList: seq<string>)

  /** Where Python's slice `[36:38]` ends on text of length `n`. */
  function DbmEnd(n: nat): nat {
    if n < 38 then n else 38
  }

  /** Where the payload tokens end on text of length `n`: `[6:-2]` less an
      odd last character, which the token loop never reaches. */
  function PayloadEnd(n: nat): nat
    requires n >= 8
  {
    6 + 2 * ((n - 8) / 2)
  }

  /** Text, with its line feeds already removed, on which `hexParser` raises
      nothing: the slices it hands to `int(_, 16)` (`[2:6]`, the characters of
      `[6:-2]` cut into tokens and `[36:38]`) are non-empty hex digits. */
  predicate Parsable(s: string) {
    |s| >= 37 &&
    AllDigits(s[2..6], 16) && AllDigits(s[6..PayloadEnd(|s|)], 16) && AllDigits(s[36..DbmEnd(|s|)], 16)
  }

  /** The two-character tokens of `data`, in order; an odd last character is dropped. */
  function Pairs(data: string): (tokens: seq<string>)
    ensures |tokens| == |data| / 2
    decreases |data|
  {
    if |data| < 2 then [] else [data[..2]] + Pairs(data[2..])
  }

  /** Token `k` is the two characters at offset `2k`. */
  lemma {:induction false} PairsAt(data: string)
    ensures forall k :: 0 <= k < |Pairs(data)| ==> Pairs(data)[k] == data[2 * k..2 * k + 2]
    decreases |data|
  {
    if |data| >= 2 {
      var rest := Pairs(data[2..]);
      PairsAt(data[2..]);
      assert forall k :: 0 < k < |rest| + 1 ==> data[2..][2 * (k - 1)..2 * (k - 1) + 2] == data[2 * k..2 * k + 2];
    }
  }

  function Concat(tokens: seq<string>): string {
    if |tokens| == 0 then [] else tokens[0] + Concat(tokens[1..])
  }

  /** The tokens put back together are the data without an odd last character. */
  lemma {:induction false} PairsConcat(data: string)
    ensures Concat(Pairs(data)) == data[..|data| - |data| % 2]
    decreases |data|
  {
    if |data| >= 2 {
      PairsConcat(data[2..]);
      assert Pairs(data)[1..] == Pairs(data[2..]);
      assert data[..|data| - |data| % 2] == data[..2] + data[2..][..|data[2..]| - |data[2..]| % 2];
    }
  }

  /** Tokens cut from text whose characters, but for an odd last one, are hex
      digits are hex text: the odd last character is never read. */
  lemma PairsAreHex(data: string)
    requires AllDigits(data[..|data| - |data| % 2], 16)
    ensures AllHexTokens(Pairs(data))
  {
    var whole := data[..|data| - |data| % 2];
    PairsAt(data);
    AllDigitsAt(whole, 16);
    var tokens := Pairs(data);
    forall k | 0 <= k < |tokens|
      ensures IsNumeral(tokens[k], 16)
    {
      assert tokens[k][0] == whole[2 * k] && tokens[k][1] == whole[2 * k + 1];
      AllDigitsAt(tokens[k], 16);
    }
    AllHexTokensAt(tokens);
  }

  /** The payload tokens: `[6:-2]` cut into two-character pieces. */
  function Tokens(s: string): (hexs: seq<string>)
    requires Parsable(s)
    ensures AllHexTokens(hexs)
    ensures |hexs| == (|s| - 8) / 2
  {
    var data := s[6..|s| - 2];
    assert data[..|data| - |data| % 2] == s[6..PayloadEnd(|s|)];
    PairsAreHex(data);
    Pairs(data)
  }

  /** On text of odd length, the last character of `[6:-2]` is dropped by the
      token loop and read by no `int(_, 16)` (unless it is also the first
      character of `[36:38]`, on 39 characters): whatever it is, the text
      parses alike, with the same tokens and the same received checksum. */
  lemma DroppedCharacterUnread(s: string, c: char)
    requires |s| % 2 == 1 && (|s| == 37 || |s| >= 41)
    ensures var t := s[|s| - 3 := c];
      && (Parsable(t) <==> Parsable(s))
      && (Parsable(s) ==> Tokens(t) == Tokens(s))
      && t[|t| - 2..] == s[|s| - 2..]
  {
    var t := s[|s| - 3 := c];
    var n := PayloadEnd(|s|);
    assert n == |s| - 3;
    assert t[2..6] == s[2..6] && t[6..n] == s[6..n] && t[36..DbmEnd(|t|)] == s[36..DbmEnd(|s|)];
    if Parsable(s) {
      var ds, dt := s[6..|s| - 2], t[6..|t| - 2];
      PairsAt(ds);
      PairsAt(dt);
      forall k | 0 <= k < |ds| / 2
        ensures Pairs(dt)[k] == Pairs(ds)[k]
      {
        assert dt[2 * k] == ds[2 * k] && dt[2 * k + 1] == ds[2 * k + 1];
      }
    }
  }

  /** Token `k` is the two characters at offset `6 + 2k`. */
  lemma TokensAt(s: string)
    requires Parsable(s)
    ensures forall k :: 0 <= k < |Tokens(s)| ==> Tokens(s)[k] == s[6 + 2 * k..8 + 2 * k]
  {
    var data := s[6..|s| - 2];
    PairsAt(data);
    forall k | 0 <= k < |data| / 2
      ensures data[2 * k..2 * k + 2] == s[6 + 2 * k..8 + 2 * k]
    {
      assert data[2 * k] == s[6 + 2 * k] && data[2 * k + 1] == s[7 + 2 * k];
    }
  }

  /** Four hex digits are two bytes, most significant first. */
  lemma TwoBytes(field: string)
    requires |field| == 4 && AllDigits(field, 16)
    ensures AllDigits(field[..2], 16) && AllDigits(field[2..], 16)
    ensures Value(field, 16) == 0x100 * Value(field[..2], 16) + Value(field[2..], 16) < 0x1_0000
  {
    var high, low := field[..2], field[2..];
    assert field == high + low;
    AllDigitsParts(high, low, 16);
    ValueAppend(high, low, 16);
    ValueBound(high, 16);
    ValueBound(low, 16);
    assert Pow(16, 2) == 0x100;
  }

  /** `int(s[2:6], 16)`: the length field, two bytes, most significant first. */
  function LengthField(s: string): (n: nat)
    requires Parsable(s)
    ensures AllDigits(s[2..4], 16) && AllDigits(s[4..6], 16)
    ensures n == 0x100 * Value(s[2..4], 16) + Value(s[4..6], 16) < 0x1_0000
  {
    TwoBytes(s[2..6]);
    assert s[2..6][..2] == s[2..4] && s[2..6][2..] == s[4..6];
    Value(s[2..6], 16)
  }

  /** `int(s[36:38], 16)`: the unsigned response byte. */
  function ResponseByte(s: string): (b: nat)
    requires Parsable(s)
    ensures b <= 0xFF
  {
    ValueBound(s[36..DbmEnd(|s|)], 16);
    assert Pow(16, 2) == 0x100 && Pow(16, 1) == 0x10;
    Value(s[36..DbmEnd(|s|)], 16)
  }

  /** `hexAdder(hexs)[-2:]`: the last two digits of the token sum. */
  function ChecksumAdded(hexs: seq<string>): (added: string)
    requires AllHexTokens(hexs)
    ensures IsNumeral(added, 16) && Value(added, 16) == SumHex(hexs) % 0x100
  {
    LastTwoOfRender(SumHex(hexs));
    LastTwo(Render(SumHex(hexs), 16))
  }

  /** The dictionary `hexParser` builds, on text whose line feeds are removed. */
  function Decode(s: string): Frame
    requires Parsable(s)
  {
    var hexs := Tokens(s);
    var added := ChecksumAdded(hexs);
    Frame(s[..2], LengthField(s), s[6..8], s[8..10], s[10..26], s[26..30], s[30..34], s[34..36],
          Render(ResponseByte(s), 10), s[|s| - 2..], added, [ChecksumGenerator(added)], hexs)
  }

  /** The dictionary `hexParser` returns for the received text. */
  function ParseFrame(receivedHex: string): Frame
    requires Parsable(RemoveNewlines(receivedHex))
  {
    Decode(RemoveNewlines(receivedHex))
  }

  /** The loop of `hexParser` that cuts the data into two-character tokens. */
  method CutTokens(data: string) returns (hexs: seq<string>)
    ensures hexs == Pairs(data)
  {
    hexs := [];
    PairsAt(data);
    var i := 0;
    while i < |data| - 1
      invariant 0 <= i <= |data| && i % 2 == 0
      invariant |hexs| == i / 2
      invariant forall k :: 0 <= k < |hexs| ==> hexs[k] == data[2 * k..2 * k + 2]
    {
      hexs := hexs + [data[i..i + 2]];
      i := i + 2;
    }
  }

  /** `hexAdder(hexs)[-2:]`, as `hexParser` computes it. */
  method AddedChecksum(hexs: seq<string>) returns (added: string)
    requires AllHexTokens(hexs)
    ensures added == ChecksumAdded(hexs)
  {
    var sum := HexAdder(hexs);
    RenderValue(sum, 16);
    added := LastTwo(sum);
  }

  /** The body of `hexParser` once the line feeds are removed: cuts `[6:-2]`
      into tokens in a loop, slices the fixed fields and derives the checksum
      fields. */
  method DecodeText(s: string) returns (f: Frame)
    requires Parsable(s)
    ensures f == Decode(s)
  {
    var hexs := CutTokens(s[6..|s| - 2]);
    assert hexs == Tokens(s);
    var added := AddedChecksum(hexs);
    f := Frame(s[..2], LengthField(s), s[6..8], s[8..10], s[10..26], s[26..30], s[30..34], s[34..36],
               Render(ResponseByte(s), 10), s[|s| - 2..], added, [ChecksumGenerator(added)], hexs);
  }

  /** `hexParser`: strips line feeds, then decodes the text by fixed offsets. */
  method HexParser(receivedHex: string) returns (f: Frame)
    requires Parsable(RemoveNewlines(receivedHex))
    ensures f == ParseFrame(receivedHex)
  {
    var s := RemoveNewlines(receivedHex);
    f := DecodeText(s);
  }

  /** The payload tokens joined together are the text from offset 6 on, two
      characters per token. */
  lemma PayloadConcat(s: string)
    requires |s| >= 8
    ensures Concat(Pairs(s[6..|s| - 2])) == s[6..PayloadEnd(|s|)]
  {
    var data := s[6..|s| - 2];
    var n := 2 * ((|s| - 8) / 2);
    PairsConcat(data);
    assert |data| - |data| % 2 == n;
    forall i | 0 <= i < n
      ensures data[..n][i] == s[6..6 + n][i]
    {
    }
    assert data[..n] == s[6..6 + n];
  }

  /** `hex_list`: the consecutive two-character pieces of `[6:-2]` (after the
      line feeds are removed), in order, `len(data) // 2` of them; joined back
      together they give `[6:-2]` less an odd last character. */
  lemma ParseTokens(receivedHex: string)
    requires Parsable(RemoveNewlines(receivedHex))
    ensures var s, f := RemoveNewlines(receivedHex), ParseFrame(receivedHex);
      && AllHexTokens(f.hexList)
      && |f.hexList| == (|s| - 8) / 2
      && (forall k :: 0 <= k < |f.hexList| ==> f.hexList[k] == s[6 + 2 * k..8 + 2 * k])
  {
    ParseFrameHexList(receivedHex);
    TokensAt(RemoveNewlines(receivedHex));
  }

  /** The payload tokens joined back together are the text from offset 6 on. */
  lemma TokensConcat(s: string)
    requires Parsable(s)
    ensures Concat(Tokens(s)) == s[6..PayloadEnd(|s|)]
  {
    PayloadConcat(s);
  }

  /** Consecutive tokens joined together are the text they were cut from. */
  lemma {:induction false} ConcatRange(hexs: seq<string>, s: string, lo: nat, hi: nat)
    requires lo <= hi <= |hexs| && 6 + 2 * |hexs| <= |s|
    requires forall k :: 0 <= k < |hexs| ==> hexs[k] == s[6 + 2 * k..8 + 2 * k]
    ensures Concat(hexs[lo..hi]) == s[6 + 2 * lo..6 + 2 * hi]
    decreases hi - lo
  {
    if lo < hi {
      ConcatRange(hexs, s, lo + 1, hi);
      assert hexs[lo..hi][1..] == hexs[lo + 1..hi];
      assert s[6 + 2 * lo..6 + 2 * hi] == s[6 + 2 * lo..8 + 2 * lo] + s[8 + 2 * lo..6 + 2 * hi];
    }
  }

  /** The fixed fields after the length are runs of whole payload tokens: frame
      type and frame id are tokens 0 and 1, the 64-bit address tokens 2 to 9,
      the 16-bit address tokens 10 and 11, the AT command tokens 12 and 13, the
      status token 14 and the response byte token 15, once the text is long
      enough to hold them as tokens. */
  lemma HeaderFieldsAreTokens(receivedHex: string)
    requires Parsable(RemoveNewlines(receivedHex))
    ensures var s, f := RemoveNewlines(receivedHex), ParseFrame(receivedHex);
      && |f.hexList| >= 14
      && f.frameType == f.hexList[0]
      && f.frameId == f.hexList[1]
      && f.destination64 == Concat(f.hexList[2..10])
      && f.destination16 == Concat(f.hexList[10..12])
      && f.atCommand == Concat(f.hexList[12..14])
      && (|s| >= 38 ==> f.status == f.hexList[14])
      && (|s| >= 40 ==> s[36..DbmEnd(|s|)] == f.hexList[15])
  {
    ParseFrameHexList(receivedHex);
    ParseFrameHeader(receivedHex);
    TokenFields(RemoveNewlines(receivedHex));
  }

  lemma TokenFields(s: string)
    requires Parsable(s)
    ensures var hexs := Tokens(s);
      && |hexs| >= 14
      && hexs[0] == s[6..8] && hexs[1] == s[8..10]
      && Concat(hexs[2..10]) == s[10..26]
      && Concat(hexs[10..12]) == s[26..30]
      && Concat(hexs[12..14]) == s[30..34]
      && (|s| >= 38 ==> hexs[14] == s[34..36])
      && (|s| >= 40 ==> hexs[15] == s[36..DbmEnd(|s|)])
  {
    var hexs := Tokens(s);
    TokensAt(s);
    ConcatRange(hexs, s, 2, 10);
    ConcatRange(hexs, s, 10, 12);
    ConcatRange(hexs, s, 12, 14);
  }

  /** The numeric fields: `length` is the two bytes at `[2:6]`, most significant
      first; `dbm_response` is the decimal text, without leading zeros, of the
      unsigned byte at `[36:38]`. */
  lemma ParseNumericFields(receivedHex: string)
    requires Parsable(RemoveNewlines(receivedHex))
    ensures var s, f := RemoveNewlines(receivedHex), ParseFrame(receivedHex);
      && AllDigits(s[2..4], 16) && AllDigits(s[4..6], 16)
      && f.length == 0x100 * Value(s[2..4], 16) + Value(s[4..6], 16) < 0x1_0000
      && IsCanonical(f.dbmResponse, 10)
      && Value(f.dbmResponse, 10) == Value(s[36..DbmEnd(|s|)], 16) <= 0xFF
  {
    ParseFrameNumbers(receivedHex);
  }

  /** The checksum fields: `checksum` is the last two characters,
      `checksum_added` holds the token sum modulo 256, and `checksum_calculated`
      is a one-element tuple holding 0xFF minus that. */
  lemma ParseChecksumFields(receivedHex: string)
    requires Parsable(RemoveNewlines(receivedHex))
    ensures var s, f := RemoveNewlines(receivedHex), ParseFrame(receivedHex);
      && AllHexTokens(f.hexList)
      && f.checksum == s[|s| - 2..]
      && IsNumeral(f.checksumAdded, 16) && Value(f.checksumAdded, 16) == SumHex(f.hexList) % 0x100
      && |f.checksumCalculated| == 1 && IsCanonical(f.checksumCalculated[0], 16)
      && Value(f.checksumCalculated[0], 16) == 0xFF - SumHex(f.hexList) % 0x100
  {
    ParseFrameHexList(receivedHex);
    ParseFrameChecksum(receivedHex);
    ParseFrameAdded(receivedHex);
  }

  /** `replace("\n", "")` comes first, so line feeds anywhere in the input
      change nothing: the frame of the cleaned text is the frame of the text. */
  lemma NewlinesIgnored(receivedHex: string)
    requires Parsable(RemoveNewlines(receivedHex))
    ensures Parsable(RemoveNewlines(RemoveNewlines(receivedHex)))
    ensures ParseFrame(RemoveNewlines(receivedHex)) == ParseFrame(receivedHex)
  {
    RemoveNewlinesIdempotent(receivedHex);
  }

  /** A logged line read with its line ending decodes as the line itself. */
  lemma LineEndingIgnored(line: string)
    requires '\n' !in line && Parsable(line)
    ensures Parsable(RemoveNewlines(line + "\n"))
    ensures ParseFrame(line + "\n") == Decode(line)
  {
    LineEndingRemoved(line);
  }

  /** The checksum `hexParser` calculates always passes the integrity check
      against the tokens it was calculated from. */
  lemma CalculatedChecksumPasses(receivedHex: string)
    requires Parsable(RemoveNewlines(receivedHex))
    ensures var f := ParseFrame(receivedHex);
      && AllHexTokens(f.hexList)
      && |f.checksumCalculated| == 1 && IsNumeral(f.checksumCalculated[0], 16)
      && IntegrityHolds(f.hexList, f.checksumCalculated[0])
  {
    var f := ParseFrame(receivedHex);
    ParseChecksumFields(receivedHex);
    ChecksumUnique(f.hexList, f.checksumCalculated[0]);
  }

  /** The received checksum passes the integrity check exactly when it has the
      value of the one `hexParser` calculates. */
  lemma CheckMatchesCalculated(receivedHex: string)
    requires Parsable(RemoveNewlines(receivedHex))
    requires var s := RemoveNewlines(receivedHex); IsNumeral(s[|s| - 2..], 16)
    ensures var f := ParseFrame(receivedHex);
      && AllHexTokens(f.hexList) && IsNumeral(f.checksum, 16)
      && |f.checksumCalculated| == 1 && IsNumeral(f.checksumCalculated[0], 16)
      && (IntegrityHolds(f.hexList, f.checksum) <==> Value(f.checksum, 16) == Value(f.checksumCalculated[0], 16))
  {
    var f := ParseFrame(receivedHex);
    ParseChecksumFields(receivedHex);
    ValueBound(f.checksum, 16);
    assert Pow(16, 2) == 0x100 && Pow(16, 1) == 0x10;
    ChecksumUnique(f.hexList, f.checksum);
  }

  /** `hex_list`, in terms of the text alone. */
  lemma ParseFrameHexList(receivedHex: string)
    requires Parsable(RemoveNewlines(receivedHex))
    ensures ParseFrame(receivedHex).hexList == Tokens(RemoveNewlines(receivedHex))
  {
  }

  /** `checksum`, in terms of the text alone. */
  lemma ParseFrameChecksum(receivedHex: string)
    requires Parsable(RemoveNewlines(receivedHex))
    ensures var s := RemoveNewlines(receivedHex); ParseFrame(receivedHex).checksum == s[|s| - 2..]
  {
  }

  /** The fixed header fields, in terms of the text alone. */
  lemma ParseFrameHeader(receivedHex: string)
    requires Parsable(RemoveNewlines(receivedHex))
    ensures var s, f := RemoveNewlines(receivedHex), ParseFrame(receivedHex);
      && f.frameType == s[6..8] && f.frameId == s[8..10] && f.destination64 == s[10..26]
      && f.destination16 == s[26..30] && f.atCommand == s[30..34] && f.status == s[34..36]
  {
  }

  /** `length` and `dbm_response`, in terms of the text alone. */
  lemma ParseFrameNumbers(receivedHex: string)
    requires Parsable(RemoveNewlines(receivedHex))
    ensures var s, f := RemoveNewlines(receivedHex), ParseFrame(receivedHex);
      f.length == LengthField(s) && f.dbmResponse == Render(ResponseByte(s), 10)
  {
  }

  /** `checksum_added` and `checksum_calculated`, in terms of the tokens. */
  lemma ParseFrameAdded(receivedHex: string)
    requires Parsable(RemoveNewlines(receivedHex))
    ensures var f := ParseFrame(receivedHex);
      && f.checksumAdded == ChecksumAdded(Tokens(RemoveNewlines(receivedHex)))
      && f.checksumCalculated == [ChecksumGenerator(f.checksumAdded)]
  {
  }

  /** `dbm_response` read back as a number, in terms of the text alone. */
  lemma ParseFrameDbm(receivedHex: string)
    requires Parsable(RemoveNewlines(receivedHex))
    ensures AllDigits(ParseFrame(receivedHex).dbmResponse, 10)
    ensures Value(ParseFrame(receivedHex).dbmResponse, 10) == ResponseByte(RemoveNewlines(receivedHex))
  {
  }
}
