/**
  Identifiers: how a dump's identifier is read, what a well-formed key looks
  like, and the fixed positions inside an 18-character amiibo key that the
  cross-reference checks and the image name rely on.
 */
module AmiiboId {
  import opened Hex

  /** The identifier field of a dump: 8 bytes starting at offset 0x54. */
  const DumpIdOffset: nat := 0x54
  const DumpIdBytes: nat := 8

  /** "0x" followed by 16 hex digits. */
  const AmiiboIdLength: nat := 18

  /** Fixed key lengths of the five catalog collections, prefix included. */
  const AmiiboSeriesIdLength: nat := 4
  const CharacterIdLength: nat := 6
  const GameSeriesIdLength: nat := 5
  const TypeIdLength: nat := 4

  function Min(a: int, b: int): int { if a <= b then a else b }

  /**
    The bytes a dump contributes to its identifier: skip 0x54 bytes, then take
    at most 8, so a short file yields fewer bytes or none at all.
   */
  function IdField(content: seq<byte>): (w: seq<byte>)
    ensures |content| <= DumpIdOffset ==> w == []
    ensures |content| > DumpIdOffset ==> |w| == Min(DumpIdBytes, |content| - DumpIdOffset)
    ensures forall i :: 0 <= i < |w| ==> w[i] == content[DumpIdOffset + i]
  {
    if |content| <= DumpIdOffset then []
    else content[DumpIdOffset..Min(DumpIdOffset + DumpIdBytes, |content|)]
  }

  /** The identifier the scanner derives from a dump's contents. */
  function DumpId(content: seq<byte>): (id: string)
    ensures |id| == 2 + 2 * |IdField(content)| <= AmiiboIdLength
    ensures id[..2] == "0x"
    ensures forall i :: 2 <= i < |id| ==> IsLowerHexDigit(id[i])
  {
    "0x" + Encode(IdField(content))
  }

  /** Reads the identifier field back out of a derived identifier. */
  function ParseDumpId(id: string): Maybe.Option<seq<byte>>
  {
    if |id| >= 2 && id[..2] == "0x" then Decode(id[2..]) else Maybe.None
  }

  /** The derived identifier determines the identifier field, byte for byte. */
  lemma DumpIdRoundTrip(content: seq<byte>)
    ensures ParseDumpId(DumpId(content)) == Maybe.Some(IdField(content))
  {
    var id := DumpId(content);
    assert id[2..] == Encode(IdField(content));
    DecodeEncode(IdField(content));
  }

  /** Two dumps get the same identifier exactly when their identifier fields agree. */
  lemma DumpIdSameIff(a: seq<byte>, b: seq<byte>)
    ensures DumpId(a) == DumpId(b) <==> IdField(a) == IdField(b)
  {
    if DumpId(a) == DumpId(b) {
      DumpIdRoundTrip(a);
      DumpIdRoundTrip(b);
    }
  }

  /** A dump yields a full-length amiibo identifier exactly when it reaches offset 0x5C. */
  lemma DumpIdFullLength(content: seq<byte>)
    ensures |DumpId(content)| == AmiiboIdLength <==> |content| >= DumpIdOffset + DumpIdBytes
  {
  }

  /**
    The intended meaning of the pattern ^0x[a-f0-9]+$: the prefix "0x" and then
    one or more lowercase hex digits, nothing else.
   */
  predicate IsHexId(s: string) {
    |s| >= 3 && s[0] == '0' && s[1] == 'x' && forall i :: 2 <= i < |s| ==> IsLowerHexDigit(s[i])
  }

  /** A key of a collection is valid when it has the collection's length and the hex form. */
  predicate IsValidKey(len: nat, s: string) {
    |s| == len && IsHexId(s)
  }

  /** Checks the pattern one character at a time, as a matcher would. */
  method MatchHexId(s: string) returns (ok: bool)
    ensures ok <==> IsHexId(s)
    ensures ok ==> forall i :: 0 <= i < |s| ==> s[i] != '\n'
  {
    if |s| < 3 || s[0] != '0' || s[1] != 'x' {
      return false;
    }
    var i := 2;
    while i < |s|
      invariant 2 <= i <= |s|
      invariant forall j :: 2 <= j < i ==> IsLowerHexDigit(s[j])
    {
      if !IsLowerHexDigit(s[i]) {
        return false;
      }
      i := i + 1;
    }
    return true;
  }

  /**
    The pattern ^0x[a-f0-9]+$ as the .NET engine evaluates it: without the
    Multiline option '$' also matches just before a final '\n', so one trailing
    line feed is accepted.
   */
  predicate MatchesAsWritten(s: string): (accepted: bool)
    ensures IsHexId(s) ==> accepted
    ensures accepted ==> |s| >= 3 && s[..2] == "0x"
    ensures accepted && !IsHexId(s) ==> s[|s| - 1] == '\n' && '\n' !in s[..|s| - 1]
  {
    IsHexId(s) || (|s| >= 1 && s[|s| - 1] == '\n' && IsHexId(s[..|s| - 1]))
  }

  /** The engine accepts a four-character amiibo-series key that is not a hex identifier. */
  lemma AsWrittenAcceptsTrailingLineFeed()
    ensures var key := "0xa\n";
      |key| == AmiiboSeriesIdLength && MatchesAsWritten(key) && !IsValidKey(AmiiboSeriesIdLength, key)
  {
    var key := "0xa\n";
    assert key[..|key| - 1] == "0xa";
    assert !IsLowerHexDigit(key[3]);
  }

  /** Outside that case the engine and the intended predicate agree. */
  lemma AsWrittenAgreesWithoutTrailingLineFeed(s: string)
    requires |s| == 0 || s[|s| - 1] != '\n'
    ensures MatchesAsWritten(s) <==> IsHexId(s)
  {
  }

  /** Every full-length dump identifier is a valid amiibo key. */
  lemma FullDumpIdIsValid(content: seq<byte>)
    ensures IsValidKey(AmiiboIdLength, DumpId(content)) <==> |content| >= DumpIdOffset + DumpIdBytes
  {
    var id := DumpId(content);
    if |content| >= DumpIdOffset + DumpIdBytes {
      assert id[0] == id[..2][0] && id[1] == id[..2][1];
    }
  }

  /** The three positional codes inside an amiibo key that catalog collections are keyed by. */
  datatype Segment = GameSeriesCode | AmiiboSeriesCode | CharacterCode

  function SegmentStart(seg: Segment): nat {
    match seg
    case GameSeriesCode => 2
    case AmiiboSeriesCode => 14
    case CharacterCode => 2
  }

  function SegmentEnd(seg: Segment): nat {
    match seg
    case GameSeriesCode => 5
    case AmiiboSeriesCode => 16
    case CharacterCode => 6
  }

  /** The code a key carries at a segment's position, without the "0x" prefix. */
  function Slice(seg: Segment, key: string): (code: string)
    requires |key| >= AmiiboIdLength
    ensures |code| == SegmentEnd(seg) - SegmentStart(seg)
    ensures forall i :: 0 <= i < |code| ==> code[i] == key[SegmentStart(seg) + i]
  {
    key[SegmentStart(seg)..SegmentEnd(seg)]
  }

  /**
    The catalog key an amiibo key implies for a segment. The game series is
    looked up by the key's own first five characters; the amiibo series by
    "0x" and the two characters at 14..16.
   */
  function ImpliedKey(seg: Segment, key: string): (implied: string)
    requires |key| >= AmiiboIdLength
    ensures |implied| == 2 + |Slice(seg, key)|
    ensures implied[2..] == Slice(seg, key)
    ensures implied[..2] == if seg == GameSeriesCode then key[..2] else "0x"
  {
    match seg
    case GameSeriesCode => key[..5]
    case _ => "0x" + Slice(seg, key)
  }

  /** For a key with the "0x" prefix the implied key is "0x" and the slice. */
  lemma ImpliedKeyIsPrefixedSlice(seg: Segment, key: string)
    requires |key| >= AmiiboIdLength && key[..2] == "0x"
    ensures ImpliedKey(seg, key) == "0x" + Slice(seg, key)
    ensures ImpliedKey(seg, key)[2..] == Slice(seg, key)
  {
    if seg == GameSeriesCode {
      assert key[..5] == key[..2] + key[2..5];
    }
  }

  /** The icon file for an amiibo: "icon_" + key[2..10] + "-" + key[10..18] + ".png". */
  function ImageName(key: string): (name: string)
    requires |key| >= AmiiboIdLength
    ensures |name| == 26
  {
    "icon_" + key[2..10] + "-" + key[10..18] + ".png"
  }

  /** Recovers the amiibo key an icon name was made from. */
  function KeyOfImageName(name: string): string
    requires |name| == 26
  {
    "0x" + name[5..13] + name[14..22]
  }

  /** The icon name depends only on the first 18 characters of the key. */
  lemma ImageNameUsesFirstEighteen(key: string)
    requires |key| >= AmiiboIdLength
    ensures ImageName(key) == ImageName(key[..AmiiboIdLength])
  {
  }

  /** For a key with the "0x" prefix, the icon name gives back the key's first 18 characters. */
  lemma {:induction false} ImageNameRoundTrip(key: string)
    requires |key| >= AmiiboIdLength && key[..2] == "0x"
    ensures KeyOfImageName(ImageName(key)) == key[..AmiiboIdLength]
  {
    var name := ImageName(key);
    assert name[5..13] == key[2..10];
    assert name[14..22] == key[10..18];
    assert key[..AmiiboIdLength] == key[..2] + key[2..10] + key[10..18];
  }

  /** Distinct 18-character keys with the "0x" prefix never share an icon. */
  lemma ImageNameInjective(a: string, b: string)
    requires |a| == AmiiboIdLength && a[..2] == "0x"
    requires |b| == AmiiboIdLength && b[..2] == "0x"
    requires ImageName(a) == ImageName(b)
    ensures a == b
  {
    ImageNameRoundTrip(a);
    ImageNameRoundTrip(b);
  }
}
