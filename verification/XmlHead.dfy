/** The XML declaration in six byte-order forms: printing it and parsing it back. */
module XmlHead {
  import opened Common
  import opened ByteOrder
  import opened Convd

  function Ascii(s: string): (r: seq<byte>)
    ensures |r| == |s|
  {
    seq(|s|, i requires 0 <= i < |s| => (s[i] as int % 256) as byte)
  }

  const QUOTE: byte := 0x22
  const EQUALS: byte := 0x3D
  const GREATER: byte := 0x3E

  /** `struct conv_xmlhead_t`: both strings fit their arrays. */
  datatype XmlHead = XmlHead(bom: Bom, version: seq<byte>, encoding: seq<byte>)

  const VERSION_SIZE := 16
  const ENCODING_SIZE := 64
  const HEADBUF_SIZE := 128

  predicate Capacity(h: XmlHead) { |h.version| < VERSION_SIZE && |h.encoding| < ENCODING_SIZE }

  function Opening(): seq<byte> { Ascii("<?xml version=\"") }
  function Middle(): seq<byte> { Ascii("\" encoding=\"") }
  function Closing(): seq<byte> { Ascii("\"?>") }

  function HeadText(h: XmlHead): (r: seq<byte>)
    ensures |r| == 30 + |h.version| + |h.encoding|
  {
    Opening() + h.version + Middle() + h.encoding + Closing()
  }

  lemma HeadTextIs(h: XmlHead)
    ensures HeadText(h)
         == Ascii("<?xml version=\"") + h.version + Ascii("\" encoding=\"") + h.encoding + Ascii("\"?>")
  {
  }

  // ----- units -----

  predicate BigEndian(bom: Bom) { bom == Ucs2BE || bom == Ucs4BE }

  /** A `char` widened to a unit: its bytes in host order. The sign is extended. */
  function HostUnit(b: byte, u: nat): (r: seq<byte>)
    ensures |r| == u
  {
    seq(u, i => if i == 0 then b else if b >= 0x80 then 0xFF else 0)
  }

  function Unit(bom: Bom, b: byte): (r: seq<byte>)
    ensures |r| == UnitSize(bom)
  {
    if BigEndian(bom) then Reversed(HostUnit(b, UnitSize(bom))) else HostUnit(b, UnitSize(bom))
  }

  function Encoded(bom: Bom, text: seq<byte>): (r: seq<byte>)
    ensures |r| == |text| * UnitSize(bom)
  {
    if text == [] then [] else Unit(bom, text[0]) + Encoded(bom, text[1..])
  }

  /** The unit brought into host order and cut down to a `char`. */
  function CharOf(bom: Bom, unit: seq<byte>): byte
    requires |unit| == UnitSize(bom)
  {
    (if BigEndian(bom) then Reversed(unit) else unit)[0]
  }

  /** The complete units of `s`, as characters. */
  function Decoded(bom: Bom, s: seq<byte>): (r: seq<byte>)
    ensures |r| == |s| / UnitSize(bom)
  {
    var u := UnitSize(bom);
    if |s| < u then [] else [CharOf(bom, s[..u])] + Decoded(bom, s[u..])
  }

  lemma UnitRoundTrip(bom: Bom, b: byte)
    ensures CharOf(bom, Unit(bom, b)) == b
  {
    ReversedTwice(HostUnit(b, UnitSize(bom)));
  }

  lemma {:induction false} DecodeEncoded(bom: Bom, text: seq<byte>, trail: seq<byte>)
    ensures Decoded(bom, Encoded(bom, text) + trail) == text + Decoded(bom, trail)
  {
    hide Unit, CharOf, UnitSize, Decoded;
    if text == [] {
      assert Encoded(bom, text) + trail == trail;
      assert [] + Decoded(bom, trail) == Decoded(bom, trail);
    } else {
      var rest := Encoded(bom, text[1..]) + trail;
      assert Encoded(bom, text) + trail == Unit(bom, text[0]) + rest;
      UnitRoundTrip(bom, text[0]);
      DecodeEncoded(bom, text[1..], trail);
      DecodedStep(bom, Unit(bom, text[0]), rest);
      assert text + Decoded(bom, trail) == [text[0]] + (text[1..] + Decoded(bom, trail));
    }
  }

  lemma DecodedStep(bom: Bom, unit: seq<byte>, rest: seq<byte>)
    requires |unit| == UnitSize(bom)
    ensures Decoded(bom, unit + rest) == [CharOf(bom, unit)] + Decoded(bom, rest)
  {
    assert (unit + rest)[..|unit|] == unit && (unit + rest)[|unit|..] == rest;
  }

  lemma {:induction false} EncodedAppend(bom: Bom, text: seq<byte>, b: byte)
    ensures Encoded(bom, text + [b]) == Encoded(bom, text) + Unit(bom, b)
  {
    hide Unit, UnitSize;
    if text == [] {
      assert (text + [b])[1..] == [];
      assert Unit(bom, b) + [] == [] + Unit(bom, b);
    } else {
      EncodedAppend(bom, text[1..], b);
      assert (text + [b])[1..] == text[1..] + [b];
    }
  }

  // ----- printing -----

  /** The bytes of a printed head. */
  function Formatted(h: XmlHead): seq<byte> {
    BomBytes(h.bom) + Encoded(h.bom, HeadText(h))
  }

  // ----- the printed bytes, one by one -----

  /** The mark, and behind it each character as a unit in the order of the mark, with its sign extended. */
  ghost predicate Spells(bom: Bom, text: seq<byte>, bytes: seq<byte>) {
    match bom
    case NoBom => bytes == text
    case Utf8Bom => bytes == [0xEF, 0xBB, 0xBF] + text
    case Ucs2LE =>
      && |bytes| == 2 + 2 * |text| && bytes[0] == 0xFF && bytes[1] == 0xFE
      && forall i :: 0 <= i < |text| ==>
           bytes[2 + 2 * i] == text[i] && bytes[3 + 2 * i] == if text[i] < 0x80 then 0 else 0xFF
    case Ucs2BE =>
      && |bytes| == 2 + 2 * |text| && bytes[0] == 0xFE && bytes[1] == 0xFF
      && forall i :: 0 <= i < |text| ==>
           bytes[2 + 2 * i] == (if text[i] < 0x80 then 0 else 0xFF) && bytes[3 + 2 * i] == text[i]
    case Ucs4LE =>
      && |bytes| == 4 + 4 * |text| && bytes[..4] == [0xFF, 0xFE, 0, 0]
      && forall i :: 0 <= i < |text| ==>
           var s := if text[i] < 0x80 then 0 else 0xFF;
           && bytes[4 + 4 * i] == text[i] && bytes[5 + 4 * i] == s
           && bytes[6 + 4 * i] == s && bytes[7 + 4 * i] == s
    case Ucs4BE =>
      && |bytes| == 4 + 4 * |text| && bytes[..4] == [0, 0, 0xFE, 0xFF]
      && forall i :: 0 <= i < |text| ==>
           var s := if text[i] < 0x80 then 0 else 0xFF;
           && bytes[4 + 4 * i] == s && bytes[5 + 4 * i] == s
           && bytes[6 + 4 * i] == s && bytes[7 + 4 * i] == text[i]
    case AskOneMore => false
  }

  /** A character as a unit. */
  lemma UnitIs(bom: Bom, b: byte)
    ensures var s := if b < 0x80 then 0 else 0xFF;
            && (bom == Ucs2LE ==> Unit(bom, b) == [b, s]) && (bom == Ucs2BE ==> Unit(bom, b) == [s, b])
            && (bom == Ucs4LE ==> Unit(bom, b) == [b, s, s, s]) && (bom == Ucs4BE ==> Unit(bom, b) == [s, s, s, b])
  {
  }

  lemma EncodedStep(bom: Bom, text: seq<byte>)
    requires text != []
    ensures Encoded(bom, text) == Unit(bom, text[0]) + Encoded(bom, text[1..])
  {
  }

  lemma PartBehind(a: seq<byte>, b: seq<byte>, i: nat, j: nat)
    requires |a| <= i <= j <= |a| + |b|
    ensures (a + b)[i..j] == b[i - |a|..j - |a|]
  {
  }

  lemma {:induction false} TwoBytesAt(bom: Bom, text: seq<byte>, i: nat)
    requires (bom == Ucs2LE || bom == Ucs2BE) && i < |text|
    ensures |Encoded(bom, text)| == 2 * |text| && Encoded(bom, text)[2 * i..2 * i + 2] == Unit(bom, text[i])
  {
    hide Unit, Encoded;
    var first, rest := Unit(bom, text[0]), Encoded(bom, text[1..]);
    EncodedStep(bom, text);
    if i > 0 {
      TwoBytesAt(bom, text[1..], i - 1);
      PartBehind(first, rest, 2 * i, 2 * i + 2);
    } else {
      assert (first + rest)[..2] == first;
    }
  }

  lemma {:induction false} FourBytesAt(bom: Bom, text: seq<byte>, i: nat)
    requires (bom == Ucs4LE || bom == Ucs4BE) && i < |text|
    ensures |Encoded(bom, text)| == 4 * |text| && Encoded(bom, text)[4 * i..4 * i + 4] == Unit(bom, text[i])
  {
    hide Unit, Encoded;
    var first, rest := Unit(bom, text[0]), Encoded(bom, text[1..]);
    EncodedStep(bom, text);
    if i > 0 {
      FourBytesAt(bom, text[1..], i - 1);
      PartBehind(first, rest, 4 * i, 4 * i + 4);
    } else {
      assert (first + rest)[..4] == first;
    }
  }

  lemma TwoBytesBehind(bom: Bom, mark: seq<byte>, text: seq<byte>, i: nat)
    requires (bom == Ucs2LE || bom == Ucs2BE) && i < |text| && |mark| == 2
    ensures var bytes, s := mark + Encoded(bom, text), if text[i] < 0x80 then 0 else 0xFF;
            && |bytes| == 2 + 2 * |text|
            && bytes[2 + 2 * i] == (if bom == Ucs2LE then text[i] else s)
            && bytes[3 + 2 * i] == (if bom == Ucs2LE then s else text[i])
  {
    hide Encoded, Unit;
    var body := Encoded(bom, text);
    TwoBytesAt(bom, text, i);
    UnitIs(bom, text[i]);
    assert body[2 * i] == body[2 * i..2 * i + 2][0] && body[2 * i + 1] == body[2 * i..2 * i + 2][1];
  }

  lemma FourBytesBehind(bom: Bom, mark: seq<byte>, text: seq<byte>, i: nat)
    requires (bom == Ucs4LE || bom == Ucs4BE) && i < |text| && |mark| == 4
    ensures var bytes, s := mark + Encoded(bom, text), if text[i] < 0x80 then 0 else 0xFF;
            && |bytes| == 4 + 4 * |text|
            && bytes[4 + 4 * i] == (if bom == Ucs4LE then text[i] else s) && bytes[5 + 4 * i] == s
            && bytes[6 + 4 * i] == s && bytes[7 + 4 * i] == (if bom == Ucs4LE then s else text[i])
  {
    hide Encoded, Unit;
    var body := Encoded(bom, text);
    FourBytesAt(bom, text, i);
    UnitIs(bom, text[i]);
    var unit := body[4 * i..4 * i + 4];
    assert body[4 * i] == unit[0] && body[4 * i + 1] == unit[1] && body[4 * i + 2] == unit[2];
    assert body[4 * i + 3] == unit[3];
  }

  lemma OneByteForm(bom: Bom, text: seq<byte>)
    requires bom == NoBom || bom == Utf8Bom
    ensures Spells(bom, text, BomBytes(bom) + Encoded(bom, text))
  {
    hide Encoded;
    EncodedBytes(bom, text);
    assert [] + text == text;
  }

  lemma TwoByteForm(bom: Bom, text: seq<byte>)
    requires bom == Ucs2LE || bom == Ucs2BE
    ensures Spells(bom, text, BomBytes(bom) + Encoded(bom, text))
  {
    hide Encoded;
    var mark, bytes := BomBytes(bom), BomBytes(bom) + Encoded(bom, text);
    forall i | 0 <= i < |text|
      ensures bytes[2 + 2 * i] == (if bom == Ucs2LE then text[i] else (if text[i] < 0x80 then 0 else 0xFF))
      ensures bytes[3 + 2 * i] == (if bom == Ucs2LE then if text[i] < 0x80 then 0 else 0xFF else text[i])
    {
      TwoBytesBehind(bom, mark, text, i);
    }
  }

  lemma FourByteForm(bom: Bom, text: seq<byte>)
    requires bom == Ucs4LE || bom == Ucs4BE
    ensures Spells(bom, text, BomBytes(bom) + Encoded(bom, text))
  {
    hide Encoded;
    var mark, bytes := BomBytes(bom), BomBytes(bom) + Encoded(bom, text);
    forall i | 0 <= i < |text|
      ensures var s := if text[i] < 0x80 then 0 else 0xFF;
              && bytes[4 + 4 * i] == (if bom == Ucs4LE then text[i] else s)
              && bytes[5 + 4 * i] == s && bytes[6 + 4 * i] == s
              && bytes[7 + 4 * i] == (if bom == Ucs4LE then s else text[i])
    {
      FourBytesBehind(bom, mark, text, i);
    }
    assert bytes[..4] == mark;
  }

  /** What a printed text looks like in each of the six forms. */
  lemma EncodedSpells(bom: Bom, text: seq<byte>)
    requires bom != AskOneMore
    ensures Spells(bom, text, BomBytes(bom) + Encoded(bom, text))
  {
    hide Spells, Encoded;
    if UnitSize(bom) == 1 {
      OneByteForm(bom, text);
    } else if UnitSize(bom) == 2 {
      TwoByteForm(bom, text);
    } else {
      FourByteForm(bom, text);
    }
  }

  /** The text of a declaration, as the format string has it. */
  function PrintedText(h: XmlHead): seq<byte> {
    Ascii("<?xml version=\"") + h.version + Ascii("\" encoding=\"") + h.encoding + Ascii("\"?>")
  }

  /** How many bytes a declaration takes with its mark. */
  function PrintedSize(h: XmlHead): nat {
    var chars := 30 + |h.version| + |h.encoding|;
    match h.bom
    case NoBom => chars
    case Utf8Bom => chars + 3
    case Ucs2LE => 2 * chars + 2
    case Ucs2BE => 2 * chars + 2
    case Ucs4LE => 4 * chars + 4
    case Ucs4BE => 4 * chars + 4
    case AskOneMore => 0
  }

  /** A printed declaration, byte by byte. */
  lemma FormattedSpells(h: XmlHead)
    requires h.bom != AskOneMore
    ensures Spells(h.bom, PrintedText(h), Formatted(h))
    ensures |Formatted(h)| == PrintedSize(h) == |BomBytes(h.bom)| + |HeadText(h)| * UnitSize(h.bom)
  {
    hide Encoded, Spells, Ascii;
    EncodedSpells(h.bom, HeadText(h));
  }

  /** Copy all of `source` behind `at` and end it with a null byte; or copy what fits, end the buffer with a null
      byte, and mark the cut by three dots before it if the buffer has room for them. */
  method SafeCopy(dst: array<byte>, at: nat, source: seq<byte>) returns (ok: bool)
    requires dst.Length > 0
    modifies dst
    ensures ok <==> at + |source| < dst.Length
    ensures forall i :: 0 <= i < dst.Length ==>
              dst[i] == if ok then (if at <= i < at + |source| then source[i - at]
                                    else if i == at + |source| then 0 else old(dst[i]))
                        else if i == dst.Length - 1 then 0
                        else if at < dst.Length && 4 <= dst.Length <= i + 4 then '.' as int
                        else if i < at then old(dst[i]) else source[i - at]
  {
    if at + |source| < dst.Length {
      forall i | 0 <= i < |source| { dst[at + i] := source[i]; }
      dst[at + |source|] := 0;
      return true;
    }
    if at < dst.Length {
      forall i | at <= i < dst.Length { dst[i] := source[i - at]; }
      if dst.Length > 3 {
        dst[dst.Length - 4] := '.' as int;
        dst[dst.Length - 3] := '.' as int;
        dst[dst.Length - 2] := '.' as int;
      }
    }
    dst[dst.Length - 1] := 0;
    return false;
  }

  /** Room that a printed head needs: its bytes and at least one more. */
  predicate RoomFor(h: XmlHead, blen: nat) {
    |BomBytes(h.bom)| + |HeadText(h)| * UnitSize(h.bom) < blen
  }

  /** In single bytes the mark, or a null byte, is written before there is any check for room. */
  method Format(h: XmlHead, bufp: array<byte>) returns (n: int)
    requires Capacity(h) && (h.bom == NoBom ==> bufp.Length >= 1) && (h.bom == Utf8Bom ==> bufp.Length >= 3)
    modifies bufp
    ensures h.bom == AskOneMore || (UnitSize(h.bom) > 1 && n == 0) ==> bufp[..] == old(bufp[..])
    ensures n == if h.bom == AskOneMore then -1 else if RoomFor(h, bufp.Length) then |Formatted(h)| else 0
    ensures n > 0 ==> n <= bufp.Length && bufp[..n] == Formatted(h)
    ensures h.bom != AskOneMore ==> n == if PrintedSize(h) < bufp.Length then PrintedSize(h) else 0
    ensures n > 0 ==> Spells(h.bom, PrintedText(h), bufp[..n])
  {
    hide HeadText, Encoded, Spells, PrintedText, PrintedSize;
    if h.bom != AskOneMore { FormattedSpells(h); }
    var headbuf := HeadText(h);
    var u := UnitSize(h.bom);
    var b := |BomBytes(h.bom)|;
    if h.bom == AskOneMore { return -1; }
    if u > 1 && bufp.Length <= b + |headbuf| * u { return 0; }
    forall i | 0 <= i < b { bufp[i] := BomBytes(h.bom)[i]; }
    assert bufp[..b] == BomBytes(h.bom);
    if u == 1 {
      EncodedBytes(h.bom, headbuf);
      var ok := SafeCopy(bufp, b, headbuf);
      assert ok ==> bufp[..b] == BomBytes(h.bom) && bufp[b..b + |headbuf|] == headbuf;
      assert ok ==> bufp[..b + |headbuf|] == bufp[..b] + bufp[b..b + |headbuf|];
      return if ok then b + |headbuf| else 0;
    }
    n := FormatUnits(h.bom, headbuf, bufp, b);
  }

  /** Write every character of `text` as a unit, from position `b` on. */
  method FormatUnits(bom: Bom, text: seq<byte>, bufp: array<byte>, b: nat) returns (offcb: nat)
    requires b + |text| * UnitSize(bom) <= bufp.Length
    modifies bufp
    ensures offcb == b + |text| * UnitSize(bom)
    ensures bufp[..offcb] == old(bufp[..b]) + Encoded(bom, text)
  {
    hide Unit, Encoded, UnitSize;
    ghost var bytes := bufp[..b];
    var u := UnitSize(bom);
    offcb := b;
    NothingEncoded(bom);
    for i := 0 to |text|
      invariant offcb == b + i * u && offcb <= bufp.Length
      invariant bufp[..offcb] == bytes + Encoded(bom, text[..i])
    {
      UnitFits(i, |text|, u, b, bufp.Length);
      PutUnit(bufp, offcb, Unit(bom, text[i]));
      EncodedAppend(bom, text[..i], text[i]);
      assert text[..i + 1] == text[..i] + [text[i]];
      assert bytes + (Encoded(bom, text[..i]) + Unit(bom, text[i]))
             == (bytes + Encoded(bom, text[..i])) + Unit(bom, text[i]);
      offcb := offcb + u;
    }
    assert text[..|text|] == text;
  }

  method PutUnit(bufp: array<byte>, at: nat, unit: seq<byte>)
    requires at + |unit| <= bufp.Length
    modifies bufp
    ensures bufp[..at + |unit|] == old(bufp[..at]) + unit
  {
    ghost var was := bufp[..at];
    forall k | 0 <= k < |unit| { bufp[at + k] := unit[k]; }
    assert bufp[..at] == was && bufp[at..at + |unit|] == unit;
    assert bufp[..at + |unit|] == bufp[..at] + bufp[at..at + |unit|];
  }

  lemma NothingEncoded(bom: Bom)
    ensures Encoded(bom, []) == []
  {
  }

  lemma UnitFits(i: nat, n: nat, u: nat, b: nat, room: nat)
    requires i < n && b + n * u <= room
    ensures b + i * u + u <= room && (i + 1) * u == i * u + u
  {
    assert (i + 1) * u <= n * u;
  }

  lemma {:induction false} EncodedBytes(bom: Bom, text: seq<byte>)
    requires UnitSize(bom) == 1
    ensures Encoded(bom, text) == text
  {
    if text != [] {
      EncodedBytes(bom, text[1..]);
      assert Unit(bom, text[0]) == [text[0]];
    }
  }
}
