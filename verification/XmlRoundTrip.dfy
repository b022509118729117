/** Printing an XML declaration and parsing the result. */
module XmlRoundTrip {
  import opened Common
  import opened ByteOrder
  import opened Convd
  import opened XmlHead
  import opened XmlParse

  /** No quote, `=`, `>` or null byte in the version, and no quote, `>` or null byte in the encoding:
      so every VersionNum and EncName of XML 1.0 (sections 2.8 and 4.3.3). */
  predicate Clean(h: XmlHead) {
    && QUOTE !in h.version && EQUALS !in h.version && GREATER !in h.version && 0 !in h.version
    && QUOTE !in h.encoding && GREATER !in h.encoding && 0 !in h.encoding
  }

  lemma Literals()
    ensures Opening() == [0x3C, 0x3F, 0x78, 0x6D, 0x6C, 0x20, 0x76, 0x65, 0x72, 0x73, 0x69, 0x6F, 0x6E, 0x3D, 0x22]
    ensures Middle() == [0x22, 0x20, 0x65, 0x6E, 0x63, 0x6F, 0x64, 0x69, 0x6E, 0x67, 0x3D, 0x22]
    ensures Closing() == [0x22, 0x3F, 0x3E]
    ensures VersionName() == [0x76, 0x65, 0x72, 0x73, 0x69, 0x6F, 0x6E, 0x3D, 0x22]
    ensures EncodingName() == [0x65, 0x6E, 0x63, 0x6F, 0x64, 0x69, 0x6E, 0x67, 0x3D, 0x22]
    ensures Ascii("<?xml ") == [0x3C, 0x3F, 0x78, 0x6D, 0x6C, 0x20]
  {
  }

  /** The printed text, position by position. */
  lemma HeadParts(h: XmlHead)
    ensures var t, v, e := HeadText(h), |h.version|, |h.encoding|;
            && (forall i :: 0 <= i < 15 ==> t[i] == Opening()[i])
            && t[15..15 + v] == h.version
            && (forall i :: 15 + v <= i < 27 + v ==> t[i] == Middle()[i - 15 - v])
            && t[27 + v..27 + v + e] == h.encoding
            && (forall i :: 27 + v + e <= i < 30 + v + e ==> t[i] == Closing()[i - 27 - v - e])
  {
    var t, v, e := HeadText(h), |h.version|, |h.encoding|;
    assert |Opening()| == 15 && |Middle()| == 12 && |Closing()| == 3;
    var a := Opening() + h.version;
    var b := a + Middle();
    var c := b + h.encoding;
    assert t == c + Closing();
    assert forall i :: 0 <= i < |a| ==> t[i] == a[i];
    assert forall i :: 0 <= i < |b| ==> t[i] == b[i];
    assert forall i :: 0 <= i < |c| ==> t[i] == c[i];
    assert t[15..15 + v] == a[15..] == h.version;
    assert t[27 + v..27 + v + e] == c[27 + v..] == h.encoding;
  }

  /** What each byte of the printed text can be. */
  lemma HeadBytes(h: XmlHead, i: nat)
    requires Clean(h) && i < |HeadText(h)|
    ensures var t, v := HeadText(h), |h.version|;
            && t[i] != 0 && (t[i] == GREATER ==> i == |t| - 1)
            && (t[i] == EQUALS && i < 25 + v ==> i == 13)
            && (15 <= i < 15 + v ==> t[i] != QUOTE) && (27 + v <= i < |t| - 3 ==> t[i] != QUOTE)
  {
    HeadParts(h);
    Literals();
    var t, v, e := HeadText(h), |h.version|, |h.encoding|;
    if 15 <= i < 15 + v {
      assert t[i] == t[15..15 + v][i - 15] && t[i] in h.version;
    } else if 27 + v <= i < 27 + v + e {
      assert t[i] == t[27 + v..27 + v + e][i - 27 - v] && t[i] in h.encoding;
    }
  }

  lemma VersionFound(h: XmlHead)
    requires Clean(h)
    ensures Find(HeadText(h), VersionName()) == Some(6)
  {
    HeadParts(h);
    Literals();
    var t := HeadText(h);
    assert t[6..15] == VersionName();
    forall j: nat | j < 6 ensures !OccursAt(t, VersionName(), j) {
      if j + 9 <= |t| { assert t[j..j + 9][0] == t[j] != VersionName()[0]; }
    }
    FindIs(t, VersionName(), 6);
  }

  /** The attribute name ends in `="`, and before it there is only one other `=`. */
  lemma EncodingFound(h: XmlHead)
    requires Clean(h)
    ensures Find(HeadText(h), EncodingName()) == Some(17 + |h.version|)
  {
    HeadParts(h);
    Literals();
    var t, v := HeadText(h), |h.version|;
    assert t[17 + v..27 + v] == EncodingName();
    forall j: nat | j < 17 + v ensures !OccursAt(t, EncodingName(), j) {
      HeadBytes(h, j + 8);
      assert t[j..j + 10][8] == t[j + 8] && t[j..j + 10][0] == t[j];
      assert EncodingName()[8] == EQUALS && EncodingName()[0] == 0x65;
      assert j + 8 == 13 ==> t[j] == 0x20;
    }
    FindIs(t, EncodingName(), 17 + v);
  }

  lemma QuoteFound(s: seq<byte>, e: nat)
    requires e < |s| && s[e] == QUOTE && QUOTE !in s[..e]
    ensures Find(s, [QUOTE]) == Some(e)
  {
    assert s[e..e + 1] == [QUOTE];
    forall j: nat | j < e ensures !OccursAt(s, [QUOTE], j) {
      assert s[..e][j] == s[j] == s[j..j + 1][0];
    }
    FindIs(s, [QUOTE], e);
  }

  lemma VersionRead(h: XmlHead)
    requires Clean(h)
    ensures Attribute(HeadText(h), VersionName()) == Some(h.version)
  {
    VersionFound(h);
    HeadParts(h);
    Literals();
    var t, v := HeadText(h), |h.version|;
    var rest := t[15..];
    assert rest[..v] == t[15..15 + v] && rest[v] == t[15 + v];
    QuoteFound(rest, v);
  }

  lemma EncodingRead(h: XmlHead)
    requires Clean(h)
    ensures Attribute(HeadText(h), EncodingName()) == Some(h.encoding)
  {
    EncodingFound(h);
    HeadParts(h);
    Literals();
    var t, v, e := HeadText(h), |h.version|, |h.encoding|;
    var rest := t[27 + v..];
    assert rest[..e] == t[27 + v..27 + v + e] && rest[e] == t[27 + v + e];
    QuoteFound(rest, e);
  }

  lemma {:induction false} NoNull(s: seq<byte>)
    requires 0 !in s
    ensures UntilNull(s) == s
  {
    if s != [] { NoNull(s[1..]); }
  }

  /** The fields of a declaration as the parser gives them back. A one-character version is dropped. */
  function ReadBack(h: XmlHead): XmlHead {
    XmlHead(h.bom, if |h.version| == 1 then [] else h.version, UpperAll(h.encoding))
  }

  lemma DeclarationRead(h: XmlHead)
    requires Clean(h) && Capacity(h)
    ensures Declared(h.bom, HeadText(h)) == Some(ReadBack(h))
  {
    hide HeadText, Find, Ascii, Attribute;
    var t := HeadText(h);
    forall i | 0 <= i < |t| ensures t[i] != 0 { HeadBytes(h, i); }
    NoNull(t);
    VersionFound(h);
    VersionRead(h);
    EncodingRead(h);
    DeclarationShape(h);
  }

  lemma DeclarationShape(h: XmlHead)
    ensures IsDeclaration(HeadText(h))
  {
    HeadParts(h);
    Literals();
    var t := HeadText(h);
    assert t[..6] == Ascii("<?xml ");
  }

  lemma EncodedStart(bom: Bom, t: seq<byte>)
    requires |t| >= 2
    ensures var u, s := UnitSize(bom), Encoded(bom, t);
            |s| >= 2 * u && s[..u] == Unit(bom, t[0]) && s[u..2 * u] == Unit(bom, t[1])
  {
    var u, rest := UnitSize(bom), Encoded(bom, t[1..][1..]);
    assert Encoded(bom, t[1..]) == Unit(bom, t[1]) + rest;
    assert Encoded(bom, t) == Unit(bom, t[0]) + (Unit(bom, t[1]) + rest);
  }

  /** The byte-order mark in front of the printed text is recognised, whatever follows. */
  lemma BomRecognised(h: XmlHead, trail: seq<byte>)
    requires h.bom != AskOneMore
    ensures DetectBom(Formatted(h) + trail) == h.bom
    ensures (Formatted(h) + trail)[|BomBytes(h.bom)|..] == Encoded(h.bom, HeadText(h)) + trail
  {
    var t, mark := HeadText(h), BomBytes(h.bom);
    var body, all := Encoded(h.bom, t), Formatted(h) + trail;
    HeadStarts(h);
    EncodedStart(h.bom, t);
    hide HeadText, Encoded, DetectBom;
    assert all == mark + (body + trail);
    assert all[|mark|..] == body + trail;
    assert forall i :: 0 <= i < 2 * UnitSize(h.bom) ==> all[|mark| + i] == body[i];
    MarkRecognised(h.bom, all, body);
  }

  lemma HeadStarts(h: XmlHead)
    ensures HeadText(h)[0] == 0x3C && HeadText(h)[1] == 0x3F
  {
    HeadParts(h);
    Literals();
  }

  lemma MarkRecognised(bom: Bom, all: seq<byte>, body: seq<byte>)
    requires bom != AskOneMore && BomBytes(bom) <= all
    requires var u, m := UnitSize(bom), |BomBytes(bom)|;
             && 2 * u <= |body| && m + 2 * u <= |all| && (forall i :: 0 <= i < 2 * u ==> all[m + i] == body[i])
             && body[..u] == Unit(bom, 0x3C) && body[u..2 * u] == Unit(bom, 0x3F)
    ensures DetectBom(all) == bom
  {
    var u, m := UnitSize(bom), |BomBytes(bom)|;
    assert all[m] == body[0] == body[..u][0];
    assert all[m + 1] == body[1];
    assert u > 1 ==> body[1] == body[..u][1];
    assert u == 1 ==> body[1] == body[u..2 * u][0];
    assert forall i :: 0 <= i < m ==> all[i] == BomBytes(bom)[i];
  }

  lemma ScanStopsAtEnd(h: XmlHead, rest: seq<byte>)
    requires Clean(h) && Capacity(h)
    ensures var chars, t := HeadText(h) + rest, HeadText(h);
            |chars| < HEADBUF_SIZE || GREATER in chars[..HEADBUF_SIZE - 1]
    ensures Find(HeadText(h) + rest, [GREATER]) == Some(|HeadText(h)| - 1)
  {
    HeadParts(h);
    Literals();
    var t := HeadText(h);
    var chars := t + rest;
    forall i | 0 <= i < |t| - 1 ensures chars[i] != GREATER { HeadBytes(h, i); }
    assert chars[|t| - 1] == GREATER;
    assert |t| <= HEADBUF_SIZE - 1 && (|chars| >= HEADBUF_SIZE ==> chars[..HEADBUF_SIZE - 1][|t| - 1] == GREATER);
    FirstAt(chars, |t| - 1);
  }

  /**
   * Parsing a printed declaration, in any of the six byte-order forms and with any text behind it,
   * terminates, returns exactly the printed length, and gives the fields back: the byte-order mark,
   * the version unless it is a single character, and the encoding in upper case.
   */
  lemma HeadRoundTrip(h: XmlHead, trail: seq<byte>)
    requires Clean(h) && Capacity(h) && h.bom != AskOneMore
    ensures Returns(Formatted(h) + trail)
    ensures Parsed(Formatted(h) + trail) == (|Formatted(h)|, ReadBack(h))
    ensures Parsed(Formatted(h) + trail).1.version == h.version <==> |h.version| != 1
  {
    hide HeadText, Encoded, Decoded, Declared, DetectBom;
    var all, t := Formatted(h) + trail, HeadText(h);
    BomRecognised(h, trail);
    DecodeEncoded(h.bom, t, trail);
    var rest := Decoded(h.bom, trail);
    assert Characters(all) == t + rest;
    ScanStopsAtEnd(h, rest);
    assert (t + rest)[..|t|] == t;
    DeclarationRead(h);
  }

  /** The same for the program: what `Format` writes, `ParseHead` reads. */
  method PrintAndParse(h: XmlHead, bufp: array<byte>, trail: seq<byte>) returns (n: int, m: nat, h': XmlHead)
    requires Clean(h) && Capacity(h) && h.bom != AskOneMore && RoomFor(h, bufp.Length)
    modifies bufp
    ensures n == m == |Formatted(h)| && h' == ReadBack(h)
  {
    HeadRoundTrip(h, trail);
    n := Format(h, bufp);
    assert |Formatted(h)| > 0 by { assert |HeadText(h)| > 0; }
    m, h' := ParseHead(bufp[..n] + trail);
  }
}
