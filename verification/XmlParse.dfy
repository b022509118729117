/** Parsing the XML declaration, and what printing and parsing do to each other. */
module XmlParse {
  import opened Common
  import opened ByteOrder
  import opened Convd
  import opened XmlHead

  // ----- the scan for the end of the declaration -----

  /** The characters behind the BOM. */
  function Characters(text: seq<byte>): seq<byte> {
    var bom := DetectBom(text);
    BomPrefix(text);
    Decoded(bom, text[|BomBytes(bom)|..])
  }

  lemma BomPrefix(text: seq<byte>)
    ensures BomBytes(DetectBom(text)) <= text
  {
  }

  /** The scan comes to an end: it finds a `>` in time, or runs out of characters before its buffer is full. */
  predicate Returns(text: seq<byte>) {
    var chars := Characters(text);
    |chars| < HEADBUF_SIZE || GREATER in chars[..HEADBUF_SIZE - 1]
  }

  function ScannedHead(text: seq<byte>): (r: Option<seq<byte>>)
  {
    var chars := Characters(text);
    match Find(chars, [GREATER])
    case None => None
    case Some(g) => if g < HEADBUF_SIZE - 1 then Some(chars[..g + 1]) else None
  }

  // ----- the attributes -----

  /** A C string ends at its first null byte. */
  function UntilNull(s: seq<byte>): (r: seq<byte>)
    ensures r <= s && 0 !in r
  {
    if s == [] || s[0] == 0 then [] else [s[0]] + UntilNull(s[1..])
  }

  function Upper(b: byte): byte { if 0x61 <= b <= 0x7A then b - 0x20 else b }

  function UpperAll(s: seq<byte>): (r: seq<byte>)
    ensures |r| == |s|
  {
    seq(|s|, i requires 0 <= i < |s| => Upper(s[i]))
  }

  /** The text between the first occurrence of `name` and the next quote. */
  function Attribute(s: seq<byte>, name: seq<byte>): Option<seq<byte>> {
    match Find(s, name)
    case None => None
    case Some(k) =>
      var rest := s[k + |name|..];
      match Find(rest, [QUOTE])
      case None => None
      case Some(e) => Some(rest[..e])
  }

  function VersionName(): seq<byte> { Ascii("version=\"") }
  function EncodingName(): seq<byte> { Ascii("encoding=\"") }

  predicate IsDeclaration(head: seq<byte>) {
    |head| > 20 && Ascii("<?xml ") <= head && head[|head| - 2] == 0x3F && head[|head| - 1] == GREATER
  }

  function VersionIn(s: seq<byte>): seq<byte> {
    match Attribute(s, VersionName())
    case Some(v) => if |v| > 1 then v else []
    case None => []
  }

  function EncodingIn(s: seq<byte>): seq<byte> {
    match Attribute(s, EncodingName())
    case Some(e) => if |e| < ENCODING_SIZE then UpperAll(e) else []
    case None => []
  }

  /** The fields of a scanned declaration, if it is one. */
  function Declared(bom: Bom, head: seq<byte>): Option<XmlHead> {
    var s := UntilNull(head);
    if IsDeclaration(head) && Find(s, VersionName()).Some? then Some(XmlHead(bom, VersionIn(s), EncodingIn(s)))
    else None
  }

  /** Length in bytes and fields of the declaration at the start of `text`; length 0 if there is none. */
  function Parsed(text: seq<byte>): (nat, XmlHead) {
    var bom := DetectBom(text);
    match ScannedHead(text)
    case None => (0, XmlHead(bom, [], []))
    case Some(head) =>
      match Declared(bom, head)
      case None => (0, XmlHead(bom, [], []))
      case Some(h) => (|BomBytes(bom)| + |head| * UnitSize(bom), h)
  }

  // ----- the program -----

  /** Copy characters into the buffer up to the first `>`. */
  method Scan(bom: Bom, xmltext: seq<byte>, headbuf: array<byte>) returns (found: bool, headlen: nat, offset: nat)
    requires bom == DetectBom(xmltext) && headbuf.Length == HEADBUF_SIZE && Returns(xmltext)
    modifies headbuf
    ensures found == ScannedHead(xmltext).Some?
    ensures found ==> headlen <= headbuf.Length && ScannedHead(xmltext) == Some(headbuf[..headlen])
    ensures offset == |BomBytes(bom)| + headlen * UnitSize(bom)
  {
    hide CharOf, UnitSize, Decoded, DetectBom, BomBytes, Characters, ScannedHead, Returns;
    ghost var chars := Characters(xmltext);
    var b, u := |BomBytes(bom)|, UnitSize(bom);
    found, headlen, offset := false, 0, b;
    ScanStarts(xmltext);
    while offset + (u - 1) < |xmltext|
      invariant headlen <= |chars| && headlen < HEADBUF_SIZE && offset == b + headlen * u && offset <= |xmltext|
      invariant headbuf[..headlen] == chars[..headlen] && GREATER !in chars[..headlen]
      invariant Decoded(bom, xmltext[offset..]) == chars[headlen..]
      decreases |xmltext| - offset
    {
      UnitsBehind(bom, xmltext, headlen, offset);
      ScanGoesOn(xmltext, headlen);
      if headlen < HEADBUF_SIZE - 1 {
        headbuf[headlen] := CharOf(bom, xmltext[offset..offset + u]);
        PrefixGrows(chars, headlen, headbuf[headlen], Decoded(bom, xmltext[offset + u..]));
        assert headbuf[..headlen + 1] == headbuf[..headlen] + [headbuf[headlen]];
        offset := offset + u;
        headlen := headlen + 1;
        if headbuf[headlen - 1] == GREATER {
          found := true;
          ScanFinds(xmltext, headlen - 1);
          return;
        }
      }
    }
    UnitsBehind(bom, xmltext, headlen, offset);
    ScanFails(xmltext, headlen);
  }

  lemma ScanStarts(text: seq<byte>)
    ensures var bom := DetectBom(text);
            |BomBytes(bom)| <= |text| && Decoded(bom, text[|BomBytes(bom)|..]) == Characters(text)
  {
    BomPrefix(text);
  }

  /** While the buffer is full there is nothing left to scan. */
  lemma ScanGoesOn(text: seq<byte>, k: nat)
    requires Returns(text) && k < |Characters(text)| && k < HEADBUF_SIZE && GREATER !in Characters(text)[..k]
    ensures k < HEADBUF_SIZE - 1
  {
  }

  lemma PrefixGrows(chars: seq<byte>, k: nat, c: byte, rest: seq<byte>)
    requires k <= |chars| && chars[k..] == [c] + rest
    ensures k < |chars| && chars[k] == c && chars[..k + 1] == chars[..k] + [c] && chars[k + 1..] == rest
  {
    assert chars[k..][0] == c && chars[k..][1..] == rest;
  }

  lemma ScanFinds(text: seq<byte>, g: nat)
    requires var chars := Characters(text);
             g < |chars| && g < HEADBUF_SIZE - 1 && chars[g] == GREATER && GREATER !in chars[..g]
    ensures ScannedHead(text) == Some(Characters(text)[..g + 1])
  {
    FirstAt(Characters(text), g);
  }

  lemma ScanFails(text: seq<byte>, k: nat)
    requires var chars := Characters(text); k <= |chars| && chars[k..] == [] && GREATER !in chars[..k]
    ensures ScannedHead(text) == None
  {
    var chars := Characters(text);
    assert chars[..k] == chars;
    NotAmong(chars);
  }

  /** Decoding from a position on: its unit first. */
  lemma UnitsBehind(bom: Bom, text: seq<byte>, k: nat, at: nat)
    requires at <= |text|
    ensures var u := UnitSize(bom);
            if at + (u - 1) < |text| then
              Decoded(bom, text[at..]) == [CharOf(bom, text[at..at + u])] + Decoded(bom, text[at + u..])
            else Decoded(bom, text[at..]) == []
  {
    var u := UnitSize(bom);
    if at + (u - 1) < |text| {
      assert text[at..][..u] == text[at..at + u] && text[at..][u..] == text[at + u..];
    }
  }

  lemma FirstAt(chars: seq<byte>, g: nat)
    requires g < |chars| && chars[g] == GREATER && GREATER !in chars[..g]
    ensures Find(chars, [GREATER]) == Some(g)
  {
    assert chars[g..g + 1] == [GREATER];
    forall j: nat | j < g ensures !OccursAt(chars, [GREATER], j) {
      assert chars[..g][j] != GREATER;
    }
    FindIs(chars, [GREATER], g);
  }

  lemma NotAmong(chars: seq<byte>)
    ensures Find(chars, [GREATER]).Some? ==> GREATER in chars
  {
    match Find(chars, [GREATER])
    case None =>
    case Some(k) => assert chars[k..k + 1][0] == chars[k];
  }

  method ParseHead(xmltext: seq<byte>) returns (n: nat, head: XmlHead)
    requires Returns(xmltext)
    requires |Parsed(xmltext).1.version| < VERSION_SIZE
    ensures (n, head) == Parsed(xmltext) && Capacity(head)
  {
    hide Characters, ScannedHead, Declared, DetectBom, BomBytes, UnitSize;
    var bom := DetectBom(xmltext);
    head := XmlHead(bom, [], []);
    var headbuf := new byte[HEADBUF_SIZE];
    var found, headlen, offset := Scan(bom, xmltext, headbuf);
    n := 0;
    if found {
      var declared := ReadFields(bom, headbuf[..headlen]);
      if declared.Some? { n, head := offset, declared.value; }
    }
  }

  /** Look the two attributes up in the scanned declaration. */
  method ReadFields(bom: Bom, headbuf: seq<byte>) returns (r: Option<XmlHead>)
    ensures r == Declared(bom, headbuf)
    ensures r.Some? ==> |r.value.encoding| < ENCODING_SIZE
  {
    hide UntilNull, Ascii, Attribute, VersionName, EncodingName;
    r := None;
    if IsDeclaration(headbuf) {
      var s := UntilNull(headbuf);
      var start := Find(s, VersionName());
      if start.Some? {
        var version, encoding := [], [];
        var value := Quoted(s, VersionName(), start);
        if value.Some? && |value.value| > 1 {
          version := value.value;
        }
        start := Find(s, EncodingName());
        if start.Some? {
          value := Quoted(s, EncodingName(), start);
          if value.Some? && 0 < |value.value| < ENCODING_SIZE {
            encoding := UpperAll(value.value);
          }
        } else {
          NoAttribute(s, EncodingName());
        }
        r := Some(XmlHead(bom, version, encoding));
      }
    }
  }

  /** The text from behind `name`, found at `start`, to the next quote. */
  method Quoted(s: seq<byte>, name: seq<byte>, start: Option<nat>) returns (value: Option<seq<byte>>)
    requires start == Find(s, name) && start.Some?
    ensures value == Attribute(s, name)
  {
    var rest := s[start.value + |name|..];
    var end := Find(rest, [QUOTE]);
    value := if end.Some? then Some(rest[..end.value]) else None;
  }

  lemma NoAttribute(s: seq<byte>, name: seq<byte>)
    requires Find(s, name) == None
    ensures Attribute(s, name) == None
  {
  }
}
