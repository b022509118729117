/** Converting an XML file: its declaration is parsed, a new one is printed, and the rest is converted. */
module XmlFile {
  import opened Common
  import opened Utf8
  import opened Convd
  import opened Chunks
  import opened ChunkLaws
  import opened ConvFile
  import opened XmlHead
  import opened XmlParse
  import opened XmlDeclaration
  import opened XmlRoundTrip

  const CONVD_ERR_FILE := -2
  const FILE_HEAD_SIZE := 112

  /** The bytes in which the declaration of a file is looked for. */
  function Front(file: seq<byte>): seq<byte> { ReadBytes(file, 0, FILE_HEAD_SIZE) }

  /** They are too few for the scan to fill its buffer, so it always ends. */
  lemma FrontReturns(file: seq<byte>)
    ensures Returns(Front(file)) && Front(file) == if |file| <= 112 then file else file[..112]
  {
    var text := Front(file);
    BomPrefix(text);
    var u := UnitSize(DetectBom(text));
    assert |Characters(text)| == (|text| - |BomBytes(DetectBom(text))|) / u;
    FewUnits(|text| - |BomBytes(DetectBom(text))|, u);
  }

  lemma FewUnits(n: nat, u: nat)
    requires (u == 1 || u == 2 || u == 4) && n <= FILE_HEAD_SIZE
    ensures n / u < HEADBUF_SIZE
  {
  }

  /** The first four bytes decide on the mark. */
  lemma FrontMark(file: seq<byte>)
    ensures DetectBom(Front(file)) == FileBom(file)
  {
    var front, four := Front(file), ReadBytes(file, 0, 4);
    assert |front| >= |four| && forall i :: 0 <= i < |four| ==> front[i] == four[i];
    assert |four| < 4 ==> front == four;
  }

  /** The length of the file's declaration with its mark, and its fields. */
  function FileHead(file: seq<byte>): (nat, XmlHead) { Parsed(Front(file)) }

  /** The encodings for which a new declaration is printed. */
  predicate Declarable(tocode: seq<byte>) {
    || Ascii("UTF-8") <= tocode || Ascii("GB2312") <= tocode || Ascii("BIG5") <= tocode
    || Ascii("GBK") <= tocode || Ascii("GB18030") <= tocode
  }

  /** A name as long as its array is cut, and the cut marked. */
  function Named(tocode: seq<byte>): (r: seq<byte>)
    requires |tocode| <= ENCODING_SIZE
    ensures |r| < ENCODING_SIZE
  {
    if |tocode| < ENCODING_SIZE then tocode else tocode[..ENCODING_SIZE - 4] + Ascii("...")
  }

  /** The new declaration; it has no mark. */
  function NewHead(h: XmlHead, tocode: seq<byte>): XmlHead
    requires |tocode| <= ENCODING_SIZE
  {
    XmlHead(NoBom, h.version, Named(tocode))
  }

  /** What is written in front of the converted text. */
  function HeadOf(h: XmlHead, tocode: seq<byte>): seq<byte>
    requires |tocode| <= ENCODING_SIZE
  {
    if Declarable(tocode) then Formatted(NewHead(h, tocode)) else []
  }

  /** Print the new declaration. */
  method PrintHead(h: XmlHead, tocode: seq<byte>) returns (head: seq<byte>)
    requires |tocode| <= ENCODING_SIZE && 0 !in tocode && Capacity(h)
    ensures head == HeadOf(h, tocode)
  {
    hide Formatted;
    if !Declarable(tocode) { return []; }
    var encoding := new byte[ENCODING_SIZE];
    var _ := SafeCopy(encoding, 0, tocode);
    CopiedName(encoding[..], tocode);
    var xmlhead := XmlHead(NoBom, h.version, UntilNull(encoding[..]));
    var xmlheadbuf := new byte[128];
    var xmlheadlen := Format(xmlhead, xmlheadbuf);
    assert RoomFor(xmlhead, 128);
    NotEmpty(xmlhead);
    head := xmlheadbuf[..xmlheadlen];
  }

  lemma NotEmpty(h: XmlHead)
    ensures |Formatted(h)| > 0
  {
    assert |HeadText(h)| > 0;
  }

  lemma CopiedName(field: seq<byte>, tocode: seq<byte>)
    requires |field| == ENCODING_SIZE && |tocode| <= ENCODING_SIZE && 0 !in tocode
    requires forall i :: 0 <= i < |field| && i <= |Named(tocode)| ==>
               field[i] == if i < |Named(tocode)| then Named(tocode)[i] else 0
    ensures UntilNull(field) == Named(tocode)
  {
    var name := Named(tocode);
    assert 0 !in name;
    assert field[..|name|] == name && field[|name|] == 0;
    NullBehind(field, name);
  }

  lemma {:induction false} NullBehind(s: seq<byte>, name: seq<byte>)
    requires |name| < |s| && s[..|name|] == name && s[|name|] == 0 && 0 !in name
    ensures UntilNull(s) == name
  {
    if name != [] {
      assert s[0] == name[0] && s[1..][..|name| - 1] == name[1..];
      NullBehind(s[1..], name[1..]);
    }
  }

  /**
   * The converter of XML files. Without a declaration within the first 112 bytes it fails. Otherwise, if
   * the text behind the declaration is well-formed UTF-8 whose runs fit, and the conversion distributes over
   * it, the output is the new declaration and the conversion of that text.
   */
  method ConvXmlFile(file: seq<byte>, tocode: seq<byte>, linesize: nat, conv: seq<byte> -> Option<seq<byte>>)
    returns (ret: int, out: seq<byte>, outsize: nat)
    requires |tocode| <= ENCODING_SIZE && 0 !in tocode && |FileHead(file).1.version| < VERSION_SIZE
    ensures FileHead(file).0 == 0 ==> ret == -2 && out == []
    ensures var (n, h) := FileHead(file);
            n > 0 && Sound(file, n, linesize, conv) ==>
              Wrote(ret, out, outsize, HeadOf(h, tocode), conv(Behind(file, ByteTextStart(file, n))))
  {
    hide Parsed, Text, Runs, ShortRuns, WellFormed, Distributes, NeverFills, FileBom, HeadOf;
    FrontReturns(file);
    var headofflen, xmlhead := ParseHead(Front(file));
    if headofflen > 0 {
      var head := PrintHead(xmlhead, tocode);
      ghost var chunks;
      ret, out, outsize, chunks := ConvertFile(file, headofflen, head, linesize, conv);
      if Sound(file, headofflen, linesize, conv) {
        ByteText(file, headofflen);
        RunByRun(conv, Text(file, headofflen), 4 * linesize);
      }
      return;
    }
    return CONVD_ERR_FILE, [], 0;
  }

  /** What the law of the chunked conversion asks of a file, its text behind `n` bytes, and a converter. */
  ghost predicate Sound(file: seq<byte>, n: nat, linesize: nat, conv: seq<byte> -> Option<seq<byte>>) {
    && !TwoByteMark(file) && !FourByteMark(file) && file != [0xEF, 0xBB]
    && var text := Behind(file, ByteTextStart(file, n));
       && WellFormed(text) && ShortRuns(text, linesize)
       && Distributes(conv) && NeverFills(conv, Runs(text), 4 * linesize)
  }

  /** Without a mark the text is what stands behind the declaration; behind a mark it lacks as many bytes
      more as the mark has. */
  lemma MarkIsCountedTwice(file: seq<byte>)
    ensures var n := FileHead(file).0;
            var m := if FourByteMark(file) then 4 else if TwoByteMark(file) then 2
                     else if [0xEF, 0xBB, 0xBF] <= file then 3 else 0;
            n > 0 ==> m <= n <= |file| && Text(file, n) == Behind(file[n..], m)
  {
    FrontMark(file);
    MarkOf(file);
    MarkAndUnitAre(file);
    var front := Front(file);
    var n, m := Parsed(front).0, |BomBytes(FileBom(file))|;
    if n > 0 {
      ParsedWithin(front);
      if n + m < |file| { assert file[n..][m..] == file[n + m..]; }
    }
  }

  lemma ParsedWithin(text: seq<byte>)
    ensures Parsed(text).0 <= |text| && (Parsed(text).0 > 0 ==> |BomBytes(DetectBom(text))| <= Parsed(text).0)
  {
    hide Find, DetectBom, Declared;
    BomPrefix(text);
    var bom := DetectBom(text);
    var u, rest := UnitSize(bom), |text| - |BomBytes(bom)|;
    if ScannedHead(text).Some? {
      var k := |ScannedHead(text).value|;
      assert k <= |Characters(text)| == rest / u;
      WithinUnits(k, rest, u);
    }
  }

  lemma WithinUnits(k: nat, rest: nat, u: nat)
    requires (u == 1 || u == 2 || u == 4) && k <= rest / u
    ensures k * u <= rest
  {
  }

  /**
   * A file that starts with a printed declaration without a mark comes out as a file whose declaration
   * names the target encoding and the same version, with the conversion of the rest behind it.
   */
  lemma DeclarationIsRenewed(h: XmlHead, body: seq<byte>, tocode: seq<byte>, result: seq<byte>)
    requires Clean(h) && Capacity(h) && h.bom == NoBom && |h.version| != 1
    requires |tocode| <= 64 && UpperAll(tocode) == tocode
    requires || Ascii("UTF-8") <= tocode || Ascii("GB2312") <= tocode || Ascii("BIG5") <= tocode
             || Ascii("GBK") <= tocode || Ascii("GB18030") <= tocode
    requires QUOTE !in tocode && GREATER !in tocode && 0 !in tocode
    ensures var file := Formatted(h) + body;
            && FileBom(file) == NoBom && FileHead(file).0 == |Formatted(h)| && Text(file, FileHead(file).0) == body
            && var out := HeadOf(FileHead(file).1, tocode) + result;
               FileHead(out) == (|out| - |result|, XmlHead(NoBom, h.version, Named(tocode)))
  {
    assert Declarable(tocode);
    hide Formatted, Parsed, Front, UpperAll, Declarable, Clean, Ascii;
    var file := Formatted(h) + body;
    FrontOfPrinted(h, body);
    NothingMarked(file, h, body);
    var h' := NewHead(FileHead(file).1, tocode);
    assert Clean(h') && UpperAll(h'.encoding) == h'.encoding by { NamedIsClean(h, h', tocode); }
    FrontOfPrinted(h', result);
  }

  /** A declaration without a mark, printed in front of any text, is found within the first 112 bytes. */
  lemma FrontOfPrinted(h: XmlHead, trail: seq<byte>)
    requires Clean(h) && Capacity(h) && h.bom == NoBom
    ensures FileHead(Formatted(h) + trail) == (|Formatted(h)|, ReadBack(h))
  {
    hide HeadText, Parsed, ReadBack, Clean;
    var file := Formatted(h) + trail;
    var k := if |file| < FILE_HEAD_SIZE then |trail| else FILE_HEAD_SIZE - |Formatted(h)|;
    assert Front(file) == Formatted(h) + trail[..k];
    HeadRoundTrip(h, trail[..k]);
  }

  lemma NothingMarked(file: seq<byte>, h: XmlHead, body: seq<byte>)
    requires file == Formatted(h) + body && Clean(h) && Capacity(h) && h.bom == NoBom
    ensures FileBom(file) == NoBom && Text(file, |Formatted(h)|) == body
  {
    hide HeadText;
    BomRecognised(h, body);
    MarkOf(file);
  }

  /** For other target encodings nothing is printed. */
  lemma OtherwiseNoHead(h: XmlHead, tocode: seq<byte>)
    requires |tocode| <= 64
    requires !(Ascii("UTF-8") <= tocode) && !(Ascii("GB2312") <= tocode) && !(Ascii("BIG5") <= tocode)
    requires !(Ascii("GBK") <= tocode) && !(Ascii("GB18030") <= tocode)
    ensures HeadOf(h, tocode) == []
  {
  }

  lemma NamedIsClean(h: XmlHead, h': XmlHead, tocode: seq<byte>)
    requires Clean(h) && |h.version| != 1 && |tocode| <= ENCODING_SIZE && UpperAll(tocode) == tocode
    requires QUOTE !in tocode && GREATER !in tocode && 0 !in tocode
    requires h'.version == h.version && h'.encoding == Named(tocode)
    ensures Clean(h') && UpperAll(h'.encoding) == h'.encoding
  {
    assert forall i :: 0 <= i < |tocode| ==> Upper(tocode[i]) == tocode[i] by {
      forall i | 0 <= i < |tocode| ensures Upper(tocode[i]) == tocode[i] { assert UpperAll(tocode)[i] == tocode[i]; }
    }
  }
}
