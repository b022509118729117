/** What the parser takes for an XML declaration, and what it reads from it, in terms of the bytes of the text. */
module XmlDeclaration {
  import opened Common
  import opened ByteOrder
  import opened Convd
  import opened XmlHead
  import opened XmlParse

  // ----- the characters -----

  /** In wide units a character is the low byte of its unit. */
  lemma CharactersAre(text: seq<byte>)
    ensures var chars, n := Characters(text), |text|;
            && (!TwoByteMark(text) && !FourByteMark(text) && text != [0xEF, 0xBB] ==>
                  chars == if [0xEF, 0xBB, 0xBF] <= text then text[3..] else text)
            && (TwoByteMark(text) ==>
                  && |chars| == (n - 2) / 2
                  && forall i :: 0 <= i < |chars| ==>
                       chars[i] == text[if text[0] == 0xFF then 2 + 2 * i else 3 + 2 * i])
            && (FourByteMark(text) ==>
                  && |chars| == (n - 4) / 4
                  && forall i :: 0 <= i < |chars| ==>
                       chars[i] == text[if text[0] == 0xFF then 4 + 4 * i else 7 + 4 * i])
  {
    hide Decoded, DetectBom;
    MarkIs(text);
    Starts2(text, 0xFF, 0xFE);
    Starts2(text, 0xFE, 0xFF);
    Starts4(text, 0xFF, 0xFE, 0, 0);
    Starts4(text, 0, 0, 0xFE, 0xFF);
    BomPrefix(text);
    var bom := DetectBom(text);
    var body := text[|BomBytes(bom)|..];
    var chars := Decoded(bom, body);
    assert Characters(text) == chars;
    if UnitSize(bom) == 1 {
      BytesDecoded(bom, body);
    } else {
      forall i | 0 <= i < |chars|
        ensures TwoByteMark(text) ==> chars[i] == text[if text[0] == 0xFF then 2 + 2 * i else 3 + 2 * i]
        ensures FourByteMark(text) ==> chars[i] == text[if text[0] == 0xFF then 4 + 4 * i else 7 + 4 * i]
      {
        if UnitSize(bom) == 2 { PairDecoded(bom, body, i); } else { FourDecoded(bom, body, i); }
      }
    }
  }

  lemma {:induction false} BytesDecoded(bom: Bom, s: seq<byte>)
    requires UnitSize(bom) == 1
    ensures Decoded(bom, s) == s
  {
    if s != [] { BytesDecoded(bom, s[1..]); }
  }

  lemma {:induction false} PairDecoded(bom: Bom, s: seq<byte>, i: nat)
    requires (bom == Ucs2LE || bom == Ucs2BE) && i < |s| / 2
    ensures i < |Decoded(bom, s)| && Decoded(bom, s)[i] == s[if bom == Ucs2LE then 2 * i else 2 * i + 1]
  {
    if i > 0 { PairDecoded(bom, s[2..], i - 1); }
  }

  lemma {:induction false} FourDecoded(bom: Bom, s: seq<byte>, i: nat)
    requires (bom == Ucs4LE || bom == Ucs4BE) && i < |s| / 4
    ensures i < |Decoded(bom, s)| && Decoded(bom, s)[i] == s[if bom == Ucs4LE then 4 * i else 4 * i + 3]
  {
    if i > 0 { FourDecoded(bom, s[4..], i - 1); }
  }

  // ----- which texts have a declaration -----

  /** The characters up to the first `>` are a declaration: at least 21 of them, and a version before any null. */
  ghost predicate DeclaresUpTo(chars: seq<byte>, g: nat) {
    && 20 <= g < 127 && g < |chars| && chars[g] == 0x3E && 0x3E !in chars[..g] && chars[g - 1] == 0x3F
    && Ascii("<?xml ") <= chars
    && HasVersion(chars[..g + 1])
  }

  ghost predicate HasVersion(head: seq<byte>) { exists k: nat :: VersionAt(head, k) }

  predicate VersionAt(head: seq<byte>, k: nat) {
    OccursAt(head, Ascii("version=\""), k) && k + 9 <= |head| && 0 !in head[..k + 9]
  }

  /** Bytes of the mark, and of one character. */
  function MarkAndUnit(text: seq<byte>): (nat, nat) {
    if FourByteMark(text) then (4, 4) else if TwoByteMark(text) then (2, 2)
    else if [0xEF, 0xBB, 0xBF] <= text then (3, 1) else (0, 1)
  }

  lemma MarkAndUnitAre(text: seq<byte>)
    ensures var bom := DetectBom(text); MarkAndUnit(text) == (|BomBytes(bom)|, UnitSize(bom))
  {
    hide DetectBom;
    MarkIs(text);
    Starts2(text, 0xFF, 0xFE);
    Starts2(text, 0xFE, 0xFF);
    Starts4(text, 0xFF, 0xFE, 0, 0);
    Starts4(text, 0, 0, 0xFE, 0xFF);
  }

  /** Of a text the parser finds a declaration if and only if it has one; the length ends behind the `>`. */
  lemma RecognisedIff(text: seq<byte>)
    ensures Parsed(text).0 > 0 <==> exists g: nat :: DeclaresUpTo(Characters(text), g)
    ensures forall g: nat | DeclaresUpTo(Characters(text), g) ::
              Parsed(text).0 == MarkAndUnit(text).0 + MarkAndUnit(text).1 * (g + 1)
  {
    hide Characters, Declared, DeclaresUpTo, DetectBom, MarkAndUnit;
    var chars := Characters(text);
    MarkAndUnitAre(text);
    forall g: nat | DeclaresUpTo(chars, g)
      ensures Parsed(text).0 == MarkAndUnit(text).0 + MarkAndUnit(text).1 * (g + 1) > 0
    {
      Bounded(chars, g);
      UpToFirst(text, g);
      DeclaredIff(DetectBom(text), chars, g);
      Positive(MarkAndUnit(text).1, g + 1);
    }
    if Parsed(text).0 > 0 {
      var g := |ScannedHead(text).value| - 1;
      ScannedUpTo(text);
      DeclaredIff(DetectBom(text), chars, g);
      assert DeclaresUpTo(chars, g);
    }
  }

  lemma Positive(u: nat, n: nat)
    requires u > 0 && n > 0
    ensures u * n > 0
  {
  }

  lemma UpToFirst(text: seq<byte>, g: nat)
    requires DeclaresUpTo(Characters(text), g)
    ensures ScannedHead(text) == Some(Characters(text)[..g + 1])
  {
    hide Characters;
    FirstAt(Characters(text), g);
  }

  lemma ScannedUpTo(text: seq<byte>)
    requires ScannedHead(text).Some?
    ensures var chars, head := Characters(text), ScannedHead(text).value;
            && 0 < |head| <= 127 && |head| <= |chars| && head == chars[..|head|]
            && chars[|head| - 1] == 0x3E && 0x3E !in chars[..|head| - 1]
  {
    hide Characters;
    var chars := Characters(text);
    var g := Find(chars, [GREATER]).value;
    assert chars[g..g + 1][0] == chars[g];
    forall j | 0 <= j < g ensures chars[..g][j] != 0x3E {
      assert !OccursAt(chars, [GREATER], j);
      assert chars[j..j + 1] == [chars[j]];
    }
  }

  lemma DeclaredIff(bom: Bom, chars: seq<byte>, g: nat)
    requires g < 127 && g < |chars| && chars[g] == 0x3E && 0x3E !in chars[..g]
    ensures Declared(bom, chars[..g + 1]).Some? <==> DeclaresUpTo(chars, g)
  {
    hide Ascii, UntilNull, VersionIn, EncodingIn;
    var head := chars[..g + 1];
    var s, name := UntilNull(head), VersionName();
    assert g >= 6 ==> (Ascii("<?xml ") <= head <==> Ascii("<?xml ") <= chars);
    BeforeNull(head);
    assert |name| == 9 by { assert |"version=\""| == 9; }
    if Find(s, name).Some? {
      var k := Find(s, name).value;
      assert OccursAt(head, name, k) by { assert head[k..k + 9] == s[k..k + 9]; }
      assert head[..k + 9] == s[..k + 9];
      assert VersionAt(head, k);
    }
    if k: nat :| VersionAt(head, k) {
      NoNullBefore(head, k + 9);
      assert OccursAt(s, name, k) by { assert head[k..k + 9] == s[k..k + 9]; }
    }
  }

  lemma BeforeNull(s: seq<byte>)
    ensures UntilNull(s) <= s && 0 !in UntilNull(s)
  {
  }

  lemma {:induction false} NoNullBefore(s: seq<byte>, n: nat)
    requires n <= |s| && 0 !in s[..n]
    ensures n <= |UntilNull(s)|
  {
    if n > 0 {
      assert s[0] == s[..n][0];
      assert s[1..][..n - 1] == s[..n][1..];
      NoNullBefore(s[1..], n - 1);
    }
  }

  // ----- what is read from it -----

  ghost predicate FirstOccurs(s: seq<byte>, name: seq<byte>, k: nat) {
    OccursAt(s, name, k) && forall j: nat :: j < k ==> !OccursAt(s, name, j)
  }

  /** In `s` the value of `name` stands between positions `a` and `q`. */
  ghost predicate ValueAt(s: seq<byte>, name: seq<byte>, a: nat, q: nat) {
    a >= |name| && FirstOccurs(s, name, a - |name|) && a <= q < |s| && s[q] == 0x22 && 0x22 !in s[a..q]
  }

  lemma AttributeIs(s: seq<byte>, name: seq<byte>, a: nat, q: nat)
    requires ValueAt(s, name, a, q)
    ensures Attribute(s, name) == Some(s[a..q])
  {
    FindIs(s, name, a - |name|);
    var rest := s[a..];
    assert rest[q - a..q - a + 1] == [QUOTE];
    forall j: nat | j < q - a ensures !OccursAt(rest, [QUOTE], j) {
      assert s[a..q][j] == rest[j] == rest[j..j + 1][0];
    }
    FindIs(rest, [QUOTE], q - a);
    assert rest[..q - a] == s[a..q];
  }

  lemma NoAttributeIs(s: seq<byte>, name: seq<byte>)
    requires forall a: nat, q: nat :: !ValueAt(s, name, a, q)
    ensures Attribute(s, name) == None
  {
    var k := Find(s, name);
    if k.Some? {
      var a := k.value + |name|;
      var rest := s[a..];
      var e := Find(rest, [QUOTE]);
      if e.Some? {
        var q := a + e.value;
        assert rest[e.value..e.value + 1][0] == s[q];
        forall j | 0 <= j < e.value ensures s[a..q][j] != 0x22 {
          assert !OccursAt(rest, [QUOTE], j);
          assert rest[j..j + 1] == [s[a..q][j]];
        }
        assert ValueAt(s, name, a, q);
      }
    }
  }

  /** Bytes in upper case. */
  ghost predicate InUpperCase(s: seq<byte>, t: seq<byte>) {
    |t| == |s| && forall i :: 0 <= i < |s| ==> t[i] == if 0x61 <= s[i] <= 0x7A then s[i] - 0x20 else s[i]
  }

  /**
   * The fields of a declaration without null bytes: the text between the quotes of the first version, if it
   * is longer than one character, and that of the first encoding in upper case, if it fits; else nothing.
   */
  lemma FieldsAre(text: seq<byte>, g: nat)
    requires DeclaresUpTo(Characters(text), g) && 0 !in Characters(text)[..g + 1]
    ensures var s, h := Characters(text)[..g + 1], Parsed(text).1;
            && (forall a: nat, q: nat | ValueAt(s, Ascii("version=\""), a, q) ::
                  h.version == if q - a > 1 then s[a..q] else [])
            && ((forall a: nat, q: nat :: !ValueAt(s, Ascii("version=\""), a, q)) ==> h.version == [])
            && (forall a: nat, q: nat | ValueAt(s, Ascii("encoding=\""), a, q) ::
                  if q - a < 64 then InUpperCase(s[a..q], h.encoding) else h.encoding == [])
            && ((forall a: nat, q: nat :: !ValueAt(s, Ascii("encoding=\""), a, q)) ==> h.encoding == [])
  {
    hide Characters, DeclaresUpTo, DetectBom, UntilNull, Attribute, Ascii, FirstOccurs, InUpperCase;
    var chars := Characters(text);
    Bounded(chars, g);
    var s := chars[..g + 1];
    UpToFirst(text, g);
    DeclaredIff(DetectBom(text), chars, g);
    assert UntilNull(s) == s by {
      assert s[..|s|] == s;
      NoNullBefore(s, |s|);
      BeforeNull(s);
    }
    var h := Parsed(text).1;
    assert h.version == VersionIn(s) && h.encoding == EncodingIn(s);
    VersionIs(s);
    EncodingIs(s);
  }

  lemma Bounded(chars: seq<byte>, g: nat)
    requires DeclaresUpTo(chars, g)
    ensures g < 127 && g < |chars| && chars[g] == 0x3E && 0x3E !in chars[..g]
  {
  }

  lemma VersionIs(s: seq<byte>)
    ensures forall a: nat, q: nat | ValueAt(s, Ascii("version=\""), a, q) ::
              VersionIn(s) == if q - a > 1 then s[a..q] else []
    ensures (forall a: nat, q: nat :: !ValueAt(s, Ascii("version=\""), a, q)) ==> VersionIn(s) == []
  {
    hide Ascii, Attribute, FirstOccurs;
    forall a: nat, q: nat | ValueAt(s, Ascii("version=\""), a, q)
      ensures VersionIn(s) == if q - a > 1 then s[a..q] else []
    {
      AttributeIs(s, Ascii("version=\""), a, q);
    }
    if forall a: nat, q: nat :: !ValueAt(s, Ascii("version=\""), a, q) { NoAttributeIs(s, Ascii("version=\"")); }
  }

  lemma EncodingIs(s: seq<byte>)
    ensures forall a: nat, q: nat | ValueAt(s, Ascii("encoding=\""), a, q) ::
              if q - a < 64 then InUpperCase(s[a..q], EncodingIn(s)) else EncodingIn(s) == []
    ensures (forall a: nat, q: nat :: !ValueAt(s, Ascii("encoding=\""), a, q)) ==> EncodingIn(s) == []
  {
    hide Ascii, Attribute, FirstOccurs;
    forall a: nat, q: nat | ValueAt(s, Ascii("encoding=\""), a, q)
      ensures if q - a < 64 then InUpperCase(s[a..q], EncodingIn(s)) else EncodingIn(s) == []
    {
      AttributeIs(s, Ascii("encoding=\""), a, q);
    }
    if forall a: nat, q: nat :: !ValueAt(s, Ascii("encoding=\""), a, q) { NoAttributeIs(s, Ascii("encoding=\"")); }
  }
}
