/** Chunk-by-chunk conversion of a file. */
module Convd {
  import opened Common
  import opened ByteOrder
  import opened Utf8

  datatype Bom = NoBom | Utf8Bom | Ucs2BE | Ucs2LE | Ucs4BE | Ucs4LE | AskOneMore

  const CONV_FINISHED := 0
  const CONVD_ERR_ENCODING := 4
  const CONVD_ERR_INSUFF := 5
  const CONVD_ERR_ICONV := -1

  function DetectBom(header: seq<byte>): Bom {
    if |header| <= 1 then NoBom
    else if header[0] == 0xFE && header[1] == 0xFF then Ucs2BE
    else if header[0] == 0 && header[1] == 0 && |header| > 3 && header[2] == 0xFE && header[3] == 0xFF then Ucs4BE
    else if header[0] == 0xFF && header[1] == 0xFE then
      if |header| > 3 && header[2] == 0 && header[3] == 0 then Ucs4LE else Ucs2LE
    else if header[0] == 0xEF && header[1] == 0xBB then
      if |header| == 2 then AskOneMore else if header[2] == 0xBF then Utf8Bom else NoBom
    else NoBom
  }

  predicate TwoByteMark(file: seq<byte>) {
    !FourByteMark(file) && ([0xFF, 0xFE] <= file || [0xFE, 0xFF] <= file)
  }

  predicate FourByteMark(file: seq<byte>) { [0xFF, 0xFE, 0, 0] <= file || [0, 0, 0xFE, 0xFF] <= file }

  /** Which of the marks a text has. */
  lemma MarkIs(text: seq<byte>)
    ensures DetectBom(text) == Ucs2LE <==> TwoByteMark(text) && [0xFF, 0xFE] <= text
    ensures DetectBom(text) == Ucs2BE <==> TwoByteMark(text) && [0xFE, 0xFF] <= text
    ensures DetectBom(text) == Ucs4LE <==> [0xFF, 0xFE, 0, 0] <= text
    ensures DetectBom(text) == Ucs4BE <==> [0, 0, 0xFE, 0xFF] <= text
    ensures DetectBom(text) == Utf8Bom <==> [0xEF, 0xBB, 0xBF] <= text
    ensures DetectBom(text) == AskOneMore <==> text == [0xEF, 0xBB]
  {
    Starts2(text, 0xFF, 0xFE);
    Starts2(text, 0xFE, 0xFF);
    Starts4(text, 0xFF, 0xFE, 0, 0);
    Starts4(text, 0, 0, 0xFE, 0xFF);
    assert [0xEF, 0xBB, 0xBF] <= text <==> |text| >= 3 && text[0] == 0xEF && text[1] == 0xBB && text[2] == 0xBF;
    assert |text| == 2 ==> text == [text[0], text[1]];
  }

  lemma Starts2(text: seq<byte>, a: byte, b: byte)
    ensures [a, b] <= text <==> |text| >= 2 && text[0] == a && text[1] == b
  {
  }

  lemma Starts4(text: seq<byte>, a: byte, b: byte, c: byte, d: byte)
    ensures [a, b, c, d] <= text <==> |text| >= 4 && text[0] == a && text[1] == b && text[2] == c && text[3] == d
  {
  }

  function BomBytes(bom: Bom): seq<byte> {
    match bom
    case Utf8Bom => [0xEF, 0xBB, 0xBF]
    case Ucs2BE => [0xFE, 0xFF]
    case Ucs2LE => [0xFF, 0xFE]
    case Ucs4BE => [0, 0, 0xFE, 0xFF]
    case Ucs4LE => [0xFF, 0xFE, 0, 0]
    case _ => []
  }

  predicate ByteWise(bom: Bom) { bom == NoBom || bom == Utf8Bom || bom == AskOneMore }

  /** Bytes of one unit of the text. */
  function UnitSize(bom: Bom): (u: nat)
    ensures u == 1 || u == 2 || u == 4
  {
    match bom case Ucs2BE => 2 case Ucs2LE => 2 case Ucs4BE => 4 case Ucs4LE => 4 case _ => 1
  }

  /** The units of `s` in the byte order of a little-endian host. */
  function HostOrder(bom: Bom, s: seq<byte>): (r: seq<byte>)
    ensures |r| == |s|
  {
    if bom == Ucs2BE then SwappedUnits(s, 2) else if bom == Ucs4BE then SwappedUnits(s, 4) else s
  }

  /** What `file_readbytes` delivers: `n` bytes, or fewer at the end of the file. */
  function ReadBytes(file: seq<byte>, at: nat, n: nat): (r: seq<byte>)
    ensures |r| <= n
    ensures |r| == if at >= |file| then 0 else if at + n <= |file| then n else |file| - at
  {
    if at >= |file| then [] else if at + n <= |file| then file[at..at + n] else file[at..]
  }

  /** Every run is shorter than the line buffer. */
  predicate ShortRuns(s: seq<byte>, linesize: nat) {
    forall k :: 0 <= k < |Runs(s)| ==> |Runs(s)[k]| < linesize
  }

  // ----- reading the next chunk -----

  function WholeUnits(s: seq<byte>, u: nat): (n: nat)
    requires u > 0
    ensures n <= |s|
  {
    |s| - |s| % u
  }

  class Position {
    const file: seq<byte>
    const bom: Bom
    const linesize: nat
    const linebuf: array<byte>   // one part input, four parts output
    var textfd: nat              // where the next read takes place
    var offset: nat

    /** A file whose BOM has been recognised: reading starts behind it. */
    constructor (file: seq<byte>, bom: Bom, linesize: nat)
      ensures this.file == file && this.bom == bom && this.linesize == linesize
      ensures linebuf.Length == 5 * linesize && fresh(linebuf)
      ensures textfd == offset == |BomBytes(bom)|
    {
      this.file, this.bom, this.linesize := file, bom, linesize;
      linebuf := new byte[5 * linesize];
      textfd, offset := |BomBytes(bom)|, |BomBytes(bom)|;
    }

    /** Read up to `linesize` bytes into the front of the buffer. */
    method ReadInto() returns (rdlen: nat)
      requires linebuf.Length == 5 * linesize
      modifies this`textfd, linebuf
      ensures rdlen == |ReadBytes(file, old(textfd), linesize)| && textfd == old(textfd) + rdlen
      ensures linebuf[..rdlen] == ReadBytes(file, old(textfd), linesize)
    {
      var data := ReadBytes(file, textfd, linesize);
      rdlen := |data|;
      forall i | 0 <= i < rdlen { linebuf[i] := data[i]; }
      textfd := textfd + rdlen;
    }

    /** The next chunk is at the front of the buffer; its length, 0 at the end, or a length that means the
        buffer was too small. */
    method ReadNext() returns (ret: int)
      requires linebuf.Length == 5 * linesize
      modifies this`textfd, this`offset, linebuf
      ensures var data := ReadBytes(file, old(textfd), linesize);
              if data == [] then ret == 0 && textfd == old(textfd) && offset == old(offset)
              else if !ByteWise(bom) then
                && ret == WholeUnits(data, UnitSize(bom)) && linebuf[..ret] == HostOrder(bom, data[..ret])
                && offset == old(offset) + ret && textfd == offset
              else if RunLength(data) == linesize then
                && ret == 5 && linebuf[..linesize] == data
                && textfd == old(textfd) + linesize && offset == old(offset)
              else
                && ret == RunLength(data) && linebuf[..ret] == data[..ret]
                && offset == old(offset) + ret && textfd == offset
    {
      ghost var data := ReadBytes(file, textfd, linesize);
      var rdlen := ReadInto();
      if rdlen == 0 { return CONV_FINISHED; }
      var offcb := 0;
      if ByteWise(bom) {
        var bitflag := High(linebuf[0]);
        offcb := 1;
        while offcb < rdlen && High(linebuf[offcb]) == bitflag
          invariant 1 <= offcb <= rdlen
          invariant forall i :: 0 <= i < offcb ==> High(data[i]) == bitflag
        {
          assert linebuf[offcb] == linebuf[..rdlen][offcb];
          offcb := offcb + 1;
        }
        assert offcb < rdlen ==> linebuf[offcb] == linebuf[..rdlen][offcb];
        RunLengthIs(data, offcb);
        if offcb == linesize { return CONVD_ERR_INSUFF; }
        assert linebuf[..offcb] == linebuf[..rdlen][..offcb];
      } else {
        offcb := ToHostOrder(rdlen, data);
      }
      offset := offset + offcb;
      textfd := offset;
      return offcb;
    }

    /** Bring every complete unit of the first `rdlen` bytes into host order. */
    method ToHostOrder(rdlen: nat, ghost data: seq<byte>) returns (offcb: nat)
      requires rdlen <= linebuf.Length && linebuf[..rdlen] == data && !ByteWise(bom)
      modifies linebuf
      ensures offcb == WholeUnits(data, UnitSize(bom)) && linebuf[..offcb] == HostOrder(bom, data[..offcb])
    {
      hide HostOrder, Reversed;
      var u := UnitSize(bom);
      offcb := 0;
      ghost var q := 0;
      assert data[..0] == [] && data[0..] == data;
      while offcb + u <= rdlen
        invariant offcb == q * u && offcb <= rdlen
        invariant linebuf[..offcb] == HostOrder(bom, data[..offcb])
        invariant linebuf[offcb..rdlen] == data[offcb..]
      {
        SwapUnit(data, offcb, u, rdlen);
        OneUnitMore(bom, data, offcb, q);
        offcb := offcb + u;
        q := q + 1;
      }
      UnitsCounted(q, u, rdlen);
    }

    /** Bring the unit at `k` into host order. */
    method SwapUnit(ghost data: seq<byte>, k: nat, u: nat, ghost rdlen: nat)
      requires u == UnitSize(bom) && k + u <= rdlen <= linebuf.Length && rdlen == |data|
      requires linebuf[k..rdlen] == data[k..]
      modifies linebuf
      ensures linebuf[..k] == old(linebuf[..k])
      ensures linebuf[k..k + u] == if bom == Ucs2BE || bom == Ucs4BE then Reversed(data[k..k + u]) else data[k..k + u]
      ensures linebuf[..k + u] == old(linebuf[..k]) + linebuf[k..k + u]
      ensures linebuf[k + u..rdlen] == data[k + u..]
    {
      ghost var was := linebuf[..];
      var rev := bom == Ucs2BE || bom == Ucs4BE;
      assert was[k..rdlen] == linebuf[k..rdlen];
      if rev { SwapEvenBytes(linebuf, k, u); }
      ghost var now := linebuf[..];
      UnitInPlace(was, now, data, k, u, rdlen, rev);
      assert now[..k] == linebuf[..k] && was[..k] == old(linebuf[..k]);
      assert now[k..k + u] == linebuf[k..k + u] && now[k + u..rdlen] == linebuf[k + u..rdlen];
      assert linebuf[..k + u] == linebuf[..k] + linebuf[k..k + u];
    }

    /** One conversion of the first `n` bytes of the buffer into its output part. */
    method ConvText(conv: seq<byte> -> Option<seq<byte>>, n: nat) returns (m: Option<nat>)
      requires linebuf.Length == 5 * linesize && n <= linebuf.Length
      modifies linebuf
      ensures m == match Converted(conv, old(linebuf[..n]), 4 * linesize)
                   case None => None case Some(out) => Some(|out|)
      ensures match conv(old(linebuf[..n]))
              case None => m == None
              case Some(out) =>
                && m == (if |out| <= 4 * linesize then Some(|out|) else None)
                && (m.Some? ==> linebuf[linesize..linesize + m.value] == out)
      ensures m.Some? ==>
                && m.value <= 4 * linesize
                && Some(linebuf[linesize..linesize + m.value]) == Converted(conv, old(linebuf[..n]), 4 * linesize)
    {
      match conv(linebuf[..n])
      case None => return None;
      case Some(out) =>
        if |out| > 4 * linesize { return None; }
        forall i | 0 <= i < |out| { linebuf[linesize + i] := out[i]; }
        assert linebuf[linesize..linesize + |out|] == out;
        return Some(|out|);
    }
  }

  /** A conversion fails on bad input, and when the output does not fit. */
  function Converted(conv: seq<byte> -> Option<seq<byte>>, input: seq<byte>, room: nat): Option<seq<byte>> {
    match conv(input)
    case None => None
    case Some(out) => if |out| <= room then Some(out) else None
  }

  lemma UnitInPlace(was: seq<byte>, now: seq<byte>, data: seq<byte>, k: nat, u: nat, rdlen: nat, rev: bool)
    requires k + u <= rdlen <= |was| == |now| && rdlen == |data| && was[k..rdlen] == data[k..]
    requires forall i :: 0 <= i < |now| && !(rev && k <= i < k + u) ==> now[i] == was[i]
    requires rev ==> forall i :: k <= i < k + u ==> now[i] == was[2 * k + u - 1 - i]
    ensures now[..k] == was[..k] && now[k + u..rdlen] == data[k + u..]
    ensures now[k..k + u] == if rev then Reversed(data[k..k + u]) else data[k..k + u]
  {
    forall i | k <= i < rdlen ensures was[i] == data[i] {
      assert was[i] == was[k..rdlen][i - k] && data[i] == data[k..][i - k];
    }
    var one, unit := now[k..k + u], data[k..k + u];
    forall j | 0 <= j < u ensures one[j] == if rev then unit[u - 1 - j] else unit[j] {
      var i := if rev then k + u - 1 - j else k + j;
      assert was[i] == data[i] == unit[i - k];
      assert one[j] == now[k + j];
    }
    assert now[..k] == was[..k];
    assert now[k + u..rdlen] == was[k + u..rdlen] == data[k + u..];
    assert rev ==> one == Reversed(unit);
    assert !rev ==> one == unit;
  }

  lemma OneUnitMore(bom: Bom, data: seq<byte>, k: nat, q: nat)
    requires !ByteWise(bom) && k == q * UnitSize(bom) && k + UnitSize(bom) <= |data|
    ensures var u := UnitSize(bom);
            HostOrder(bom, data[..k + u]) == HostOrder(bom, data[..k]) + HostOrder(bom, data[k..k + u])
    ensures var one := data[k..k + UnitSize(bom)];
            HostOrder(bom, one) == if bom == Ucs2BE || bom == Ucs4BE then Reversed(one) else one
  {
    var u := UnitSize(bom);
    var s := data[..k + u];
    assert s[..k] == data[..k] && s[k..] == data[k..k + u];
    SwappedUnitsSplit(s, u, k, q);
    var one := data[k..k + u];
    assert one[..u] == one && one[u..] == [];
    assert SwappedUnits(one, u) == Reversed(one) + SwappedUnits([], u);
    assert s == data[..k] + one;
  }

  lemma UnitsCounted(q: nat, u: nat, n: nat)
    requires u == 2 || u == 4
    requires q * u <= n < q * u + u
    ensures q * u == n - n % u
  {
  }
}
