/** What the chunks of a file are. */
module Chunks {
  import opened Common
  import opened ByteOrder
  import opened Utf8
  import opened Convd

  // ----- the file -----

  function Behind(file: seq<byte>, at: nat): seq<byte> {
    if at >= |file| then [] else file[at..]
  }

  /** The text to be converted: what is behind the BOM and the bytes to be skipped. */
  function Text(file: seq<byte>, inoffset: nat): seq<byte> {
    Behind(file, TextStart(file, inoffset))
  }

  function TextStart(file: seq<byte>, inoffset: nat): nat { |BomBytes(FileBom(file))| + inoffset }

  function FileBom(file: seq<byte>): Bom {
    DetectBom(ReadBytes(file, 0, 4))
  }

  /** All whole units of `s`, in host order. */
  function Units(bom: Bom, s: seq<byte>): seq<byte> {
    HostOrder(bom, s[..WholeUnits(s, UnitSize(bom))])
  }

  // ----- the chunks -----

  /** In a buffer of less than five bytes a cut run would take bytes that no read has put there. */
  predicate Describable(bom: Bom, linesize: nat) { ByteWise(bom) ==> linesize >= CONVD_ERR_INSUFF }

  /**
   * The chunks from where `offset` and the read position stand. Wide units come whole. In single bytes a
   * run that fills the buffer is cut: the error code makes its first five bytes a chunk, and reading goes
   * on behind the buffer; the next chunk that fits brings the read position back to the offset.
   */
  function ChunksFrom(bom: Bom, file: seq<byte>, linesize: nat, offset: nat, textfd: nat): seq<seq<byte>>
    requires Describable(bom, linesize) && offset <= textfd
    decreases |file| - offset, |file| - textfd
  {
    var data := ReadBytes(file, textfd, linesize);
    if data == [] then []
    else if !ByteWise(bom) then
      var w := WholeUnits(data, UnitSize(bom));
      if w == 0 then [] else [HostOrder(bom, data[..w])] + ChunksFrom(bom, file, linesize, offset + w, offset + w)
    else
      var n := RunLength(data);
      if n == linesize then
        [data[..CONVD_ERR_INSUFF]] + ChunksFrom(bom, file, linesize, offset, textfd + linesize)
      else
        [data[..n]] + ChunksFrom(bom, file, linesize, offset + n, offset + n)
  }

  lemma ChunksStep(bom: Bom, file: seq<byte>, linesize: nat, offset: nat, textfd: nat, n: nat)
    requires ByteWise(bom) && Describable(bom, linesize) && offset <= textfd
    requires var data := ReadBytes(file, textfd, linesize); data != [] && n == RunLength(data)
    ensures var data := ReadBytes(file, textfd, linesize);
            ChunksFrom(bom, file, linesize, offset, textfd) ==
            if n == linesize then
              [data[..CONVD_ERR_INSUFF]] + ChunksFrom(bom, file, linesize, offset, textfd + linesize)
            else
              [data[..n]] + ChunksFrom(bom, file, linesize, offset + n, offset + n)
  {
    hide ReadBytes, RunLength;
  }

  lemma UnitChunksStep(bom: Bom, file: seq<byte>, linesize: nat, at: nat)
    requires !ByteWise(bom)
    ensures var data := ReadBytes(file, at, linesize);
            var w := WholeUnits(data, UnitSize(bom));
            ChunksFrom(bom, file, linesize, at, at) ==
            if w == 0 then [] else [HostOrder(bom, data[..w])] + ChunksFrom(bom, file, linesize, at + w, at + w)
  {
    hide ReadBytes, HostOrder;
  }

  lemma ChunksEnd(bom: Bom, file: seq<byte>, linesize: nat, offset: nat, textfd: nat)
    requires Describable(bom, linesize) && offset <= textfd && ReadBytes(file, textfd, linesize) == []
    ensures ChunksFrom(bom, file, linesize, offset, textfd) == []
  {
  }

  /** A read sees the run at its start, or fills the buffer with it. */
  lemma ReadSeesRun(rest: seq<byte>, data: seq<byte>, linesize: nat)
    requires data != [] && (data == rest || (|data| == linesize < |rest| && data == rest[..linesize]))
    requires |data| <= linesize
    ensures RunLength(data) < linesize ==> RunLength(rest) == RunLength(data)
    ensures RunLength(data) == linesize ==> RunLength(rest) >= linesize
  {
    var n := RunLength(data);
    assert forall i :: 0 <= i < |data| ==> data[i] == rest[i];
    if n < |data| { RunLengthIs(rest, n); }
    if n == linesize { RunLengthAtLeast(rest, n); }
  }

  lemma RunsStep(s: seq<byte>)
    requires s != []
    ensures Runs(s) == [s[..RunLength(s)]] + Runs(s[RunLength(s)..])
  {
  }

  lemma {:induction false} ConcatAppend(a: seq<seq<byte>>, c: seq<byte>)
    ensures Concat(a + [c]) == Concat(a) + c
  {
    if a == [] {
      assert [] + [c] == [c] && [c][1..] == [];
      assert Concat([c]) == c + [];
    } else {
      ConcatAppend(a[1..], c);
      assert (a + [c])[1..] == a[1..] + [c];
    }
  }

  /** Whole units taken from the front leave the whole units of the rest. */
  lemma UnitsSplit(bom: Bom, s: seq<byte>, n: nat, q: nat)
    requires !ByteWise(bom) && n == q * UnitSize(bom) && n <= |s|
    ensures Units(bom, s) == HostOrder(bom, s[..n]) + Units(bom, s[n..])
  {
    hide HostOrder;
    var u := UnitSize(bom);
    var rest := s[n..];
    var w := WholeUnits(s, u);
    WholeBehind(|s|, n, q, u);
    assert s[..w][..n] == s[..n] && s[..w][n..] == rest[..w - n];
    HostOrderSplit(bom, s[..w], n, q);
  }

  lemma WholeBehind(len: nat, n: nat, q: nat, u: nat)
    requires (u == 2 || u == 4) && n == q * u && n <= len
    ensures len - len % u == n + ((len - n) - (len - n) % u) && n <= len - len % u
  {
    if u == 2 { Twos(len, q); } else { Fours(len, q); }
  }

  lemma Twos(len: nat, q: nat)
    requires 2 * q <= len
    ensures (len - 2 * q) % 2 == len % 2 && 2 * q <= len - len % 2
  {
  }

  lemma Fours(len: nat, q: nat)
    requires 4 * q <= len
    ensures (len - 4 * q) % 4 == len % 4 && 4 * q <= len - len % 4
  {
  }

  lemma HostOrderSplit(bom: Bom, s: seq<byte>, n: nat, q: nat)
    requires n == q * UnitSize(bom) && n <= |s|
    ensures HostOrder(bom, s) == HostOrder(bom, s[..n]) + HostOrder(bom, s[n..])
  {
    hide SwappedUnits;
    SwappedUnitsSplit(s, UnitSize(bom), n, q);
    assert s == s[..n] + s[n..];
  }

  lemma NoUnits(bom: Bom, rest: seq<byte>)
    requires |rest| < UnitSize(bom)
    ensures Units(bom, rest) == []
  {
  }

  lemma WholeUnitsQuotient(s: seq<byte>, u: nat)
    requires u == 2 || u == 4
    ensures WholeUnits(s, u) == (|s| / u) * u
  {
  }
}
