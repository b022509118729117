/** Converting a whole file chunk by chunk, against converting its text at once. */
module ConvFile {
  import opened Common
  import opened ByteOrder
  import opened Utf8
  import opened Convd
  import opened Chunks
  import opened ChunkLaws

  // ----- conversion of a list of chunks -----

  function Joined(a: Option<seq<byte>>, b: Option<seq<byte>>): Option<seq<byte>> {
    if a.Some? && b.Some? then Some(a.value + b.value) else None
  }

  /** The outputs of all chunks together; none if one of them fails. */
  function ConvAll(conv: seq<byte> -> Option<seq<byte>>, chunks: seq<seq<byte>>, room: nat): Option<seq<byte>> {
    if chunks == [] then Some([])
    else Joined(Converted(conv, chunks[0], room), ConvAll(conv, chunks[1..], room))
  }

  lemma JoinedAssociates(a: Option<seq<byte>>, b: Option<seq<byte>>, c: Option<seq<byte>>)
    ensures Joined(Joined(a, b), c) == Joined(a, Joined(b, c))
  {
    if a.Some? && b.Some? && c.Some? {
      assert (a.value + b.value) + c.value == a.value + (b.value + c.value);
    }
  }

  lemma {:induction false} ConvAllAppend(conv: seq<byte> -> Option<seq<byte>>, a: seq<seq<byte>>, b: seq<seq<byte>>,
                                            room: nat)
    ensures ConvAll(conv, a + b, room) == Joined(ConvAll(conv, a, room), ConvAll(conv, b, room))
  {
    if a == [] {
      assert a + b == b;
      var all := ConvAll(conv, b, room);
      assert all.Some? ==> [] + all.value == all.value;
    } else {
      ConvAllAppend(conv, a[1..], b, room);
      assert (a + b)[1..] == a[1..] + b;
      JoinedAssociates(Converted(conv, a[0], room), ConvAll(conv, a[1..], room), ConvAll(conv, b, room));
    }
  }

  /** The converter treats well-formed text piece by piece as it treats it at once. */
  ghost predicate Distributes(conv: seq<byte> -> Option<seq<byte>>) {
    && conv([]) == Some([])
    && forall a: seq<byte>, b: seq<byte> :: WellFormed(a) && WellFormed(b) ==> conv(a + b) == Joined(conv(a), conv(b))
  }

  ghost predicate NeverFills(conv: seq<byte> -> Option<seq<byte>>, chunks: seq<seq<byte>>, room: nat) {
    forall k :: 0 <= k < |chunks| && conv(chunks[k]).Some? ==> |conv(chunks[k]).value| <= room
  }

  /** Converting the runs one by one is converting the text. */
  lemma {:induction false} RunByRun(conv: seq<byte> -> Option<seq<byte>>, text: seq<byte>, room: nat)
    requires Distributes(conv) && WellFormed(text) && NeverFills(conv, Runs(text), room)
    ensures ConvAll(conv, Runs(text), room) == conv(text)
    decreases |text|
  {
    hide Runs, RunLength, WellFormed, ConvAll, Converted, NeverFills, Distributes;
    if text == [] {
      NothingToConvert(conv, room);
    } else {
      var first, rest := text[..RunLength(text)], text[RunLength(text)..];
      FirstRunWellFormed(text);
      RunsStep(text);
      FirstFits(conv, first, Runs(rest), room);
      RunByRun(conv, rest, room);
      ConvAllStep(conv, first, Runs(rest), room);
      assert text == first + rest;
      Distribute(conv, first, rest);
    }
  }

  lemma NothingToConvert(conv: seq<byte> -> Option<seq<byte>>, room: nat)
    requires Distributes(conv)
    ensures ConvAll(conv, Runs([]), room) == conv([])
  {
  }

  lemma FirstFits(conv: seq<byte> -> Option<seq<byte>>, first: seq<byte>, rest: seq<seq<byte>>, room: nat)
    requires NeverFills(conv, [first] + rest, room)
    ensures NeverFills(conv, rest, room) && Converted(conv, first, room) == conv(first)
  {
    var all := [first] + rest;
    assert all[0] == first && forall k :: 0 <= k < |rest| ==> rest[k] == all[k + 1];
  }

  lemma ConvAllStep(conv: seq<byte> -> Option<seq<byte>>, first: seq<byte>, rest: seq<seq<byte>>, room: nat)
    ensures ConvAll(conv, [first] + rest, room) == Joined(Converted(conv, first, room), ConvAll(conv, rest, room))
  {
    assert ([first] + rest)[1..] == rest;
  }

  lemma Distribute(conv: seq<byte> -> Option<seq<byte>>, a: seq<byte>, b: seq<byte>)
    requires Distributes(conv) && WellFormed(a) && WellFormed(b)
    ensures conv(a + b) == Joined(conv(a), conv(b))
  {
    hide WellFormed;
  }

  // ----- what the chunks read so far say about the text -----

  /** A run that does not fit was cut to five bytes. */
  ghost predicate LostStep(text: seq<byte>, linesize: nat, chunks: seq<seq<byte>>) {
    exists k :: 0 <= k < |chunks| && k < |Runs(text)| && |Runs(text)[k]| >= linesize && |chunks[k]| == CONVD_ERR_INSUFF
  }

  /** The chunks are runs that fit, and `rest` is still to come. */
  ghost predicate InStep(text: seq<byte>, linesize: nat, chunks: seq<seq<byte>>, rest: seq<byte>) {
    Runs(text) == chunks + Runs(rest) && forall k :: 0 <= k < |chunks| ==> |chunks[k]| < linesize
  }

  ghost predicate Chunked(bom: Bom, text: seq<byte>, linesize: nat, chunks: seq<seq<byte>>, rest: seq<byte>,
                          together: bool)
  {
    if ByteWise(bom) then
      LostStep(text, linesize, chunks) || (together && InStep(text, linesize, chunks, rest))
    else
      together && (linesize >= UnitSize(bom) ==> Concat(chunks) + Units(bom, rest) == Units(bom, text))
  }

  lemma NothingRead(bom: Bom, text: seq<byte>, linesize: nat)
    ensures Chunked(bom, text, linesize, [], text, true)
  {
    assert [] + Runs(text) == Runs(text);
    assert [] + Units(bom, text) == Units(bom, text);
  }

  lemma RunChunk(text: seq<byte>, linesize: nat, chunks: seq<seq<byte>>, rest: seq<byte>, data: seq<byte>,
                 chunk: seq<byte>)
    requires InStep(text, linesize, chunks, rest) && data != [] && |data| <= linesize
    requires data == rest || (|data| == linesize < |rest| && data == rest[..linesize])
    requires if RunLength(data) == linesize then |chunk| == CONVD_ERR_INSUFF else chunk == data[..RunLength(data)]
    ensures if RunLength(data) == linesize then LostStep(text, linesize, chunks + [chunk])
            else InStep(text, linesize, chunks + [chunk], rest[RunLength(data)..])
  {
    hide Runs, RunLength;
    ReadSeesRun(rest, data, linesize);
    RunsStep(rest);
    var n := RunLength(data);
    if n == linesize {
      assert Runs(text)[|chunks|] == Runs(rest)[0] && (chunks + [chunk])[|chunks|] == chunk;
    } else {
      assert data[..n] == rest[..n];
      assert chunks + ([chunk] + Runs(rest[n..])) == (chunks + [chunk]) + Runs(rest[n..]);
    }
  }

  lemma ShortRunsKeepStep(text: seq<byte>, linesize: nat, chunks: seq<seq<byte>>)
    requires ShortRuns(text, linesize)
    ensures !LostStep(text, linesize, chunks)
    ensures linesize == 0 ==> Runs(text) == []
  {
    assert Runs(text) != [] ==> |Runs(text)[0]| >= 0;
  }

  lemma LostStepStays(text: seq<byte>, linesize: nat, chunks: seq<seq<byte>>, chunk: seq<byte>)
    requires LostStep(text, linesize, chunks)
    ensures LostStep(text, linesize, chunks + [chunk])
  {
    var k :| 0 <= k < |chunks| && k < |Runs(text)| && |Runs(text)[k]| >= linesize && |chunks[k]| == CONVD_ERR_INSUFF;
    assert (chunks + [chunk])[k] == chunks[k];
  }

  lemma UnitsChunk(bom: Bom, text: seq<byte>, linesize: nat, chunks: seq<seq<byte>>, rest: seq<byte>, data: seq<byte>,
                   n: nat)
    requires !ByteWise(bom) && Chunked(bom, text, linesize, chunks, rest, true) && n == WholeUnits(data, UnitSize(bom))
    requires data == rest || (|data| == linesize < |rest| && data == rest[..linesize])
    ensures Chunked(bom, text, linesize, chunks + [HostOrder(bom, data[..n])], rest[n..], true)
  {
    if linesize >= UnitSize(bom) {
      hide HostOrder, Units;
      var chunk := HostOrder(bom, data[..n]);
      assert data[..n] == rest[..n];
      WholeUnitsQuotient(data, UnitSize(bom));
      UnitsSplit(bom, rest, n, |data| / UnitSize(bom));
      ConcatAppend(chunks, chunk);
      assert Concat(chunks) + (chunk + Units(bom, rest[n..])) == (Concat(chunks) + chunk) + Units(bom, rest[n..]);
    }
  }

  /** One chunk more: from position `at` to position `next`. */
  lemma OneChunk(bom: Bom, file: seq<byte>, text: seq<byte>, linesize: nat, chunks: seq<seq<byte>>,
                 offset: nat, textfd: nat, offset': nat, textfd': nat, chunk: seq<byte>)
    requires Chunked(bom, text, linesize, chunks, Behind(file, offset), offset == textfd)
    requires var data := ReadBytes(file, textfd, linesize);
             && data != [] && |chunk| > 0
             && if !ByteWise(bom) then
                  var n := WholeUnits(data, UnitSize(bom));
                  chunk == HostOrder(bom, data[..n]) && offset' == textfd' == offset + n
                else if RunLength(data) == linesize then
                  |chunk| == CONVD_ERR_INSUFF && offset' == offset && textfd' == textfd + linesize
                else chunk == data[..RunLength(data)] && offset' == textfd' == offset + RunLength(data)
    ensures Chunked(bom, text, linesize, chunks + [chunk], Behind(file, offset'), offset' == textfd')
  {
    hide HostOrder, Runs;
    var data, rest := ReadBytes(file, textfd, linesize), Behind(file, offset);
    if ByteWise(bom) && LostStep(text, linesize, chunks) {
      LostStepStays(text, linesize, chunks, chunk);
    } else {
      assert rest == file[offset..];
      assert |data| == linesize < |rest| ==> data == rest[..linesize];
      if ByteWise(bom) {
        RunChunk(text, linesize, chunks, rest, data, chunk);
        assert RunLength(data) < linesize ==> Behind(file, offset') == rest[RunLength(data)..];
      } else {
        var n := WholeUnits(data, UnitSize(bom));
        UnitsChunk(bom, text, linesize, chunks, rest, data, n);
        assert Behind(file, offset') == rest[n..];
      }
    }
  }

  /** At the end of a run without errors. */
  lemma AllRead(bom: Bom, text: seq<byte>, linesize: nat, chunks: seq<seq<byte>>, rest: seq<byte>, together: bool)
    requires Chunked(bom, text, linesize, chunks, rest, together)
    requires together ==>
               || rest == [] || linesize == 0
               || (!ByteWise(bom) && (linesize < UnitSize(bom) || |rest| < UnitSize(bom)))
    ensures ByteWise(bom) && ShortRuns(text, linesize) ==> chunks == Runs(text)
    ensures ByteWise(bom) && linesize > CONVD_ERR_INSUFF && chunks == Runs(text) ==> ShortRuns(text, linesize)
    ensures !ByteWise(bom) && linesize >= UnitSize(bom) ==> Concat(chunks) == Units(bom, text)
  {
    if ByteWise(bom) {
      if ShortRuns(text, linesize) { ShortRunsKeepStep(text, linesize, chunks); }
      if rest == [] { assert chunks + [] == chunks; }
    } else if linesize >= UnitSize(bom) {
      NoUnits(bom, rest);
      assert Concat(chunks) + [] == Concat(chunks);
    }
  }

  /** If the runs fit, a chunk whose conversion fails makes the conversion of all runs fail. */
  lemma FailureIsFound(conv: seq<byte> -> Option<seq<byte>>, cpos: Position, text: seq<byte>, room: nat,
                       chunks: seq<seq<byte>>, chunk: seq<byte>)
    requires ByteWise(cpos.bom) && Going(cpos, text, chunks + [chunk])
    requires Converted(conv, chunk, room) == None && ShortRuns(text, cpos.linesize)
    ensures ConvAll(conv, Runs(text), room) == None
  {
    ShortRunsKeepStep(text, cpos.linesize, chunks + [chunk]);
    ConvAllAppend(conv, chunks + [chunk], Runs(Behind(cpos.file, cpos.offset)), room);
    ConvertOneMore(conv, chunks, chunk, room);
  }

  /**
   * Convert the file behind its BOM and `inoffset` bytes. Of text in single bytes the chunks are the
   * runs of equal bit 7 exactly if every run fits the line buffer: a longer one makes the reader
   * report CONVD_ERR_INSUFF, which this loop takes for a length.
   */
  method ConvertFile(file: seq<byte>, inoffset: nat, head: seq<byte>, linesize: nat,
                     conv: seq<byte> -> Option<seq<byte>>)
    returns (ret: int, out: seq<byte>, outsize: nat, ghost chunks: seq<seq<byte>>)
    ensures FileBom(file) == AskOneMore ==> ret == 4 && out == []
    ensures FileBom(file) != AskOneMore ==>
              && ret in {0, -1}
              && ConvAll(conv, chunks, 4 * linesize).Some?
              && out == head + ConvAll(conv, chunks, 4 * linesize).value && outsize == |out| - |head|
    ensures ByteWise(FileBom(file)) && FileBom(file) != AskOneMore && ret == 0 ==>
              && (ShortRuns(Text(file, inoffset), linesize) ==> chunks == Runs(Text(file, inoffset)))
              && (linesize > CONVD_ERR_INSUFF && chunks == Runs(Text(file, inoffset)) ==>
                  ShortRuns(Text(file, inoffset), linesize))
    ensures ByteWise(FileBom(file)) && FileBom(file) != AskOneMore && ret == -1 ==>
              (ShortRuns(Text(file, inoffset), linesize) ==>
                  ConvAll(conv, Runs(Text(file, inoffset)), 4 * linesize) == None)
    ensures FileBom(file) != AskOneMore && Describable(FileBom(file), linesize) ==>
              var start := TextStart(file, inoffset);
              var all := ChunksFrom(FileBom(file), file, linesize, start, start);
              if ret == 0 then chunks == all
              else chunks < all && Converted(conv, all[|chunks|], 4 * linesize) == None
    ensures !ByteWise(FileBom(file)) && linesize >= UnitSize(FileBom(file)) && ret == 0 ==>
              Concat(chunks) == Units(FileBom(file), Text(file, inoffset))
  {
    hide Going, Runs, Units, ConvAll, Text, ShortRuns, FileBom, BomBytes, Converted;
    hide ByteWise, UnitSize, Concat, ChunksFrom, TextStart, ChunksLeft, Describable;
    var bom := FileBom(file);
    out, outsize, chunks := [], 0, [];
    if bom == AskOneMore { return CONVD_ERR_ENCODING, [], 0, []; }
    var cpos := new Position(file, bom, linesize);
    out := head;
    cpos.offset := cpos.offset + inoffset;
    cpos.textfd := cpos.textfd + inoffset;
    ghost var text, room, at := Text(file, inoffset), 4 * linesize, TextStart(file, inoffset);
    Starts(file, inoffset, cpos);
    NoChunksYet(cpos);
    ConvertNothing(conv, head, room);
    while true
      invariant fresh(cpos) && fresh(cpos.linebuf) && cpos.linebuf.Length == 5 * linesize
      invariant cpos.file == file && cpos.bom == bom && cpos.linesize == linesize
      invariant Going(cpos, text, chunks)
      invariant ConvAll(conv, chunks, room).Some? && out == head + ConvAll(conv, chunks, room).value
      invariant outsize == |out| - |head|
      invariant ChunksLeft(cpos, chunks, at)
      decreases |file| - cpos.offset, |file| - cpos.textfd
    {
      ghost var chunk;
      ret, chunk := NextChunk(cpos, text, chunks, at);
      if !(ret > 0) { return; }
      ConvertOneMore(conv, chunks, chunk, room);
      var m := cpos.ConvText(conv, ret);
      if m == None {
        if ByteWise(bom) && ShortRuns(text, linesize) { FailureIsFound(conv, cpos, text, room, chunks, chunk); }
        NextOfAll(cpos, chunks, chunk, at);
        return CONVD_ERR_ICONV, out, outsize, chunks;
      }
      out := out + cpos.linebuf[linesize..linesize + m.value];
      outsize := outsize + m.value;
      chunks := chunks + [chunk];
    }
  }

  /** Between two reads: the chunks so far are accounted for. */
  ghost predicate Going(cpos: Position, text: seq<byte>, chunks: seq<seq<byte>>)
    reads cpos
  {
    && cpos.linebuf.Length == 5 * cpos.linesize
    && cpos.offset <= cpos.textfd && (cpos.textfd <= |cpos.file| || cpos.offset == cpos.textfd)
    && Chunked(cpos.bom, text, cpos.linesize, chunks, Behind(cpos.file, cpos.offset), cpos.offset == cpos.textfd)
  }

  /** The chunks so far and those to come are the chunks from position `at`. */
  ghost predicate ChunksLeft(cpos: Position, chunks: seq<seq<byte>>, at: nat)
    reads cpos
  {
    Describable(cpos.bom, cpos.linesize) ==>
      && cpos.offset <= cpos.textfd && (!ByteWise(cpos.bom) ==> cpos.offset == cpos.textfd)
      && chunks + ChunksFrom(cpos.bom, cpos.file, cpos.linesize, cpos.offset, cpos.textfd)
         == ChunksFrom(cpos.bom, cpos.file, cpos.linesize, at, at)
  }

  lemma NextOfAll(cpos: Position, chunks: seq<seq<byte>>, chunk: seq<byte>, at: nat)
    requires ChunksLeft(cpos, chunks + [chunk], at)
    ensures Describable(cpos.bom, cpos.linesize) ==>
              var all := ChunksFrom(cpos.bom, cpos.file, cpos.linesize, at, at);
              chunks < all && all[|chunks|] == chunk
  {
    hide ChunksFrom;
  }

  lemma NoChunksYet(cpos: Position)
    requires cpos.offset == cpos.textfd
    ensures ChunksLeft(cpos, [], cpos.offset)
  {
  }

  method NextChunk(cpos: Position, ghost text: seq<byte>, ghost chunks: seq<seq<byte>>, ghost start: nat)
    returns (ret: int, ghost chunk: seq<byte>)
    requires Going(cpos, text, chunks) && ChunksLeft(cpos, chunks, start)
    modifies cpos`textfd, cpos`offset, cpos.linebuf
    ensures ret >= 0
    ensures ret > 0 ==>
              && ret <= cpos.linebuf.Length && chunk == cpos.linebuf[..ret] && Going(cpos, text, chunks + [chunk])
              && old(cpos.textfd) < |cpos.file| && cpos.offset <= |cpos.file|
              && (old(cpos.offset) < cpos.offset || (old(cpos.offset) == cpos.offset && old(cpos.textfd) < cpos.textfd))
              && ChunksLeft(cpos, chunks + [chunk], start)
    ensures ret == 0 ==>
              && (Describable(cpos.bom, cpos.linesize) ==>
                    chunks == ChunksFrom(cpos.bom, cpos.file, cpos.linesize, start, start))
              && (ByteWise(cpos.bom) && ShortRuns(text, cpos.linesize) ==> chunks == Runs(text))
              && (ByteWise(cpos.bom) && cpos.linesize > CONVD_ERR_INSUFF && chunks == Runs(text) ==>
                  ShortRuns(text, cpos.linesize))
              && (!ByteWise(cpos.bom) && cpos.linesize >= UnitSize(cpos.bom) ==>
                  Concat(chunks) == Units(cpos.bom, text))
  {
    hide Chunked, Runs, RunLength, HostOrder, Units, ShortRuns, ChunksFrom, Concat, ReadBytes, WholeUnits, Behind;
    ghost var at, fd := cpos.offset, cpos.textfd;
    ret := cpos.ReadNext();
    chunk := [];
    if ByteWise(cpos.bom) && Describable(cpos.bom, cpos.linesize) {
      MoreChunks(cpos.bom, cpos.file, cpos.linesize, at, fd, cpos.linebuf[..], ret, chunks, start);
    } else if !ByteWise(cpos.bom) {
      MoreUnits(cpos.bom, cpos.file, cpos.linesize, at, cpos.linebuf[..], ret, chunks, start);
    }
    if ret > 0 {
      chunk := cpos.linebuf[..ret];
      OneChunk(cpos.bom, cpos.file, text, cpos.linesize, chunks, at, fd, cpos.offset, cpos.textfd, chunk);
    } else {
      if at == fd { ReadNothing(cpos.bom, cpos.file, at, cpos.linesize); }
      AllRead(cpos.bom, text, cpos.linesize, chunks, Behind(cpos.file, at), at == fd);
    }
  }

  /** One chunk more, or none. */
  lemma MoreUnits(bom: Bom, file: seq<byte>, linesize: nat, at: nat, buffer: seq<byte>, ret: int,
                  chunks: seq<seq<byte>>, start: nat)
    requires !ByteWise(bom)
    requires chunks + ChunksFrom(bom, file, linesize, at, at) == ChunksFrom(bom, file, linesize, start, start)
    requires var data := ReadBytes(file, at, linesize);
             && 0 <= ret == WholeUnits(data, UnitSize(bom)) <= |buffer| && buffer[..ret] == HostOrder(bom, data[..ret])
    ensures ret == 0 ==> chunks == ChunksFrom(bom, file, linesize, start, start)
    ensures ret > 0 ==>
              (chunks + [buffer[..ret]]) + ChunksFrom(bom, file, linesize, at + ret, at + ret)
              == ChunksFrom(bom, file, linesize, start, start)
  {
    hide ChunksFrom, ReadBytes, HostOrder, WholeUnits;
    UnitChunksStep(bom, file, linesize, at);
    if ret == 0 {
      assert chunks + [] == chunks;
    } else {
      OneMore(chunks, buffer[..ret], ChunksFrom(bom, file, linesize, at + ret, at + ret));
    }
  }

  lemma MoreChunks(bom: Bom, file: seq<byte>, linesize: nat, at: nat, fd: nat, buffer: seq<byte>, ret: int,
                   chunks: seq<seq<byte>>, start: nat)
    requires ByteWise(bom) && Describable(bom, linesize) && at <= fd && |buffer| >= linesize
    requires chunks + ChunksFrom(bom, file, linesize, at, fd) == ChunksFrom(bom, file, linesize, start, start)
    requires var data := ReadBytes(file, fd, linesize);
             if data == [] then ret == 0
             else if RunLength(data) == linesize then ret == CONVD_ERR_INSUFF && buffer[..linesize] == data
             else 0 <= ret == RunLength(data) <= |buffer| && buffer[..ret] == data[..ret]
    ensures ret == 0 ==> chunks == ChunksFrom(bom, file, linesize, start, start)
    ensures ret > 0 ==>
              var full := RunLength(ReadBytes(file, fd, linesize)) == linesize;
              var (o, t) := if full then (at, fd + linesize) else (at + ret, at + ret);
              (chunks + [buffer[..ret]]) + ChunksFrom(bom, file, linesize, o, t)
              == ChunksFrom(bom, file, linesize, start, start)
  {
    hide ChunksFrom, RunLength, ReadBytes;
    var data := ReadBytes(file, fd, linesize);
    if data == [] {
      ChunksEnd(bom, file, linesize, at, fd);
      assert chunks + [] == chunks;
    } else {
      var n := RunLength(data);
      var chunk := data[..ret];
      assert buffer[..ret] == chunk by {
        if n == linesize { assert buffer[..linesize][..ret] == buffer[..ret]; }
      }
      ChunksStep(bom, file, linesize, at, fd, n);
      var rest := if n == linesize then ChunksFrom(bom, file, linesize, at, fd + linesize)
                  else ChunksFrom(bom, file, linesize, at + n, at + n);
      OneMore(chunks, chunk, rest);
    }
  }

  lemma OneMore(chunks: seq<seq<byte>>, chunk: seq<byte>, rest: seq<seq<byte>>)
    ensures (chunks + [chunk]) + rest == chunks + ([chunk] + rest)
  {
  }

  /** A read that delivers nothing has reached the end, or the buffer or the rest is too small. */
  lemma ReadNothing(bom: Bom, file: seq<byte>, at: nat, linesize: nat)
    requires var data := ReadBytes(file, at, linesize);
             data == [] || (!ByteWise(bom) && WholeUnits(data, UnitSize(bom)) == 0)
    ensures var rest := Behind(file, at);
            || rest == [] || linesize == 0
            || (!ByteWise(bom) && (linesize < UnitSize(bom) || |rest| < UnitSize(bom)))
  {
  }

  lemma Starts(file: seq<byte>, inoffset: nat, cpos: Position)
    requires cpos.file == file && cpos.bom == FileBom(file) && cpos.linebuf.Length == 5 * cpos.linesize
    requires cpos.offset == cpos.textfd == |BomBytes(FileBom(file))| + inoffset
    ensures Going(cpos, Text(file, inoffset), []) && cpos.offset == TextStart(file, inoffset)
  {
    NothingRead(FileBom(file), Text(file, inoffset), cpos.linesize);
  }

  lemma ConvertNothing(conv: seq<byte> -> Option<seq<byte>>, head: seq<byte>, room: nat)
    ensures ConvAll(conv, [], room) == Some([]) && head == head + []
  {
  }

  lemma ConvertOneMore(conv: seq<byte> -> Option<seq<byte>>, chunks: seq<seq<byte>>, chunk: seq<byte>, room: nat)
    ensures ConvAll(conv, chunks + [chunk], room) == Joined(ConvAll(conv, chunks, room), Converted(conv, chunk, room))
  {
    ConvAllAppend(conv, chunks, [chunk], room);
    var c := Converted(conv, chunk, room);
    assert ConvAll(conv, [chunk], room) == Joined(c, Some([]));
    if c.Some? { assert c.value + [] == c.value; }
  }

  // ----- the laws of a whole file -----

  /** Which of the marks a file has. */
  lemma MarkOf(file: seq<byte>)
    ensures FileBom(file) == DetectBom(file)
    ensures FileBom(file) == Ucs2LE <==> TwoByteMark(file) && [0xFF, 0xFE] <= file
    ensures FileBom(file) == Ucs2BE <==> TwoByteMark(file) && [0xFE, 0xFF] <= file
    ensures FileBom(file) == Ucs4LE <==> [0xFF, 0xFE, 0, 0] <= file
    ensures FileBom(file) == Ucs4BE <==> [0, 0, 0xFE, 0xFF] <= file
    ensures FileBom(file) == Utf8Bom <==> [0xEF, 0xBB, 0xBF] <= file
    ensures FileBom(file) == AskOneMore <==> file == [0xEF, 0xBB]
  {
    var four := ReadBytes(file, 0, 4);
    assert |four| == (if |file| < 4 then |file| else 4) && forall i :: 0 <= i < |four| ==> four[i] == file[i];
    MarkIs(file);
  }

  /** Where the text of a file in single bytes starts. */
  function ByteTextStart(file: seq<byte>, inoffset: nat): nat {
    (if [0xEF, 0xBB, 0xBF] <= file then 3 else 0) + inoffset
  }

  /** A failed call, or the head with the result behind it. */
  ghost predicate Wrote(ret: int, out: seq<byte>, outsize: nat, head: seq<byte>, result: Option<seq<byte>>) {
    match result
    case None => ret == -1
    case Some(bytes) => ret == 0 && out == head + bytes && outsize == |bytes|
  }

  /**
   * The law of the converter: for well-formed UTF-8 text whose runs fit, and a conversion that
   * distributes over concatenation and never fills the output buffer, converting chunk by chunk is
   * converting the text at once, with no byte lost or repeated; and it fails when that fails.
   */
  method ConvertUtf8File(file: seq<byte>, inoffset: nat, head: seq<byte>, linesize: nat,
                         conv: seq<byte> -> Option<seq<byte>>)
    returns (ret: int, out: seq<byte>, outsize: nat)
    requires !TwoByteMark(file) && !FourByteMark(file) && file != [0xEF, 0xBB]
    requires var text := Behind(file, ByteTextStart(file, inoffset));
             && WellFormed(text) && ShortRuns(text, linesize)
             && Distributes(conv) && NeverFills(conv, Runs(text), 4 * linesize)
    ensures Wrote(ret, out, outsize, head, conv(Behind(file, ByteTextStart(file, inoffset))))
  {
    ghost var chunks;
    ByteText(file, inoffset);
    ret, out, outsize, chunks := ConvertFile(file, inoffset, head, linesize, conv);
    RunByRun(conv, Text(file, inoffset), 4 * linesize);
  }

  lemma ByteText(file: seq<byte>, inoffset: nat)
    requires !TwoByteMark(file) && !FourByteMark(file) && file != [0xEF, 0xBB]
    ensures FileBom(file) in {NoBom, Utf8Bom} && Text(file, inoffset) == Behind(file, ByteTextStart(file, inoffset))
  {
    hide FileBom;
    MarkOf(file);
  }

  // ----- wide units -----

  /** The converter treats text in units of `u` bytes piece by piece as it treats it at once. */
  ghost predicate DistributesOverUnits(conv: seq<byte> -> Option<seq<byte>>, u: nat)
    requires u > 0
  {
    && conv([]) == Some([])
    && forall a: seq<byte>, b: seq<byte> :: Whole(a, u) && Whole(b, u) ==> conv(a + b) == Joined(conv(a), conv(b))
  }

  /** Converting chunks of whole units one by one is converting what they add up to. */
  lemma {:induction false} ChunkByChunk(conv: seq<byte> -> Option<seq<byte>>, u: nat, chunks: seq<seq<byte>>,
                                        room: nat)
    requires u == 2 || u == 4
    requires DistributesOverUnits(conv, u) && WholeChunks(chunks, u) && NeverFills(conv, chunks, room)
    ensures ConvAll(conv, chunks, room) == conv(Concat(chunks)) && Whole(Concat(chunks), u)
  {
    hide Converted, NeverFills, DistributesOverUnits, WholeChunks, Whole;
    if chunks == [] {
      NoChunks(conv, u, room);
    } else {
      hide ConvAll, Concat;
      var first, rest := chunks[0], chunks[1..];
      assert chunks == [first] + rest;
      FirstIsWhole(first, rest, u);
      FirstFits(conv, first, rest, room);
      ChunkByChunk(conv, u, rest, room);
      ConvAllStep(conv, first, rest, room);
      ConcatStep(first, rest);
      DistributeUnits(conv, first, Concat(rest), u);
    }
  }

  lemma NoChunks(conv: seq<byte> -> Option<seq<byte>>, u: nat, room: nat)
    requires u > 0 && DistributesOverUnits(conv, u)
    ensures ConvAll(conv, [], room) == conv(Concat([])) && Whole(Concat([]), u)
  {
  }

  lemma FirstIsWhole(first: seq<byte>, rest: seq<seq<byte>>, u: nat)
    requires u > 0 && WholeChunks([first] + rest, u)
    ensures Whole(first, u) && WholeChunks(rest, u)
  {
    var all := [first] + rest;
    assert all[0] == first && forall k :: 0 <= k < |rest| ==> rest[k] == all[k + 1];
  }

  lemma DistributeUnits(conv: seq<byte> -> Option<seq<byte>>, a: seq<byte>, b: seq<byte>, u: nat)
    requires (u == 2 || u == 4) && DistributesOverUnits(conv, u) && Whole(a, u) && Whole(b, u)
    ensures conv(a + b) == Joined(conv(a), conv(b)) && Whole(a + b, u)
  {
    assert Whole(a + b, u) by { SumOfMultiples(|a|, |b|, u); }
    hide Whole;
  }

  lemma SumOfMultiples(a: nat, b: nat, u: nat)
    requires (u == 2 || u == 4) && a % u == 0 && b % u == 0
    ensures (a + b) % u == 0
  {
  }

  /** A chunk whose conversion fails makes the conversion of all chunks fail. */
  lemma {:induction false} OneFails(conv: seq<byte> -> Option<seq<byte>>, all: seq<seq<byte>>, k: nat, room: nat)
    requires k < |all| && Converted(conv, all[k], room) == None
    ensures ConvAll(conv, all, room) == None
  {
    if k > 0 { OneFails(conv, all[1..], k - 1, room); }
  }

  /** The bytes of every pair exchanged; an odd last byte is left out. */
  ghost predicate PairsExchanged(t: seq<byte>, input: seq<byte>) {
    && |input| == |t| - |t| % 2
    && forall i :: 0 <= i < |input| ==>
         var j := if i % 2 == 0 then i + 1 else i - 1; 0 <= j < |t| && input[i] == t[j]
  }

  /** Every four bytes in reverse; fewer at the end are left out. */
  ghost predicate FoursReversed(t: seq<byte>, input: seq<byte>) {
    && |input| == |t| - |t| % 4
    && forall i :: 0 <= i < |input| ==>
         var j := i - i % 4 + (3 - i % 4); 0 <= j < |t| && input[i] == t[j]
  }

  lemma {:induction false} SwappedPairs(t: seq<byte>)
    requires |t| % 2 == 0
    ensures PairsExchanged(t, SwappedUnits(t, 2))
  {
    if |t| >= 2 {
      SwappedPairs(t[2..]);
      var all, rest := SwappedUnits(t, 2), SwappedUnits(t[2..], 2);
      assert all == [t[1], t[0]] + rest;
      forall i | 2 <= i < |t|
        ensures var j := if i % 2 == 0 then i + 1 else i - 1; 0 <= j < |t| && all[i] == t[j]
      {
        assert all[i] == rest[i - 2] && (i - 2) % 2 == i % 2;
      }
    }
  }

  lemma {:induction false} SwappedFours(t: seq<byte>)
    requires |t| % 4 == 0
    ensures FoursReversed(t, SwappedUnits(t, 4))
  {
    if |t| >= 4 {
      SwappedFours(t[4..]);
      var all, rest := SwappedUnits(t, 4), SwappedUnits(t[4..], 4);
      assert all == [t[3], t[2], t[1], t[0]] + rest;
      forall i | 4 <= i < |t|
        ensures var j := i - i % 4 + (3 - i % 4); 0 <= j < |t| && all[i] == t[j]
      {
        assert all[i] == rest[i - 4] && (i - 4) % 4 == i % 4;
      }
    }
  }

  lemma WholePart(n: nat, u: nat)
    requires u == 2 || u == 4
    ensures (n - n % u) % u == 0 && 0 <= n - n % u <= n
  {
  }

  /** What is converted of the text of a file in wide units. */
  lemma UcsInput(file: seq<byte>, inoffset: nat)
    requires TwoByteMark(file) || FourByteMark(file)
    ensures var m := if FourByteMark(file) then 4 else 2;
            var bom, t := FileBom(file), Behind(file, m + inoffset);
            var input := Units(bom, Text(file, inoffset));
            && !ByteWise(bom) && UnitSize(bom) == m && TextStart(file, inoffset) == m + inoffset
            && ([0xFF, 0xFE] <= file ==> input == t[..|t| - |t| % m])
            && (TwoByteMark(file) && [0xFE, 0xFF] <= file ==> PairsExchanged(t, input))
            && ([0, 0, 0xFE, 0xFF] <= file ==> FoursReversed(t, input))
  {
    hide FileBom, Units, PairsExchanged, FoursReversed;
    MarkOf(file);
    BigOrLittle(file);
    UnitsAre(FileBom(file), Behind(file, (if FourByteMark(file) then 4 else 2) + inoffset));
  }

  lemma BigOrLittle(file: seq<byte>)
    ensures [0xFF, 0xFE] <= file ==> !([0xFE, 0xFF] <= file) && !([0, 0, 0xFE, 0xFF] <= file)
    ensures [0, 0, 0xFE, 0xFF] <= file ==> !([0xFE, 0xFF] <= file)
    ensures [0xFF, 0xFE, 0, 0] <= file ==> [0xFF, 0xFE] <= file
    ensures [0xFE, 0xFF] <= file ==> !FourByteMark(file)
  {
    Starts2(file, 0xFF, 0xFE);
    Starts2(file, 0xFE, 0xFF);
    Starts4(file, 0xFF, 0xFE, 0, 0);
    Starts4(file, 0, 0, 0xFE, 0xFF);
  }

  /** The units of a text, byte by byte. */
  lemma UnitsAre(bom: Bom, t: seq<byte>)
    ensures bom == Ucs2LE ==> Units(bom, t) == t[..|t| - |t| % 2]
    ensures bom == Ucs4LE ==> Units(bom, t) == t[..|t| - |t| % 4]
    ensures bom == Ucs2BE ==> PairsExchanged(t, Units(bom, t))
    ensures bom == Ucs4BE ==> FoursReversed(t, Units(bom, t))
  {
    hide PairsExchanged, FoursReversed, SwappedUnits;
    WholePart(|t|, 2);
    WholePart(|t|, 4);
    if bom == Ucs2BE {
      SwappedPairs(t[..|t| - |t| % 2]);
      PairsOfWhole(t, SwappedUnits(t[..|t| - |t| % 2], 2));
    }
    if bom == Ucs4BE {
      SwappedFours(t[..|t| - |t| % 4]);
      FoursOfWhole(t, SwappedUnits(t[..|t| - |t| % 4], 4));
    }
  }

  lemma PairsOfWhole(t: seq<byte>, input: seq<byte>)
    requires |t| - |t| % 2 >= 0 && PairsExchanged(t[..|t| - |t| % 2], input)
    ensures PairsExchanged(t, input)
  {
    WholePart(|t|, 2);
  }

  lemma FoursOfWhole(t: seq<byte>, input: seq<byte>)
    requires |t| - |t| % 4 >= 0 && FoursReversed(t[..|t| - |t| % 4], input)
    ensures FoursReversed(t, input)
  {
    WholePart(|t|, 4);
  }

  /**
   * The law for files in wide units, byte by byte: for a line buffer that holds a unit, and a conversion
   * that distributes over whole units and never fills the output buffer, what is converted is the text behind
   * the mark and the skipped bytes, cut to whole units: as it is behind FF FE and FF FE 00 00, with the bytes of
   * each unit in reverse behind FE FF and 00 00 FE FF. The call fails when that conversion fails.
   */
  method ConvertUcsFile(file: seq<byte>, inoffset: nat, head: seq<byte>, linesize: nat,
                        conv: seq<byte> -> Option<seq<byte>>)
    returns (ret: int, out: seq<byte>, outsize: nat, ghost input: seq<byte>)
    requires TwoByteMark(file) || FourByteMark(file)
    requires linesize >= if FourByteMark(file) then 4 else 2
    requires DistributesOverUnits(conv, if FourByteMark(file) then 4 else 2)
    requires NeverFills(conv, ConvertedChunks(file, inoffset, linesize), 4 * linesize)
    ensures Wrote(ret, out, outsize, head, conv(input))
    ensures var m := if FourByteMark(file) then 4 else 2;
            var t := Behind(file, m + inoffset);
            && ([0xFF, 0xFE] <= file ==> input == t[..|t| - |t| % m])
            && (TwoByteMark(file) && [0xFE, 0xFF] <= file ==> PairsExchanged(t, input))
            && ([0, 0, 0xFE, 0xFF] <= file ==> FoursReversed(t, input))
  {
    hide DistributesOverUnits, NeverFills, Units, ConvAll, FileBom, Concat, ChunksFrom, Runs, Text;
    hide PairsExchanged, FoursReversed, TwoByteMark, FourByteMark;
    UcsInput(file, inoffset);
    ghost var chunks;
    ret, out, outsize, chunks := ConvertFile(file, inoffset, head, linesize, conv);
    ghost var bom, all := FileBom(file), ConvertedChunks(file, inoffset, linesize);
    input := Units(bom, Text(file, inoffset));
    ChunksAddUp(file, inoffset, linesize);
    ChunkByChunk(conv, UnitSize(bom), all, 4 * linesize);
    if ret == CONVD_ERR_ICONV { OneFails(conv, all, |chunks|, 4 * linesize); }
  }

  /** The chunks of a file in wide units. */
  function ConvertedChunks(file: seq<byte>, inoffset: nat, linesize: nat): seq<seq<byte>>
    requires TwoByteMark(file) || FourByteMark(file)
  {
    MarkOf(file);
    ChunksFrom(FileBom(file), file, linesize, TextStart(file, inoffset), TextStart(file, inoffset))
  }

  lemma TextIs(file: seq<byte>, inoffset: nat)
    ensures Text(file, inoffset) == Behind(file, TextStart(file, inoffset))
  {
  }

  lemma ChunksAddUp(file: seq<byte>, inoffset: nat, linesize: nat)
    requires (TwoByteMark(file) || FourByteMark(file)) && linesize >= if FourByteMark(file) then 4 else 2
    ensures var all := ConvertedChunks(file, inoffset, linesize);
            Concat(all) == Units(FileBom(file), Text(file, inoffset)) && WholeChunks(all, UnitSize(FileBom(file)))
  {
    hide FileBom, ChunksFrom, Concat, Units, Text;
    UcsInput(file, inoffset);
    UnitChunksAddUp(FileBom(file), file, linesize, TextStart(file, inoffset));
    assert Text(file, inoffset) == Behind(file, TextStart(file, inoffset)) by { TextIs(file, inoffset); }
  }
}
