/** What the chunks of a file deliver: wide units, runs that fit, and runs that are cut. */
module ChunkLaws {
  import opened Common
  import opened ByteOrder
  import opened Utf8
  import opened Convd
  import opened Chunks

  lemma ConcatStep(first: seq<byte>, rest: seq<seq<byte>>)
    ensures Concat([first] + rest) == first + Concat(rest)
  {
    assert ([first] + rest)[1..] == rest;
  }

  /** What the chunks deliver. */
  function Delivered(bom: Bom, file: seq<byte>, linesize: nat, offset: nat, textfd: nat): seq<byte>
    requires Describable(bom, linesize) && offset <= textfd
  {
    Concat(ChunksFrom(bom, file, linesize, offset, textfd))
  }

  // ----- wide units -----

  predicate Whole(s: seq<byte>, u: nat)
    requires u > 0
  {
    |s| % u == 0
  }

  ghost predicate WholeChunks(chunks: seq<seq<byte>>, u: nat)
    requires u > 0
  {
    forall k :: 0 <= k < |chunks| ==> Whole(chunks[k], u)
  }

  /** Chunks of wide units are whole units, and add up to all whole units of the text in host order. */
  lemma {:induction false} UnitChunksAddUp(bom: Bom, file: seq<byte>, linesize: nat, at: nat)
    requires !ByteWise(bom) && linesize >= UnitSize(bom)
    ensures Delivered(bom, file, linesize, at, at) == Units(bom, Behind(file, at))
    ensures WholeChunks(ChunksFrom(bom, file, linesize, at, at), UnitSize(bom))
    decreases |file| - at
  {
    hide Units, HostOrder, Concat, ChunksFrom, Whole, ReadBytes, Behind, WholeUnits, UnitSize;
    var data, rest := ReadBytes(file, at, linesize), Behind(file, at);
    var u := UnitSize(bom);
    var w := WholeUnits(data, u);
    UnitChunksStep(bom, file, linesize, at);
    UnitsInWindow(bom, file, linesize, at);
    if w == 0 {
      NoUnits(bom, rest);
      EmptyConcat();
    } else {
      UnitChunksAddUp(bom, file, linesize, at + w);
      ConcatStep(HostOrder(bom, data[..w]), ChunksFrom(bom, file, linesize, at + w, at + w));
      UnitsSplit(bom, rest, w, |data| / u);
      WholeIsMultiple(data, u, HostOrder(bom, data[..w]));
    }
  }

  /** What a read sees of wide units. */
  lemma UnitsInWindow(bom: Bom, file: seq<byte>, linesize: nat, at: nat)
    requires !ByteWise(bom) && linesize >= UnitSize(bom)
    ensures var data, rest, u := ReadBytes(file, at, linesize), Behind(file, at), UnitSize(bom);
            var w := WholeUnits(data, u);
            && (u == 2 || u == 4) && (w == 0 ==> |rest| < u) && w == (|data| / u) * u && w <= |rest|
            && (w > 0 ==> at + w <= |file|) && data[..w] == rest[..w] && Behind(file, at + w) == rest[w..]
  {
    var data, rest, u := ReadBytes(file, at, linesize), Behind(file, at), UnitSize(bom);
    WholeUnitsQuotient(data, u);
    if at < |file| { assert forall i :: 0 <= i < |data| ==> data[i] == rest[i]; }
  }

  lemma EmptyConcat()
    ensures Concat([]) == []
  {
  }

  lemma WholeIsMultiple(s: seq<byte>, u: nat, w: seq<byte>)
    requires (u == 2 || u == 4) && |w| == WholeUnits(s, u)
    ensures Whole(w, u)
  {
  }

  // ----- single bytes: runs that fit -----

  lemma ShortRunsStep(s: seq<byte>, linesize: nat)
    requires s != []
    ensures ShortRuns(s, linesize) <==> RunLength(s) < linesize && ShortRuns(s[RunLength(s)..], linesize)
  {
    hide RunLength;
    RunsStep(s);
    var n := RunLength(s);
    var rest := Runs(s[n..]);
    assert Runs(s)[0] == s[..n];
    assert forall k :: 0 <= k < |rest| ==> Runs(s)[k + 1] == rest[k];
    if n < linesize && ShortRuns(s[n..], linesize) {
      forall k | 0 <= k < |Runs(s)| ensures |Runs(s)[k]| < linesize {
        if k > 0 { assert Runs(s)[k] == rest[k - 1]; }
      }
    }
    if ShortRuns(s, linesize) {
      forall k | 0 <= k < |rest| ensures |rest[k]| < linesize { assert Runs(s)[k + 1] == rest[k]; }
    }
  }

  /** What a read sees of the run at its position. */
  lemma WindowSeesRun(file: seq<byte>, linesize: nat, at: nat)
    requires at < |file| && linesize > 0
    ensures var data, r := ReadBytes(file, at, linesize), RunLength(file[at..]);
            && data != [] && |data| <= linesize && RunLength(data) == (if r < linesize then r else linesize)
            && data[..RunLength(data)] == file[at..][..RunLength(data)]
  {
    var data, rest := ReadBytes(file, at, linesize), file[at..];
    ReadSeesRun(rest, data, linesize);
    assert forall i :: 0 <= i < |data| ==> data[i] == rest[i];
  }

  lemma {:induction false} FittingChunksAreRuns(bom: Bom, file: seq<byte>, linesize: nat, at: nat)
    requires ByteWise(bom) && linesize >= CONVD_ERR_INSUFF && ShortRuns(Behind(file, at), linesize)
    ensures ChunksFrom(bom, file, linesize, at, at) == Runs(Behind(file, at))
    decreases |file| - at
  {
    hide ChunksFrom, ShortRuns, Runs, RunLength, ReadBytes, Behind;
    BehindIs(file, at);
    if at >= |file| {
      NothingToRead(file, at, linesize);
      ChunksEnd(bom, file, linesize, at, at);
      NoRuns();
    } else {
      var rest := file[at..];
      var n := RunLength(rest);
      ShortRunsStep(rest, linesize);
      FitsInWindow(file, linesize, at);
      ChunksStep(bom, file, linesize, at, at, n);
      RunsStep(rest);
      RestBehind(file, at, n);
      FittingChunksAreRuns(bom, file, linesize, at + n);
    }
  }

  lemma BehindIs(file: seq<byte>, at: nat)
    ensures Behind(file, at) == if at >= |file| then [] else file[at..]
  {
  }

  lemma NothingToRead(file: seq<byte>, at: nat, linesize: nat)
    requires at >= |file|
    ensures ReadBytes(file, at, linesize) == []
  {
  }

  lemma RestBehind(file: seq<byte>, at: nat, n: nat)
    requires at < |file| && at + n <= |file|
    ensures Behind(file, at + n) == file[at..][n..]
  {
  }

  lemma FitsInWindow(file: seq<byte>, linesize: nat, at: nat)
    requires at < |file| && RunLength(file[at..]) < linesize
    ensures var data, r := ReadBytes(file, at, linesize), RunLength(file[at..]);
            data != [] && RunLength(data) == r <= |data| && data[..r] == file[at..][..r]
  {
    hide RunLength, ReadBytes;
    WindowSeesRun(file, linesize, at);
  }

  lemma NoRuns()
    ensures Runs([]) == []
  {
  }

  // ----- single bytes: every cut counts -----

  /** How many reads find the buffer filled by one run. */
  function Cuts(file: seq<byte>, linesize: nat, offset: nat, textfd: nat): nat
    requires linesize >= CONVD_ERR_INSUFF && offset <= textfd
    decreases |file| - offset, |file| - textfd
  {
    var data := ReadBytes(file, textfd, linesize);
    if data == [] then 0
    else
      var n := RunLength(data);
      if n == linesize then 1 + Cuts(file, linesize, offset, textfd + linesize)
      else Cuts(file, linesize, offset + n, offset + n)
  }

  lemma CutsStep(file: seq<byte>, linesize: nat, offset: nat, textfd: nat, n: nat)
    requires linesize >= CONVD_ERR_INSUFF && offset <= textfd
    requires var data := ReadBytes(file, textfd, linesize); data != [] && n == RunLength(data)
    ensures Cuts(file, linesize, offset, textfd) ==
            if n == linesize then 1 + Cuts(file, linesize, offset, textfd + linesize)
            else Cuts(file, linesize, offset + n, offset + n)
  {
    hide ReadBytes, RunLength;
  }

  lemma {:induction false} NoCutsIff(file: seq<byte>, linesize: nat, at: nat)
    requires linesize >= CONVD_ERR_INSUFF
    ensures Cuts(file, linesize, at, at) == 0 <==> ShortRuns(Behind(file, at), linesize)
    decreases |file| - at
  {
    hide ShortRuns, Runs, RunLength, Cuts, ReadBytes, Behind;
    if at >= |file| {
      NothingIsShort(file, linesize, at);
    } else {
      BehindIs(file, at);
      var rest := file[at..];
      var n := RunLength(rest);
      ShortRunsStep(rest, linesize);
      WindowSeesRun(file, linesize, at);
      CutsStep(file, linesize, at, at, if n < linesize then n else linesize);
      if n < linesize {
        RestBehind(file, at, n);
        NoCutsIff(file, linesize, at + n);
      }
    }
  }

  lemma NothingIsShort(file: seq<byte>, linesize: nat, at: nat)
    requires linesize >= CONVD_ERR_INSUFF && at >= |file|
    ensures ShortRuns(Behind(file, at), linesize) && Cuts(file, linesize, at, at) == 0
  {
  }

  /** The last `linesize` bytes behind `at`, if there are as many, are not all of one run. */
  predicate LastWindowFits(file: seq<byte>, linesize: nat, at: nat)
    requires linesize > 0
  {
    at + linesize <= |file| ==> RunLength(file[|file| - linesize..]) < linesize
  }

  /** The window before the read position was a cut. */
  predicate CutBefore(file: seq<byte>, linesize: nat, at: nat, textfd: nat) {
    at + linesize <= textfd <= |file| && 0 < linesize && RunLength(file[textfd - linesize..textfd]) == linesize
  }

  /** If the last window fits, every byte is delivered, and every cut delivers five bytes too many. */
  lemma {:induction false} CutsAddBytes(bom: Bom, file: seq<byte>, linesize: nat, at: nat, offset: nat, textfd: nat)
    requires ByteWise(bom) && linesize >= CONVD_ERR_INSUFF && at <= offset <= textfd && offset <= |file|
    requires LastWindowFits(file, linesize, at)
    requires offset == textfd || CutBefore(file, linesize, at, textfd)
    ensures |Delivered(bom, file, linesize, offset, textfd)|
         == |file| - offset + 5 * Cuts(file, linesize, offset, textfd)
    decreases |file| - offset, |file| - textfd
  {
    hide ChunksFrom, Concat, RunLength, Cuts;
    var data := ReadBytes(file, textfd, linesize);
    if data == [] {
      ChunksEnd(bom, file, linesize, offset, textfd);
      EmptyConcat();
      NoMoreCuts(file, linesize, offset, textfd);
    } else {
      var n := RunLength(data);
      ChunksStep(bom, file, linesize, offset, textfd, n);
      CutsStep(file, linesize, offset, textfd, n);
      if n == linesize {
        assert data == file[textfd..textfd + linesize];
        ConcatStep(data[..CONVD_ERR_INSUFF], ChunksFrom(bom, file, linesize, offset, textfd + linesize));
        CutsAddBytes(bom, file, linesize, at, offset, textfd + linesize);
      } else {
        ConcatStep(data[..n], ChunksFrom(bom, file, linesize, offset + n, offset + n));
        CutsAddBytes(bom, file, linesize, at, offset + n, offset + n);
      }
    }
  }

  lemma NoMoreCuts(file: seq<byte>, linesize: nat, offset: nat, textfd: nat)
    requires linesize >= CONVD_ERR_INSUFF && offset <= textfd && ReadBytes(file, textfd, linesize) == []
    ensures Cuts(file, linesize, offset, textfd) == 0
  {
  }

  // ----- single bytes: what becomes of the first run that is cut -----

  predicate AllLike(s: seq<byte>, high: bool) { forall i :: 0 <= i < |s| ==> High(s[i]) == high }

  /** A read of a run that fills the buffer delivers five bytes of it. */
  lemma OneCut(bom: Bom, file: seq<byte>, linesize: nat, offset: nat, textfd: nat) returns (cut: seq<byte>)
    requires ByteWise(bom) && linesize >= CONVD_ERR_INSUFF && offset <= textfd < |file|
    requires RunLength(file[textfd..]) >= linesize
    ensures |file[textfd..]| >= linesize && cut == file[textfd..][..CONVD_ERR_INSUFF]
    ensures AllLike(cut, High(file[textfd]))
    ensures Delivered(bom, file, linesize, offset, textfd)
         == cut + Delivered(bom, file, linesize, offset, textfd + linesize)
  {
    hide ChunksFrom, Concat, RunLength;
    WindowSeesRun(file, linesize, textfd);
    cut := ReadBytes(file, textfd, linesize)[..CONVD_ERR_INSUFF];
    assert ReadBytes(file, textfd, linesize) == file[textfd..][..linesize];
    ChunksStep(bom, file, linesize, offset, textfd, linesize);
    ConcatStep(cut, ChunksFrom(bom, file, linesize, offset, textfd + linesize));
  }

  /** A read of a run that fits delivers it, and goes on behind the offset. */
  lemma OneFit(bom: Bom, file: seq<byte>, linesize: nat, offset: nat, textfd: nat, n: nat)
    requires ByteWise(bom) && linesize >= CONVD_ERR_INSUFF && offset <= textfd < |file|
    requires n == RunLength(file[textfd..]) < linesize
    ensures AllLike(file[textfd..textfd + n], High(file[textfd]))
    ensures Delivered(bom, file, linesize, offset, textfd)
         == file[textfd..textfd + n] + Delivered(bom, file, linesize, offset + n, offset + n)
  {
    hide ChunksFrom, Concat, RunLength;
    WindowSeesRun(file, linesize, textfd);
    assert file[textfd..][..n] == file[textfd..textfd + n];
    ChunksStep(bom, file, linesize, offset, textfd, n);
    ConcatStep(file[textfd..textfd + n], ChunksFrom(bom, file, linesize, offset + n, offset + n));
  }

  /** What reading through a run of `q` buffers and `m` bytes delivers: five bytes of each buffer, and the rest. */
  function ReadThrough(s: seq<byte>, q: nat, m: nat, linesize: nat): (r: seq<byte>)
    requires linesize >= CONVD_ERR_INSUFF && Buffers(q, linesize) + m <= |s|
    ensures |r| == CONVD_ERR_INSUFF * q + m
    decreases q
  {
    if q == 0 then s[..m]
    else
      OneBuffer(q, linesize);
      s[..CONVD_ERR_INSUFF] + ReadThrough(s[linesize..], q - 1, m, linesize)
  }

  lemma ReadThroughStep(s: seq<byte>, q: nat, m: nat, linesize: nat)
    requires linesize >= CONVD_ERR_INSUFF && Buffers(q, linesize) + m <= |s| && q > 0
    ensures linesize + Buffers(q - 1, linesize) + m <= |s|
    ensures ReadThrough(s, q, m, linesize)
         == s[..CONVD_ERR_INSUFF] + ReadThrough(s[linesize..], q - 1, m, linesize)
  {
    OneBuffer(q, linesize);
  }

  /** Reading through a run: the bytes behind the last full buffer bring the read position back. */
  lemma {:induction false} ScanRun(bom: Bom, file: seq<byte>, linesize: nat, offset: nat, textfd: nat, q: nat, m: nat)
    requires ByteWise(bom) && linesize >= CONVD_ERR_INSUFF && offset <= textfd < |file| && m < linesize
    requires RunLength(file[textfd..]) == Buffers(q, linesize) + m
    ensures var out := ReadThrough(file[textfd..], q, m, linesize);
            && AllLike(out, High(file[textfd]))
            && Delivered(bom, file, linesize, offset, textfd)
               == out + if m > 0 then Delivered(bom, file, linesize, offset + m, offset + m)
                        else Delivered(bom, file, linesize, offset, textfd + Buffers(q, linesize))
    decreases q
  {
    hide Delivered, RunLength, AllLike, High, Buffers, ReadThrough;
    var rest := file[textfd..];
    if q == 0 {
      NoBuffer(linesize);
      ReadNoBuffer(rest, m, linesize);
      OneFit(bom, file, linesize, offset, textfd, m);
      assert file[textfd..textfd + m] == rest[..m];
    } else {
      ReadThroughStep(rest, q, m, linesize);
      OneBuffer(q, linesize);
      var cut := OneCut(bom, file, linesize, offset, textfd);
      assert rest[linesize..] == file[textfd + linesize..];
      var more := ReadThrough(rest[linesize..], q - 1, m, linesize);
      if q > 1 || m > 0 {
        SomeBuffers(q - 1, linesize);
        RestOfRun(file, textfd, linesize);
        ScanRun(bom, file, linesize, offset, textfd + linesize, q - 1, m);
        AllLikeJoined(cut, more, High(file[textfd]));
        JoinedAgain(cut, more, if m > 0 then Delivered(bom, file, linesize, offset + m, offset + m)
                               else Delivered(bom, file, linesize, offset, textfd + Buffers(q, linesize)));
      } else {
        NoBuffer(linesize);
        ReadNoBuffer(rest[linesize..], m, linesize);
        assert cut + [] == cut;
      }
    }
  }

  lemma ReadNoBuffer(s: seq<byte>, m: nat, linesize: nat)
    requires linesize >= CONVD_ERR_INSUFF && m <= |s|
    ensures Buffers(0, linesize) == 0 && ReadThrough(s, 0, m, linesize) == s[..m]
  {
  }

  /** The length of `q` buffers. */
  function Buffers(q: nat, linesize: nat): nat { q * linesize }

  lemma NoBuffer(linesize: nat)
    ensures Buffers(0, linesize) == 0
  {
  }

  lemma OneBuffer(q: nat, linesize: nat)
    requires q > 0
    ensures Buffers(q, linesize) == linesize + Buffers(q - 1, linesize)
  {
  }

  lemma SomeBuffers(q: nat, linesize: nat)
    requires linesize > 0
    ensures q > 0 ==> Buffers(q, linesize) > 0
  {
    if q > 0 { assert q * linesize == linesize + (q - 1) * linesize; }
  }

  lemma AllLikeJoined(a: seq<byte>, b: seq<byte>, high: bool)
    requires AllLike(a, high) && AllLike(b, high)
    ensures AllLike(a + b, high)
  {
  }

  /** Behind its first `n` bytes a run goes on. */
  lemma RestOfRun(file: seq<byte>, at: nat, n: nat)
    requires at < |file| && n < RunLength(file[at..])
    ensures at + n < |file| && High(file[at + n]) == High(file[at])
    ensures RunLength(file[at + n..]) == RunLength(file[at..]) - n
  {
    var s, rest := file[at..], file[at + n..];
    assert rest == s[n..];
    RunLengthIs(rest, RunLength(s) - n);
  }

  /** What is delivered begins with the byte at the read position. */
  lemma DeliveredFirst(bom: Bom, file: seq<byte>, linesize: nat, offset: nat, textfd: nat)
    requires ByteWise(bom) && linesize >= CONVD_ERR_INSUFF && offset <= textfd < |file|
    ensures var d := Delivered(bom, file, linesize, offset, textfd); d != [] && d[0] == file[textfd]
  {
    hide ChunksFrom, Concat, RunLength;
    WindowSeesRun(file, linesize, textfd);
    var data := ReadBytes(file, textfd, linesize);
    var n := RunLength(data);
    ChunksStep(bom, file, linesize, offset, textfd, n);
    if n == linesize {
      ConcatStep(data[..CONVD_ERR_INSUFF], ChunksFrom(bom, file, linesize, offset, textfd + linesize));
    } else {
      ConcatStep(data[..n], ChunksFrom(bom, file, linesize, offset + n, offset + n));
    }
  }

  /**
   * A run of `q` full buffers and `m` bytes, read from its start, comes out `5 * q` bytes long if it ends
   * with a buffer, and `10 * q + m` bytes long if not: then its last `m` bytes bring the read position
   * back into it.
   */
  lemma CutRunLength(bom: Bom, file: seq<byte>, linesize: nat, at: nat, q: nat, m: nat)
    requires ByteWise(bom) && linesize >= CONVD_ERR_INSUFF && at < |file| && q > 0 && m < linesize
    requires RunLength(file[at..]) == q * linesize + m
    ensures var d := Delivered(bom, file, linesize, at, at);
            d != [] && RunLength(d) == if m > 0 then 10 * q + m else 5 * q
  {
    hide Delivered, RunLength, AllLike, High;
    SomeBuffers(q, linesize);
    var o, out := WholeRun(bom, file, linesize, at, q, m);
    RunEnds(file, at);
    var end := at + RunLength(file[at..]);
    if end < |file| {
      DeliveredFirst(bom, file, linesize, o, end);
    } else {
      NothingDelivered(bom, file, linesize, o, end);
    }
    RunThen(out, Delivered(bom, file, linesize, o, end), High(file[at]));
  }

  /** What becomes of a run that is cut; its last bytes, if it does not end with a buffer, let it be read twice. */
  function Recut(run: seq<byte>, q: nat, m: nat, linesize: nat): (r: seq<byte>)
    requires linesize >= CONVD_ERR_INSUFF && |run| == Buffers(q, linesize) + m
    ensures |r| == if m > 0 then 2 * CONVD_ERR_INSUFF * q + m else CONVD_ERR_INSUFF * q
  {
    ReadThrough(run, q, m, linesize) + if m > 0 then ReadThrough(run[m..], q, 0, linesize) else []
  }

  /** What is delivered before the read position gets behind the run for good. */
  lemma WholeRun(bom: Bom, file: seq<byte>, linesize: nat, at: nat, q: nat, m: nat) returns (o: nat, out: seq<byte>)
    requires ByteWise(bom) && linesize >= CONVD_ERR_INSUFF && at < |file| && q > 0 && m < linesize
    requires RunLength(file[at..]) == Buffers(q, linesize) + m && Buffers(q, linesize) > 0
    ensures out == Recut(file[at..][..RunLength(file[at..])], q, m, linesize) && out != []
    ensures AllLike(out, High(file[at])) && o == at + m
    ensures Delivered(bom, file, linesize, at, at)
         == out + Delivered(bom, file, linesize, o, at + RunLength(file[at..]))
  {
    hide Delivered, RunLength, AllLike, Buffers, High, ReadThrough;
    var n, rest := RunLength(file[at..]), file[at..];
    o := at;
    out := ReadThrough(rest, q, m, linesize);
    ScanRun(bom, file, linesize, at, at, q, m);
    ReadsRunOnly(rest, n, q, m, linesize);
    if m > 0 {
      RestOfRun(file, at, m);
      ScanRun(bom, file, linesize, at + m, at + m, q, 0);
      assert file[at + m..] == rest[m..];
      ReadsRunOnly(rest[m..], n - m, q, 0, linesize);
      assert rest[m..][..n - m] == rest[..n][m..];
      var again := ReadThrough(rest[m..], q, 0, linesize);
      AllLikeJoined(out, again, High(file[at]));
      JoinedAgain(out, again, Delivered(bom, file, linesize, at + m, at + n));
      o, out := at + m, out + again;
    } else {
      assert out + [] == out;
    }
  }

  /** Reading through a run does not depend on what is behind it. */
  lemma {:induction false} ReadsRunOnly(s: seq<byte>, n: nat, q: nat, m: nat, linesize: nat)
    requires linesize >= CONVD_ERR_INSUFF && n == Buffers(q, linesize) + m && n <= |s|
    ensures ReadThrough(s[..n], q, m, linesize) == ReadThrough(s, q, m, linesize)
    decreases q
  {
    hide ReadThrough, Buffers;
    if q == 0 {
      ReadNoBuffer(s, m, linesize);
      ReadNoBuffer(s[..n], m, linesize);
      assert s[..n][..m] == s[..m];
    } else {
      ReadThroughStep(s, q, m, linesize);
      ReadThroughStep(s[..n], q, m, linesize);
      OneBuffer(q, linesize);
      assert s[..n][linesize..] == s[linesize..][..n - linesize] && s[..n][..CONVD_ERR_INSUFF] == s[..CONVD_ERR_INSUFF];
      ReadsRunOnly(s[linesize..], n - linesize, q - 1, m, linesize);
    }
  }

  lemma JoinedAgain(a: seq<byte>, b: seq<byte>, c: seq<byte>)
    ensures a + (b + c) == (a + b) + c
  {
  }

  /** Bytes alike, and then none, or one that is not. */
  lemma RunThen(run: seq<byte>, rest: seq<byte>, high: bool)
    requires run != [] && AllLike(run, high) && (rest == [] || High(rest[0]) != high)
    ensures run + rest != [] && RunLength(run + rest) == |run|
  {
    RunLengthIs(run + rest, |run|);
  }

  lemma RunEnds(file: seq<byte>, at: nat)
    requires at < |file|
    ensures var end := at + RunLength(file[at..]);
            end <= |file| && (end < |file| ==> High(file[end]) != High(file[at]))
  {
    hide RunLength;
    var n := RunLength(file[at..]);
    assert n < |file[at..]| ==> file[at..][n] == file[at + n];
  }

  lemma NothingDelivered(bom: Bom, file: seq<byte>, linesize: nat, offset: nat, textfd: nat)
    requires ByteWise(bom) && linesize >= CONVD_ERR_INSUFF && offset <= textfd && textfd >= |file|
    ensures Delivered(bom, file, linesize, offset, textfd) == []
  {
  }
}
