/** Exactly when the chunks of a text in single bytes add up to it. */
module ChunkWhole {
  import opened Common
  import opened ByteOrder
  import opened Utf8
  import opened Convd
  import opened Chunks
  import opened ChunkLaws

  // ----- changes of bit 7 -----

  /** How often bit 7 changes from one byte to the next. */
  function Changes(s: seq<byte>): nat {
    if |s| <= 1 then 0 else Edge(s[0], s[1]) + Changes(s[1..])
  }

  function Edge(a: byte, b: byte): nat { if High(a) == High(b) then 0 else 1 }

  lemma {:induction false} ChangesJoined(a: seq<byte>, b: seq<byte>)
    requires a != [] && b != []
    ensures Changes(a + b) == Changes(a) + Edge(a[|a| - 1], b[0]) + Changes(b)
  {
    hide Edge;
    var s := a + b;
    if |a| == 1 {
      assert s[1..] == b && s[0] == a[0] && s[1] == b[0];
    } else {
      ChangesJoined(a[1..], b);
      assert s[1..] == a[1..] + b && s[0] == a[0] && s[1] == a[1];
    }
  }

  lemma {:induction false} NoChanges(s: seq<byte>, high: bool)
    requires AllLike(s, high)
    ensures Changes(s) == 0
  {
    if |s| > 1 {
      assert AllLike(s[1..], high);
      NoChanges(s[1..], high);
    }
  }

  /** Bytes alike in front add one change, if any. */
  lemma AlikeInFront(run: seq<byte>, rest: seq<byte>, high: bool)
    requires run != [] && rest != [] && AllLike(run, high)
    ensures Changes(run + rest) == (if High(rest[0]) == high then 0 else 1) + Changes(rest)
  {
    NoChanges(run, high);
    ChangesJoined(run, rest);
  }

  /** What is behind a position has no more changes than what is behind an earlier one. */
  lemma ChangesBehind(file: seq<byte>, i: nat, j: nat)
    requires i <= j < |file|
    ensures Changes(file[i..]) >= Changes(file[j..])
  {
    if i < j {
      assert file[i..] == file[i..j] + file[j..];
      ChangesJoined(file[i..j], file[j..]);
    }
  }

  /** And fewer, if there is a change between the two. */
  lemma ChangeBetween(file: seq<byte>, i: nat, b: nat, j: nat)
    requires i < b <= j < |file| && High(file[b - 1]) != High(file[b])
    ensures Changes(file[i..]) > Changes(file[j..])
  {
    assert file[i..] == file[i..b] + file[b..];
    ChangesJoined(file[i..b], file[b..]);
    ChangesBehind(file, b, j);
  }

  // ----- what is delivered has all changes of the text, and more behind a cut -----

  lemma {:induction false} DeliversChanges(bom: Bom, file: seq<byte>, linesize: nat, offset: nat, textfd: nat)
    requires ByteWise(bom) && linesize >= CONVD_ERR_INSUFF && offset <= textfd < |file|
    requires offset == textfd || offset + linesize <= textfd
    ensures Changes(Delivered(bom, file, linesize, offset, textfd)) >= Changes(file[textfd..])
    decreases |file| - offset, |file| - textfd
  {
    hide Delivered, RunLength, Changes, AllLike, High;
    var rest := file[textfd..];
    var n := RunLength(rest);
    if n >= linesize {
      var cut := OneCut(bom, file, linesize, offset, textfd);
      AlikeBuffer(file, linesize, textfd);
      if textfd + linesize == |file| {
        NothingDelivered(bom, file, linesize, offset, textfd + linesize);
        NoChanges(rest, High(file[textfd]));
      } else {
        DeliversChanges(bom, file, linesize, offset, textfd + linesize);
        SameChange(bom, file, linesize, offset, textfd, cut);
      }
    } else {
      OneFit(bom, file, linesize, offset, textfd, n);
      var p, run := offset + n, file[textfd..textfd + n];
      if p == |file| {
        assert rest == run;
        NoChanges(rest, High(file[textfd]));
      } else {
        DeliversChanges(bom, file, linesize, p, p);
        DeliveredFirst(bom, file, linesize, p, p);
        AlikeInFront(run, Delivered(bom, file, linesize, p, p), High(file[textfd]));
        if offset == textfd {
          assert rest == run + file[p..];
          AlikeInFront(run, file[p..], High(file[textfd]));
        } else {
          ChangesBehind(file, p, textfd);
        }
      }
    }
  }

  /** A buffer filled by one run. */
  lemma AlikeBuffer(file: seq<byte>, linesize: nat, at: nat)
    requires at < |file| && 0 < linesize <= RunLength(file[at..])
    ensures at + linesize <= |file| && AllLike(file[at..at + linesize], High(file[at]))
    ensures at + linesize == |file| ==> AllLike(file[at..], High(file[at]))
  {
    assert file[at..][..linesize] == file[at..at + linesize];
  }

  /** A cut run and the buffer it was cut from are followed by the same change. */
  lemma SameChange(bom: Bom, file: seq<byte>, linesize: nat, offset: nat, textfd: nat, cut: seq<byte>)
    requires ByteWise(bom) && linesize >= CONVD_ERR_INSUFF && offset <= textfd && textfd + linesize < |file|
    requires AllLike(file[textfd..textfd + linesize], High(file[textfd]))
    requires AllLike(cut, High(file[textfd])) && cut != []
    ensures var e := if High(file[textfd + linesize]) == High(file[textfd]) then 0 else 1;
            var d := Delivered(bom, file, linesize, offset, textfd + linesize);
            && Changes(file[textfd..]) == e + Changes(file[textfd + linesize..])
            && Changes(cut + d) == e + Changes(d)
  {
    hide Delivered, Changes, AllLike;
    var next := textfd + linesize;
    assert file[textfd..] == file[textfd..next] + file[next..];
    AlikeInFront(file[textfd..next], file[next..], High(file[textfd]));
    DeliveredFirst(bom, file, linesize, offset, next);
    AlikeInFront(cut, Delivered(bom, file, linesize, offset, next), High(file[textfd]));
  }

  /**
   * If bit 7 changes between the offset and the read position, the reader goes back over a change, and what is
   * delivered has more changes than the text from the read position; or it never goes back, and bytes are lost.
   */
  lemma {:induction false} MoreChangesOrLess(bom: Bom, file: seq<byte>, linesize: nat, offset: nat, textfd: nat, b: nat)
    requires ByteWise(bom) && linesize > CONVD_ERR_INSUFF && offset + linesize <= b <= textfd < |file|
    requires High(file[b - 1]) != High(file[b])
    ensures var d := Delivered(bom, file, linesize, offset, textfd);
            |d| < |file| - textfd || Changes(d) > Changes(file[textfd..])
    decreases |file| - textfd
  {
    hide Delivered, RunLength, Changes, AllLike, High;
    var n := RunLength(file[textfd..]);
    if n >= linesize {
      var cut := OneCut(bom, file, linesize, offset, textfd);
      AlikeBuffer(file, linesize, textfd);
      if textfd + linesize == |file| {
        NothingDelivered(bom, file, linesize, offset, textfd + linesize);
      } else {
        MoreChangesOrLess(bom, file, linesize, offset, textfd + linesize, b);
        SameChange(bom, file, linesize, offset, textfd, cut);
      }
    } else {
      OneFit(bom, file, linesize, offset, textfd, n);
      var p := offset + n;
      DeliversChanges(bom, file, linesize, p, p);
      DeliveredFirst(bom, file, linesize, p, p);
      AlikeInFront(file[textfd..textfd + n], Delivered(bom, file, linesize, p, p), High(file[textfd]));
      ChangeBetween(file, p, b, textfd);
    }
  }

  // ----- the condition -----

  /** A run that comes out as it is although it is cut: only a buffer of ten bytes allows that. */
  predicate Survives(run: seq<byte>, linesize: nat)
    requires linesize >= CONVD_ERR_INSUFF
  {
    var q, m := |run| / linesize, |run| % linesize;
    Split(|run|, linesize);
    Recut(run, q, m, linesize) == run
  }

  lemma Split(n: nat, linesize: nat)
    requires linesize > 0
    ensures n == Buffers(n / linesize, linesize) + n % linesize
  {
  }

  /** Every run fits, except that the last one may also come out as it is. */
  predicate ComesOutWhole(s: seq<byte>, linesize: nat)
    requires linesize >= CONVD_ERR_INSUFF
  {
    forall k :: 0 <= k < |Runs(s)| ==>
      |Runs(s)[k]| < linesize || (k == |Runs(s)| - 1 && Survives(Runs(s)[k], linesize))
  }

  lemma ComesOutWholeStep(s: seq<byte>, linesize: nat)
    requires linesize >= CONVD_ERR_INSUFF && s != []
    ensures var n := RunLength(s);
            ComesOutWhole(s, linesize)
            <==> if n < linesize then ComesOutWhole(s[n..], linesize) else n == |s| && Survives(s, linesize)
  {
    hide RunLength, Survives;
    var n := RunLength(s);
    var all, rest := Runs(s), Runs(s[n..]);
    RunsStep(s);
    assert all[0] == s[..n] && forall k :: 0 <= k < |rest| ==> all[k + 1] == rest[k];
    assert n == |s| ==> s[..n] == s;
    if n < linesize {
      if ComesOutWhole(s[n..], linesize) {
        forall k | 0 <= k < |all|
          ensures |all[k]| < linesize || (k == |all| - 1 && Survives(all[k], linesize))
        {
          if k > 0 { assert all[k] == rest[k - 1]; }
        }
      }
      if ComesOutWhole(s, linesize) {
        forall k | 0 <= k < |rest|
          ensures |rest[k]| < linesize || (k == |rest| - 1 && Survives(rest[k], linesize))
        {
          assert rest[k] == all[k + 1];
        }
      }
    }
  }

  /** A run that comes out as it is, although it is cut, is not a multiple of ten bytes, in a buffer of ten. */
  lemma SurvivesOnlyInTen(run: seq<byte>, linesize: nat)
    requires linesize > CONVD_ERR_INSUFF && |run| >= linesize && Survives(run, linesize)
    ensures linesize == 2 * CONVD_ERR_INSUFF && |run| % linesize != 0
  {
    hide Recut;
    var q, m := |run| / linesize, |run| % linesize;
    Split(|run|, linesize);
    LengthsDiffer(|run|, linesize, q, m);
  }

  lemma LengthsDiffer(n: nat, linesize: nat, q: nat, m: nat)
    requires linesize > CONVD_ERR_INSUFF && q > 0 && n == q * linesize + m
    ensures linesize != 2 * CONVD_ERR_INSUFF || m == 0 ==>
              n != if m > 0 then 2 * CONVD_ERR_INSUFF * q + m else CONVD_ERR_INSUFF * q
  {
    assert linesize < 10 ==> q * linesize < q * 10;
    assert linesize > 10 ==> q * linesize > q * 10;
    assert q * linesize > q * 5;
  }

  /** Outside a buffer of ten bytes, a text comes out whole only if every run fits. */
  lemma OtherwiseAllFit(s: seq<byte>, linesize: nat)
    requires linesize > CONVD_ERR_INSUFF
    ensures ShortRuns(s, linesize) ==> ComesOutWhole(s, linesize)
    ensures linesize != 2 * CONVD_ERR_INSUFF && ComesOutWhole(s, linesize) ==> ShortRuns(s, linesize)
  {
    hide Survives;
    if linesize != 2 * CONVD_ERR_INSUFF && ComesOutWhole(s, linesize) {
      forall k | 0 <= k < |Runs(s)| ensures |Runs(s)[k]| < linesize {
        if |Runs(s)[k]| >= linesize { SurvivesOnlyInTen(Runs(s)[k], linesize); }
      }
    }
  }

  // ----- exactly when the chunks add up to the text -----

  /**
   * In a buffer of more than five bytes the chunks from a position add up to the text there if and only if every
   * run fits, except that in a buffer of ten the last run may also be one that comes out as it is.
   */
  lemma {:induction false} AddUpIff(bom: Bom, file: seq<byte>, linesize: nat, at: nat)
    requires ByteWise(bom) && linesize > CONVD_ERR_INSUFF
    ensures Delivered(bom, file, linesize, at, at) == Behind(file, at) <==> ComesOutWhole(Behind(file, at), linesize)
    decreases |file| - at
  {
    hide Delivered, RunLength, ComesOutWhole, Survives, Behind;
    BehindIs(file, at);
    if at >= |file| {
      NothingDelivered(bom, file, linesize, at, at);
      NothingIsWhole(linesize);
    } else {
      var rest := file[at..];
      var n := RunLength(rest);
      ComesOutWholeStep(rest, linesize);
      if n < linesize {
        OneFit(bom, file, linesize, at, at, n);
        RestBehind(file, at, n);
        assert rest == file[at..at + n] + rest[n..];
        AddUpIff(bom, file, linesize, at + n);
      } else {
        CutAddsUpIff(bom, file, linesize, at);
      }
    }
  }

  lemma NothingIsWhole(linesize: nat)
    requires linesize >= CONVD_ERR_INSUFF
    ensures ComesOutWhole([], linesize)
  {
  }

  /** From the start of a run that is cut, the text comes out whole only if that run ends it and survives. */
  lemma CutAddsUpIff(bom: Bom, file: seq<byte>, linesize: nat, at: nat)
    requires ByteWise(bom) && linesize > CONVD_ERR_INSUFF && at < |file| && RunLength(file[at..]) >= linesize
    ensures Delivered(bom, file, linesize, at, at) == file[at..]
            <==> RunLength(file[at..]) == |file[at..]| && Survives(file[at..], linesize)
  {
    hide Delivered, RunLength, AllLike, High, Recut, Buffers;
    var rest, n := file[at..], RunLength(file[at..]);
    var q, m := n / linesize, n % linesize;
    Split(n, linesize);
    SomeBuffers(q, linesize);
    assert q > 0;
    var o, out := WholeRun(bom, file, linesize, at, q, m);
    var end := at + n;
    if end == |file| {
      NothingDelivered(bom, file, linesize, o, end);
      assert rest[..n] == rest && out + [] == out;
    } else if Delivered(bom, file, linesize, at, at) == rest {
      RunEnds(file, at);
      DeliveredFirst(bom, file, linesize, o, end);
      RunThen(out, Delivered(bom, file, linesize, o, end), High(file[at]));
      assert |out| == n;
      assert rest == file[at..end] + file[end..];
      assert Delivered(bom, file, linesize, o, end) == file[end..];
      LastOfRun(file, at);
      assert o + linesize <= end by { FullBuffer(q, linesize); }
      MoreChangesOrLess(bom, file, linesize, o, end, end);
    }
  }

  lemma FullBuffer(q: nat, linesize: nat)
    requires q > 0
    ensures Buffers(q, linesize) >= linesize
  {
    assert q * linesize == linesize + (q - 1) * linesize;
  }

  lemma LastOfRun(file: seq<byte>, at: nat)
    requires at < |file|
    ensures var end := at + RunLength(file[at..]); end <= |file| && High(file[end - 1]) == High(file[at])
  {
    hide RunLength;
    assert file[at..][RunLength(file[at..]) - 1] == file[at + RunLength(file[at..]) - 1];
  }

  /** The same for the text of a file in single bytes. */
  lemma TextComesOutIff(file: seq<byte>, inoffset: nat, linesize: nat)
    requires ByteWise(FileBom(file)) && linesize > CONVD_ERR_INSUFF
    ensures var at := TextStart(file, inoffset);
            Delivered(FileBom(file), file, linesize, at, at) == Text(file, inoffset)
            <==> ComesOutWhole(Text(file, inoffset), linesize)
  {
    AddUpIff(FileBom(file), file, linesize, TextStart(file, inoffset));
  }

  // ----- three files whose runs do not fit -----

  /** A file that is one run of exactly one buffer: all but its first five bytes are lost. */
  lemma BytesAreLost(file: seq<byte>, linesize: nat)
    requires linesize > CONVD_ERR_INSUFF && |file| == linesize && RunLength(file) == linesize
    ensures ChunksFrom(NoBom, file, linesize, 0, 0) == [file[..5]]
  {
    assert ReadBytes(file, 0, linesize) == file;
    ChunksEnd(NoBom, file, linesize, 0, linesize);
  }

  /** `n` equal characters. */
  function Same(n: nat): (r: seq<byte>)
    ensures |r| == n
  {
    seq(n, i => 0x61 as byte)
  }

  lemma SameIsOneRun(n: nat, more: seq<byte>)
    requires n > 0 && (more == [] || High(more[0]))
    ensures RunLength(Same(n) + more) == n
  {
    RunLengthIs(Same(n) + more, n);
  }

  /** Ten equal characters and an accented one, through a buffer of ten: bytes are repeated. */
  lemma BytesAreRepeated()
    ensures ChunksFrom(NoBom, Same(10) + [0xC3, 0xA9], 10, 0, 0) == [Same(5), [0xC3, 0xA9], Same(8), [0xC3, 0xA9]]
  {
    hide ChunksFrom, RunLength;
    var accent: seq<byte> := [0xC3, 0xA9];
    var file := Same(10) + accent;
    SameIsOneRun(10, []);
    SameIsOneRun(8, accent);
    RunLengthIs(accent, 2);
    assert Same(10) + [] == Same(10) && Same(10)[..5] == Same(5) && (Same(8) + accent)[..8] == Same(8);
    assert ReadBytes(file, 0, 10) == Same(10) && ReadBytes(file, 10, 10) == accent && accent[..2] == accent;
    assert ReadBytes(file, 2, 10) == Same(8) + accent;
    ChunksStep(NoBom, file, 10, 0, 0, 10);
    ChunksStep(NoBom, file, 10, 0, 10, 2);
    ChunksStep(NoBom, file, 10, 2, 2, 8);
    ChunksStep(NoBom, file, 10, 10, 10, 2);
    ChunksEnd(NoBom, file, 10, 12, 12);
  }

  /** Eleven equal characters through a buffer of ten come out whole, in chunks that are not the runs. */
  lemma BytesComeOutByChance()
    ensures ChunksFrom(NoBom, Same(11), 10, 0, 0) == [Same(5), Same(1), Same(5)]
    ensures Delivered(NoBom, Same(11), 10, 0, 0) == Same(11) && ComesOutWhole(Same(11), 10) && !ShortRuns(Same(11), 10)
  {
    hide ChunksFrom, Concat, RunLength, ShortRuns, ComesOutWhole;
    var file := Same(11);
    SameIsOneRun(10, []);
    SameIsOneRun(1, []);
    SameIsOneRun(11, []);
    assert Same(10) + [] == Same(10) && Same(1) + [] == Same(1) && file + [] == file;
    assert ReadBytes(file, 0, 10) == ReadBytes(file, 1, 10) == Same(10) && ReadBytes(file, 10, 10) == Same(1);
    assert Same(10)[..5] == Same(5) && Same(1)[..1] == Same(1);
    ChunksStep(NoBom, file, 10, 0, 0, 10);
    ChunksStep(NoBom, file, 10, 0, 10, 1);
    ChunksStep(NoBom, file, 10, 1, 1, 10);
    ChunksEnd(NoBom, file, 10, 1, 11);
    ThreeChunks(Same(5), Same(1), Same(5));
    assert Same(5) + Same(1) + Same(5) == file;
    ShortRunsStep(file, 10);
    AddUpIff(NoBom, file, 10, 0);
    assert Behind(file, 0) == file;
  }

  lemma ThreeChunks(a: seq<byte>, b: seq<byte>, c: seq<byte>)
    ensures Concat([a, b, c]) == a + b + c
  {
    assert [a, b, c][1..] == [b, c] && [b, c][1..] == [c] && [c][1..] == [];
    assert Concat([c]) == c + [] == c;
    assert Concat([b, c]) == b + Concat([c]);
    assert a + (b + c) == a + b + c;
  }
}
