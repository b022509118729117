/** Splitting a string in place by a separator, and replacing a pattern in two passes. */
module ReplaceSplit {
  import opened Common

  // ----- pieces -----

  /** The text between the occurrences of `pat`, found from left to right. */
  function Pieces(s: string, pat: string): (r: seq<string>)
    requires pat != ""
    ensures |r| > 0
    decreases |s|
  {
    match Find(s, pat)
    case None => [s]
    case Some(k) => [s[..k]] + Pieces(s[k + |pat|..], pat)
  }

  function Join(pieces: seq<string>, sep: string): string
    requires |pieces| > 0
  {
    if |pieces| == 1 then pieces[0] else pieces[0] + sep + Join(pieces[1..], sep)
  }

  /** Joining the pieces by the pattern gives the string back. */
  lemma {:induction false} JoinPieces(s: string, pat: string)
    requires pat != ""
    ensures Join(Pieces(s, pat), pat) == s
    decreases |s|
  {
    hide Find, Pieces, Join;
    PiecesUnfold(s, pat);
    match Find(s, pat)
    case None => JoinUnfold(s, [s], pat);
    case Some(k) =>
      JoinUnfold(s[..k], Pieces(s[k + |pat|..], pat), pat);
      JoinPieces(s[k + |pat|..], pat);
      assert s == s[..k] + pat + s[k + |pat|..];
  }

  /** No piece contains the pattern or overlaps the occurrence that ends it: that is found as early as possible. */
  lemma {:induction false} PiecesAreFree(s: string, pat: string)
    requires pat != ""
    ensures forall i :: 0 <= i < |Pieces(s, pat)| ==> Find(Pieces(s, pat)[i], pat) == None
    ensures forall i :: 0 <= i < |Pieces(s, pat)| - 1 ==>
              forall j: nat :: OccursAt(Pieces(s, pat)[i] + pat, pat, j) ==> j == |Pieces(s, pat)[i]|
    decreases |s|
  {
    hide Find, Pieces;
    PiecesUnfold(s, pat);
    match Find(s, pat)
    case None =>
    case Some(k) =>
      PiecesAreFree(s[k + |pat|..], pat);
      NothingBefore(s, pat, k);
      NothingEarlier(s, pat, k);
  }

  lemma NothingEarlier(s: string, pat: string, k: nat)
    requires Find(s, pat) == Some(k) && pat != ""
    ensures forall j: nat :: OccursAt(s[..k] + pat, pat, j) ==> j == k
  {
    var t := s[..k] + pat;
    assert t == s[..k + |pat|];
    forall j: nat | OccursAt(t, pat, j) ensures j == k {
      assert s[j..j + |pat|] == t[j..j + |pat|];
      assert OccursAt(s, pat, j);
    }
  }

  lemma NothingBefore(s: string, pat: string, k: nat)
    requires Find(s, pat) == Some(k) && pat != ""
    ensures Find(s[..k], pat) == None
  {
    forall j: nat ensures !OccursAt(s[..k], pat, j) {
      if j + |pat| <= k {
        assert s[..k][j..j + |pat|] == s[j..j + |pat|];
        assert !OccursAt(s, pat, j);
      }
    }
  }

  function Replaced(s: string, pat: string, rep: string): string
    requires pat != ""
  {
    Join(Pieces(s, pat), rep)
  }

  lemma PiecesUnfold(s: string, pat: string)
    requires pat != ""
    ensures match Find(s, pat)
            case None => Pieces(s, pat) == [s]
            case Some(k) => Pieces(s, pat) == [s[..k]] + Pieces(s[k + |pat|..], pat)
  {
    hide Find;
  }

  lemma JoinUnfold(first: string, rest: seq<string>, sep: string)
    requires |rest| > 0
    ensures Join([first], sep) == first && Join([first] + rest, sep) == first + sep + Join(rest, sep)
  {
    assert ([first] + rest)[1..] == rest;
  }

  lemma ReplacedStep(s: string, pat: string, rep: string)
    requires pat != ""
    ensures match Find(s, pat)
            case None => Replaced(s, pat, rep) == s && |Pieces(s, pat)| == 1
            case Some(k) =>
              && Replaced(s, pat, rep) == s[..k] + rep + Replaced(s[k + |pat|..], pat, rep)
              && |Pieces(s, pat)| == 1 + |Pieces(s[k + |pat|..], pat)|
  {
    hide Find, Pieces, Join;
    PiecesUnfold(s, pat);
    match Find(s, pat)
    case None => JoinUnfold(s, [s], rep);
    case Some(k) => JoinUnfold(s[..k], Pieces(s[k + |pat|..], pat), rep);
  }

  /** Each replacement changes the length by the same amount, up or down. */
  lemma {:induction false} ReplacedLength(s: string, pat: string, rep: string)
    requires pat != ""
    ensures |Replaced(s, pat, rep)| == |s| + (|Pieces(s, pat)| - 1) * (|rep| - |pat|)
    decreases |s|
  {
    hide Find, Pieces, Replaced;
    ReplacedStep(s, pat, rep);
    match Find(s, pat)
    case None =>
    case Some(k) =>
      ReplacedLength(s[k + |pat|..], pat, rep);
      OneMoreTimes(|Pieces(s[k + |pat|..], pat)| - 1, |rep| - |pat|);
  }

  lemma OneMoreTimes(n: int, d: int)
    ensures (n + 1) * d == n * d + d
  {
  }

  // ----- replacing -----

  const SIZE_MODULUS := 0x1_0000_0000_0000_0000

  /** A `size_t` cast to `int`. */
  function ToInt(n: nat): int {
    var m := n % 0x1_0000_0000;
    if m < 0x8000_0000 then m else m - 0x1_0000_0000
  }

  /** `orilen + patcnt * (replen - patlen)` in `size_t`: the difference may wrap around, the result does not. */
  function NewLength(orilen: nat, patcnt: nat, replen: nat, patlen: nat): nat {
    (orilen + patcnt * ((replen - patlen) % SIZE_MODULUS)) % SIZE_MODULUS
  }

  lemma NewLengthIs(orilen: nat, patcnt: nat, replen: nat, patlen: nat)
    requires 0 <= orilen + patcnt * (replen - patlen) < SIZE_MODULUS
    ensures NewLength(orilen, patcnt, replen, patlen) == orilen + patcnt * (replen - patlen)
  {
    var d := replen - patlen;
    var m := d % SIZE_MODULUS;
    var k := d / SIZE_MODULUS;
    assert m == d - k * SIZE_MODULUS;
    Distribute(patcnt, d, k);
    var x := orilen + patcnt * d;
    WrapAround(x, -(patcnt * k));
  }

  lemma Distribute(p: nat, d: int, k: int)
    ensures p * (d - k * SIZE_MODULUS) == p * d - (p * k) * SIZE_MODULUS
  {
    assert p * (k * SIZE_MODULUS) == (p * k) * SIZE_MODULUS;
  }

  lemma WrapAround(x: int, q: int)
    requires 0 <= x < SIZE_MODULUS
    ensures (x + q * SIZE_MODULUS) % SIZE_MODULUS == x
  {
  }

  /**
   * The first pass counts the occurrences and so knows the length; the second writes exactly that
   * many characters. Without an occurrence there is no result.
   */
  method CstrReplaceNew(original: string, pattern: string, replacement: string)
    returns (len: int, outresult: Option<array<char>>)
    requires pattern != "" && |original| < SIZE_MODULUS && |Replaced(original, pattern, replacement)| < SIZE_MODULUS
    ensures outresult.None? <==> Find(original, pattern) == None
    ensures outresult.None? ==> len == 0
    ensures outresult.Some? ==>
              var text := Replaced(original, pattern, replacement);
              && fresh(outresult.value) && outresult.value.Length == |text| + 1
              && outresult.value[..|text|] == text && outresult.value[|text|] == '\0'
              && len == (var m := |text| % 0x1_0000_0000; if m < 0x8000_0000 then m else m - 0x1_0000_0000)
  {
    hide Pieces, Join, Replaced, NewLength;
    var replen, patlen, orilen := |replacement|, |pattern|, |original|;
    var patcnt := CountPattern(original, pattern);
    ReplacedStep(original, pattern, replacement);
    SomePiece(original, pattern);
    outresult := None;
    if patcnt == 0 { return 0, None; }
    ReplacedLength(original, pattern, replacement);
    NewLengthIs(orilen, patcnt, replen, patlen);
    var length := NewLength(orilen, patcnt, replen, patlen);
    var result := new char[length + 1];
    CopyPass(result, original, pattern, replacement);
    return ToInt(length), Some(result);
  }

  /** The copying pass fills the array up to its last cell. */
  method CopyPass(result: array<char>, original: string, pattern: string, replacement: string)
    requires pattern != "" && result.Length == |Replaced(original, pattern, replacement)| + 1
    modifies result
    ensures result[..result.Length - 1] == Replaced(original, pattern, replacement) && result[result.Length - 1] == '\0'
  {
    hide Pieces, Join, Replaced, Find;
    var oriptr, retptr: nat := 0, 0;
    ghost var text := Replaced(original, pattern, replacement);
    assert original[0..] == original && result[..0] + text == text;
    while true
      invariant oriptr <= |original| && retptr < result.Length
      invariant result[..retptr] + Replaced(original[oriptr..], pattern, replacement) == text
      decreases |original| - oriptr
    {
      var patloc := Find(original[oriptr..], pattern);
      ReplacedStep(original[oriptr..], pattern, replacement);
      if patloc == None { break; }
      var skplen := patloc.value;
      ghost var before := result[..retptr];
      ghost var rest := Replaced(original[oriptr + skplen + |pattern|..], pattern, replacement);
      assert original[oriptr..][skplen + |pattern|..] == original[oriptr + skplen + |pattern|..];
      var skipped := original[oriptr..][..skplen];
      assert before + (skipped + replacement + rest) == before + skipped + replacement + rest;
      CopyTwo(result, retptr, skipped, replacement);
      retptr := retptr + skplen + |replacement|;
      oriptr := oriptr + skplen + |pattern|;
    }
    CopyChars(result, retptr, original[oriptr..]);
    ghost var all := result[..result.Length - 1];
    result[retptr + (|original| - oriptr)] := '\0';
    assert result[..result.Length - 1] == all;
  }

  /** What stands before an occurrence, and the replacement. */
  method CopyTwo(result: array<char>, retptr: nat, skipped: string, replacement: string)
    requires retptr + |skipped| + |replacement| <= result.Length
    modifies result
    ensures result[..retptr + |skipped| + |replacement|] == old(result[..retptr]) + skipped + replacement
  {
    CopyChars(result, retptr, skipped);
    CopyChars(result, retptr + |skipped|, replacement);
  }

  lemma SomePiece(s: string, pat: string)
    requires pat != ""
    ensures |Pieces(s, pat)| == 1 <==> Find(s, pat) == None
  {
  }

  method CountPattern(original: string, pattern: string) returns (patcnt: nat)
    requires pattern != ""
    ensures patcnt == |Pieces(original, pattern)| - 1
  {
    hide Pieces;
    patcnt := 0;
    var oriptr := 0;
    assert original[0..] == original;
    while true
      invariant oriptr <= |original|
      invariant patcnt + |Pieces(original[oriptr..], pattern)| == |Pieces(original, pattern)|
      decreases |original| - oriptr
    {
      var patloc := Find(original[oriptr..], pattern);
      ReplacedStep(original[oriptr..], pattern, "");
      if patloc == None { return; }
      patcnt := patcnt + 1;
      assert original[oriptr..][patloc.value + |pattern|..] == original[oriptr + patloc.value + |pattern|..];
      oriptr := oriptr + patloc.value + |pattern|;
    }
  }

  // ----- splitting in place -----

  /** The null-terminated string at `at` is `s`. */
  ghost predicate StringAt(str: seq<char>, at: nat, s: string) {
    at + |s| < |str| && str[at..at + |s|] == s && str[at + |s|] == '\0'
  }

  /** A change behind a string and its terminator leaves it alone. */
  lemma StringKept(was: seq<char>, now: seq<char>, at: nat, s: string, from: nat)
    requires StringAt(was, at, s) && at + |s| < from <= |was| == |now|
    requires forall i :: 0 <= i < from ==> now[i] == was[i]
    ensures StringAt(now, at, s)
  {
    assert now[at..at + |s|] == was[at..at + |s|];
  }

  /** As many pieces as there are slots, each ended in place by a null character. The terminator of
      the string, where `strstr` stops, is at `end`. */
  method CstrSplitSubstr(str: array<char>, end: nat, sepstr: string, maxsubs: nat) returns (subs: seq<nat>)
    requires end < str.Length && str[end] == '\0' && sepstr != ""
    requires '\0' !in str[..end] && '\0' !in sepstr
    modifies str
    ensures var pieces := Pieces(old(str[..end]), sepstr);
            && |subs| == (if maxsubs < |pieces| then maxsubs else |pieces|)
            && forall i :: 0 <= i < |subs| ==> StringAt(str[..], subs[i], pieces[i])
    ensures forall i :: end <= i < str.Length ==> str[i] == old(str[i])
  {
    hide Pieces, StringAt;
    ghost var text := str[..end];
    ghost var pieces := Pieces(text, sepstr);
    subs := [];
    var s := Some(0);
    assert text[0..] == text && pieces[0..] == pieces;
    while s.Some? && |subs| < maxsubs
      invariant |subs| <= |pieces| && |subs| <= maxsubs
      invariant s.None? ==> |subs| == |pieces|
      invariant s.Some? ==> s.value <= end && |subs| < |pieces| && pieces[|subs|..] == Pieces(text[s.value..], sepstr)
      invariant s.Some? ==> forall i :: s.value <= i < end ==> str[i] == text[i]
      invariant forall i :: 0 <= i < |subs| ==> StringAt(str[..], subs[i], pieces[i])
      invariant s.Some? ==> forall i :: 0 <= i < |subs| ==> subs[i] + |pieces[i]| < s.value
      invariant forall i :: end <= i < str.Length ==> str[i] == old(str[i])
      decreases s.Some?, if s.Some? then end - s.value else 0
    {
      ghost var was, n := str[..], |subs|;
      var at := s.value;
      assert pieces[n..][0] == pieces[n] && pieces[n..][1..] == pieces[n + 1..];
      s := CutPiece(str, at, end, sepstr, text, pieces[n..]);
      forall i | 0 <= i < n ensures StringAt(str[..], subs[i], pieces[i]) {
        StringKept(was, str[..], subs[i], pieces[i], at);
      }
      subs := subs + [at];
    }
  }

  /** End the piece at `at` by a null character; the next one starts behind the separator. */
  method CutPiece(str: array<char>, at: nat, end: nat, sepstr: string, ghost text: string, ghost pieces: seq<string>)
    returns (next: Option<nat>)
    requires at <= end < str.Length && str[end] == '\0' && sepstr != "" && |text| == end
    requires (forall i :: at <= i < end ==> str[i] == text[i]) && pieces == Pieces(text[at..], sepstr)
    modifies str
    ensures forall i :: 0 <= i < at || end <= i < str.Length ==> str[i] == old(str[i])
    ensures StringAt(str[..], at, pieces[0])
    ensures next.None? <==> |pieces| == 1
    ensures next.Some? ==>
              && at + |pieces[0]| < next.value <= end && pieces[1..] == Pieces(text[next.value..], sepstr)
              && forall i :: next.value <= i < end ==> str[i] == text[i]
  {
    hide Pieces, StringAt, Find;
    assert str[at..end] == text[at..];
    var p := Find(str[at..end], sepstr);
    PiecesStep(text[at..], sepstr, pieces);
    if p.Some? {
      str[at + p.value] := '\0';
      FirstPiece(str[..], text, at, p.value);
      assert text[at..][p.value + |sepstr|..] == text[at + p.value + |sepstr|..];
      return Some(at + p.value + |sepstr|);
    }
    FirstPiece(str[..], text, at, end - at);
    return None;
  }

  lemma PiecesStep(s: string, pat: string, pieces: seq<string>)
    requires pat != "" && pieces == Pieces(s, pat)
    ensures match Find(s, pat)
            case None => pieces == [s] && s[..|s|] == s
            case Some(k) =>
              && k + |pat| <= |s| && |pieces| > 1
              && pieces[0] == s[..k] && pieces[1..] == Pieces(s[k + |pat|..], pat)
  {
    hide Find, Pieces;
    PiecesUnfold(s, pat);
  }

  lemma FirstPiece(str: seq<char>, text: string, at: nat, k: nat)
    requires at + k <= |text| < |str| && str[at + k] == '\0'
    requires forall i :: at <= i < at + k ==> str[i] == text[i]
    ensures StringAt(str, at, text[at..][..k])
  {
  }
}
