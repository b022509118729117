/** Well-formed UTF-8 (sections 3 and 4 of RFC 3629), and its runs of equal bit 7. */
module Utf8 {
  import opened Common

  predicate Tail(b: byte) { 0x80 <= b <= 0xBF }

  /** Length of the UTF-8 character at the start of `s`, or 0 if there is none. */
  function CharLength(s: seq<byte>): (n: nat)
    ensures n <= |s| && n <= 4
    ensures n > 0 ==> forall i :: 0 <= i < n ==> High(s[i]) == (n > 1)
  {
    if |s| >= 1 && s[0] <= 0x7F then 1
    else if |s| >= 2 && 0xC2 <= s[0] <= 0xDF && Tail(s[1]) then 2
    else if |s| >= 3 && Tail(s[1]) && Tail(s[2]) && Three(s[0], s[1]) then 3
    else if |s| >= 4 && Tail(s[1]) && Tail(s[2]) && Tail(s[3]) && Four(s[0], s[1]) then 4
    else 0
  }

  predicate Three(a: byte, b: byte) {
    (a == 0xE0 && b >= 0xA0) || 0xE1 <= a <= 0xEC || (a == 0xED && b <= 0x9F) || 0xEE <= a <= 0xEF
  }

  predicate Four(a: byte, b: byte) {
    (a == 0xF0 && b >= 0x90) || 0xF1 <= a <= 0xF3 || (a == 0xF4 && b <= 0x8F)
  }

  predicate WellFormed(s: seq<byte>) {
    s == [] || (CharLength(s) > 0 && WellFormed(s[CharLength(s)..]))
  }

  /** Bit 7 of a byte. */
  predicate High(b: byte) { b >= 0x80 }

  /** Length of the longest prefix whose bytes agree in bit 7. */
  function RunLength(s: seq<byte>): (n: nat)
    requires s != []
    ensures 1 <= n <= |s|
    ensures forall i :: 0 <= i < n ==> High(s[i]) == High(s[0])
    ensures n < |s| ==> High(s[n]) != High(s[0])
  {
    if |s| > 1 && High(s[1]) == High(s[0]) then 1 + RunLength(s[1..]) else 1
  }

  /** The maximal runs of equal bit 7. */
  function Runs(s: seq<byte>): (r: seq<seq<byte>>)
  {
    if s == [] then [] else [s[..RunLength(s)]] + Runs(s[RunLength(s)..])
  }

  lemma RunLengthIs(s: seq<byte>, n: nat)
    requires 1 <= n <= |s| && (forall i :: 0 <= i < n ==> High(s[i]) == High(s[0]))
    requires n < |s| ==> High(s[n]) != High(s[0])
    ensures RunLength(s) == n
  {
  }

  lemma RunLengthAtLeast(s: seq<byte>, c: nat)
    requires 1 <= c <= |s| && forall i :: 0 <= i < c ==> High(s[i]) == High(s[0])
    ensures c <= RunLength(s)
  {
  }

  function Concat(ss: seq<seq<byte>>): seq<byte> {
    if ss == [] then [] else ss[0] + Concat(ss[1..])
  }

  predicate OneKind(run: seq<byte>) {
    run != [] && forall i :: 0 <= i < |run| ==> High(run[i]) == High(run[0])
  }

  /** Every run is of one kind, and neighbours are of different kinds. */
  predicate Alternating(runs: seq<seq<byte>>) {
    runs == [] ||
    (OneKind(runs[0]) && Alternating(runs[1..])
     && (|runs| > 1 ==> runs[1] != [] && High(runs[1][0]) != High(runs[0][0])))
  }

  lemma {:induction false} RunsPartition(s: seq<byte>)
    ensures Concat(Runs(s)) == s && Alternating(Runs(s))
  {
    if s != [] {
      var n := RunLength(s);
      RunsPartition(s[n..]);
      assert s[..n] + s[n..] == s;
      assert Runs(s)[1..] == Runs(s[n..]);
      assert n < |s| ==> Runs(s[n..])[0][0] == s[n];
    }
  }

  /** There is only one way to cut a text into alternating runs. */
  lemma {:induction false} RunsUnique(runs: seq<seq<byte>>)
    requires Alternating(runs)
    ensures Runs(Concat(runs)) == runs
  {
    if runs != [] {
      var s, n := Concat(runs), |runs[0]|;
      RunsUnique(runs[1..]);
      assert s[..n] == runs[0] && s[n..] == Concat(runs[1..]);
      assert forall i :: 0 <= i < n ==> s[i] == runs[0][i];
      if n < |s| {
        assert |runs| > 1 && s[n] == s[n..][0] == runs[1][0];
      }
      RunLengthIs(s, n);
    }
  }

  /** Cutting well-formed text where bit 7 changes cuts between characters. */
  lemma {:induction false} FirstRunWellFormed(s: seq<byte>)
    requires s != [] && WellFormed(s)
    ensures WellFormed(s[..RunLength(s)]) && WellFormed(s[RunLength(s)..])
  {
    hide CharLength, RunLength;
    var n := RunLength(s);
    var c := CharLength(s);
    RunLengthAtLeast(s, c);
    PrefixKeepsCharacter(s, n);
    if c < n {
      var t := s[c..];
      assert High(t[0]) == High(s[c]) == High(s[0]);
      assert forall i :: 0 <= i < n - c ==> High(t[i]) == High(s[c + i]);
      RunLengthIs(t, n - c);
      FirstRunWellFormed(t);
      assert t[..n - c] == s[..n][c..] && t[n - c..] == s[n..];
    } else {
      assert s[..n][c..] == [];
    }
  }

  lemma PrefixKeepsCharacter(s: seq<byte>, n: nat)
    requires 0 < CharLength(s) <= n <= |s|
    ensures CharLength(s[..n]) == CharLength(s)
  {
  }

  lemma {:induction false} RunsWellFormed(s: seq<byte>)
    requires WellFormed(s)
    ensures forall k :: 0 <= k < |Runs(s)| ==> WellFormed(Runs(s)[k])
  {
    if s != [] {
      FirstRunWellFormed(s);
      RunsWellFormed(s[RunLength(s)..]);
    }
  }

  // ----- the bytes, bit by bit -----

  /** The runs are cut where bit 7 changes. */
  lemma HighIsBit7(b: byte)
    ensures High(b) <==> (b as bv8) & 0x80 != 0
  {
  }

  /** The encoding of a character number (section 3 of RFC 3629). */
  function Encoding(n: nat): (r: seq<byte>)
    requires n < 0x11_0000
  {
    if n < 0x80 then [n]
    else if n < 0x800 then [0xC0 + n / 64, 0x80 + n % 64]
    else if n < 0x1_0000 then [0xE0 + n / 4096, 0x80 + n / 64 % 64, 0x80 + n % 64]
    else [0xF0 + n / 262144, 0x80 + n / 4096 % 64, 0x80 + n / 64 % 64, 0x80 + n % 64]
  }

  predicate Scalar(n: nat) { n < 0xD800 || 0xE000 <= n < 0x11_0000 }

  /** The encoding of a character is a character, whatever follows. */
  lemma EncodingIsCharacter(n: nat, rest: seq<byte>)
    requires Scalar(n)
    ensures CharLength(Encoding(n) + rest) == |Encoding(n)|
  {
  }

  lemma SixBits(q: nat, r: nat)
    requires r < 64
    ensures (q * 64 + r) / 64 == q && (q * 64 + r) % 64 == r
  {
  }

  lemma Sixes(a: nat, b: nat, c: nat, d: nat)
    requires b < 64 && c < 64 && d < 64
    ensures var n := a * 262144 + b * 4096 + c * 64 + d;
            n % 64 == d && n / 64 % 64 == c && n / 4096 % 64 == b && n / 262144 == a
  {
    var n := a * 262144 + b * 4096 + c * 64 + d;
    SixBits(a * 4096 + b * 64 + c, d);
    SixBits(a * 64 + b, c);
    SixBits(a, b);
    assert n / 64 == a * 4096 + b * 64 + c;
    assert n / 4096 == n / 64 / 64 && n / 262144 == n / 4096 / 64;
  }

  lemma EncodingOfTwo(a: int, b: int)
    requires 0xC2 <= a <= 0xDF && 0x80 <= b <= 0xBF
    ensures var n := (a - 0xC0) * 64 + (b - 0x80); Scalar(n) && Encoding(n) == [a, b]
  {
    Sixes(0, 0, a - 0xC0, b - 0x80);
  }

  lemma EncodingOfThree(a: int, b: int, c: int)
    requires 0 <= a <= 0xFF && 0x80 <= b <= 0xBF && 0x80 <= c <= 0xBF && Three(a, b)
    ensures var n := (a - 0xE0) * 4096 + (b - 0x80) * 64 + (c - 0x80);
            0 <= n < 0x11_0000 && Scalar(n) && Encoding(n) == [a, b, c]
  {
    Sixes(0, a - 0xE0, b - 0x80, c - 0x80);
  }

  lemma EncodingOfFour(a: int, b: int, c: int, d: int)
    requires 0 <= a <= 0xFF && 0x80 <= b <= 0xBF && 0x80 <= c <= 0xBF && 0x80 <= d <= 0xBF && Four(a, b)
    ensures var n := (a - 0xF0) * 262144 + (b - 0x80) * 4096 + (c - 0x80) * 64 + (d - 0x80);
            0 <= n < 0x11_0000 && Scalar(n) && Encoding(n) == [a, b, c, d]
  {
    Sixes(a - 0xF0, b - 0x80, c - 0x80, d - 0x80);
  }

  /** And every character is the encoding of one number. */
  lemma CharacterIsEncoding(s: seq<byte>) returns (n: nat)
    requires CharLength(s) > 0
    ensures Scalar(n) && s[..CharLength(s)] == Encoding(n)
  {
    hide Encoding;
    var k := CharLength(s);
    if k == 1 {
      n := s[0];
      assert Encoding(n) == [n] by { OneByte(n); }
    } else if k == 2 {
      EncodingOfTwo(s[0], s[1]);
      n := (s[0] as int - 0xC0) * 64 + (s[1] as int - 0x80);
    } else if k == 3 {
      EncodingOfThree(s[0], s[1], s[2]);
      n := (s[0] as int - 0xE0) * 4096 + (s[1] as int - 0x80) * 64 + (s[2] as int - 0x80);
    } else {
      EncodingOfFour(s[0], s[1], s[2], s[3]);
      n := (s[0] as int - 0xF0) * 262144 + (s[1] as int - 0x80) * 4096 + (s[2] as int - 0x80) * 64
         + (s[3] as int - 0x80);
    }
  }

  lemma OneByte(n: nat)
    requires n < 0x80
    ensures Encoding(n) == [n]
  {
  }
}
