/** The whitespace compactor: it calls itself on the rest of the string up to three times per character. */
module TrimWhitespace {

  predicate IsSpace(c: char) { c == ' ' || '\t' <= c <= '\r' }

  /** The characters that are not whitespace, in order. */
  function NonSpace(s: string): string {
    if s == "" then "" else Kept(s[0]) + NonSpace(s[1..])
  }

  function Kept(c: char): string { if IsSpace(c) then "" else [c] }

  predicate AllSpace(s: string) { forall c :: c in s ==> IsSpace(c) }

  lemma {:induction false} NonSpaceAppend(a: string, b: string)
    ensures NonSpace(a + b) == NonSpace(a) + NonSpace(b)
  {
    if a == "" {
      assert a + b == b;
    } else {
      hide Kept, NonSpace;
      NonSpaceAppend(a[1..], b);
      NonSpaceStep(a);
      NonSpaceStep(a + b);
      assert (a + b)[1..] == a[1..] + b;
      Associate(Kept(a[0]), NonSpace(a[1..]), NonSpace(b));
    }
  }

  lemma NonSpaceStep(s: string)
    requires s != ""
    ensures NonSpace(s) == Kept(s[0]) + NonSpace(s[1..])
  {
  }

  lemma Associate(a: string, b: string, c: string)
    ensures a + (b + c) == (a + b) + c
  {
  }

  /** Of each character: blank, tab, line feed, vertical tab, form feed and carriage return go, the others stay. */
  lemma EachCharacter(a: string, c: char, b: string)
    ensures NonSpace(a + [c] + b)
         == NonSpace(a) + (if c as int in {32, 9, 10, 11, 12, 13} then "" else [c]) + NonSpace(b)
    ensures NonSpace("") == ""
  {
    NonSpaceAppend(a + [c], b);
    NonSpaceAppend(a, [c]);
    assert NonSpace([c]) == Kept(c) + NonSpace([c][1..]) == Kept(c) + NonSpace("") == Kept(c);
  }

  lemma {:induction false} NonSpaceMembers(s: string)
    ensures forall c :: c in NonSpace(s) ==> !IsSpace(c) && c in s
  {
    if s != "" { NonSpaceMembers(s[1..]); }
  }

  lemma {:induction false} NonSpaceKeeps(s: string)
    requires forall c :: c in s ==> !IsSpace(c)
    ensures NonSpace(s) == s
  {
    if s != "" {
      assert forall c :: c in s[1..] ==> c in s;
      NonSpaceKeeps(s[1..]);
    }
  }

  lemma {:induction false} NonSpaceDrops(s: string)
    requires AllSpace(s)
    ensures NonSpace(s) == ""
  {
    if s != "" {
      assert AllSpace(s[1..]);
      NonSpaceDrops(s[1..]);
    }
  }

  /** The string from `s` to its terminator at `e` now is a gap up to `r`, and the characters `packed`. */
  ghost predicate Packed(a: seq<char>, s: nat, r: nat, e: nat, packed: string) {
    s <= r <= e < |a| && a[e] == '\0' && AllSpace(a[s..r]) && a[r..e] == packed
  }

  ghost predicate NoNull(a: seq<char>, s: nat, e: nat) {
    e < |a| && forall i :: s <= i < e ==> a[i] != '\0'
  }

  /** Trimming a trimmed string leaves nothing to do. */
  lemma TrimmedIsFixed(x: string)
    ensures NonSpace(NonSpace(x)) == NonSpace(x)
  {
    NonSpaceMembers(x);
    NonSpaceKeeps(NonSpace(x));
  }

  /** Compacting what is already compact finds the same characters. */
  lemma PackedAgain(a: seq<char>, s: nat, r: nat, e: nat, x: string)
    requires Packed(a, s, r, e, NonSpace(x)) && '\0' !in x
    ensures NonSpace(a[s..e]) == NonSpace(x) && NoNull(a, s, e)
  {
    hide NonSpace;
    var gap, packed := a[s..r], a[r..e];
    assert a[s..e] == gap + packed;
    NonSpaceAppend(gap, packed);
    NonSpaceDrops(gap);
    NonSpaceMembers(x);
    TrimmedIsFixed(x);
    NothingNull(a, s, r, e);
  }

  lemma NothingNull(a: seq<char>, s: nat, r: nat, e: nat)
    requires s <= r <= e < |a| && AllSpace(a[s..r]) && '\0' !in a[r..e]
    ensures NoNull(a, s, e)
  {
    var gap, packed := a[s..r], a[r..e];
    forall i | s <= i < e ensures a[i] != '\0' {
      if i < r { assert a[i] == gap[i - s] && a[i] in gap; } else { assert a[i] == packed[i - r] && a[i] in packed; }
    }
  }

  lemma SpaceBefore(a: seq<char>, s: nat, r: nat, e: nat, packed: string)
    requires s < e < |a| && Packed(a, s + 1, r, e, packed) && IsSpace(a[s])
    ensures Packed(a, s, r, e, packed)
  {
    assert a[s..r] == [a[s]] + a[s + 1..r];
  }

  /** A character put in front of the packed ones, where there was space. */
  lemma PackedWith(a: seq<char>, b: seq<char>, s: nat, r: nat, e: nat, c: char, packed: string)
    requires Packed(a, s, r, e, packed) && s < r && b == a[r - 1 := c]
    ensures Packed(b, s, r - 1, e, [c] + packed)
  {
    assert b[s..r - 1] == a[s..r][..r - 1 - s];
    assert b[r - 1..e] == [c] + a[r..e];
  }

  /** Two ways to be packed with the same characters have the same gap. */
  lemma SameGap(a: seq<char>, b: seq<char>, s: nat, r: nat, t: nat, e: nat, packed: string)
    requires Packed(a, s, r, e, packed) && Packed(b, s, t, e, packed)
    ensures r == t
  {
  }

  lemma PackedWithoutGap(a: seq<char>, s: nat, e: nat, packed: string)
    requires s < e < |a| && Packed(a, s + 1, s + 1, e, packed)
    ensures Packed(a, s, s, e, [a[s]] + packed)
  {
    assert a[s..e] == [a[s]] + a[s + 1..e];
  }

  lemma FirstOf(a: seq<char>, s: nat, e: nat)
    requires s < e < |a| && NoNull(a, s, e)
    ensures NonSpace(a[s..e]) == Kept(a[s]) + NonSpace(a[s + 1..e])
    ensures '\0' !in a[s + 1..e] && NoNull(a, s + 1, e)
  {
    assert a[s..e][1..] == a[s + 1..e];
  }

  lemma NothingLeft(a: seq<char>, e: nat)
    requires e < |a| && a[e] == '\0'
    ensures Packed(a, e, e, e, NonSpace(a[e..e]))
  {
  }

  /**
   * The result points at the non-space characters, in order and packed against the terminator; only
   * whitespace is left before them.
   */
  method CstrTrimWhitespace(a: array<char>, s: nat, ghost e: nat) returns (r: nat)
    requires s <= e < a.Length && a[e] == '\0' && NoNull(a[..], s, e)
    modifies a
    ensures Packed(a[..], s, r, e, NonSpace(old(a[..])[s..e]))
    ensures s <= r <= e && forall i :: 0 <= i < a.Length && !(s <= i < e) ==> a[i] == old(a[i])
    decreases e - s, 1
  {
    hide NonSpace, Packed;
    if a[s] == '\0' {
      NothingLeft(a[..], e);
      return s;
    }
    ghost var was := a[..];
    FirstOf(was, s, e);
    var c := a[s];
    r := CstrTrimWhitespace(a, s + 1, e);
    if IsSpace(c) {
      SpaceBefore(a[..], s, r, e, NonSpace(was[s + 1..e]));
      assert "" + NonSpace(was[s + 1..e]) == NonSpace(was[s + 1..e]);
    } else if r - 1 == s {
      PackedWithoutGap(a[..], s, e, NonSpace(was[s + 1..e]));
      r := s;
    } else {
      r := MoveToGap(a, s, r, e, was[s + 1..e]);
    }
  }

  /** The character at `s` goes to the end of the gap, and the rest is compacted again. */
  method MoveToGap(a: array<char>, s: nat, ghost r0: nat, ghost e: nat, ghost x: string) returns (r: nat)
    requires s + 1 < r0 <= e < a.Length && Packed(a[..], s + 1, r0, e, NonSpace(x)) && '\0' !in x
    requires a[e] == '\0' && !IsSpace(a[s]) && a[s] != '\0'
    modifies a
    ensures Packed(a[..], s, r, e, [old(a[s])] + NonSpace(x))
    ensures s <= r <= e && forall i :: 0 <= i < a.Length && !(s <= i < e) ==> a[i] == old(a[i])
    decreases e - s, 0
  {
    hide NonSpace, Packed;
    var c := a[s];
    ghost var first := a[..];
    PackedAgain(first, s + 1, r0, e, x);
    var t := CstrTrimWhitespace(a, s + 1, e);
    SameGap(first, a[..], s + 1, r0, t, e, NonSpace(x));
    ghost var was := a[..];
    a[t - 1] := c;
    a[s] := ' ';
    Moved(was, a[..], s, t, e, c, x);
    r := CstrTrimWhitespace(a, s + 1, e);
    SpaceBefore(a[..], s, r, e, [c] + NonSpace(x));
  }

  /** The character at the end of the gap, and space where it was, make a longer packed string. */
  lemma Moved(a: seq<char>, b: seq<char>, s: nat, t: nat, e: nat, c: char, x: string)
    requires s + 1 < t <= e < |a| && Packed(a, s + 1, t, e, NonSpace(x)) && b == a[t - 1 := c][s := ' ']
    requires '\0' !in x && !IsSpace(c) && c != '\0'
    ensures NonSpace(b[s + 1..e]) == [c] + NonSpace(x) && NoNull(b, s + 1, e)
  {
    hide NonSpace, Packed, NoNull;
    PackedWith(a, a[t - 1 := c], s + 1, t, e, c, NonSpace(x));
    KeptBehind(a[t - 1 := c], b, s + 1, t - 1, e, [c] + NonSpace(x));
    NonSpaceOf(c, x);
    PackedAgain(b, s + 1, t - 1, e, [c] + x);
  }

  lemma KeptBehind(a: seq<char>, b: seq<char>, s: nat, r: nat, e: nat, packed: string)
    requires s > 0 && Packed(a, s, r, e, packed) && b == a[s - 1 := ' ']
    ensures Packed(b, s, r, e, packed)
  {
    assert b[s..r] == a[s..r] && b[r..e] == a[r..e];
  }

  lemma NonSpaceOf(c: char, x: string)
    requires !IsSpace(c)
    ensures NonSpace([c] + x) == [c] + NonSpace(x)
  {
    assert ([c] + x)[1..] == x;
  }
}
