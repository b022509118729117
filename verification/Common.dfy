/** Small vocabulary shared by the other modules. */
module Common {

  datatype Option<+T> = None | Some(value: T)

  type byte = b: int | 0 <= b < 256

  /** The value of a `char` when C promotes it to `int` (plain `char` is signed and eight bits wide). */
  function CharCode(c: char): int {
    var u := c as int % 256;
    if u < 128 then u else u - 256
  }

  /** Index of the first occurrence of `c` in `s`, or `|s|`: what `strchr` points at. */
  function IndexOf(s: string, c: char): (k: nat)
    ensures k <= |s|
    ensures k < |s| ==> s[k] == c
    ensures forall j :: 0 <= j < k ==> s[j] != c
  {
    if s == [] then 0 else if s[0] == c then 0 else 1 + IndexOf(s[1..], c)
  }

  /** `pat` occurs in `s` at position `k`. */
  predicate OccursAt<T(==)>(s: seq<T>, pat: seq<T>, k: nat) {
    k + |pat| <= |s| && s[k..k + |pat|] == pat
  }

  /** The first occurrence of `pat` in `s`: what `strstr` finds. */
  function Find<T(==)>(s: seq<T>, pat: seq<T>): (r: Option<nat>)
    ensures r.Some? ==> OccursAt(s, pat, r.value) && forall j :: 0 <= j < r.value ==> !OccursAt(s, pat, j)
    ensures r.None? ==> forall j :: 0 <= j ==> !OccursAt(s, pat, j)
  {
    if OccursAt(s, pat, 0) then Some(0)
    else if s == [] then None
    else
      var r := Find(s[1..], pat);
      assert forall j :: 0 < j ==> OccursAt(s, pat, j) == OccursAt(s[1..], pat, j - 1) by {
        forall j | 0 < j ensures OccursAt(s, pat, j) == OccursAt(s[1..], pat, j - 1) { ShiftOccurrence(s, pat, j); }
      }
      if r.None? then None else Some(r.value + 1)
  }

  lemma ShiftOccurrence<T>(s: seq<T>, pat: seq<T>, j: nat)
    requires s != [] && j > 0
    ensures OccursAt(s, pat, j) == OccursAt(s[1..], pat, j - 1)
  {
    if j + |pat| <= |s| { assert s[j..j + |pat|] == s[1..][j - 1..j - 1 + |pat|]; }
  }

  lemma FindIs<T>(s: seq<T>, pat: seq<T>, k: nat)
    requires OccursAt(s, pat, k) && forall j :: 0 <= j < k ==> !OccursAt(s, pat, j)
    ensures Find(s, pat) == Some(k)
  {
  }

  /** Copy `s` to position `at`, as `memcpy` and `strncpy` do. */
  method CopyChars(dst: array<char>, at: nat, s: string)
    requires at + |s| <= dst.Length
    modifies dst
    ensures dst[..at + |s|] == old(dst[..at]) + s
  {
    ghost var was := dst[..at];
    forall i | 0 <= i < |s| { dst[at + i] := s[i]; }
    assert dst[..at] == was && dst[at..at + |s|] == s;
    assert dst[..at + |s|] == dst[..at] + dst[at..at + |s|];
  }
}
