/** Byte-order helpers: in-place reversal of a value's bytes, on a little-endian host. */
module ByteOrder {
  import opened Common

  function Reversed(s: seq<byte>): (r: seq<byte>)
    ensures |r| == |s|
  {
    seq(|s|, i requires 0 <= i < |s| => s[|s| - 1 - i])
  }

  lemma ReversedTwice(s: seq<byte>)
    ensures Reversed(Reversed(s)) == s
  {
  }

  /** Reverse the `size` bytes at `at`. */
  method SwapEvenBytes(b: array<byte>, at: nat, size: nat)
    requires at + size <= b.Length
    modifies b
    ensures forall k :: 0 <= k < b.Length ==>
              b[k] == old(if at <= k < at + size then b[2 * at + size - 1 - k] else b[k])
  {
    ghost var was := b[..];
    for i := 0 to size / 2
      invariant forall k :: 0 <= k < b.Length && !(at <= k < at + size) ==> b[k] == was[k]
      invariant forall k :: at <= k < at + i || at + size - i <= k < at + size ==> b[k] == was[2 * at + size - 1 - k]
      invariant forall k :: at + i <= k < at + size - i ==> b[k] == was[k]
    {
      var t := b[at + i];
      b[at + i] := b[at + (size - i - 1)];
      b[at + (size - i - 1)] := t;
    }
  }

  /** Every complete unit of `size` bytes with its bytes reversed; an incomplete last unit stays. */
  function SwappedUnits(s: seq<byte>, size: nat): (r: seq<byte>)
    requires size > 0
    ensures |r| == |s|
  {
    if |s| < size then s else Reversed(s[..size]) + SwappedUnits(s[size..], size)
  }

  lemma {:induction false} SwappedUnitsSplit(s: seq<byte>, size: nat, k: nat, q: nat)
    requires size > 0 && k == q * size && k <= |s|
    ensures SwappedUnits(s, size) == SwappedUnits(s[..k], size) + SwappedUnits(s[k..], size)
    decreases q
  {
    if q == 0 {
      assert s[..k] == [] && s[k..] == s;
    } else {
      assert k == (q - 1) * size + size;
      SwappedUnitsSplit(s[size..], size, k - size, q - 1);
      assert s[size..][..k - size] == s[..k][size..] && s[size..][k - size..] == s[k..];
      assert s[..k][..size] == s[..size];
    }
  }
}
