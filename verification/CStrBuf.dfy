/** The growing string buffer. */
module CStrBuf {
  import opened Common

  const BLOCK_SIZE := 16
  const LEN_MAX := 134217727
  const WORD := 0x1_0000_0000

  /** `cstrbuf_alignsize`, in 32 bits. */
  function AlignSize(n: nat): nat { (((n + BLOCK_SIZE) % WORD) / BLOCK_SIZE) * BLOCK_SIZE }

  lemma AlignSizeFits(n: nat)
    requires n <= LEN_MAX + 1
    ensures LeastMultiple(AlignSize(n), n)
  {
  }

  /** The least multiple of 16 above `n`. */
  predicate LeastMultiple(size: nat, n: nat) { size % 16 == 0 && n < size <= n + 16 }

  class Buffer {
    var maxsz: nat
    var len: nat
    var str: array<char>

    ghost predicate Valid()
      reads this
    {
      len < maxsz == str.Length
    }

    /** The text is what the length says; a terminator behind it is another matter. */
    ghost function Contents(): (s: string)
      reads this, str
      requires Valid()
    {
      str[..len]
    }

    ghost predicate Terminated()
      reads this, str
      requires Valid()
    {
      str[len] == '\0'
    }

    /** `cstrbufNew`. Without `text` the buffer is empty; without `size` the text counts whole; a
        `capacity` of -1 is written None. */
    constructor New(capacity: Option<nat>, text: Option<string>, size: Option<nat>)
      requires text.Some? && size.Some? ==> size.value <= |text.value|
      requires capacity.Some? ==> capacity.value <= LEN_MAX + 1
      requires text.Some? ==> |text.value| <= LEN_MAX
      requires size.Some? ==> size.value <= LEN_MAX
      ensures Valid() && fresh(str) && Terminated()
      ensures Contents() == if text.None? then "" else if size.None? then text.value else text.value[..size.value]
      ensures forall i :: |Contents()| <= i < maxsz ==> str[i] == '\0'
      ensures var n := if size.Some? then size.value else if text.Some? then |text.value| else 0;
              if capacity == Some(0) then maxsz == n + 1
              else if capacity == None || capacity.value <= n then LeastMultiple(maxsz, n + 1)
              else LeastMultiple(maxsz, capacity.value)
    {
      var n := if size.Some? then size.value else if text.Some? then |text.value| else 0;
      var cap: nat;
      AlignSizeFits(n + 1);
      if capacity == Some(0) {
        cap := n + 1;
      } else if capacity == None || capacity.value <= n {
        cap := AlignSize(n + 1);
      } else {
        AlignSizeFits(capacity.value);
        cap := AlignSize(capacity.value);
      }
      str := new char[cap](i => '\0');
      len := if text.Some? then n else 0;
      maxsz := cap;
      new;
      if text.Some? {
        forall i | 0 <= i < n { str[i] := text.value[i]; }
      }
    }

    /** `vsnprintf` into the free part: as much of `text` as fits, and a terminator. */
    method PrintBehind(text: string)
      requires Valid()
      modifies str
      ensures forall i :: 0 <= i < len ==> str[i] == old(str[i])
      ensures len + |text| < maxsz ==> str[len..len + |text|] == text && str[len + |text|] == '\0'
    {
      var m := if len + |text| < maxsz then |text| else maxsz - len - 1;
      forall i | 0 <= i < m { str[len + i] := text[i]; }
      str[len + m] := '\0';
    }

    /** `cstrbufCat` on a buffer; `text` is what the format and its arguments print. */
    method Cat(text: string)
      requires Valid() && len + |text| <= LEN_MAX
      modifies this, str
      ensures Valid() && Terminated() && Contents() == old(Contents()) + text
      ensures if old(len + |text| < maxsz) then str == old(str)
              else fresh(str) && LeastMultiple(maxsz, len + 1)
    {
      PrintBehind(text);
      if len + |text| < maxsz {
        len := len + |text|;
        str[len] := '\0';
      } else {
        AlignSizeFits(len + |text| + 1);
        var cap := AlignSize(len + |text| + 1);
        var bigger := new char[cap];
        var smaller := str;
        forall i | 0 <= i < smaller.Length { bigger[i] := smaller[i]; }
        str := bigger;
        maxsz := cap;
        PrintBehind(text);
        len := len + |text|;
        str[len] := '\0';
      }
      assert str[..len] == old(Contents()) + text;
    }

    /** `cstrbufPushBack`. The fast path leaves whatever was behind the new character. */
    method PushBack(ch: char)
      requires Valid() && len < LEN_MAX
      modifies this, str
      ensures Valid() && Contents() == old(Contents()) + [ch]
      ensures str == old(str) || fresh(str)
      ensures if old(len + 1 < maxsz) then str == old(str) && str[len] == old(str[len + 1]) else Terminated()
    {
      if len + 1 < maxsz {
        str[len] := ch;
        len := len + 1;
      } else {
        Cat([ch]);
      }
    }

    method Trunc(n: nat)
      requires Valid()
      modifies this, str
      ensures Valid() && str == old(str)
      ensures Contents() == if old(len) > n then old(Contents())[..n] else old(Contents())
      ensures Terminated() <==> old(len) > n || old(Terminated())
      ensures forall i :: 0 <= i < str.Length && i != n ==> str[i] == old(str[i])
    {
      if len > n {
        len := n;
        str[len] := '\0';
      }
    }

    /** `cstrbufDup` on a buffer: take over the first `n` characters of `source`. */
    method Dup(source: string, n: nat)
      requires Valid() && n <= |source| <= LEN_MAX
      modifies this, str
      ensures Valid() && Terminated() && Contents() == source[..n]
      ensures if n < old(maxsz) then str == old(str) else fresh(str) && maxsz == n + 1
    {
      if n == 0 {
        len := 0;
        str[len] := '\0';
      } else if maxsz > n {
        forall i | 0 <= i < n { str[i] := source[i]; }
        len := n;
        str[len] := '\0';
      } else {
        var copy := new Buffer.New(Some(0), Some(source), Some(n));
        maxsz, len, str := copy.maxsz, copy.len, copy.str;
      }
    }

    /** `cstrbufSub`: `source` with `length` characters from `start` on replaced by `sublen` characters of `substr`. */
    static method Sub(source: string, start: nat, length: nat, substr: string, sublen: nat) returns (result: Buffer)
      requires start + length <= |source| && sublen <= |substr| && |source| + sublen <= LEN_MAX
      ensures fresh(result) && fresh(result.str) && result.Valid() && result.Terminated()
      ensures result.Contents() == source[..start] + substr[..sublen] + source[start + length..]
    {
      var endstr := new Buffer.New(Some(0), Some(source[start + length..]), Some(|source| - start - length));
      var tail := endstr.str[..endstr.len];
      result := new Buffer.New(Some(|source| - length + sublen + 1), Some(source), Some(start));
      assert tail == source[start + length..];
      assert result.str[..start] == source[..start];
      CopyChars(result.str, start, substr[..sublen]);
      CopyChars(result.str, start + sublen, tail);
      ghost var all := result.str[..start + sublen + |tail|];
      assert all == source[..start] + substr[..sublen] + tail;
      result.len := |source| - length + sublen;
      result.str[result.len] := '\0';
      assert result.str[..result.len] == all;
    }
  }

  // ----- the functions, whose buffer may be null -----

  /** The text of a buffer, if there is one. */
  ghost function TextOf(b: Buffer?): Option<string>
    reads b, if b == null then {} else {b.str}
    requires b != null ==> b.Valid()
  {
    if b == null then None else Some(b.Contents())
  }

  ghost function Footprint(b: Buffer?): set<object>
    reads b
  {
    if b == null then {} else var buffer: Buffer := b; {buffer, buffer.str}
  }

  /** `cstrbufCat`: without a buffer, a new one that has room for the text. */
  method CatTo(dst: Buffer?, text: string) returns (r: Buffer)
    requires dst != null ==> dst.Valid() && dst.len + |text| <= LEN_MAX
    requires |text| <= LEN_MAX
    modifies Footprint(dst)
    ensures r.Valid() && r.Terminated() && TextOf(r) == Apply(CatOp(text), old(TextOf(dst)))
    ensures forall o :: o in Footprint(r) ==> o in old(Footprint(dst)) || fresh(o)
  {
    if dst == null {
      r := new Buffer.New(Some(|text| + 1), None, Some(0));
      r.PrintBehind(text);
      r.len := |text|;
      r.str[r.len] := '\0';
      assert r.str[..|text|] == text && "" + text == text;
    } else {
      dst.Cat(text);
      r := dst;
    }
  }

  method PushBackTo(dst: Buffer?, ch: char) returns (r: Buffer)
    requires dst != null ==> dst.Valid() && dst.len < LEN_MAX
    modifies Footprint(dst)
    ensures r.Valid() && TextOf(r) == Apply(PushOp(ch), old(TextOf(dst)))
    ensures forall o :: o in Footprint(r) ==> o in old(Footprint(dst)) || fresh(o)
  {
    if dst == null {
      r := CatTo(null, [ch]);
    } else {
      dst.PushBack(ch);
      r := dst;
    }
  }

  method DupTo(dst: Buffer?, source: string, n: nat) returns (r: Buffer)
    requires (dst != null ==> dst.Valid()) && n <= |source| <= LEN_MAX
    modifies Footprint(dst)
    ensures r.Valid() && TextOf(r) == Apply(DupOp(source, n), old(TextOf(dst)))
    ensures forall o :: o in Footprint(r) ==> o in old(Footprint(dst)) || fresh(o)
  {
    if dst == null {
      r := new Buffer.New(Some(0), Some(source), Some(n));
    } else {
      dst.Dup(source, n);
      r := dst;
    }
  }

  // ----- any sequence of operations -----

  datatype Op =
    | NewOp(capacity: Option<nat>, text: string, size: nat)
    | CatOp(text: string)
    | PushOp(ch: char)
    | TruncOp(n: nat)
    | DupOp(source: string, n: nat)
    | SubOp(source: string, start: nat, length: nat, substr: string, sublen: nat)

  predicate Applies(op: Op, s: Option<string>) {
    match op
    case NewOp(capacity, text, size) => size <= |text| <= LEN_MAX && (capacity.Some? ==> capacity.value <= LEN_MAX + 1)
    case CatOp(text) => (if s.Some? then |s.value| else 0) + |text| <= LEN_MAX
    case PushOp(_) => (if s.Some? then |s.value| else 0) < LEN_MAX
    case TruncOp(_) => s.Some?
    case DupOp(source, n) => n <= |source| <= LEN_MAX
    case SubOp(source, start, length, substr, sublen) =>
      start + length <= |source| && sublen <= |substr| && |source| + sublen <= LEN_MAX
  }

  /** The operation on plain text; None is the null pointer. */
  function Apply(op: Op, s: Option<string>): Option<string>
    requires op.TruncOp? ==> s.Some?
    requires op.NewOp? ==> op.size <= |op.text|
    requires op.DupOp? ==> op.n <= |op.source|
    requires op.SubOp? ==> op.start + op.length <= |op.source| && op.sublen <= |op.substr|
  {
    match op
    case NewOp(_, text, size) => Some(text[..size])
    case CatOp(text) => Some((if s.Some? then s.value else "") + text)
    case PushOp(ch) => Some((if s.Some? then s.value else "") + [ch])
    case TruncOp(n) => if |s.value| > n then Some(s.value[..n]) else s
    case DupOp(source, n) => Some(source[..n])
    case SubOp(source, start, length, substr, sublen) =>
      Some(source[..start] + substr[..sublen] + source[start + length..])
  }

  predicate AllApply(ops: seq<Op>, s: Option<string>) {
    ops == [] || (Applies(ops[0], s) && AllApply(ops[1..], Apply(ops[0], s)))
  }

  function ApplyAll(ops: seq<Op>, s: Option<string>): Option<string>
    requires AllApply(ops, s)
  {
    if ops == [] then s else ApplyAll(ops[1..], Apply(ops[0], s))
  }

  method FromText(capacity: Option<nat>, text: string, size: nat) returns (r: Buffer)
    requires size <= |text| <= LEN_MAX && (capacity.Some? ==> capacity.value <= LEN_MAX + 1)
    ensures r.Valid() && r.Contents() == text[..size] && fresh(r) && fresh(r.str)
  {
    r := new Buffer.New(capacity, Some(text), Some(size));
  }

  method RunOp(b: Buffer?, op: Op) returns (r: Buffer)
    requires (b != null ==> b.Valid()) && Applies(op, TextOf(b))
    modifies Footprint(b)
    ensures r.Valid() && TextOf(r) == Apply(op, old(TextOf(b)))
    ensures forall o :: o in Footprint(r) ==> o in old(Footprint(b)) || fresh(o)
  {
    match op
    case NewOp(capacity, text, size) => r := FromText(capacity, text, size);
    case CatOp(text) => r := CatTo(b, text);
    case PushOp(ch) => r := PushBackTo(b, ch);
    case TruncOp(n) =>
      b.Trunc(n);
      r := b;
    case DupOp(source, n) => r := DupTo(b, source, n);
    case SubOp(source, start, length, substr, sublen) => r := Buffer.Sub(source, start, length, substr, sublen);
  }

  /** Any run of operations, from a buffer or from none, is the same run on plain text, across reallocations. */
  method RunOps(b: Buffer?, ops: seq<Op>) returns (r: Buffer?)
    requires (b != null ==> b.Valid()) && AllApply(ops, TextOf(b))
    modifies Footprint(b)
    ensures r != null ==> r.Valid()
    ensures TextOf(r) == ApplyAll(ops, old(TextOf(b)))
  {
    hide Apply, Applies;
    r := b;
    ghost var goal := ApplyAll(ops, TextOf(b));
    assert ops[0..] == ops;
    for i := 0 to |ops|
      invariant r != null ==> r.Valid()
      invariant forall o :: o in Footprint(r) ==> o in old(Footprint(b)) || fresh(o)
      invariant AllApply(ops[i..], TextOf(r)) && ApplyAll(ops[i..], TextOf(r)) == goal
    {
      assert ops[i..][0] == ops[i] && ops[i..][1..] == ops[i + 1..];
      r := RunOp(r, ops[i]);
    }
  }

  /** The length prefix is right where the null character is not: a character pushed after a cut. */
  method StaleTail() returns (b: Buffer)
    ensures b.Valid() && b.Contents() == "ax" && !b.Terminated()
  {
    b := new Buffer.New(Some(16), Some("abc"), None);
    assert b.Contents()[2] == 'c';
    b.Trunc(1);
    b.PushBack('x');
  }
}
