/** fio's byte FIFO: a ring over a buffer whose two 32-bit indices run freely and are
    masked only when the buffer is addressed. */
module Fifo {
  import opened Bits
  import opened Cyclic

  type byte = bv8

  function Min(a: nat, b: nat): nat {
    if a < b then a else b
  }

  /** Unsigned 32-bit subtraction. */
  function Sub32(a: nat, b: nat): (r: nat)
    requires a < U32 && b < U32
    ensures r < U32
    ensures (b + r) % U32 == a
  {
    if a >= b then a - b else a + U32 - b
  }

  function Add32(a: nat, b: nat): (r: nat)
    requires a < U32 && b < U32
    ensures r < U32
    ensures Sub32(r, a) == b
  {
    if a + b < U32 then a + b else a + b - U32
  }

  /** `struct fifo`: buffer, write index and read index. */
  datatype Bytes = Bytes(buffer: seq<byte>, inp: nat, out: nat)

  /** What every size of buffer keeps: 32-bit indices at most a buffer apart. */
  predicate Fit(s: Bytes) {
    |s.buffer| < U32 && s.inp < U32 && s.out < U32 && Sub32(s.inp, s.out) <= |s.buffer|
  }

  function Len(s: Bytes): nat
    requires Fit(s)
  {
    Sub32(s.inp, s.out)
  }

  function Room(s: Bytes): (n: nat)
    requires Fit(s)
    ensures n == |s.buffer| - Len(s)
  {
    RoomIsRest(|s.buffer|, s.inp, s.out);
    Add32(Sub32(|s.buffer|, s.inp), s.out)
  }

  /** One `memcpy` into the buffer. */
  function Copied(b: seq<byte>, at: nat, d: seq<byte>): (b': seq<byte>)
    requires at + |d| <= |b|
    ensures |b'| == |b|
  {
    b[..at] + d + b[at + |d|..]
  }

  /** The two copies of a put: up to the end of the buffer, the rest to its start. */
  function Write(b: seq<byte>, at: nat, d: seq<byte>): (b': seq<byte>)
    requires d != [] ==> at < |b| && |d| <= |b|
    ensures |b'| == |b|
  {
    if d == [] then b
    else
      var l := Min(|d|, |b| - at);
      Copied(Copied(b, at, d[..l]), 0, d[l..])
  }

  /** The two copies of a get. */
  function Read(b: seq<byte>, at: nat, n: nat): (d: seq<byte>)
    requires n > 0 ==> at < |b| && n <= |b|
    ensures |d| == n
  {
    if n == 0 then []
    else
      var l := Min(n, |b| - at);
      b[at..at + l] + b[..n - l]
  }

  lemma {:induction false} AndBelow(x: nat, m: nat)
    ensures And(x, m) <= m
  {
    if x != 0 && m != 0 {
      AndBelow(x / 2, m / 2);
    }
  }

  /** `fifo_put`, for a buffer of any size. */
  function PutBytes(s: Bytes, data: seq<byte>): (r: (Bytes, nat))
    requires Fit(s) && |data| < U32
    ensures Fit(r.0) && r.1 == Min(|data|, |s.buffer| - Len(s)) && |r.0.buffer| == |s.buffer|
  {
    var len := Min(|data|, Room(s));
    EndAdvances(s.inp, s.out, len);
    if len == 0 then (s, 0)
    else
      AndBelow(s.inp, |s.buffer| - 1);
      (Bytes(Write(s.buffer, Masked(s.inp, |s.buffer|), data[..len]), Add32(s.inp, len), s.out), len)
  }

  /** `fifo_get` into a buffer that is not null, for a buffer of any size. */
  function GetBytes(s: Bytes, len: nat): (r: (Bytes, seq<byte>))
    requires Fit(s) && len < U32
    ensures Fit(r.0) && |r.1| == Min(len, Len(s)) && r.0.buffer == s.buffer
  {
    var n := Min(len, Len(s));
    StartAdvances(s.inp, s.out, n);
    var at := if n == 0 then 0 else (AndBelow(s.out, |s.buffer| - 1); Masked(s.out, |s.buffer|));
    var out := Add32(s.out, n);
    (if s.inp == out then Bytes(s.buffer, 0, 0) else Bytes(s.buffer, s.inp, out), Read(s.buffer, at, n))
  }

  lemma RoomIsRest(size: nat, i: nat, o: nat)
    requires size < U32 && i < U32 && o < U32 && Sub32(i, o) <= size
    ensures Add32(Sub32(size, i), o) == size - Sub32(i, o)
  {
  }

  lemma EndAdvances(i: nat, o: nat, len: nat)
    requires i < U32 && o < U32 && Sub32(i, o) + len < U32
    ensures Sub32(Add32(i, len), o) == Sub32(i, o) + len
  {
  }

  lemma StartAdvances(i: nat, o: nat, n: nat)
    requires i < U32 && o < U32 && n <= Sub32(i, o)
    ensures Sub32(i, Add32(o, n)) == Sub32(i, o) - n
  {
  }

  /** Because the size divides `2^32`, the masked write index lies `i - o` slots after
      the masked read index even when one of the two has wrapped. */
  lemma MaskedEnd(i: nat, o: nat, size: nat)
    requires i < U32 && o < U32 && IsPow2(size) && size < U32 && Sub32(i, o) <= size
    ensures Masked(o, size) < size
    ensures Masked(i, size) == Wrap(Masked(o, size), Sub32(i, o), size)
  {
    MaskedStep(o, Sub32(i, o), size);
    MaskedWraps(i, size);
  }

  lemma MaskedWraps(i: nat, size: nat)
    requires IsPow2(size) && size < U32
    ensures Masked(i + U32, size) == Masked(i, size)
  {
    var k: nat :| size == Pow2(k);
    AndMask(i, k);
    AndMask(i + U32, k);
    Pow2Top();
    if k > 32 {
      Pow2Mono(32, k);
    } else {
      LowPeriodic(i, k, 32);
    }
  }

  /** The bytes put and not yet taken, oldest first, in a buffer of power-of-two size. */
  ghost function Contents(s: Bytes): (c: seq<byte>)
    requires Fit(s) && IsPow2(|s.buffer|)
    ensures |c| == Len(s)
  {
    MaskedStep(s.out, 0, |s.buffer|);
    Window(s.buffer, Masked(s.out, |s.buffer|), Len(s))
  }

  /** Writing `d` from the end of a window on, wrapping, appends `d` to the window. */
  lemma WindowExtended(b: seq<byte>, o: nat, n: nat, d: seq<byte>)
    requires o < |b| && n + |d| <= |b|
    ensures Window(Write(b, Wrap(o, n, |b|), d), o, n + |d|) == Window(b, o, n) + d
  {
    var b' := Write(b, Wrap(o, n, |b|), d);
    forall i | 0 <= i < n + |d|
      ensures b'[Wrap(o, i, |b|)] == if i < n then b[Wrap(o, i, |b|)] else d[i - n]
    {
      WriteSlot(b, Wrap(o, n, |b|), d, Wrap(o, i, |b|));
    }
  }

  lemma WriteSlot(b: seq<byte>, at: nat, d: seq<byte>, j: nat)
    requires at < |b| && |d| <= |b| && j < |b|
    ensures var i := if at <= j then j - at else |b| - at + j;
            Write(b, at, d)[j] == if i < |d| then d[i] else b[j]
  {
    if d != [] {
      var l := Min(|d|, |b| - at);
      CopiedSlot(b, at, d[..l], j);
      CopiedSlot(Copied(b, at, d[..l]), 0, d[l..], j);
    }
  }

  lemma CopiedSlot(b: seq<byte>, at: nat, d: seq<byte>, j: nat)
    requires at + |d| <= |b| && j < |b|
    ensures Copied(b, at, d)[j] == if at <= j < at + |d| then d[j - at] else b[j]
  {
  }

  /** Reading `n` slots, wrapping, takes the first `n` of a window and leaves the rest. */
  lemma WindowSplit(b: seq<byte>, o: nat, n: nat, len: nat)
    requires o < |b| && n <= len <= |b|
    ensures Window(b, o, len) == Read(b, o, n) + Window(b, Wrap(o, n, |b|), len - n)
  {
  }

  /** A put appends the longest prefix that fits. */
  lemma PutAppends(s: Bytes, data: seq<byte>)
    requires Fit(s) && IsPow2(|s.buffer|) && |data| < U32
    ensures var (s', len) := PutBytes(s, data); Contents(s') == Contents(s) + data[..len]
  {
    var (s', len) := PutBytes(s, data);
    MaskedEnd(s.inp, s.out, |s.buffer|);
    EndAdvances(s.inp, s.out, len);
    WindowExtended(s.buffer, Masked(s.out, |s.buffer|), Len(s), data[..len]);
  }

  /** A get returns and removes the oldest bytes in order. */
  lemma GetTakesOldest(s: Bytes, len: nat)
    requires Fit(s) && IsPow2(|s.buffer|) && len < U32
    ensures var (s', data) := GetBytes(s, len); Contents(s) == data + Contents(s')
  {
    var n, at := Min(len, Len(s)), Masked(s.out, |s.buffer|);
    MaskedStep(s.out, 0, |s.buffer|);
    StartAdvances(s.inp, s.out, n);
    MaskedEnd(Add32(s.out, n), s.out, |s.buffer|);
    WindowSplit(s.buffer, at, n, Len(s));
    assert GetBytes(s, len).1 == Read(s.buffer, at, n);
    var s' := Bytes(s.buffer, s.inp, Add32(s.out, n));
    assert Contents(s') == Window(s.buffer, Wrap(at, n, |s.buffer|), Len(s) - n);
    if s'.inp == s'.out {
      assert Contents(s') == [];
    }
  }

  /** One byte read at position `p` after a whole buffer of `data` has been put: get `p`
      bytes, then one more. */
  function ByteAt(buffer: seq<byte>, data: seq<byte>, p: nat): seq<byte>
    requires |buffer| == |data| < U32 && p < U32
  {
    GetBytes(GetBytes(PutBytes(Bytes(buffer, 0, 0), data).0, p).0, 1).1
  }

  lemma ByteAtIsMasked(buffer: seq<byte>, data: seq<byte>, p: nat)
    requires p < |buffer| == |data| < U32
    ensures Masked(p, |data|) < |data| && ByteAt(buffer, data, p) == [data[Masked(p, |data|)]]
  {
    AndBelow(p, |data| - 1);
    PutWhole(buffer, data);
    GetFirst(data, p);
    GetNext(data, p);
  }

  lemma PutWhole(buffer: seq<byte>, data: seq<byte>)
    requires 0 < |buffer| == |data| < U32
    ensures PutBytes(Bytes(buffer, 0, 0), data).0 == Bytes(data, |data|, 0)
  {
    assert Masked(0, |data|) == 0;
  }

  lemma GetFirst(data: seq<byte>, p: nat)
    requires p < |data| < U32
    ensures Fit(Bytes(data, |data|, 0)) && GetBytes(Bytes(data, |data|, 0), p).0 == Bytes(data, |data|, p)
  {
  }

  lemma GetNext(data: seq<byte>, p: nat)
    requires p < |data| < U32
    ensures Masked(p, |data|) < |data| && Fit(Bytes(data, |data|, p))
    ensures GetBytes(Bytes(data, |data|, p), 1).1 == [data[Masked(p, |data|)]]
  {
    AndBelow(p, |data| - 1);
  }

  /** The FIFO gives back what was put into it, at every position and for all data, exactly
      when its size is a power of two. */
  lemma GivesBackIffPow2(size: nat)
    requires 0 < size < U32
    ensures (forall b: seq<byte>, data: seq<byte>, p: nat ::
               |b| == |data| == size && p < size ==> ByteAt(b, data, p) == [data[p]]) <==> IsPow2(size)
  {
    if IsPow2(size) {
      forall b: seq<byte>, data: seq<byte>, p: nat | |b| == |data| == size && p < size
        ensures ByteAt(b, data, p) == [data[p]]
      {
        ByteAtIsMasked(b, data, p);
        MaskedInside(p, size);
      }
    } else {
      var p := MissedSlot(size);
      var data := seq(size, i => if i == p then 1 as byte else 0);
      ByteAtIsMasked(data, data, p);
      assert ByteAt(data, data, p) != [data[p]];
    }
  }

  lemma {:induction false} AndTwice(x: nat, m: nat)
    ensures And(And(x, m), m) == And(x, m)
  {
    if x != 0 && m != 0 {
      AndTwice(x / 2, m / 2);
    }
  }

  /** For any other size some slot is never reached, whatever the index. */
  lemma MissedSlot(size: nat) returns (p: nat)
    requires size > 0 && !IsPow2(size)
    ensures p < size && forall x: nat :: Masked(x, size) != p
  {
    p := MovedSlot(size);
    forall x: nat
      ensures Masked(x, size) != p
    {
      AndTwice(x, size - 1);
    }
  }

  lemma {:induction false} MovedSlot(size: nat) returns (p: nat)
    requires size > 0 && !IsPow2(size)
    ensures p < size && Masked(p, size) != p
  {
    assert size != Pow2(0);
    if size % 2 == 1 {
      p := 1;
    } else {
      HalfIsPow2(size);
      var h := MovedSlot(size / 2);
      p := 2 * h;
      assert (size - 1) / 2 == size / 2 - 1;
    }
  }

  class Fifo {
    const buffer: array<byte>
    var inp: nat
    var out: nat

    function State(): Bytes
      reads this, buffer
    {
      Bytes(buffer[..], inp, out)
    }

    constructor (size: nat)
      requires size < U32
      ensures Fit(State()) && Len(State()) == 0 && fresh(buffer) && buffer.Length == size
    {
      buffer := new byte[size];
      inp, out := 0, 0;
    }

    /** Appends the longest prefix of `data` that fits, in a buffer of power-of-two size. */
    method Put(data: seq<byte>) returns (len: nat)
      requires Fit(State()) && |data| < U32
      modifies this`inp, buffer
      ensures (State(), len) == PutBytes(old(State()), data)
      ensures IsPow2(buffer.Length) ==> Contents(State()) == old(Contents(State())) + data[..len]
    {
      if IsPow2(buffer.Length) {
        PutAppends(State(), data);
      }
      len := Min(|data|, Room(State()));
      if len > 0 {
        AndBelow(inp, buffer.Length - 1);
        CopyIn(Masked(inp, buffer.Length), data[..len]);
      }
      inp := Add32(inp, len);
    }

    method CopyIn(at: nat, data: seq<byte>)
      requires data != [] && at < buffer.Length && |data| <= buffer.Length
      modifies buffer
      ensures buffer[..] == Write(old(buffer[..]), at, data)
    {
      var l := Min(|data|, buffer.Length - at);
      CopyTo(at, data[..l]);
      CopyTo(0, data[l..]);
    }

    method CopyTo(at: nat, data: seq<byte>)
      requires at + |data| <= buffer.Length
      modifies buffer
      ensures buffer[..] == Copied(old(buffer[..]), at, data)
    {
      forall i | 0 <= i < |data| {
        buffer[at + i] := data[i];
      }
    }

    method CopyOut(at: nat, n: nat) returns (data: seq<byte>)
      requires 0 < n <= buffer.Length && at < buffer.Length
      ensures data == Read(buffer[..], at, n)
    {
      var l := Min(n, buffer.Length - at);
      data := buffer[at..at + l] + buffer[..n - l];
    }

    /** Takes the `len` oldest bytes, or all of them if there are fewer. */
    method Get(len: nat) returns (data: seq<byte>)
      requires Fit(State()) && len < U32
      modifies this`inp, this`out
      ensures (State(), data) == GetBytes(old(State()), len)
      ensures IsPow2(buffer.Length) ==> old(Contents(State())) == data + Contents(State())
    {
      if IsPow2(buffer.Length) {
        GetTakesOldest(State(), len);
      }
      var n := Min(len, Len(State()));
      data := [];
      if n > 0 {
        AndBelow(out, buffer.Length - 1);
        data := CopyOut(Masked(out, buffer.Length), n);
      }
      out := Add32(out, n);
      if inp == out {
        inp, out := 0, 0;
      }
    }
  }
}
