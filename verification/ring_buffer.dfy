/** src/shared/ring-buffer.c: a ring whose indices wrap by masking with len - 1. */
module RingBuffers {
  import opened Bytes

  ghost predicate IsPow2(n: nat) {
    exists k: nat :: n == Pow2(k)
  }

  /** (i + 1) & (len - 1) */
  function Step(i: nat, len: nat): nat
    requires len > 0
  {
    NatAnd(i + 1, len - 1)
  }

  lemma MaskStep(i: nat, len: nat)
    requires IsPow2(len) && i < len
    ensures len > 0 && Step(i, len) == (i + 1) % len == if i + 1 == len then 0 else i + 1
  {
    var k :| len == Pow2(k);
    MaskIsMod(i + 1, k);
    if i + 1 == len {
      RemainderIs(len, len, 1, 0);
    } else {
      SmallMod(i + 1, len);
    }
  }

  /** The bytes from head up to tail, around the end if need be. */
  function Span(mem: seq<byte>, head: nat, tail: nat): (s: seq<byte>)
    requires head < |mem| && tail < |mem|
    ensures |s| == Count(|mem|, head, tail)
  {
    if head <= tail then mem[head..tail] else mem[head..] + mem[..tail]
  }

  function Count(len: nat, head: nat, tail: nat): nat
    requires head < len && tail < len
  {
    if head <= tail then tail - head else len - head + tail
  }

  /** The memory after writing src from index at on. */
  function Written(mem: seq<byte>, at: nat, src: seq<byte>): (m: seq<byte>)
    requires at < |mem|
    ensures |m| == |mem|
  {
    if src == [] then mem
    else
      var k := |src| - 1;
      Written(mem, at, src[..k])[(at + k) % |mem| := src[k]]
  }

  /** What survives of a history in a ring of n cells: its last |s| mod n bytes. */
  function LastMod(s: seq<byte>, n: nat): (r: seq<byte>)
    requires n > 0
    ensures |r| == |s| % n
  {
    s[|s| - |s| % n..]
  }

  lemma LastModSnoc(s: seq<byte>, b: byte, n: nat)
    requires n > 0
    ensures LastMod(s + [b], n) == if |s| % n + 1 == n then [] else LastMod(s, n) + [b]
  {
    var r := |s| % n;
    SuccMod(|s|, n);
    if r + 1 < n {
      assert (s + [b])[|s| + 1 - (r + 1)..] == s[|s| - r..] + [b];
    }
  }

  lemma SuccMod(x: nat, n: nat)
    requires n > 0
    ensures (x + 1) % n == if x % n + 1 == n then 0 else x % n + 1
  {
    var q, r := Divide(x, n);
    if r + 1 == n {
      assert x + 1 == n * (q + 1) + 0;
      RemainderIs(x + 1, n, q + 1, 0);
    } else {
      RemainderIs(x + 1, n, q, r + 1);
    }
  }

  lemma RemainderIs(x: nat, n: nat, q: nat, r: nat)
    requires n > 0 && x == n * q + r && r < n
    ensures x % n == r
  {
    var q', r' := Divide(x, n);
    QuotientUnique(n, q, r, q', r');
  }

  /** One byte into the ring: appended, unless it fills the last cell, which makes the ring look empty. */
  lemma SpanWrite(mem: seq<byte>, head: nat, tail: nat, b: byte)
    requires head < |mem| && tail < |mem|
    ensures var next := if tail + 1 == |mem| then 0 else tail + 1;
      Span(mem[tail := b], head, next)
      == if Count(|mem|, head, tail) + 1 == |mem| then [] else Span(mem, head, tail) + [b]
  {
    var n := |mem|;
    var m := mem[tail := b];
    if head <= tail {
      if tail + 1 < n {
        assert m[head..tail + 1] == mem[head..tail] + [b];
      } else {
        assert head > 0 ==> m[head..] + m[..0] == mem[head..tail] + [b];
      }
    } else if tail + 1 < head {
      assert m[head..] + m[..tail + 1] == (mem[head..] + mem[..tail]) + [b];
    }
  }

  class RingBuffer {
    const buffer: array<byte>
    const len: nat
    var head: nat
    var tail: nat

    ghost predicate Valid() reads this {
      IsPow2(len) && buffer.Length == len && head < len && tail < len
    }

    /** What has been written and not read yet. */
    ghost function Contents(): (s: seq<byte>)
      requires Valid()
      reads this, buffer
    {
      Span(buffer[..], head, tail)
    }

    /** ring_buffer_setup */
    constructor (storage: array<byte>)
      requires IsPow2(storage.Length)
      ensures Valid() && buffer == storage && head == 0 && tail == 0
    {
      MaskStep(0, storage.Length);
      buffer := storage;
      len := storage.Length;
      head := 0;
      tail := 0;
    }

    /** ring_buffer_empty */
    method Empty() returns (e: bool)
      requires Valid()
      ensures e == (Contents() == [])
    {
      e := head == tail;
    }

    /** ring_buffer_capacity: the cells not in use, in every state */
    method Capacity() returns (c: nat)
      requires Valid()
      ensures c == len - |Contents()|
    {
      if head == tail {
        return len;
      }
      if tail > head {
        return len - (tail - head);
      }
      return head - tail;
    }

    /** ring_buffer_read */
    method Read() returns (ok: bool, b: byte)
      requires Valid()
      modifies this`head
      ensures Valid() && ok == (old(Contents()) != [])
      ensures ok ==> old(Contents()) == [b] + Contents()
      ensures !ok ==> head == old(head)
    {
      b := 0;
      if head == tail {
        return false, b;
      }
      b := buffer[head];
      MaskStep(head, len);
      head := Step(head, len);
      ok := true;
      assert Span(buffer[..], old(head), tail) == [b] + Span(buffer[..], head, tail);
    }

    /** ring_buffer_write: nothing stops it from overtaking the reader */
    method Write(b: byte) returns (ok: bool)
      requires Valid()
      modifies this`tail, buffer
      ensures Valid() && ok
      ensures buffer[..] == old(buffer[..])[old(tail) := b] && tail == (old(tail) + 1) % len
      ensures Contents() == if |old(Contents())| + 1 == len then [] else old(Contents()) + [b]
    {
      SpanWrite(buffer[..], head, tail, b);
      buffer[tail] := b;
      MaskStep(tail, len);
      tail := Step(tail, len);
      ok := true;
    }

    /** ring_buffer_read_chunk */
    method ReadChunk(dest: array<byte>, at: nat, size: nat) returns (n: nat)
      requires Valid() && dest != buffer && at + size <= dest.Length
      modifies this`head, dest
      ensures Valid() && n == if size < |old(Contents())| then size else |old(Contents())|
      ensures dest[..] == old(dest[..at]) + old(Contents())[..n] + old(dest[at + n..])
      ensures Contents() == old(Contents())[n..]
    {
      hide IsPow2, Span;
      ghost var d, s := dest[..], Contents();
      n := 0;
      NothingHeld(buffer[..], head, tail);
      if tail == head {
        assert d == d[..at] + [] + d[at..];
        return;
      }
      while n < size
        invariant Valid() && 0 <= n <= size && n <= |s|
        invariant Contents() == s[n..]
        invariant dest[..] == d[..at] + s[..n] + d[at + n..]
      {
        var ok, b := Read();
        if !ok {
          return;
        }
        assert s[n] == b && s[n + 1..] == s[n..][1..];
        dest[at + n] := b;
        n := n + 1;
        assert dest[..] == d[..at] + s[..n] + d[at + n..];
      }
    }

    /** ring_buffer_write_chunk */
    method WriteChunk(src: array<byte>, size: nat) returns (n: nat)
      requires Valid() && src != buffer && size <= src.Length
      modifies this`tail, buffer
      ensures Valid() && n == size
      ensures Contents() == LastMod(old(Contents()) + src[..size], len)
      ensures buffer[..] == Written(old(buffer[..]), old(tail), src[..size])
      ensures tail == (old(tail) + size) % len
    {
      hide Span, LastMod, Written, IsPow2;
      ghost var s, m, t, data := Contents(), buffer[..], tail, src[..size];
      n := 0;
      WriteNothing(m, t, s, data, len);
      while n < size
        invariant Valid() && 0 <= n <= size && src[..size] == data
        invariant Contents() == LastMod(s + data[..n], len)
        invariant buffer[..] == Written(m, t, data[..n])
        invariant tail == (t + n) % len
      {
        LastModSnoc(s + data[..n], data[n], len);
        assert s + data[..n + 1] == (s + data[..n]) + [data[n]];
        WrittenSnoc(m, t, data, n);
        AddMod(t + n, len);
        assert data[n] == src[n];
        var ok := Write(src[n]);
        n := n + 1;
      }
      assert data[..size] == data;
    }
  }

  lemma NothingHeld(mem: seq<byte>, head: nat, tail: nat)
    requires head < |mem| && tail < |mem|
    ensures Span(mem, head, tail) == [] <==> head == tail
  {
  }

  lemma WriteNothing(m: seq<byte>, t: nat, s: seq<byte>, data: seq<byte>, n: nat)
    requires t < n == |m| && |s| < n
    ensures Written(m, t, data[..0]) == m && LastMod(s + data[..0], n) == s && t == (t + 0) % n
  {
    SmallMod(t, n);
    SmallMod(|s|, n);
    assert s + data[..0] == s;
  }

  lemma WrittenSnoc(mem: seq<byte>, at: nat, src: seq<byte>, n: nat)
    requires at < |mem| && n < |src|
    ensures Written(mem, at, src[..n + 1]) == Written(mem, at, src[..n])[(at + n) % |mem| := src[n]]
  {
    assert src[..n + 1][..n] == src[..n];
  }

  /** The write law: from any state, writing src leaves the last (count + |src|) mod n bytes of the old
      contents followed by src. */
  lemma {:induction false} SpanWritten(mem: seq<byte>, head: nat, tail: nat, src: seq<byte>)
    requires head < |mem| && tail < |mem|
    ensures Span(Written(mem, tail, src), head, (tail + |src|) % |mem|) == LastMod(Span(mem, head, tail) + src, |mem|)
  {
    hide Span, LastMod;
    var n := |mem|;
    if src == [] {
      WriteNothing(mem, tail, Span(mem, head, tail), src, n);
      assert src[..0] == src;
    } else {
      var k := |src| - 1;
      SpanWritten(mem, head, tail, src[..k]);
      var m, t := Written(mem, tail, src[..k]), (tail + k) % n;
      SpanWrite(m, head, t, src[k]);
      SuccMod(tail + k, n);
      LastModSnoc(Span(mem, head, tail) + src[..k], src[k], n);
      assert Span(mem, head, tail) + src == (Span(mem, head, tail) + src[..k]) + [src[k]];
    }
  }

  lemma SmallMod(x: nat, n: nat)
    requires x < n
    ensures x % n == x
  {
  }

  lemma AddMod(x: nat, n: nat)
    requires n > 0
    ensures (x % n + 1) % n == (x + 1) % n
  {
    SuccMod(x, n);
    if x % n + 1 < n {
      SmallMod(x % n + 1, n);
    } else {
      RemainderIs(n, n, 1, 0);
    }
  }

  /** Below the capacity of the ring the law is a plain append. */
  lemma AppendBelowCapacity(s: seq<byte>, src: seq<byte>, n: nat)
    requires |s| + |src| < n
    ensures LastMod(s + src, n) == s + src
  {
    SmallMod(|s| + |src|, n);
  }
}
