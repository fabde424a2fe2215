/** packet_tx_enqueue_data (src/app/packet.c) on the real rings, and its place in the concurrent system. */
module PacketTx {
  import opened Bytes
  import opened Usart
  import opened RingBuffers
  import opened TxPath

  /** The slices one message is queued as, its first byte sitting at index head of the ring. */
  function SlicesOf(port: Port, head: nat, len: nat): seq<Slice>
    requires head < RING
  {
    if RING - head < len then [Slice(port, head, RING - head), Slice(port, 0, len - (RING - head))]
    else [Slice(port, head, len)]
  }

  class Transmitter {
    const dbg: RingBuffer
    const gsm: RingBuffer
    var queue: seq<Slice>

    ghost predicate Valid() reads this, dbg, gsm {
      && dbg.Valid() && gsm.Valid() && dbg.len == RING && gsm.len == RING
      && dbg != gsm && dbg.buffer != gsm.buffer
      && dbg.head == dbg.tail && gsm.head == gsm.tail
    }

    constructor (dbgRing: RingBuffer, gsmRing: RingBuffer)
      requires dbgRing.Valid() && gsmRing.Valid() && dbgRing.len == RING && gsmRing.len == RING
      requires dbgRing != gsmRing && dbgRing.buffer != gsmRing.buffer
      requires dbgRing.head == dbgRing.tail && gsmRing.head == gsmRing.tail
      ensures Valid() && queue == [] && dbg == dbgRing && gsm == gsmRing
    {
      dbg, gsm, queue := dbgRing, gsmRing, [];
    }

    /** The rings, the queue and their place in the concurrent system: dbg is the ring of Dbg, gsm that of Gsm. */
    ghost predicate Represents(s: Tx) reads this, dbg, gsm, dbg.buffer, gsm.buffer {
      && dbg.buffer[..] == s.dbg.mem && dbg.head == s.dbg.head && dbg.tail == s.dbg.tail
      && gsm.buffer[..] == s.gsm.mem && gsm.head == s.gsm.head && gsm.tail == s.gsm.tail
      && queue == s.queue
    }

    /** What packet_tx_enqueue_data does to a ring: everything but the queue. */
    method CopyIn(pBuf: RingBuffer, data: array<byte>, len: nat) returns (head: nat)
      requires pBuf.Valid() && pBuf.len == RING && len <= data.Length && data != pBuf.buffer && pBuf.head == pBuf.tail
      modifies pBuf, pBuf.buffer
      ensures pBuf.Valid() && pBuf.head == pBuf.tail && head == old(pBuf.head)
      ensures pBuf.buffer[..] == Written(old(pBuf.buffer[..]), old(pBuf.tail), old(data[..len]))
      ensures pBuf.tail == (old(pBuf.tail) + len) % RING
    {
      hide Span, LastMod, Written, IsPow2;
      var n := pBuf.WriteChunk(data, len);
      head := pBuf.head;
      pBuf.head := pBuf.tail;
    }

    /** packet_tx_enqueue_data, with the sends succeeding at once. Rings and queue end as the system does when the
        producer runs to completion. */
    method EnqueueData(port: Port, data: array<byte>, len: nat, ghost s: Tx)
      requires Valid() && len <= data.Length && data != dbg.buffer && data != gsm.buffer
      requires Represents(s)
      modifies this, dbg, gsm, dbg.buffer, gsm.buffer
      ensures Valid()
      ensures var pBuf, other := if port == Dbg then dbg else gsm, if port == Dbg then gsm else dbg;
        && pBuf.buffer[..] == Written(old(pBuf.buffer[..]), old(pBuf.tail), old(data[..len]))
        && pBuf.tail == (old(pBuf.tail) + len) % RING
        && queue == old(queue) + SlicesOf(port, old(pBuf.head), len)
        && other.buffer[..] == old(other.buffer[..]) && other.head == old(other.head) && other.tail == old(other.tail)
      ensures Ready(s, port, old(data[..len])) ==>
        var es := Uninterrupted(port, old(data[..len]), PortOf(s, port).head);
        Legal(s, es) && Represents(Run(s, es))
    {
      hide Span, LastMod, Written, IsPow2, Legal, Run, Interleaving, Uninterrupted, Ready, Enqueued;
      ghost var msg := data[..len];
      if Ready(s, port, msg) {
        UninterruptedEnqueue(s, port, msg);
        EnqueuedFields(s, port, msg);
      }
      var pBuf := gsm;
      if port == Dbg {
        pBuf := dbg;
      }
      var head := CopyIn(pBuf, data, len);
      if RING - head < len {
        queue := queue + [Slice(port, head, RING - head)];
        queue := queue + [Slice(port, 0, len - (RING - head))];
      } else {
        queue := queue + [Slice(port, head, len)];
      }
    }
  }

  lemma EnqueuedFields(s: Tx, p: Port, msg: seq<byte>)
    requires Ready(s, p, msg)
    ensures WellFormed(s) && PortOf(s, p).head == PortOf(s, p).tail
    ensures var t := Enqueued(s, p, msg);
      && t.queue == s.queue + SlicesOf(p, PortOf(s, p).head, |msg|)
      && t.dbg == (if p == Dbg then PortAfter(s.dbg, msg) else s.dbg)
      && t.gsm == (if p == Gsm then PortAfter(s.gsm, msg) else s.gsm)
  {
    hide PortAfter, SlicesOf;
  }

  // ----- the same in the concurrent system -----

  /** A port after a whole message was enqueued. */
  function PortAfter(r: PortState, msg: seq<byte>): PortState
    requires |r.mem| == RING && r.tail < RING
  {
    var tail := (r.tail + |msg|) % RING;
    PortState(Written(r.mem, r.tail, msg), tail, tail, r.begun + msg, r.queued + msg, r.sent)
  }

  /** Begin and n bytes. */
  function Copying(n: nat, p: Port, msg: seq<byte>): seq<Event> {
    [Begin(p, msg)] + seq(n, _ => WriteByte)
  }

  function Uninterrupted(p: Port, msg: seq<byte>, head: nat): seq<Event>
    requires head < RING
  {
    Copying(|msg|, p, msg) + [SendFirst] + if RING - head < |msg| then [SendRest] else []
  }

  predicate Ready(s: Tx, p: Port, msg: seq<byte>) {
    && WellFormed(s) && s.producer == Resting && PortOf(s, p).head == PortOf(s, p).tail
    && msg != [] && |msg| <= RING && Outstanding(s, p) + |msg| <= RING && |s.queue| + 2 <= QUEUE_LENGTH
  }

  lemma {:induction false} RunSnoc(s: Tx, es: seq<Event>, e: Event)
    requires Legal(s, es) && WellFormed(Run(s, es)) && Enabled(Run(s, es), e) && Room(Run(s, es), e)
    ensures Legal(s, es + [e]) && Run(s, es + [e]) == After(Run(s, es), e)
    decreases |es|
  {
    hide After, Enabled, WellFormed, Room;
    if es == [] {
      assert [] + [e] == [e] && [e][1..] == [];
      assert Interleaving(After(s, e), []) && Roomy(After(s, e), []) && Run(After(s, e), []) == After(s, e);
    } else {
      assert (es + [e])[1..] == es[1..] + [e];
      RunSnoc(After(s, es[0]), es[1..], e);
    }
  }

  function Copied(s: Tx, n: nat, p: Port, msg: seq<byte>): Tx
    requires n <= |msg| && WellFormed(s)
  {
    var r := PortOf(s, p);
    Set(s, p, r.(mem := Written(r.mem, r.tail, msg[..n]), tail := (r.tail + n) % RING, begun := r.begun + msg))
      .(producer := Writing(p, msg, n))
  }

  lemma {:induction false} CopyingRun(s: Tx, n: nat, p: Port, msg: seq<byte>)
    requires Ready(s, p, msg) && n <= |msg|
    ensures Legal(s, Copying(n, p, msg)) && Run(s, Copying(n, p, msg)) == Copied(s, n, p, msg)
  {
    var r := PortOf(s, p);
    if n == 0 {
      assert Copying(0, p, msg) == [] + [Begin(p, msg)];
      RunSnoc(s, [], Begin(p, msg));
      NothingWritten(r.mem, r.tail, msg);
    } else {
      CopyingRun(s, n - 1, p, msg);
      assert Copying(n, p, msg) == Copying(n - 1, p, msg) + [WriteByte];
      RunSnoc(s, Copying(n - 1, p, msg), WriteByte);
      CopiedStep(s, n - 1, p, msg);
    }
  }

  lemma NothingWritten(m: seq<byte>, p: nat, msg: seq<byte>)
    requires p < RING && |m| == RING
    ensures Written(m, p, msg[..0]) == m && p == (p + 0) % RING
  {
  }

  lemma CopiedStep(s: Tx, n: nat, p: Port, msg: seq<byte>)
    requires Ready(s, p, msg) && n < |msg|
    ensures WellFormed(Copied(s, n, p, msg)) && Enabled(Copied(s, n, p, msg), WriteByte)
    ensures After(Copied(s, n, p, msg), WriteByte) == Copied(s, n + 1, p, msg)
  {
    hide Written;
    var r := PortOf(s, p);
    WrittenSnoc(r.mem, r.tail, msg, n);
    AddMod(r.tail + n, RING);
  }

  /** The system after a message was enqueued without interruption. */
  function Enqueued(s: Tx, p: Port, msg: seq<byte>): Tx
    requires WellFormed(s)
  {
    Set(s, p, PortAfter(PortOf(s, p), msg)).(queue := s.queue + SlicesOf(p, PortOf(s, p).head, |msg|))
  }

  lemma WholeSend(s: Tx, p: Port, msg: seq<byte>)
    requires Ready(s, p, msg) && RING - PortOf(s, p).head >= |msg|
    ensures WellFormed(Copied(s, |msg|, p, msg)) && Enabled(Copied(s, |msg|, p, msg), SendFirst)
    ensures After(Copied(s, |msg|, p, msg), SendFirst) == Enqueued(s, p, msg)
  {
    hide Written;
    SendFirstReady(s, p, msg);
    assert msg[..|msg|] == msg;
  }

  /** The system between the two sends of a message that wraps. */
  function Halfway(s: Tx, p: Port, msg: seq<byte>): Tx
    requires WellFormed(s) && RING - PortOf(s, p).head < |msg|
  {
    var r := PortOf(s, p);
    var n := RING - r.head;
    Set(s, p, PortState(Written(r.mem, r.tail, msg), r.head, (r.tail + |msg|) % RING,
                        r.begun + msg, r.queued + msg[..n], r.sent))
      .(queue := s.queue + [Slice(p, r.head, n)], producer := SecondSend(p, msg))
  }

  lemma FirstSend(s: Tx, p: Port, msg: seq<byte>)
    requires Ready(s, p, msg) && RING - PortOf(s, p).head < |msg|
    ensures WellFormed(Copied(s, |msg|, p, msg)) && Enabled(Copied(s, |msg|, p, msg), SendFirst)
    ensures After(Copied(s, |msg|, p, msg), SendFirst) == Halfway(s, p, msg)
  {
    hide Written;
    SendFirstReady(s, p, msg);
    assert msg[..|msg|] == msg;
  }

  lemma LastSend(s: Tx, p: Port, msg: seq<byte>)
    requires Ready(s, p, msg) && RING - PortOf(s, p).head < |msg|
    ensures var u := Halfway(s, p, msg);
      WellFormed(u) && Enabled(u, SendRest) && After(u, SendRest) == Enqueued(s, p, msg)
  {
    hide Written;
    var r := PortOf(s, p);
    Joined(r.queued, msg, RING - r.head);
    TwoSlices(s.queue, p, r.head, |msg|);
  }

  lemma SplitSend(s: Tx, p: Port, msg: seq<byte>)
    requires Ready(s, p, msg) && RING - PortOf(s, p).head < |msg|
    ensures WellFormed(Copied(s, |msg|, p, msg)) && Enabled(Copied(s, |msg|, p, msg), SendFirst)
    ensures var u := After(Copied(s, |msg|, p, msg), SendFirst);
      WellFormed(u) && Enabled(u, SendRest) && After(u, SendRest) == Enqueued(s, p, msg)
  {
    hide WellFormed, Copied, Enabled, After, Enqueued, Halfway, Ready;
    FirstSend(s, p, msg);
    LastSend(s, p, msg);
  }

  lemma Joined(queued: seq<byte>, msg: seq<byte>, n: nat)
    requires n <= |msg|
    ensures (queued + msg[..n]) + msg[n..] == queued + msg
  {
  }

  lemma TwoSlices(queue: seq<Slice>, p: Port, head: nat, len: nat)
    requires head < RING && RING - head < len
    ensures queue + SlicesOf(p, head, len)
         == (queue + [Slice(p, head, RING - head)]) + [Slice(p, 0, len - (RING - head))]
  {
  }

  /** Run to completion, the producer's steps do to the system what EnqueueData does to the rings and the queue. */
  lemma UninterruptedEnqueue(s: Tx, p: Port, msg: seq<byte>)
    requires Ready(s, p, msg)
    ensures var es := Uninterrupted(p, msg, PortOf(s, p).head);
      Legal(s, es) && Run(s, es) == Enqueued(s, p, msg)
  {
    hide After, Enabled, Copied, Enqueued, Copying;
    var copy := Copying(|msg|, p, msg);
    CopyingRun(s, |msg|, p, msg);
    if RING - PortOf(s, p).head < |msg| {
      SplitSend(s, p, msg);
      RunSnoc(s, copy, SendFirst);
      RunSnoc(s, copy + [SendFirst], SendRest);
    } else {
      WholeSend(s, p, msg);
      RunSnoc(s, copy, SendFirst);
      assert copy + [SendFirst] + [] == copy + [SendFirst];
    }
  }

  lemma SendFirstReady(s: Tx, p: Port, msg: seq<byte>)
    requires Ready(s, p, msg)
    ensures WellFormed(Copied(s, |msg|, p, msg)) && Enabled(Copied(s, |msg|, p, msg), SendFirst)
  {
  }
}
