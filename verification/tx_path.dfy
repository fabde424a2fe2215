/**
 The application's transmit path (src/app/packet.c) as a concurrent system: the producer copies a message
 into the port's ring and queues slices of it, the transmit task hands one slice at a time to the DMA
 controller, and the transfer-complete interrupt gives packet_tx_task its token back. Every step below is atomic
 in the firmware; any of them can follow any other.

 The queue and the token are shared by the two ports. A slice is only an offset and a length: its bytes are
 whatever the ring memory holds when the controller reads them.
 */
module TxPath {
  import opened Bytes
  import opened Usart

  const RING: nat := DMA_TX_BUFFER_SIZE
  const QUEUE_LENGTH: nat := 8

  /** PacketTxChunk_t */
  datatype Slice = Slice(port: Port, offset: nat, len: nat)

  datatype PortState = PortState(
    mem: seq<byte>,
    head: nat,
    tail: nat,
    /** History: the messages handed to packet_tx_enqueue_data, one after the other. */
    begun: seq<byte>,
    /** History: the part of them covered by slices put into the queue. */
    queued: seq<byte>,
    /** History: the bytes the port has sent. */
    sent: seq<byte>)

  /** Where packet_tx_enqueue_data stands. */
  datatype Producer =
    | Resting
    | Writing(port: Port, msg: seq<byte>, done: nat)
    | SecondSend(port: Port, msg: seq<byte>)

  /** Where packet_tx_task stands: before xQueuePeek, xTaskNotifyWait, xQueueReceive, res_usart_dma_write. */
  datatype Task = Peek | Wait | Take | Launch(slice: Slice)

  datatype Dma = Off | On(slice: Slice, done: nat)

  datatype Tx = Tx(
    dbg: PortState,
    gsm: PortState,
    queue: seq<Slice>,
    notified: bool,
    producer: Producer,
    task: Task,
    dma: Dma)

  datatype Event =
    /** packet_tx_enqueue_data is called. */
    | Begin(port: Port, msg: seq<byte>)
    /** One ring_buffer_write. */
    | WriteByte
    /** The first, or only, xQueueSend. */
    | SendFirst
    /** The xQueueSend of the part that wrapped. */
    | SendRest
    | TaskPeeks
    | TaskNotified
    | TaskReceives
    | TaskLaunches
    /** The controller reads one byte and the port sends it. */
    | DmaByte
    /** The transfer-complete interrupt. */
    | DmaDone

  function PortOf(s: Tx, p: Port): PortState {
    if p == Dbg then s.dbg else s.gsm
  }

  function Set(s: Tx, p: Port, r: PortState): Tx {
    if p == Dbg then s.(dbg := r) else s.(gsm := r)
  }

  /** How much of a message fits before the end of the ring. */
  function FirstPart(head: nat, msg: seq<byte>): (n: nat)
    requires head < RING
    ensures n <= |msg|
  {
    if RING - head < |msg| then RING - head else |msg|
  }

  /** Bytes queued on a port and not sent yet. */
  function Outstanding(s: Tx, p: Port): int {
    |PortOf(s, p).queued| - |PortOf(s, p).sent|
  }

  predicate WellFormed(s: Tx) {
    && |s.dbg.mem| == RING && s.dbg.head < RING && s.dbg.tail < RING
    && |s.gsm.mem| == RING && s.gsm.head < RING && s.gsm.tail < RING
    && (s.producer.Writing? ==> s.producer.done <= |s.producer.msg| <= RING)
    && (s.producer.SecondSend? ==> RING - PortOf(s, s.producer.port).head < |s.producer.msg| <= RING)
    && (s.dma.On? ==> s.dma.slice.offset + s.dma.slice.len <= RING && s.dma.done <= s.dma.slice.len)
  }

  predicate Enabled(s: Tx, e: Event)
    requires WellFormed(s)
  {
    match e
    case Begin(p, msg) => s.producer == Resting && |msg| <= RING
    case WriteByte => s.producer.Writing? && s.producer.done < |s.producer.msg|
    case SendFirst => s.producer.Writing? && s.producer.done == |s.producer.msg| && |s.queue| < QUEUE_LENGTH
    case SendRest => s.producer.SecondSend? && |s.queue| < QUEUE_LENGTH
    case TaskPeeks => s.task == Peek && s.queue != []
    case TaskNotified => s.task == Wait && s.notified
    case TaskReceives => s.task == Take && s.queue != []
    case TaskLaunches => s.task.Launch? && s.task.slice.offset + s.task.slice.len <= RING
    case DmaByte => s.dma.On? && s.dma.done < s.dma.slice.len
    case DmaDone => s.dma.On? && s.dma.done == s.dma.slice.len
  }

  function After(s: Tx, e: Event): Tx
    requires WellFormed(s) && Enabled(s, e)
  {
    match e
    case Begin(p, msg) =>
      var r := PortOf(s, p);
      Set(s, p, r.(begun := r.begun + msg)).(producer := Writing(p, msg, 0))
    case WriteByte =>
      var Writing(p, msg, done) := s.producer;
      var r := PortOf(s, p);
      Set(s, p, r.(mem := r.mem[r.tail := msg[done]], tail := (r.tail + 1) % RING))
        .(producer := Writing(p, msg, done + 1))
    case SendFirst =>
      var Writing(p, msg, _) := s.producer;
      var r := PortOf(s, p);
      var n := FirstPart(r.head, msg);
      var r' := r.(queued := r.queued + msg[..n], head := if n < |msg| then r.head else r.tail);
      Set(s, p, r').(queue := s.queue + [Slice(p, r.head, n)],
                     producer := if n < |msg| then SecondSend(p, msg) else Resting)
    case SendRest =>
      var SecondSend(p, msg) := s.producer;
      var r := PortOf(s, p);
      var n := RING - r.head;
      Set(s, p, r.(queued := r.queued + msg[n..], head := r.tail))
        .(queue := s.queue + [Slice(p, 0, |msg| - n)], producer := Resting)
    case TaskPeeks => s.(task := Wait)
    case TaskNotified => s.(task := Take, notified := false)
    case TaskReceives => s.(task := Launch(s.queue[0]), queue := s.queue[1..])
    case TaskLaunches => s.(task := Peek, dma := On(s.task.slice, 0))
    case DmaByte =>
      var On(c, done) := s.dma;
      var r := PortOf(s, c.port);
      Set(s, c.port, r.(sent := r.sent + [r.mem[c.offset + done]])).(dma := On(c, done + 1))
    case DmaDone => s.(dma := Off, notified := true)
  }

  // ----- what is in flight -----

  /** The slices on their way, first to be sent first: what the controller still has to read, what packet_tx_task
      holds, what is queued. */
  function InFlight(s: Tx): seq<Slice>
    requires WellFormed(s)
  {
    (if s.dma.On? then [Slice(s.dma.slice.port, s.dma.slice.offset + s.dma.done, s.dma.slice.len - s.dma.done)] else [])
    + (if s.task.Launch? then [s.task.slice] else [])
    + s.queue
  }

  /** The bytes the slices of port p denote in the memory of its ring right now. */
  function Denoted(mem: seq<byte>, ss: seq<Slice>, p: Port): seq<byte>
    requires |mem| == RING
  {
    if ss == [] then []
    else
      (if ss[0].port == p && ss[0].offset + ss[0].len <= RING then mem[ss[0].offset..ss[0].offset + ss[0].len] else [])
      + Denoted(mem, ss[1..], p)
  }

  /** The slices of port p tile the stream positions a .. e; position i lives in cell i mod RING. */
  predicate Tiles(ss: seq<Slice>, p: Port, a: nat, e: nat) {
    if ss == [] then a == e
    else if ss[0].port != p || ss[0].len == 0 then
      (ss[0].port == p ==> ss[0].offset <= RING) && Tiles(ss[1..], p, a, e)
    else ss[0].offset == a % RING && ss[0].offset + ss[0].len <= RING && Tiles(ss[1..], p, a + ss[0].len, e)
  }

  lemma {:induction false} TilesSnoc(ss: seq<Slice>, p: Port, a: nat, e: nat, c: Slice)
    requires Tiles(ss, p, a, e)
    requires c.port == p ==> c.len > 0 && c.offset == e % RING && c.offset + c.len <= RING
    ensures Tiles(ss + [c], p, a, if c.port == p then e + c.len else e)
  {
    if ss == [] {
      assert [c][1..] == [];
      assert ss + [c] == [c];
    } else {
      assert (ss + [c])[1..] == ss[1..] + [c];
      TilesSnoc(ss[1..], p, if ss[0].port == p then a + ss[0].len else a, e, c);
    }
  }

  lemma {:induction false} TilesOrdered(ss: seq<Slice>, p: Port, a: nat, e: nat)
    requires Tiles(ss, p, a, e)
    ensures a <= e
  {
    if ss != [] {
      TilesOrdered(ss[1..], p, if ss[0].port == p then a + ss[0].len else a, e);
    }
  }

  /** The ring holds positions from .. to of the stream. */
  ghost predicate Holds(mem: seq<byte>, stream: seq<byte>, from: nat, to: nat) {
    |mem| == RING && to <= |stream| && forall i :: from <= i < to ==> mem[i % RING] == stream[i]
  }

  /** One slice reads its stretch of the stream. */
  lemma SliceBytes(mem: seq<byte>, offset: nat, len: nat, stream: seq<byte>, a: nat)
    requires Holds(mem, stream, a, a + len) && offset == a % RING && offset + len <= RING
    ensures mem[offset..offset + len] == stream[a..a + len]
  {
    var x, y := mem[offset..offset + len], stream[a..a + len];
    forall k | 0 <= k < len ensures x[k] == y[k] {
      assert (a + k) % RING == offset + k;
    }
  }

  lemma {:induction false} TiledBytes(mem: seq<byte>, ss: seq<Slice>, p: Port, stream: seq<byte>, a: nat, e: nat)
    requires Tiles(ss, p, a, e) && Holds(mem, stream, a, e)
    ensures a <= e && Denoted(mem, ss, p) == stream[a..e]
  {
    hide Holds;
    TilesOrdered(ss, p, a, e);
    StreamLength(mem, stream, a, e);
    if ss != [] {
      var c := ss[0];
      var b := if c.port == p then a + c.len else a;
      TilesOrdered(ss[1..], p, b, e);
      HoldsLess(mem, stream, a, e, b);
      TiledBytes(mem, ss[1..], p, stream, b, e);
      assert stream[a..e] == stream[a..b] + stream[b..e];
      if c.port == p && c.len > 0 {
        SliceBytes(mem, c.offset, c.len, stream, a);
      }
    }
  }

  lemma StreamLength(mem: seq<byte>, stream: seq<byte>, a: nat, e: nat)
    requires Holds(mem, stream, a, e)
    ensures |mem| == RING && e <= |stream|
  {
  }

  lemma HoldsLess(mem: seq<byte>, stream: seq<byte>, a: nat, e: nat, b: nat)
    requires Holds(mem, stream, a, e) && a <= b <= e
    ensures Holds(mem, stream, b, e) && Holds(mem, stream, a, b)
  {
  }

  // ----- the invariant -----

  /** Bytes written into the ring for the current message, not covered by a queued slice yet. */
  function Pending(s: Tx, p: Port): seq<byte>
    requires WellFormed(s)
  {
    match s.producer
    case Resting => []
    case Writing(q, msg, done) => if q == p then msg[..done] else []
    case SecondSend(q, msg) => if q == p then msg[RING - PortOf(s, p).head..] else []
  }

  /** Bytes of the current message that are not covered by a queued slice yet. */
  function Remaining(s: Tx, p: Port): seq<byte>
    requires WellFormed(s)
  {
    match s.producer
    case Resting => []
    case Writing(q, msg, _) => if q == p then msg else []
    case SecondSend(q, msg) => if q == p then msg[RING - PortOf(s, p).head..] else []
  }

  /** How far the head of the ring lags behind the queued bytes. */
  function Lag(s: Tx, p: Port): nat
    requires WellFormed(s)
  {
    if s.producer.SecondSend? && s.producer.port == p then RING - PortOf(s, p).head else 0
  }

  /** A port in which `pending` bytes have been copied beyond the queued ones, out of the `remaining` bytes of
      the current message, and the slices ss are in flight. */
  ghost predicate Sound(r: PortState, p: Port, pending: seq<byte>, remaining: seq<byte>, lag: nat, ss: seq<Slice>) {
    var written := r.queued + pending;
    && r.sent <= r.queued
    && r.begun == r.queued + remaining
    && lag <= |r.queued| && r.head == (|r.queued| - lag) % RING
    && r.tail == |written| % RING
    && |r.begun| <= |r.sent| + RING
    && Holds(r.mem, written, |r.sent|, |written|)
    && Tiles(ss, p, |r.sent|, |r.queued|)
  }

  ghost predicate PortInv(s: Tx, p: Port)
    requires WellFormed(s)
  {
    Sound(PortOf(s, p), p, Pending(s, p), Remaining(s, p), Lag(s, p), InFlight(s))
  }

  /** Who may start a transfer: exactly one of the pending notification, packet_tx_task, the controller. */
  predicate OneToken(s: Tx) {
    && !(s.notified && (s.task == Take || s.task.Launch?))
    && !(s.notified && s.dma.On?)
    && !(s.dma.On? && (s.task == Take || s.task.Launch?))
    && (s.notified || s.task == Take || s.task.Launch? || s.dma.On?)
  }

  predicate TaskInv(s: Tx) {
    && OneToken(s)
    && (s.task == Wait || s.task == Take ==> s.queue != [])
    && (s.task.Launch? ==> s.task.slice.offset + s.task.slice.len <= RING)
    && (forall i :: 0 <= i < |s.queue| ==> s.queue[i].offset + s.queue[i].len <= RING)
    && |s.queue| <= QUEUE_LENGTH
  }

  ghost predicate Inv(s: Tx) {
    && WellFormed(s) && TaskInv(s) && PortInv(s, Dbg) && PortInv(s, Gsm)
    && (s.producer.Writing? ==> s.producer.msg != [])
  }

  /** Messages are not empty and leave room: outstanding bytes and the new message fit the ring. */
  predicate Room(s: Tx, e: Event) {
    e.Begin? ==> e.msg != [] && Outstanding(s, e.port) + |e.msg| <= RING
  }

  // ----- what every step keeps -----

  /** Writing position to of the stream disturbs no other position of the last RING. */
  lemma HoldsMore(mem: seq<byte>, stream: seq<byte>, from: nat, to: nat, b: byte)
    requires Holds(mem, stream, from, to) && to == |stream| && to < from + RING
    ensures Holds(mem[to % RING := b], stream + [b], from, to + 1)
  {
    forall i | from <= i < to + 1 ensures mem[to % RING := b][i % RING] == (stream + [b])[i] {
      if i < to {
        assert i % RING != to % RING;
      }
    }
  }

  lemma SoundBegin(r: PortState, p: Port, msg: seq<byte>, ss: seq<Slice>)
    requires Sound(r, p, [], [], 0, ss) && |r.queued| - |r.sent| + |msg| <= RING
    ensures Sound(r.(begun := r.begun + msg), p, msg[..0], msg, 0, ss)
  {
    assert msg[..0] == [];
  }

  lemma SoundWrite(r: PortState, p: Port, msg: seq<byte>, done: nat, ss: seq<Slice>)
    requires done < |msg| && Sound(r, p, msg[..done], msg, 0, ss) && r.tail < |r.mem|
    ensures Sound(r.(mem := r.mem[r.tail := msg[done]], tail := (r.tail + 1) % RING), p, msg[..done + 1], msg, 0, ss)
  {
    hide Holds, Tiles;
    var written := r.queued + msg[..done];
    HoldsMore(r.mem, written, |r.sent|, |written|, msg[done]);
    OneMore(r.queued, msg, done);
    NextCell(|written|);
  }

  lemma OneMore(queued: seq<byte>, msg: seq<byte>, done: nat)
    requires done < |msg|
    ensures queued + msg[..done + 1] == (queued + msg[..done]) + [msg[done]]
  {
  }

  lemma NextCell(x: nat)
    ensures (x % RING + 1) % RING == (x + 1) % RING
  {
  }

  lemma SoundSend(r: PortState, p: Port, msg: seq<byte>, n: nat, lag: nat, ss: seq<Slice>)
    requires 0 < n <= |msg| && Sound(r, p, msg, msg, lag, ss)
    requires |r.queued| % RING + n <= RING
    ensures Tiles(ss + [Slice(p, |r.queued| % RING, n)], p, |r.sent|, |r.queued| + n)
    ensures Sound(r.(queued := r.queued + msg[..n]), p, msg[n..], msg[n..], lag + n,
                  ss + [Slice(p, |r.queued| % RING, n)])
  {
    hide Holds, Tiles;
    TilesSnoc(ss, p, |r.sent|, |r.queued|, Slice(p, |r.queued| % RING, n));
    assert (r.queued + msg[..n]) + msg[n..] == r.queued + msg;
  }

  lemma SoundHeadMoves(r: PortState, p: Port, lag: nat, ss: seq<Slice>)
    requires Sound(r, p, [], [], lag, ss)
    ensures Sound(r.(head := r.tail), p, [], [], 0, ss)
  {
    assert r.queued + [] == r.queued;
  }

  lemma HeadOf(r: PortState, p: Port, pending: seq<byte>, remaining: seq<byte>, lag: nat, ss: seq<Slice>)
    requires Sound(r, p, pending, remaining, lag, ss)
    ensures lag <= |r.queued| && r.head == (|r.queued| - lag) % RING
    ensures |remaining| <= RING + |r.sent| - |r.queued| <= RING
  {
    hide Holds, Tiles;
  }

  /** The only send of a message that does not wrap. */
  lemma SoundWhole(r: PortState, p: Port, msg: seq<byte>, ss: seq<Slice>)
    requires msg != [] && Sound(r, p, msg, msg, 0, ss) && r.head + |msg| <= RING
    ensures Sound(r.(queued := r.queued + msg, head := r.tail), p, [], [], 0, ss + [Slice(p, r.head, |msg|)])
  {
    hide Sound;
    HeadOf(r, p, msg, msg, 0, ss);
    SoundSend(r, p, msg, |msg|, 0, ss);
    assert msg[..|msg|] == msg && msg[|msg|..] == [];
    SoundHeadMoves(r.(queued := r.queued + msg), p, |msg|, ss + [Slice(p, r.head, |msg|)]);
  }

  /** The send of the part that starts over at the first cell. */
  lemma SoundRest(r: PortState, p: Port, rest: seq<byte>, n: nat, ss: seq<Slice>)
    requires rest != [] && Sound(r, p, rest, rest, n, ss) && n == RING - r.head && r.head < RING
    ensures |rest| <= RING
    ensures Sound(r.(queued := r.queued + rest, head := r.tail), p, [], [], 0, ss + [Slice(p, 0, |rest|)])
  {
    hide Sound;
    HeadOf(r, p, rest, rest, n, ss);
    assert |r.queued| % RING == 0;
    SoundSend(r, p, rest, |rest|, n, ss);
    assert rest[..|rest|] == rest && rest[|rest|..] == [];
    SoundHeadMoves(r.(queued := r.queued + rest), p, n + |rest|, ss + [Slice(p, 0, |rest|)]);
  }

  /** The controller reads the first byte of its slice. */
  lemma TilesAdvance(c: Slice, rest: seq<Slice>, p: Port, a: nat, e: nat)
    requires c.port == p && c.len > 0 && Tiles([c] + rest, p, a, e)
    ensures c.offset == a % RING && a < e
    ensures Tiles([Slice(p, c.offset + 1, c.len - 1)] + rest, p, a + 1, e)
  {
    var ss, tt := [c] + rest, [Slice(p, c.offset + 1, c.len - 1)] + rest;
    assert ss[1..] == rest && tt[1..] == rest;
    TilesOrdered(rest, p, a + c.len, e);
  }

  lemma SoundSent(r: PortState, p: Port, pending: seq<byte>, remaining: seq<byte>, lag: nat, c: Slice, rest: seq<Slice>)
    requires c.port == p && c.len > 0 && c.offset < |r.mem|
    requires Sound(r, p, pending, remaining, lag, [c] + rest)
    ensures Sound(r.(sent := r.sent + [r.mem[c.offset]]), p, pending, remaining, lag,
                  [Slice(p, c.offset + 1, c.len - 1)] + rest)
  {
    hide Holds, Tiles;
    TilesAdvance(c, rest, p, |r.sent|, |r.queued|);
    var written := r.queued + pending;
    CellSent(r.mem, written, |r.sent|, |written|);
    HoldsLess(r.mem, written, |r.sent|, |written|, |r.sent| + 1);
  }

  lemma CellSent(mem: seq<byte>, stream: seq<byte>, a: nat, e: nat)
    requires Holds(mem, stream, a, e) && a < e
    ensures mem[a % RING] == stream[a]
  {
  }

  /** Slices of the other port, and empty ones, come and go unnoticed. */
  lemma SoundOther(r: PortState, p: Port, pending: seq<byte>, remaining: seq<byte>, lag: nat,
                   c: Slice, c': Slice, ss: seq<Slice>)
    requires c.port != p && c'.port != p
    ensures Sound(r, p, pending, remaining, lag, ss) ==> Sound(r, p, pending, remaining, lag, ss + [c])
    ensures Sound(r, p, pending, remaining, lag, [c] + ss) ==> Sound(r, p, pending, remaining, lag, [c'] + ss)
  {
    hide Holds;
    if Sound(r, p, pending, remaining, lag, ss) {
      TilesSnoc(ss, p, |r.sent|, |r.queued|, c);
    }
    assert ([c] + ss)[1..] == ss && ([c'] + ss)[1..] == ss;
  }

  lemma SoundDropsEmpty(r: PortState, p: Port, pending: seq<byte>, remaining: seq<byte>, lag: nat,
                        c: Slice, ss: seq<Slice>)
    requires Sound(r, p, pending, remaining, lag, [c] + ss) && c.len == 0
    ensures Sound(r, p, pending, remaining, lag, ss)
  {
    hide Holds;
    assert ([c] + ss)[1..] == ss;
  }

  // The same, event by event.

  lemma BeginKeeps(s: Tx, q: Port, msg: seq<byte>, p: Port)
    requires Inv(s) && Enabled(s, Begin(q, msg)) && Room(s, Begin(q, msg))
    ensures PortInv(After(s, Begin(q, msg)), p)
  {
    hide Sound, TaskInv;
    assert InFlight(After(s, Begin(q, msg))) == InFlight(s);
    if p == q {
      SoundBegin(PortOf(s, p), p, msg, InFlight(s));
    }
  }

  lemma WriteByteKeeps(s: Tx, p: Port)
    requires Inv(s) && Enabled(s, WriteByte)
    ensures WellFormed(After(s, WriteByte)) && PortInv(After(s, WriteByte), p)
  {
    hide Sound, TaskInv;
    assert InFlight(After(s, WriteByte)) == InFlight(s);
    if p == s.producer.port {
      SoundWrite(PortOf(s, p), p, s.producer.msg, s.producer.done, InFlight(s));
    }
  }

  lemma FirstSound(s: Tx)
    requires Inv(s) && Enabled(s, SendFirst)
    ensures var q, msg := s.producer.port, s.producer.msg;
      msg != [] && Sound(PortOf(s, q), q, msg, msg, 0, InFlight(s))
  {
    hide Sound, InFlight;
    assert PortInv(s, s.producer.port);
    assert s.producer.msg[..s.producer.done] == s.producer.msg;
  }

  lemma FirstFlight(s: Tx)
    requires WellFormed(s) && Enabled(s, SendFirst)
    ensures WellFormed(After(s, SendFirst))
    ensures var q := s.producer.port;
      var r := PortOf(s, q);
      InFlight(After(s, SendFirst)) == InFlight(s) + [Slice(q, r.head, FirstPart(r.head, s.producer.msg))]
  {
  }

  lemma SendFirstKeeps(s: Tx, p: Port)
    requires Inv(s) && Enabled(s, SendFirst)
    ensures WellFormed(After(s, SendFirst)) && PortInv(After(s, SendFirst), p)
  {
    hide Sound, TaskInv, InFlight;
    var t := After(s, SendFirst);
    var q, msg := s.producer.port, s.producer.msg;
    var r := PortOf(s, q);
    FirstSound(s);
    FirstFlight(s);
    HeadOf(r, q, msg, msg, 0, InFlight(s));
    var n := FirstPart(r.head, msg);
    if p != q {
      assert PortInv(s, p);
      SoundOther(PortOf(s, p), p, [], [], 0, Slice(q, r.head, n), Slice(q, r.head, n), InFlight(s));
    } else if n < |msg| {
      SoundSend(r, q, msg, n, 0, InFlight(s));
    } else {
      assert msg[..n] == msg;
      SoundWhole(r, q, msg, InFlight(s));
    }
  }

  lemma RestSound(s: Tx)
    requires Inv(s) && s.producer.SecondSend?
    ensures var q, msg := s.producer.port, s.producer.msg;
      var n := RING - PortOf(s, q).head;
      Sound(PortOf(s, q), q, msg[n..], msg[n..], n, InFlight(s))
  {
    hide Sound, InFlight;
    assert PortInv(s, s.producer.port);
  }

  lemma RestFlight(s: Tx)
    requires WellFormed(s) && Enabled(s, SendRest)
    ensures WellFormed(After(s, SendRest))
    ensures var q := s.producer.port;
      InFlight(After(s, SendRest)) == InFlight(s) + [Slice(q, 0, |s.producer.msg| - (RING - PortOf(s, q).head))]
  {
  }

  lemma SendRestKeeps(s: Tx, p: Port)
    requires Inv(s) && Enabled(s, SendRest)
    ensures WellFormed(After(s, SendRest)) && PortInv(After(s, SendRest), p)
  {
    hide Sound, TaskInv, InFlight;
    var t := After(s, SendRest);
    var q, msg := s.producer.port, s.producer.msg;
    var r := PortOf(s, q);
    var n := RING - r.head;
    RestSound(s);
    RestFlight(s);
    if p == q {
      SoundRest(r, q, msg[n..], n, InFlight(s));
    } else {
      assert PortInv(s, p);
      SoundOther(PortOf(s, p), p, [], [], 0, Slice(q, 0, |msg| - n), Slice(q, 0, |msg| - n), InFlight(s));
    }
  }

  predicate OfTask(e: Event) {
    e.TaskPeeks? || e.TaskNotified? || e.TaskReceives? || e.TaskLaunches?
  }

  lemma TaskShape(s: Tx, e: Event)
    requires WellFormed(s) && Enabled(s, e) && OfTask(e)
    ensures var t := After(s, e);
      WellFormed(t) && t.dbg == s.dbg && t.gsm == s.gsm && t.producer == s.producer
  {
  }

  /** packet_tx_task only passes slices on. */
  lemma TaskFlight(s: Tx, e: Event)
    requires WellFormed(s) && Enabled(s, e) && OfTask(e) && OneToken(s) && WellFormed(After(s, e))
    ensures InFlight(After(s, e)) == InFlight(s)
  {
    assert s.task == Take ==> s.queue == [s.queue[0]] + s.queue[1..];
  }

  lemma TaskKeeps(s: Tx, e: Event, p: Port)
    requires Inv(s) && Enabled(s, e) && OfTask(e)
    ensures WellFormed(After(s, e)) && PortInv(After(s, e), p)
  {
    hide Sound, InFlight, After, Enabled;
    TaskShape(s, e);
    TaskFlight(s, e);
    assert PortInv(s, p);
  }

  lemma DmaByteShape(s: Tx)
    requires WellFormed(s) && Enabled(s, DmaByte)
    ensures WellFormed(After(s, DmaByte))
  {
  }

  lemma DmaFlight(s: Tx)
    requires WellFormed(s) && Enabled(s, DmaByte) && WellFormed(After(s, DmaByte))
    ensures var On(c, done) := s.dma;
      var rest := (if s.task.Launch? then [s.task.slice] else []) + s.queue;
      && InFlight(s) == [Slice(c.port, c.offset + done, c.len - done)] + rest
      && InFlight(After(s, DmaByte)) == [Slice(c.port, c.offset + done + 1, c.len - done - 1)] + rest
  {
    hide WellFormed;
  }

  lemma DmaLeavesProducer(s: Tx, p: Port)
    requires WellFormed(s) && Enabled(s, DmaByte) && WellFormed(After(s, DmaByte))
    ensures var t := After(s, DmaByte);
      Pending(t, p) == Pending(s, p) && Remaining(t, p) == Remaining(s, p) && Lag(t, p) == Lag(s, p)
  {
    hide After;
    SameHeads(s, p);
  }

  lemma SameHeads(s: Tx, p: Port)
    requires WellFormed(s) && Enabled(s, DmaByte)
    ensures After(s, DmaByte).producer == s.producer && PortOf(After(s, DmaByte), p).head == PortOf(s, p).head
    ensures After(s, DmaByte).producer.SecondSend? ==>
      PortOf(After(s, DmaByte), s.producer.port).head == PortOf(s, s.producer.port).head
  {
  }

  lemma DmaByteKeeps(s: Tx, p: Port)
    requires Inv(s) && Enabled(s, DmaByte)
    ensures WellFormed(After(s, DmaByte)) && PortInv(After(s, DmaByte), p)
  {
    hide Sound, TaskInv, InFlight, Pending, Remaining, Lag;
    var t := After(s, DmaByte);
    var On(c, done) := s.dma;
    var r := PortOf(s, p);
    var rest := (if s.task.Launch? then [s.task.slice] else []) + s.queue;
    var x, y := Slice(c.port, c.offset + done, c.len - done), Slice(c.port, c.offset + done + 1, c.len - done - 1);
    DmaByteShape(s);
    DmaFlight(s);
    DmaLeavesProducer(s, p);
    assert PortInv(s, p);
    if c.port == p {
      SoundSent(r, p, Pending(s, p), Remaining(s, p), Lag(s, p), x, rest);
    } else {
      SoundOther(r, p, Pending(s, p), Remaining(s, p), Lag(s, p), x, y, rest);
    }
  }

  lemma DmaDoneKeeps(s: Tx, p: Port)
    requires Inv(s) && Enabled(s, DmaDone)
    ensures PortInv(After(s, DmaDone), p)
  {
    hide Sound, TaskInv;
    var t := After(s, DmaDone);
    var On(c, done) := s.dma;
    assert InFlight(s) == [Slice(c.port, c.offset + done, c.len - done)] + InFlight(t);
    assert PortInv(s, p);
    SoundDropsEmpty(PortOf(s, p), p, Pending(s, p), Remaining(s, p), Lag(s, p),
                    Slice(c.port, c.offset + done, c.len - done), InFlight(t));
  }

  lemma WellFormedKept(s: Tx, e: Event)
    requires WellFormed(s) && Enabled(s, e)
    ensures WellFormed(After(s, e))
  {
    hide After, Enabled, WellFormed;
    match e
    case Begin(q, msg) => BeginShape(s, q, msg);
    case WriteByte => WriteShape(s);
    case SendFirst => FirstFlight(s);
    case SendRest => RestFlight(s);
    case DmaByte => DmaByteShape(s);
    case DmaDone => DmaShape(s);
    case _ => TaskShape(s, e);
  }

  lemma TokenKept(s: Tx, e: Event)
    requires WellFormed(s) && TaskInv(s) && Enabled(s, e)
    ensures OneToken(After(s, e))
  {
    hide FirstPart;
  }

  lemma SlicesKept(s: Tx, e: Event)
    requires WellFormed(s) && TaskInv(s) && Enabled(s, e) && OneToken(After(s, e))
    ensures TaskInv(After(s, e))
  {
    hide OneToken;
  }

  /** The token needs no room in the rings. */
  lemma TaskInvKept(s: Tx, e: Event)
    requires WellFormed(s) && TaskInv(s) && Enabled(s, e)
    ensures WellFormed(After(s, e)) && TaskInv(After(s, e))
  {
    hide After, Enabled, TaskInv, WellFormed;
    WellFormedKept(s, e);
    TokenKept(s, e);
    SlicesKept(s, e);
  }

  lemma PortKept(s: Tx, e: Event, p: Port)
    requires Inv(s) && Enabled(s, e) && Room(s, e)
    ensures WellFormed(After(s, e)) && PortInv(After(s, e), p)
  {
    hide PortInv, TaskInv, After, Enabled;
    match e
    case Begin(q, msg) => BeginShape(s, q, msg); BeginKeeps(s, q, msg, p);
    case WriteByte => WriteByteKeeps(s, p);
    case SendFirst => SendFirstKeeps(s, p);
    case SendRest => SendRestKeeps(s, p);
    case DmaByte => DmaByteKeeps(s, p);
    case DmaDone => DmaShape(s); DmaDoneKeeps(s, p);
    case _ => TaskKeeps(s, e, p);
  }

  lemma StepKeeps(s: Tx, e: Event)
    requires Inv(s) && Enabled(s, e) && Room(s, e)
    ensures Inv(After(s, e))
  {
    hide PortInv, TaskInv, After, Enabled;
    TaskInvKept(s, e);
    PortKept(s, e, Dbg);
    PortKept(s, e, Gsm);
    MessagesKept(s, e);
  }

  lemma MessagesKept(s: Tx, e: Event)
    requires WellFormed(s) && Enabled(s, e) && Room(s, e) && (s.producer.Writing? ==> s.producer.msg != [])
    ensures After(s, e).producer.Writing? ==> After(s, e).producer.msg != []
  {
  }

  lemma BeginShape(s: Tx, q: Port, msg: seq<byte>)
    requires WellFormed(s) && Enabled(s, Begin(q, msg))
    ensures WellFormed(After(s, Begin(q, msg)))
  {
  }

  lemma WriteShape(s: Tx)
    requires WellFormed(s) && Enabled(s, WriteByte)
    ensures WellFormed(After(s, WriteByte))
  {
  }

  lemma DmaShape(s: Tx)
    requires WellFormed(s) && Enabled(s, DmaDone)
    ensures WellFormed(After(s, DmaDone))
  {
  }

  // ----- runs -----

  /** Power-on: nothing in the rings, the token posted by os_init_rtos. */
  predicate Initial(s: Tx) {
    && |s.dbg.mem| == RING && |s.gsm.mem| == RING
    && s.dbg == PortState(s.dbg.mem, 0, 0, [], [], []) && s.gsm == PortState(s.gsm.mem, 0, 0, [], [], [])
    && s.queue == [] && s.notified && s.producer == Resting && s.task == Peek && s.dma == Off
  }

  /** Steps in any order they can be taken. */
  predicate Interleaving(s: Tx, es: seq<Event>)
    decreases |es|
  {
    es == [] || (WellFormed(s) && Enabled(s, es[0]) && Interleaving(After(s, es[0]), es[1..]))
  }

  function Run(s: Tx, es: seq<Event>): Tx
    requires Interleaving(s, es)
    decreases |es|
  {
    if es == [] then s else Run(After(s, es[0]), es[1..])
  }

  predicate Roomy(s: Tx, es: seq<Event>)
    requires Interleaving(s, es)
    decreases |es|
  {
    es == [] || (Room(s, es[0]) && Roomy(After(s, es[0]), es[1..]))
  }

  /** Interleavings in which every message finds room. */
  predicate Legal(s: Tx, es: seq<Event>) {
    Interleaving(s, es) && Roomy(s, es)
  }

  lemma {:induction false} RunKeeps(s: Tx, es: seq<Event>)
    requires Inv(s) && Legal(s, es)
    ensures Inv(Run(s, es))
    decreases |es|
  {
    hide PortInv, TaskInv, After, Enabled, Room;
    if es != [] {
      StepKeeps(s, es[0]);
      RunKeeps(After(s, es[0]), es[1..]);
    }
  }

  lemma InitialInv(s: Tx)
    requires Initial(s)
    ensures Inv(s)
  {
  }

  /** The bytes of port p's slices, read from its ring at this moment. */
  function OnTheWay(s: Tx, p: Port): seq<byte>
    requires WellFormed(s) && |PortOf(s, p).mem| == RING
  {
    Denoted(PortOf(s, p).mem, InFlight(s), p)
  }

  /**
   Conservation under aliasing. In every interleaving, at every moment and on each port: what has been sent,
   followed by what the slices in flight denote in the ring memory right now, is exactly what was queued; and
   while no message is being enqueued that is every message handed over, none lost, repeated, reordered or
   overwritten.
   */
  lemma Conservation(s0: Tx, es: seq<Event>, p: Port)
    requires Initial(s0) && Legal(s0, es)
    ensures var s := Run(s0, es);
      && WellFormed(s) && |PortOf(s, p).mem| == RING
      && PortOf(s, p).sent + OnTheWay(s, p) == PortOf(s, p).queued
      && PortOf(s, p).begun == PortOf(s, p).queued + Remaining(s, p)
      && (s.producer == Resting ==> PortOf(s, p).sent + OnTheWay(s, p) == PortOf(s, p).begun)
  {
    hide Sound, TaskInv, InFlight, Denoted;
    InitialInv(s0);
    RunKeeps(s0, es);
    var s := Run(s0, es);
    assert PortInv(s, p);
    SoundConserves(PortOf(s, p), p, Pending(s, p), Remaining(s, p), Lag(s, p), InFlight(s));
  }

  lemma SoundConserves(r: PortState, p: Port, pending: seq<byte>, remaining: seq<byte>, lag: nat, ss: seq<Slice>)
    requires Sound(r, p, pending, remaining, lag, ss)
    ensures |r.mem| == RING && r.sent + Denoted(r.mem, ss, p) == r.queued && r.begun == r.queued + remaining
  {
    hide Tiles, Denoted;
    var written := r.queued + pending;
    assert Holds(r.mem, written, |r.sent|, |r.queued|);
    TiledBytes(r.mem, ss, p, written, |r.sent|, |r.queued|);
    assert written[|r.sent|..|r.queued|] == r.queued[|r.sent|..];
  }

  lemma {:induction false} InterleavingKeeps(s: Tx, es: seq<Event>)
    requires WellFormed(s) && TaskInv(s) && Interleaving(s, es)
    ensures WellFormed(Run(s, es)) && TaskInv(Run(s, es))
    decreases |es|
  {
    hide TaskInv, After, Enabled, WellFormed;
    if es != [] {
      TaskInvKept(s, es[0]);
      InterleavingKeeps(After(s, es[0]), es[1..]);
    }
  }

  /** In every interleaving, whether or not the messages find room, exactly one of the pending notification,
      packet_tx_task and the controller holds the right to start a transfer: none is ever started over a
      running one, the receive that follows a successful peek finds a slice, and a slice to be launched lies
      within the ring. */
  lemma SingleOwner(s0: Tx, es: seq<Event>)
    requires Initial(s0) && Interleaving(s0, es)
    ensures var s := Run(s0, es);
      && OneToken(s)
      && (s.task.Launch? ==> s.dma == Off && s.task.slice.offset + s.task.slice.len <= RING)
      && (s.task == Take ==> s.queue != [] && s.dma == Off)
      && (s.task == Wait ==> s.queue != [])
  {
    InterleavingKeeps(s0, es);
  }

  // ----- progress -----

  function QueueWork(queue: seq<Slice>): nat {
    if queue == [] then 0 else queue[0].len + 5 + QueueWork(queue[1..])
  }

  const IDLE_WORK: nat := 3

  /** How many steps of packet_tx_task, the controller and its interrupt are left, and IDLE_WORK. */
  function Work(s: Tx): nat
    requires WellFormed(s)
  {
    (if s.dma.On? then s.dma.slice.len - s.dma.done + 1 else 0)
    + (match s.task
       case Peek => IDLE_WORK
       case Wait => 2
       case Take => 1
       case Launch(c) => c.len + 5)
    + QueueWork(s.queue)
  }

  predicate OfTransmission(e: Event) {
    OfTask(e) || e.DmaByte? || e.DmaDone?
  }

  predicate Idle(s: Tx) {
    s.dma == Off && s.task == Peek && s.queue == []
  }

  lemma WorkStep(s: Tx, e: Event)
    requires WellFormed(s) && TaskInv(s) && Enabled(s, e) && OfTransmission(e)
    ensures WellFormed(After(s, e)) && Work(After(s, e)) == Work(s) - 1
    ensures After(s, e).producer == s.producer
    ensures forall p :: PortOf(After(s, e), p).begun == PortOf(s, p).begun
  {
  }

  lemma WorkLeft(s: Tx)
    requires WellFormed(s) && TaskInv(s)
    ensures Work(s) >= IDLE_WORK && (Work(s) == IDLE_WORK <==> Idle(s))
    ensures Idle(s) || exists e :: OfTransmission(e) && Enabled(s, e)
  {
    if !Idle(s) {
      var e :=
        if s.dma.On? then if s.dma.done < s.dma.slice.len then DmaByte else DmaDone
        else match s.task
          case Peek => TaskPeeks
          case Wait => TaskNotified
          case Take => TaskReceives
          case Launch(_) => TaskLaunches;
      assert OfTransmission(e) && Enabled(s, e);
    }
  }

  lemma {:induction false} WorkRun(s: Tx, fs: seq<Event>)
    requires Inv(s) && Interleaving(s, fs) && forall i :: 0 <= i < |fs| ==> OfTransmission(fs[i])
    ensures Inv(Run(s, fs)) && Work(Run(s, fs)) == Work(s) - |fs|
    ensures Run(s, fs).producer == s.producer && forall p :: PortOf(Run(s, fs), p).begun == PortOf(s, p).begun
    decreases |fs|
  {
    hide PortInv, TaskInv, After, Enabled, Work, WellFormed;
    if fs != [] {
      assert OfTransmission(fs[0]) && !fs[0].Begin?;
      WorkStep(s, fs[0]);
      StepKeeps(s, fs[0]);
      assert forall i :: 0 <= i < |fs[1..]| ==> fs[1..][i] == fs[i + 1];
      WorkRun(After(s, fs[0]), fs[1..]);
    }
  }

  lemma IdleSent(s: Tx, p: Port)
    requires Inv(s) && Idle(s) && s.producer == Resting
    ensures PortOf(s, p).sent == PortOf(s, p).begun
  {
    hide Holds;
    assert PortInv(s, p);
    assert InFlight(s) == [];
  }

  /** Progress. Once the producer rests, the steps of packet_tx_task, the controller and its interrupt can be
      taken in any order: one is possible until Work(s) - 3 of them have been taken, and then every message
      handed over has been sent on either port. */
  lemma EverythingIsSent(s0: Tx, es: seq<Event>, fs: seq<Event>)
    requires Initial(s0) && Legal(s0, es) && Run(s0, es).producer == Resting
    requires Interleaving(Run(s0, es), fs) && forall i :: 0 <= i < |fs| ==> OfTransmission(fs[i])
    ensures var s := Run(s0, es);
      var t := Run(s, fs);
      && WellFormed(s) && WellFormed(t) && |fs| <= Work(s) - IDLE_WORK
      && (|fs| < Work(s) - IDLE_WORK ==> exists e :: OfTransmission(e) && Enabled(t, e))
      && (|fs| == Work(s) - IDLE_WORK ==> forall p :: PortOf(t, p).sent == PortOf(s, p).begun)
  {
    hide PortInv, TaskInv, Enabled, Work, Run, Roomy, Interleaving, WellFormed;
    InitialInv(s0);
    RunKeeps(s0, es);
    var s := Run(s0, es);
    WorkRun(s, fs);
    var t := Run(s, fs);
    WorkLeft(t);
    if Idle(t) {
      IdleSent(t, Dbg);
      IdleSent(t, Gsm);
    }
  }

  // ----- messages short enough need no further condition -----

  const SHORT: nat := 102

  predicate ShortSlices(ss: seq<Slice>) {
    forall i :: 0 <= i < |ss| ==> ss[i].len <= SHORT
  }

  predicate ShortInv(s: Tx) {
    && ShortSlices(s.queue)
    && (s.task.Launch? ==> s.task.slice.len <= SHORT)
    && (s.dma.On? ==> s.dma.slice.len <= SHORT)
    && (s.producer.Writing? || s.producer.SecondSend? ==> |s.producer.msg| <= SHORT)
  }

  predicate ShortEvent(e: Event) {
    e.Begin? ==> 0 < |e.msg| <= SHORT
  }

  lemma {:induction false} TilesTotal(ss: seq<Slice>, p: Port, a: nat, e: nat)
    requires Tiles(ss, p, a, e) && ShortSlices(ss)
    ensures e - a <= SHORT * |ss|
  {
    if ss != [] {
      assert forall i :: 0 <= i < |ss[1..]| ==> ss[1..][i] == ss[i + 1];
      TilesTotal(ss[1..], p, if ss[0].port == p then a + ss[0].len else a, e);
    }
  }

  /** Eight queued slices and one in transit leave room for one more short message. */
  lemma ShortFits(s: Tx, p: Port)
    requires Inv(s) && ShortInv(s)
    ensures Outstanding(s, p) + SHORT <= RING
  {
    hide Holds, Tiles;
    assert PortInv(s, p);
    var ss := InFlight(s);
    assert |ss| <= QUEUE_LENGTH + 1;
    assert ShortSlices(ss);
    TilesTotal(ss, p, |PortOf(s, p).sent|, |PortOf(s, p).queued|);
  }

  lemma ShortKept(s: Tx, e: Event)
    requires WellFormed(s) && Enabled(s, e) && ShortInv(s) && ShortEvent(e)
    ensures ShortInv(After(s, e))
  {
  }

  predicate ShortRun(s: Tx, es: seq<Event>) {
    Interleaving(s, es) && forall i :: 0 <= i < |es| ==> ShortEvent(es[i])
  }

  lemma {:induction false} ShortRunLegal(s: Tx, es: seq<Event>)
    requires Inv(s) && ShortInv(s) && ShortRun(s, es)
    ensures Legal(s, es)
    decreases |es|
  {
    hide PortInv, TaskInv, After, Enabled, ShortInv;
    if es != [] {
      assert ShortEvent(es[0]);
      assert forall i :: 0 <= i < |es[1..]| ==> es[1..][i] == es[i + 1];
      if es[0].Begin? {
        ShortFits(s, es[0].port);
      }
      StepKeeps(s, es[0]);
      ShortKept(s, es[0]);
      ShortRunLegal(After(s, es[0]), es[1..]);
    }
  }

  /** Messages of 1 to 102 bytes, which all PR, FIR, ACK and NACK responses are, never overrun the ring: the
      eight-slot queue alone keeps the conservation law. */
  lemma ShortMessagesConserved(s0: Tx, es: seq<Event>, p: Port)
    requires Initial(s0) && ShortRun(s0, es)
    ensures Legal(s0, es)
    ensures var s := Run(s0, es);
      && WellFormed(s) && |PortOf(s, p).mem| == RING
      && (s.producer == Resting ==> PortOf(s, p).sent + OnTheWay(s, p) == PortOf(s, p).begun)
  {
    hide Interleaving, Roomy, Run, OnTheWay;
    InitialInv(s0);
    ShortRunLegal(s0, es);
    Conservation(s0, es, p);
  }
}
