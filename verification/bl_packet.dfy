/**
 The bootloader's receive path (src/bl/bl-packet.c): the DMA controller fills a circular 256-byte buffer,
 an idle-line interrupt per frame moves what arrived to the front of the packet buffer.
 */
module BlPacket {
  import opened Bytes
  import opened RingBuffers
  import opened Usart

  const PACKET_BUFFER: nat := 255

  /** A serial port as the DMA controller sees it: its ring, and the transfers left before the wrap. */
  class Receiver {
    const ring: RingBuffer
    var ndtr: nat

    ghost predicate Valid() reads this, ring {
      ring.Valid() && ring.len == DMA_RX_BUFFER_SIZE && 0 < ndtr <= DMA_RX_BUFFER_SIZE
    }

    /** The cell the controller writes next. */
    function Position(): nat reads this {
      (DMA_RX_BUFFER_SIZE - ndtr) % DMA_RX_BUFFER_SIZE
    }

    /** Everything received so far has been taken out of the ring. */
    ghost predicate Drained() reads this, ring {
      Valid() && ring.head == ring.tail == Position()
    }

    constructor (storage: array<byte>)
      requires storage.Length == DMA_RX_BUFFER_SIZE
      ensures Drained() && fresh(ring) && ring.buffer == storage
    {
      assert DMA_RX_BUFFER_SIZE == Pow2(8);
      var r := new RingBuffer(storage);
      ring := r;
      ndtr := DMA_RX_BUFFER_SIZE;
    }

    /** The controller stores the bytes of a frame; nothing else happens until the line falls idle. */
    method Transfer(frame: seq<byte>)
      requires Valid()
      modifies this`ndtr, ring.buffer
      ensures Valid()
      ensures ring.buffer[..] == Written(old(ring.buffer[..]), old(Position()), frame)
      ensures Position() == (old(Position()) + |frame|) % DMA_RX_BUFFER_SIZE
    {
      hide Written;
      ghost var m, p := ring.buffer[..], Position();
      NothingWritten(m, p, frame);
      for i := 0 to |frame|
        invariant Valid()
        invariant ring.buffer[..] == Written(m, p, frame[..i])
        invariant Position() == (p + i) % DMA_RX_BUFFER_SIZE
      {
        WrittenSnoc(m, p, frame, i);
        NextPosition(p + i, ndtr);
        ring.buffer[DMA_RX_BUFFER_SIZE - ndtr] := frame[i];
        ndtr := if ndtr == 1 then DMA_RX_BUFFER_SIZE else ndtr - 1;
      }
      assert frame[..|frame|] == frame;
    }

    /** res_usart_dma_get_buffer_tail */
    function BufferTail(): nat reads this
      requires ndtr <= DMA_RX_BUFFER_SIZE
    {
      DMA_RX_BUFFER_SIZE - ndtr
    }

    /** The body of both idle-line interrupts. */
    method Drain(dest: array<byte>, ghost frame: seq<byte>, ghost before: seq<byte>) returns (len: nat)
      requires Valid() && dest != ring.buffer && dest.Length >= PACKET_BUFFER
      requires |before| == DMA_RX_BUFFER_SIZE && ring.buffer[..] == Written(before, ring.head, frame)
      requires Position() == (ring.head + |frame|) % DMA_RX_BUFFER_SIZE
      modifies ring, dest
      ensures Drained() && Position() == old(Position()) && ring.buffer[..] == old(ring.buffer[..])
      ensures len == |frame| % DMA_RX_BUFFER_SIZE
      ensures dest[..len] == LastMod(frame, DMA_RX_BUFFER_SIZE) && dest[len..] == old(dest[len..])
    {
      hide Written, LastMod, IsPow2, MaskedLength;
      ring.tail := BufferTail();
      SmallMod(DMA_RX_BUFFER_SIZE - ndtr, DMA_RX_BUFFER_SIZE);
      SpanWritten(before, ring.head, ring.head, frame);
      assert Span(before, ring.head, ring.head) + frame == frame;
      len := MaskedLength(ring.head, ring.tail);
      MaskedLengthIsCount(ring.head, ring.tail);
      ghost var all := ring.Contents();
      var n := ring.ReadChunk(dest, 0, len);
      assert all[..n] == all && all[n..] == [];
    }
  }

  lemma NothingWritten(m: seq<byte>, p: nat, frame: seq<byte>)
    requires p < |m|
    ensures Written(m, p, frame[..0]) == m && p == (p + 0) % |m|
  {
    SmallMod(p, |m|);
  }

  lemma NextPosition(x: nat, ndtr: nat)
    requires 0 < ndtr <= DMA_RX_BUFFER_SIZE
    requires (DMA_RX_BUFFER_SIZE - ndtr) % DMA_RX_BUFFER_SIZE == x % DMA_RX_BUFFER_SIZE
    ensures var next := if ndtr == 1 then DMA_RX_BUFFER_SIZE else ndtr - 1;
      (DMA_RX_BUFFER_SIZE - next) % DMA_RX_BUFFER_SIZE == (x + 1) % DMA_RX_BUFFER_SIZE
    ensures DMA_RX_BUFFER_SIZE - ndtr == x % DMA_RX_BUFFER_SIZE
  {
  }

  /** (DMA_RX_BUFFER_SIZE - 1) & (tail - head), in unsigned 32-bit arithmetic */
  function MaskedLength(head: nat, tail: nat): nat
    requires head <= tail + 0x1_0000_0000
  {
    NatAnd(if tail >= head then tail - head else tail + 0x1_0000_0000 - head, DMA_RX_BUFFER_SIZE - 1)
  }

  /** The masked difference is the number of bytes in the ring. */
  lemma MaskedLengthIsCount(head: nat, tail: nat)
    requires head < DMA_RX_BUFFER_SIZE && tail < DMA_RX_BUFFER_SIZE
    ensures MaskedLength(head, tail) == Count(DMA_RX_BUFFER_SIZE, head, tail)
  {
    var n := DMA_RX_BUFFER_SIZE;
    assert n == Pow2(8);
    if tail >= head {
      MaskIsMod(tail - head, 8);
      SmallMod(tail - head, n);
    } else {
      var x := tail + 0x1_0000_0000 - head;
      MaskIsMod(x, 8);
      RemainderIs(x, n, 0xFF_FFFF, n - head + tail);
    }
  }

  class Mailbox {
    const dbg: Receiver
    const gsm: Receiver
    const buffer: array<byte>
    var comm: Port
    var packetReceived: bool

    ghost predicate Valid() reads this, dbg, gsm, dbg.ring, gsm.ring {
      && dbg.Drained() && gsm.Drained() && dbg != gsm && dbg.ring != gsm.ring
      && dbg.ring.buffer != gsm.ring.buffer && buffer != dbg.ring.buffer && buffer != gsm.ring.buffer
      && buffer.Length >= PACKET_BUFFER
    }

    /** packet_init */
    constructor (dbgRx: Receiver, gsmRx: Receiver, packets: array<byte>)
      requires dbgRx.Drained() && gsmRx.Drained() && dbgRx != gsmRx && dbgRx.ring != gsmRx.ring
      requires dbgRx.ring.buffer != gsmRx.ring.buffer
      requires packets != dbgRx.ring.buffer && packets != gsmRx.ring.buffer && packets.Length >= PACKET_BUFFER
      ensures Valid() && !packetReceived
    {
      dbg, gsm, buffer := dbgRx, gsmRx, packets;
      comm, packetReceived := Dbg, false;
    }

    /**
     usart1_isr and usart2_isr, after a frame of any length came in: the front of the packet buffer holds its
     last |frame| mod 256 bytes, wherever it wrapped in the ring, and the ring is drained again.
     */
    method FrameReceived(port: Port, frame: seq<byte>) returns (len: nat)
      requires Valid()
      modifies this, dbg, gsm, dbg.ring, gsm.ring, dbg.ring.buffer, gsm.ring.buffer, buffer
      ensures Valid() && packetReceived && comm == port
      ensures len == |frame| % DMA_RX_BUFFER_SIZE
      ensures buffer[..len] == LastMod(frame, DMA_RX_BUFFER_SIZE)
      ensures buffer[len..] == old(buffer[len..])
      ensures var rx, other := if port == Dbg then dbg else gsm, if port == Dbg then gsm else dbg;
        && rx.ring.buffer[..] == Written(old(rx.ring.buffer[..]), old(rx.Position()), frame)
        && rx.Position() == (old(rx.Position()) + |frame|) % DMA_RX_BUFFER_SIZE
        && other.ring.buffer[..] == old(other.ring.buffer[..]) && other.Position() == old(other.Position())
    {
      hide Written;
      var rx := gsm;
      if port == Dbg {
        rx := dbg;
      }
      ghost var before := rx.ring.buffer[..];
      rx.Transfer(frame);
      len := rx.Drain(buffer, frame, before);
      comm := port;
      packetReceived := true;
    }

    /** bl_packet_received: a packet is handed out once. */
    method Received() returns (got: bool)
      modifies this`packetReceived
      ensures got == old(packetReceived) && !packetReceived
    {
      got := packetReceived;
      packetReceived := false;
    }

    /** A run of frames, each taken from the mailbox before the next one arrives, comes out as it went in. */
    method ReceiveRun(ports: seq<Port>, frames: seq<seq<byte>>) returns (packets: seq<seq<byte>>)
      requires Valid() && |ports| == |frames|
      requires forall i :: 0 <= i < |frames| ==> 0 < |frames[i]| < DMA_RX_BUFFER_SIZE
      modifies this, dbg, gsm, dbg.ring, gsm.ring, dbg.ring.buffer, gsm.ring.buffer, buffer
      ensures Valid() && packets == frames
    {
      packets := [];
      for i := 0 to |frames|
        invariant Valid() && packets == frames[..i]
      {
        var len := FrameReceived(ports[i], frames[i]);
        WholeFrameIff(frames[i]);
        var got := Received();
        packets := packets + [buffer[..len]];
      }
    }
  }

  /** A frame survives the trip if and only if it is shorter than the DMA buffer. */
  lemma WholeFrameIff(frame: seq<byte>)
    ensures LastMod(frame, DMA_RX_BUFFER_SIZE) == frame <==> |frame| < DMA_RX_BUFFER_SIZE
  {
    if |frame| < DMA_RX_BUFFER_SIZE {
      SmallMod(|frame|, DMA_RX_BUFFER_SIZE);
    }
  }
}
