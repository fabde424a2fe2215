/**
 The sender of bootloader.py: update_state_machine's stop-and-wait loop, as a state machine over the
 replies it reads, and the loop itself.
 */
module Host {
  import opened Bytes
  import opened Crc
  import opened CrcTheory
  import opened Protocol
  import opened Update

  const CHUNK: nat := 128

  /** Five handshake states, then FIRMWARE_UPLOAD. */
  const UPLOAD: nat := 5

  /** Where the sender stands: its state, its retry counter, the chunks read from the file so far. */
  datatype Sender = Sender(phase: nat, retry: nat, read: nat)

  const START := Sender(0, 0, 0)

  /** The i-th read(128) of the file. */
  function Chunk(file: seq<byte>, i: nat): (c: seq<byte>)
    ensures |c| <= CHUNK
    ensures c == [] <==> CHUNK * i >= |file|
  {
    if CHUNK * i >= |file| then []
    else if CHUNK * (i + 1) <= |file| then file[CHUNK * i..CHUNK * (i + 1)]
    else file[CHUNK * i..]
  }

  function Chunks(file: seq<byte>): nat {
    (|file| + CHUNK - 1) / CHUNK
  }

  /** The chunk on its way: a new one after an acknowledgement, the last one again otherwise. */
  function Current(h: Sender): nat {
    if h.retry == 0 || h.read == 0 then h.read else h.read - 1
  }

  /** The frame the sender writes next; None when its loop is over. */
  function Message(h: Sender, file: seq<byte>, id: seq<byte>): Option<seq<byte>>
    requires |file| < 0x1_0000_0000 && |id| == 4
  {
    if h.phase < UPLOAD then
      if h.retry >= 5 then None
      else Some(
        if h.phase == 0 then Frame(TAG_SYNC_REQ, [], false)
        else if h.phase == 1 then Frame(TAG_UPDATE_REQ, [], false)
        else if h.phase == 2 then Frame(TAG_DEV_ID_CHECK, id, false)
        else if h.phase == 3 then Frame(TAG_FW_UPDATE_SIZE, ToLittleEndian(|file|), false)
        else Frame(TAG_ERASE_REQ, [], false))
    else
      if h.retry > 5 || Chunk(file, Current(h)) == [] then None
      else Some(Frame(if h.retry == 0 then TAG_FW_NEW else TAG_FW_REP, Chunk(file, Current(h)), true))
  }

  /** How a response, or its absence, moves the sender. */
  function Hear(h: Sender, acked: bool): Sender {
    if h.phase < UPLOAD then
      if acked then Sender(h.phase + 1, 0, 0) else h.(retry := h.retry + 1)
    else
      Sender(h.phase, if acked then 0 else h.retry + 1, Current(h) + 1)
  }

  datatype Verdict = Accepted | Refused | Raises

  /** The response holds as many data and check bytes as its length byte announces; otherwise parsing it
      raises an exception, which ends the script. */
  predicate Parses(response: seq<byte>) {
    |response| >= 4 && |response| >= (response[1] as nat) + 4
  }

  /** The response is there, its check is zero, and its tag is ACK. */
  function Judge(response: seq<byte>): Verdict {
    if response == [] || !AllZero(Register(G16, BitsOf(response))) then Refused
    else if !Parses(response) then Raises
    else if response[0] == TAG_ACK then Accepted
    else Refused
  }

  predicate IsAck(response: seq<byte>) {
    Judge(response) == Accepted
  }

  /** The frames sent when the reads return the given responses. */
  function Conversation(h: Sender, file: seq<byte>, id: seq<byte>, responses: seq<seq<byte>>): seq<seq<byte>>
    requires |file| < 0x1_0000_0000 && |id| == 4
    decreases |responses|
  {
    if responses == [] || Message(h, file, id) == None then []
    else
      [Message(h, file, id).value]
      + if Judge(responses[0]) == Raises then []
        else Conversation(Hear(h, IsAck(responses[0])), file, id, responses[1..])
  }

  method Hears(response: seq<byte>) returns (verdict: Verdict)
    ensures verdict == Judge(response)
  {
    hide Register, BitsOf, G16;
    if |response| == 0 {
      return Refused;
    }
    var crc := HostCrc(response, 16, POLY16);
    SameGenerators();
    LowBitsZeroIff(crc, 16);
    if crc != 0 {
      verdict := Refused;
    } else if !Parses(response) {
      verdict := Raises;
    } else if response[0] == TAG_ACK {
      verdict := Accepted;
    } else {
      verdict := Refused;
    }
  }

  lemma {:induction false} LowBitsZeroIff(n: nat, w: nat)
    ensures n == NatAnd(n, Pow2(w) - 1) ==> (n == 0 <==> AllZero(LowBits(n, w)))
  {
    if n == NatAnd(n, Pow2(w) - 1) {
      if n == 0 {
        LowBitsZero(w);
      } else if w > 0 {
        NatAndMaskStep(n, w);
        LowBitsZeroIff(n / 2, w - 1);
        SplitZero(LowBits(n / 2, w - 1), [n % 2 == 1]);
        if AllZero([n % 2 == 1]) {
          assert ![n % 2 == 1][0];
        }
      }
    }
  }

  method HandshakePacket(phase: nat, size: nat, id: seq<byte>) returns (packet: seq<byte>)
    requires phase < UPLOAD && size < 0x1_0000_0000 && |id| == 4
    ensures forall file :: |file| == size ==> Message(Sender(phase, 0, 0), file, id) == Some(packet)
  {
    hide Frame;
    if phase == 0 {
      packet := HostCreatePacket(TAG_SYNC_REQ, [], false);
    } else if phase == 1 {
      packet := HostCreatePacket(TAG_UPDATE_REQ, [], false);
    } else if phase == 2 {
      packet := HostCreatePacket(TAG_DEV_ID_CHECK, id, false);
    } else if phase == 3 {
      packet := HostCreatePacket(TAG_FW_UPDATE_SIZE, ToLittleEndian(size), false);
    } else {
      packet := HostCreatePacket(TAG_ERASE_REQ, [], false);
    }
  }

  lemma RetryKeepsMessage(phase: nat, retry: nat, file: seq<byte>, id: seq<byte>)
    requires phase < UPLOAD && retry < 5 && |file| < 0x1_0000_0000 && |id| == 4
    ensures Message(Sender(phase, retry, 0), file, id) == Message(Sender(phase, 0, 0), file, id)
  {
  }

  /** The states of update_state_machine before the upload. */
  method HostHandshake(file: seq<byte>, id: seq<byte>, responses: seq<seq<byte>>)
      returns (frames: seq<seq<byte>>, phase: nat, used: nat)
    requires |file| < 0x1_0000_0000 && |id| == 4
    ensures used <= |responses| && phase <= UPLOAD
    ensures phase == UPLOAD ==>
      frames + Conversation(Sender(UPLOAD, 0, 0), file, id, responses[used..])
      == Conversation(START, file, id, responses)
    ensures phase < UPLOAD ==> frames == Conversation(START, file, id, responses)
  {
    hide IsAck, Judge, Message, Conversation;
    frames, used := [], 0;
    ghost var h := START;
    var retry;
    phase, retry := 0, 0;
    while phase < UPLOAD && retry < 5 && used < |responses|
      invariant 0 <= used <= |responses| && phase <= UPLOAD && retry <= 5
      invariant h == Sender(phase, retry, 0) && (phase == UPLOAD ==> retry == 0)
      invariant frames + Conversation(h, file, id, responses[used..]) == Conversation(START, file, id, responses)
      decreases |responses| - used
    {
      var packet := HandshakePacket(phase, |file|, id);
      RetryKeepsMessage(phase, retry, file, id);
      ConversationStep(h, file, id, responses[used..], packet);
      assert responses[used..][1..] == responses[used + 1..];
      frames := frames + [packet];
      var verdict := Hears(responses[used]);
      if verdict == Raises {
        return;
      }
      JudgedAck(responses[used]);
      h := Hear(h, verdict == Accepted);
      if verdict == Accepted {
        retry := 0;
        phase := phase + 1;
      } else {
        retry := retry + 1;
      }
      used := used + 1;
    }
    if phase < UPLOAD {
      HandshakeOver(h, file, id);
      ConversationEnd(h, file, id, responses[used..]);
    }
  }

  lemma JudgedAck(response: seq<byte>)
    ensures IsAck(response) <==> Judge(response) == Accepted
  {
    hide Judge;
  }

  lemma HandshakeOver(h: Sender, file: seq<byte>, id: seq<byte>)
    requires |file| < 0x1_0000_0000 && |id| == 4 && h.phase < UPLOAD
    ensures h.retry >= 5 ==> Message(h, file, id) == None
  {
  }

  /** A pass of the upload loop: the chunk and the packet it sends, and where it leaves the sender. */
  lemma UploadRound(h: Sender, file: seq<byte>, id: seq<byte>, chunk: seq<byte>)
    requires |file| < 0x1_0000_0000 && |id| == 4 && h.phase == UPLOAD && (h.retry > 0 ==> h.read > 0)
    requires chunk == Chunk(file, if h.retry == 0 then h.read else h.read - 1)
    ensures h.retry > 5 || chunk == [] ==> Message(h, file, id) == None
    ensures h.retry <= 5 && chunk != [] ==>
      Message(h, file, id) == Some(Frame(if h.retry == 0 then TAG_FW_NEW else TAG_FW_REP, chunk, true))
    ensures Hear(h, true) == Sender(UPLOAD, 0, if h.retry == 0 then h.read + 1 else h.read)
    ensures Hear(h, false) == Sender(UPLOAD, h.retry + 1, if h.retry == 0 then h.read + 1 else h.read)
  {
    hide Frame, Chunk;
  }

  /** The FIRMWARE_UPLOAD loop. */
  method FirmwareUpload(file: seq<byte>, id: seq<byte>, responses: seq<seq<byte>>) returns (frames: seq<seq<byte>>)
    requires |file| < 0x1_0000_0000 && |id| == 4
    ensures frames == Conversation(Sender(UPLOAD, 0, 0), file, id, responses)
  {
    hide IsAck, Judge, Conversation, Frame, Message, Hear, Chunk;
    frames := [];
    ghost var start := Sender(UPLOAD, 0, 0);
    ghost var h := start;
    var chunk: seq<byte>, read, retry, i := [], 0, 0, 0;
    while i < |responses| && retry <= 5
      invariant 0 <= i <= |responses|
      invariant h == Sender(UPLOAD, retry, read) && (retry > 0 ==> read > 0 && chunk == Chunk(file, read - 1))
      invariant frames + Conversation(h, file, id, responses[i..]) == Conversation(start, file, id, responses)
      decreases |responses| - i
    {
      if retry == 0 {
        chunk := Chunk(file, read);
        read := read + 1;
      }
      UploadRound(h, file, id, chunk);
      if |chunk| == 0 {
        break;
      }
      var packet := HostCreatePacket(if retry == 0 then TAG_FW_NEW else TAG_FW_REP, chunk, true);
      ConversationStep(h, file, id, responses[i..], packet);
      assert responses[i..][1..] == responses[i + 1..];
      frames := frames + [packet];
      var verdict := Hears(responses[i]);
      if verdict == Raises {
        return;
      }
      JudgedAck(responses[i]);
      h := Hear(h, verdict == Accepted);
      if verdict == Accepted {
        retry := 0;
      } else {
        retry := retry + 1;
      }
      i := i + 1;
    }
    if retry > 5 {
      UploadRound(h, file, id, chunk);
    }
    ConversationEnd(h, file, id, responses[i..]);
  }

  /** update_state_machine, for as many rounds as there are responses. */
  method HostUpdate(file: seq<byte>, id: seq<byte>, responses: seq<seq<byte>>) returns (frames: seq<seq<byte>>)
    requires |file| < 0x1_0000_0000 && |id| == 4
    ensures frames == Conversation(START, file, id, responses)
  {
    var phase, used;
    frames, phase, used := HostHandshake(file, id, responses);
    if phase == UPLOAD {
      var rest := FirmwareUpload(file, id, responses[used..]);
      frames := frames + rest;
    }
  }

  lemma ConversationStep(h: Sender, file: seq<byte>, id: seq<byte>, responses: seq<seq<byte>>, packet: seq<byte>)
    requires |file| < 0x1_0000_0000 && |id| == 4
    requires responses != [] && Message(h, file, id) == Some(packet)
    ensures Conversation(h, file, id, responses)
         == [packet] + if Judge(responses[0]) == Raises then []
                       else Conversation(Hear(h, IsAck(responses[0])), file, id, responses[1..])
  {
    hide Judge, Message;
  }

  lemma ConversationEnd(h: Sender, file: seq<byte>, id: seq<byte>, responses: seq<seq<byte>>)
    requires |file| < 0x1_0000_0000 && |id| == 4
    requires responses == [] || Message(h, file, id) == None
    ensures Conversation(h, file, id, responses) == []
  {
  }

  // ----- how often the sender tries -----

  predicate AllJudged(responses: seq<seq<byte>>, verdict: Verdict) {
    forall i :: 0 <= i < |responses| ==> Judge(responses[i]) == verdict
  }

  function Repeated(frame: seq<byte>, n: nat): (frames: seq<seq<byte>>)
    ensures |frames| == n
  {
    seq(n, _ => frame)
  }

  function Least(a: nat, b: nat): nat {
    if a < b then a else b
  }

  lemma AllJudgedRest(responses: seq<seq<byte>>, verdict: Verdict)
    requires AllJudged(responses, verdict) && responses != []
    ensures Judge(responses[0]) == verdict && AllJudged(responses[1..], verdict)
    ensures IsAck(responses[0]) <==> verdict == Accepted
  {
    hide Judge;
  }

  /** When nothing is accepted a request is sent five times, and the script gives up. */
  lemma {:induction false} FiveTries(phase: nat, retry: nat, file: seq<byte>, id: seq<byte>, responses: seq<seq<byte>>)
    requires phase < UPLOAD && retry <= 5 && |file| < 0x1_0000_0000 && |id| == 4 && AllJudged(responses, Refused)
    ensures Message(Sender(phase, 0, 0), file, id).Some?
    ensures Conversation(Sender(phase, retry, 0), file, id, responses)
         == Repeated(Message(Sender(phase, 0, 0), file, id).value, Least(|responses|, 5 - retry))
    decreases |responses|
  {
    hide IsAck, Judge, Frame, ToLittleEndian, AllJudged, Conversation;
    var h := Sender(phase, retry, 0);
    if responses == [] || retry == 5 {
      ConversationEnd(h, file, id, responses);
    } else {
      AllJudgedRest(responses, Refused);
      RetryKeepsMessage(phase, retry, file, id);
      ConversationStep(h, file, id, responses, Message(h, file, id).value);
      FiveTries(phase, retry + 1, file, id, responses[1..]);
    }
  }

  /** When nothing is accepted any more a chunk is sent once as FW_NEW and five times as FW_REP, and the script
      gives up. */
  lemma {:induction false} SixTries(retry: nat, read: nat, file: seq<byte>, id: seq<byte>, responses: seq<seq<byte>>)
    requires 0 < retry <= 6 && read > 0 && Chunk(file, read - 1) != []
    requires |file| < 0x1_0000_0000 && |id| == 4 && AllJudged(responses, Refused)
    ensures Conversation(Sender(UPLOAD, retry, read), file, id, responses)
         == Repeated(Frame(TAG_FW_REP, Chunk(file, read - 1), true), Least(|responses|, 6 - retry))
    decreases |responses|
  {
    hide IsAck, Judge, Frame, AllJudged, Conversation, Message, Chunk, Hear;
    var h := Sender(UPLOAD, retry, read);
    UploadRound(h, file, id, Chunk(file, read - 1));
    if responses == [] || retry == 6 {
      ConversationEnd(h, file, id, responses);
    } else {
      AllJudgedRest(responses, Refused);
      ConversationStep(h, file, id, responses, Message(h, file, id).value);
      SixTries(retry + 1, read, file, id, responses[1..]);
    }
  }

  lemma FirstTry(read: nat, file: seq<byte>, id: seq<byte>, responses: seq<seq<byte>>)
    requires Chunk(file, read) != [] && responses != []
    requires |file| < 0x1_0000_0000 && |id| == 4 && AllJudged(responses, Refused)
    ensures Conversation(Sender(UPLOAD, 0, read), file, id, responses)
         == [Frame(TAG_FW_NEW, Chunk(file, read), true)]
          + Conversation(Sender(UPLOAD, 1, read + 1), file, id, responses[1..])
  {
    hide IsAck, Judge, Frame, AllJudged, Conversation, Message, Chunk, Hear;
    var h := Sender(UPLOAD, 0, read);
    UploadRound(h, file, id, Chunk(file, read));
    AllJudgedRest(responses, Refused);
    ConversationStep(h, file, id, responses, Message(h, file, id).value);
  }

  lemma ChunkTries(read: nat, file: seq<byte>, id: seq<byte>, responses: seq<seq<byte>>)
    requires Chunk(file, read) != [] && responses != []
    requires |file| < 0x1_0000_0000 && |id| == 4 && AllJudged(responses, Refused)
    ensures Conversation(Sender(UPLOAD, 0, read), file, id, responses)
         == [Frame(TAG_FW_NEW, Chunk(file, read), true)]
          + Repeated(Frame(TAG_FW_REP, Chunk(file, read), true), Least(|responses| - 1, 5))
  {
    hide *;
    var rest := responses[1..];
    AllJudgedRest(responses, Refused);
    FirstTry(read, file, id, responses);
    SixTries(1, read + 1, file, id, rest);
  }

  /** What the script sends when everything is accepted: five requests, and the file in chunks of 128 bytes. */
  function Script(file: seq<byte>, id: seq<byte>): (frames: seq<seq<byte>>)
    requires |file| < 0x1_0000_0000 && |id| == 4
    ensures |frames| == UPLOAD + Chunks(file)
  {
    [ Frame(TAG_SYNC_REQ, [], false), Frame(TAG_UPDATE_REQ, [], false), Frame(TAG_DEV_ID_CHECK, id, false),
      Frame(TAG_FW_UPDATE_SIZE, ToLittleEndian(|file|), false), Frame(TAG_ERASE_REQ, [], false) ]
    + seq(Chunks(file), i requires 0 <= i < Chunks(file) => Frame(TAG_FW_NEW, Chunk(file, i), true))
  }

  /** The sender after j accepted frames. */
  function Position(j: nat): Sender {
    if j < UPLOAD then Sender(j, 0, 0) else Sender(UPLOAD, 0, j - UPLOAD)
  }

  lemma ScriptMessage(j: nat, file: seq<byte>, id: seq<byte>)
    requires |file| < 0x1_0000_0000 && |id| == 4 && j <= UPLOAD + Chunks(file)
    ensures Message(Position(j), file, id)
         == if j < UPLOAD + Chunks(file) then Some(Script(file, id)[j]) else None
    ensures Hear(Position(j), true) == Position(j + 1)
  {
    hide Frame, ToLittleEndian;
  }

  lemma {:induction false} AcceptedScript(j: nat, file: seq<byte>, id: seq<byte>, responses: seq<seq<byte>>)
    requires |file| < 0x1_0000_0000 && |id| == 4 && j <= UPLOAD + Chunks(file) && AllJudged(responses, Accepted)
    ensures Conversation(Position(j), file, id, responses)
         == Script(file, id)[j..j + Least(|responses|, UPLOAD + Chunks(file) - j)]
    decreases |responses|
  {
    hide IsAck, Judge, AllJudged, Conversation, Message, Script, Position, Chunks, Hear;
    ScriptMessage(j, file, id);
    if responses == [] || j == UPLOAD + Chunks(file) {
      ConversationEnd(Position(j), file, id, responses);
    } else {
      AllJudgedRest(responses, Accepted);
      var script := Script(file, id);
      ConversationStep(Position(j), file, id, responses, script[j]);
      AcceptedScript(j + 1, file, id, responses[1..]);
      var n := Least(|responses|, UPLOAD + Chunks(file) - j);
      assert script[j..j + n] == [script[j]] + script[j + 1..j + n];
    }
  }

  // ----- the replies of the device -----

  /** n zero bits into the 16-bit register. */
  function ZeroSteps(r: bv16, n: nat): bv16 {
    if n == 0 then r else Next16(ZeroSteps(r, n - 1), false, 0x8005)
  }

  lemma {:induction false} ZeroStepsRegister(r: bv16, m: Bits, n: nat)
    requires Bits16(r) == Register(G16, m)
    ensures Bits16(ZeroSteps(r, n)) == Register(G16, m + Zeros(n))
  {
    hide Register, Next16, G16, Bits16;
    if n == 0 {
      assert m + Zeros(0) == m;
    } else {
      ZeroStepsRegister(r, m, n - 1);
      assert m + Zeros(n) == (m + Zeros(n - 1)) + [false];
      RegisterSnoc(G16, m + Zeros(n - 1), false);
      Step16(ZeroSteps(r, n - 1), false, 0x8005);
      Generator16();
    }
  }

  lemma AckSteps()
    ensures ZeroSteps(0x0400, 16) == 0x9803
  {
    var r := 0x0400 as bv16;
    assert ZeroSteps(r, 0) == 0x0400; assert ZeroSteps(r, 1) == 0x0800; assert ZeroSteps(r, 2) == 0x1000;
    assert ZeroSteps(r, 3) == 0x2000; assert ZeroSteps(r, 4) == 0x4000; assert ZeroSteps(r, 5) == 0x8000;
    assert ZeroSteps(r, 6) == 0x8005; assert ZeroSteps(r, 7) == 0x800F; assert ZeroSteps(r, 8) == 0x801B;
    assert ZeroSteps(r, 9) == 0x8033; assert ZeroSteps(r, 10) == 0x8063; assert ZeroSteps(r, 11) == 0x80C3;
    assert ZeroSteps(r, 12) == 0x8183; assert ZeroSteps(r, 13) == 0x8303; assert ZeroSteps(r, 14) == 0x8603;
    assert ZeroSteps(r, 15) == 0x8C03;
  }

  lemma NackSteps()
    ensures ZeroSteps(0x0500, 16) == 0x1E00
  {
    var r := 0x0500 as bv16;
    assert ZeroSteps(r, 0) == 0x0500; assert ZeroSteps(r, 1) == 0x0A00; assert ZeroSteps(r, 2) == 0x1400;
    assert ZeroSteps(r, 3) == 0x2800; assert ZeroSteps(r, 4) == 0x5000; assert ZeroSteps(r, 5) == 0xA000;
    assert ZeroSteps(r, 6) == 0xC005; assert ZeroSteps(r, 7) == 0x000F; assert ZeroSteps(r, 8) == 0x001E;
    assert ZeroSteps(r, 9) == 0x003C; assert ZeroSteps(r, 10) == 0x0078; assert ZeroSteps(r, 11) == 0x00F0;
    assert ZeroSteps(r, 12) == 0x01E0; assert ZeroSteps(r, 13) == 0x03C0; assert ZeroSteps(r, 14) == 0x0780;
    assert ZeroSteps(r, 15) == 0x0F00;
  }

  lemma TwoBytes(hi: byte, lo: byte, c: bv16)
    requires Halves16(c, hi, lo)
    ensures BitsOf([hi, lo]) == Bits16(c)
  {
    hide Bits16, ByteBits, Halves16;
    assert [hi, lo] == [hi] + [lo];
    BitsOfConcat([hi], [lo]);
    BitsOfSingle(hi);
    BitsOfSingle(lo);
    Bits16Bytes(c, hi, lo);
  }

  lemma ReplyFrame(tag: byte, start: bv16, end: bv16, hi: byte, lo: byte)
    requires Halves16(start, tag, 0) && Halves16(end, hi, lo) && ZeroSteps(start, 16) == end
    ensures Frame(tag, [], false) == [tag, 0, hi, lo]
  {
    hide Register, Pack, BitsOf, ZeroSteps, Bits16, Halves16, ByteBits;
    TwoBytes(tag, 0, start);
    var m := BitsOf([tag, 0]);
    RegisterShort(G16, 0, m);
    assert Zeros(0) + m == m;
    ZeroStepsRegister(start, m, 16);
    BitsOfConcat([tag, 0], ZeroBytes(2));
    BitsOfZeros(2);
    assert Header(tag, []) + [] + ZeroBytes(2) == [tag, 0] + ZeroBytes(2);
    Bits16Bytes(end, hi, lo);
    PackTwo(hi, lo);
    assert Header(tag, []) + [] + [hi, lo] == [tag, 0, hi, lo];
  }

  /** The replies compiled into the firmware carry the right check bytes. */
  lemma ReplyPacketsAreFrames()
    ensures ACK_PACKET == Frame(TAG_ACK, [], false)
    ensures NACK_PACKET == Frame(TAG_NACK, [], false)
  {
    hide ZeroSteps, Frame;
    AckSteps();
    ReplyFrame(TAG_ACK, 0x0400, 0x9803, 152, 3);
    NackSteps();
    ReplyFrame(TAG_NACK, 0x0500, 0x1E00, 30, 0);
  }

  /** The sender tells the replies apart. */
  lemma AckRecognized(r: Reply)
    ensures IsAck(ReplyBytes(r)) <==> r == Ack
  {
    hide Register, Frame;
    ReplyPacketsAreFrames();
    FrameValid(TAG_ACK, [], false);
  }

  // ----- damaged replies -----

  /** An acknowledgement of any length, damaged on its way, is refused. */
  lemma DamagedAckRefused(tag: byte, data: seq<byte>, r: seq<byte>)
    requires |data| < 0x100 && Damaged(Frame(tag, data, false), r, false)
    ensures Judge(r) == Refused && !IsAck(r)
  {
    hide Register, BitsOf, Frame, AllZero;
    var f := Frame(tag, data, false);
    FrameExact(tag, data);
    DamagedShape(f, r, false);
    DamagedInvalid(f, r, false);
    WholeResponse(r);
  }

  lemma FrameExact(tag: byte, data: seq<byte>)
    requires |data| < 0x100
    ensures var f := Frame(tag, data, false);
      Exact(f, false) && Valid(f, false)
  {
    hide Frame, Valid, Extract;
    var f := Frame(tag, data, false);
    var rest: seq<byte> := seq(SPAN, _ => 0);
    FrameRoundTrip(tag, data, false, f + rest);
    assert (f + rest)[1] == f[1];
    ValidPrefix(f, f + rest, false);
  }

  /** For a response as long as it announces, the script's test is the device's. */
  lemma WholeResponse(r: seq<byte>)
    requires Exact(r, false)
    ensures Valid(r, false) <==> AllZero(Register(G16, BitsOf(r)))
    ensures Judge(r) == (if !Valid(r, false) then Refused else if r[0] == TAG_ACK then Accepted else Refused)
  {
    hide Register, BitsOf, AllZero, G16;
    assert r[..|r|] == r;
  }

  /** Of all responses of four bytes, the script takes one for an acknowledgement. */
  lemma FourByteAck(r: seq<byte>)
    requires |r| == 4
    ensures IsAck(r) <==> r == [4, 0, 152, 3]
  {
    hide Register, BitsOf, Frame, AllZero, Valid, Difference;
    ReplyPacketsAreFrames();
    FrameExact(TAG_ACK, []);
    var ack: seq<byte> := [4, 0, 152, 3];
    assert Frame(TAG_ACK, [], false) == ack;
    if IsAck(r) {
      AckLooks(r);
      WholeResponse(r);
      SameStart(ack, r);
      var d := Difference(ack, r);
      DifferenceLength(ack, r);
      var b := d[16..];
      assert d == Zeros(16) + b + Zeros(0);
      Crc16BurstDetection(ack, r, 16, b, 0);
    } else if r == ack {
      WholeResponse(r);
    }
  }

  lemma AckLooks(r: seq<byte>)
    requires |r| == 4 && IsAck(r)
    ensures r[0] == 4 && r[1] == 0 && Exact(r, false) && Valid(r, false)
  {
    hide Register, BitsOf, AllZero;
    assert r[..4] == r;
    ByteIsZero(r[1]);
  }

  lemma ByteIsZero(b: byte)
    ensures b as nat <= 0 <==> b == 0
  {
  }

  lemma SameStart(f: seq<byte>, r: seq<byte>)
    requires |f| == |r| == 4 && f[0] == r[0] && f[1] == r[1]
    ensures |Difference(f, r)| == 32 && Difference(f, r)[..16] == Zeros(16)
  {
    hide ByteBits;
    assert f == f[..2] + f[2..] && r == r[..2] + r[2..] && f[..2] == r[..2];
    BitsOfConcat(f[..2], f[2..]);
    BitsOfConcat(r[..2], r[2..]);
  }

  /** NACK ends in a zero byte, so its first three bytes pass the test as well; parsing them ends the script. */
  lemma TruncatedNackRaises()
    ensures Judge([5, 0, 30]) == Raises
  {
    hide Register, BitsOf, Frame, AllZero;
    ReplyPacketsAreFrames();
    FrameExact(TAG_NACK, []);
    var nack: seq<byte>, cut: seq<byte> := [5, 0, 30, 0], [5, 0, 30];
    assert nack == cut + ZeroBytes(1);
    WholeResponse(nack);
    BitsOfConcat(cut, ZeroBytes(1));
    BitsOfZeros(1);
    TrailingZeros(G16, BitsOf(cut), 8);
  }

  /** What the script can read when the device sends a reply: the reply, nothing, or the reply damaged. */
  predicate Reaches(sent: seq<byte>, response: seq<byte>) {
    response == sent || response == [] || Damaged(sent, response, false)
  }

  /** The script moves on exactly when the device sent ACK and it came through. */
  lemma HeardAck(reply: Reply, response: seq<byte>)
    requires Reaches(ReplyBytes(reply), response)
    ensures IsAck(response) <==> reply == Ack && response == ReplyBytes(Ack)
    ensures Judge(response) != Raises
  {
    hide Damaged, Frame, Register, BitsOf, AllZero;
    ReplyPacketsAreFrames();
    if response == [] {
    } else if response == ReplyBytes(reply) {
      AckRecognized(reply);
    } else {
      DamagedShape(ReplyBytes(reply), response, false);
      DamagedAckRefused(if reply == Ack then TAG_ACK else TAG_NACK, [], response);
      AckRecognized(Ack);
    }
  }
}
