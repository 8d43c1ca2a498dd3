/** The two programs of the link side by side: what the PC sender
    (`Sender`) puts on the line against what the MSX receiver (`Receiver`)
    accepts from it, and what the sender makes of the receiver's
    acknowledgements. */
module Link {
  import opened Wrappers
  import Bytes
  import Protocol
  import Xmodem
  import X25
  import Catalogue
  import Receiver
  import Sender

  // ---------------------------------------------------------------------
  // Header layout

  /** The header layout agrees on both sides: the receiver reads back the
      name the sender stored, with the 0 that ends it, and the low 32 bits
      of the file length. */
  lemma HeaderFieldsRoundTrip(name: string, length: nat)
    requires |name| < Protocol.NameFieldSize
    ensures Sender.EncodeHeader(name, length).Success?
    ensures var h := Receiver.ParseHeader(Sender.EncodeHeader(name, length).value);
      && h.name[..|name|] == Sender.Ascii(name)
      && h.name[|name|] == 0
      && h.fileSize == length % 0x1_0000_0000
  {
  }

  // ---------------------------------------------------------------------
  // Checksums: the sender's frames as written

  /** A sender frame passes the receiver's check exactly when the two
      different CRCs happen to agree on the chunk. */
  lemma SenderFrameVerdict(chunk: seq<bv8>)
    requires 1 <= |chunk| <= Protocol.MaxChunkSize
    ensures |Sender.Frame(chunk)| == |chunk| + Protocol.CrcSize
    ensures Receiver.FrameOk(Sender.Frame(chunk), |chunk|) <==> Xmodem.Crc(chunk) == X25.Checksum(chunk)
  {
    var frame := Sender.Frame(chunk);
    Bytes.Le16RoundTrip(X25.Checksum(chunk));
    assert frame[..|chunk|] == chunk;
    assert frame[|chunk|] == Bytes.Le16(X25.Checksum(chunk))[0];
    assert frame[|chunk| + 1] == Bytes.Le16(X25.Checksum(chunk))[1];
  }

  /** A sender header passes the receiver's gate exactly when the two CRCs
      agree on its first 17 bytes. */
  lemma SenderHeaderVerdict(name: string, length: nat)
    requires |name| < Protocol.HeaderSize
    ensures Sender.EncodeHeader(name, length).Success?
    ensures var raw := Sender.EncodeHeader(name, length).value;
      Receiver.HeaderValid(raw) <==> Xmodem.Crc(raw[..17]) == X25.Checksum(raw[..17])
  {
  }

  /** The frame the sender makes of the nine check bytes "123456789" fails
      the receiver's check: CRC-16/XMODEM gives 0x31C3, the sender's CRC
      gives 0x906E and sends it as 0x6E90. */
  lemma SenderFrameRejected()
    ensures !Receiver.FrameOk(Sender.Frame(Catalogue.CheckInput), |Catalogue.CheckInput|)
  {
    Xmodem.CheckValue();
    X25.CheckValue();
    SenderFrameVerdict(Catalogue.CheckInput);
  }

  // ---------------------------------------------------------------------
  // Checksums: frames carrying the receiver's CRC

  /** A chunk followed by its CRC-16/XMODEM, low byte first. */
  function XmodemFrame(chunk: seq<bv8>): (r: seq<bv8>)
    ensures |r| == |chunk| + Protocol.CrcSize
  {
    chunk + Bytes.Le16(Xmodem.Crc(chunk))
  }

  /** Every such frame passes the receiver's check and hands the chunk
      back. */
  lemma XmodemFrameAccepted(chunk: seq<bv8>)
    requires 1 <= |chunk| <= Protocol.MaxChunkSize
    ensures Receiver.FrameOk(XmodemFrame(chunk), |chunk|)
    ensures XmodemFrame(chunk)[..|chunk|] == chunk
  {
    var frame := XmodemFrame(chunk);
    Bytes.Le16RoundTrip(Xmodem.Crc(chunk));
    assert frame[..|chunk|] == chunk;
    assert frame[|chunk|] == Bytes.Le16(Xmodem.Crc(chunk))[0];
    assert frame[|chunk| + 1] == Bytes.Le16(Xmodem.Crc(chunk))[1];
  }

  /** The sender's header layout with the receiver's CRC over the first 17
      bytes. */
  function XmodemHeader(name: string, length: nat): (r: seq<bv8>)
    requires |name| < Protocol.HeaderSize
    ensures |r| == Protocol.HeaderSize
  {
    var body := Sender.NameField(name) + Bytes.Le32(length);
    body + Bytes.Le16(Xmodem.Crc(body))
  }

  /** Such a header passes the receiver's gate, announces the length
      modulo 2^32, and carries the name when it fits the name field. */
  lemma XmodemHeaderAccepted(name: string, length: nat)
    requires |name| < Protocol.HeaderSize
    ensures Receiver.HeaderValid(XmodemHeader(name, length))
    ensures Receiver.ParseHeader(XmodemHeader(name, length)).fileSize == length % 0x1_0000_0000
    ensures |name| < Protocol.NameFieldSize ==>
      && Receiver.ParseHeader(XmodemHeader(name, length)).name[..|name|] == Sender.Ascii(name)
      && Receiver.ParseHeader(XmodemHeader(name, length)).name[|name|] == 0
  {
    var body := Sender.NameField(name) + Bytes.Le32(length);
    var raw := XmodemHeader(name, length);
    Bytes.Le16RoundTrip(Xmodem.Crc(body));
    assert raw[..17] == body;
    assert raw[..13] == Sender.NameField(name);
    assert raw[13..17] == Bytes.Le32(length);
    assert raw[17] == Bytes.Le16(Xmodem.Crc(body))[0];
    assert raw[18] == Bytes.Le16(Xmodem.Crc(body))[1];
  }

  /** The receive results of a line that carries `chunks` as XMODEM-checked
      frames, each arriving intact. */
  function FrameTraffic(chunks: seq<seq<bv8>>): (r: seq<Receiver.RxResult>)
    ensures |r| == |chunks|
  {
    if |chunks| == 0 then [] else [Receiver.RxResult(0, XmodemFrame(chunks[0]))] + FrameTraffic(chunks[1..])
  }

  /** Sent in the sender's chunking, such frames deliver the whole
      contents to the receiver, which keeps exactly those bytes. */
  lemma {:induction false} FrameTrafficDelivers(data: seq<bv8>)
    ensures Receiver.Delivers(FrameTraffic(Protocol.Chunks(data)), |data|)
    ensures Receiver.Accepted(FrameTraffic(Protocol.Chunks(data)), |data|) == data
    decreases |data|
  {
    if |data| > 0 {
      var n := Protocol.ChunkSize(|data|);
      var rx := FrameTraffic(Protocol.Chunks(data));
      assert Protocol.Chunks(data) == [data[..n]] + Protocol.Chunks(data[n..]);
      assert rx[0] == Receiver.RxResult(0, XmodemFrame(data[..n]));
      assert rx[1..] == FrameTraffic(Protocol.Chunks(data[n..]));
      XmodemFrameAccepted(data[..n]);
      assert Receiver.Fit(rx[0].data, n + Protocol.CrcSize) == XmodemFrame(data[..n]);
      FrameTrafficDelivers(data[n..]);
      assert data == data[..n] + data[n..];
    }
  }

  lemma Below32(n: nat)
    requires n < 0x1_0000_0000
    ensures n % 0x1_0000_0000 == n
  {
  }

  /** The receiver's surroundings for a clean transfer of `content` under
      `name`: DOS 2, a file that can be created, the header and the chunk
      frames arriving intact, every send and write succeeding. */
  function CleanEnv(name: string, content: seq<bv8>, cpu: Receiver.CpuMode, handle: bv8): Receiver.Env
    requires |name| < Protocol.HeaderSize
  {
    Receiver.Env(true, cpu, Receiver.Opened(handle), Receiver.Opened(handle),
                 [Receiver.RxResult(0, XmodemHeader(name, |content|))] + FrameTraffic(Protocol.Chunks(content)), [], [])
  }

  /** The header of such surroundings passes the gate and announces the
      size of the contents. */
  lemma CleanHeader(name: string, content: seq<bv8>, cpu: Receiver.CpuMode, handle: bv8)
    requires |name| < Protocol.HeaderSize
    requires |content| < 0x1_0000_0000
    ensures var env := CleanEnv(name, content, cpu, handle);
      && Receiver.NextRx(env.rx).status == 0 && Receiver.HeaderValid(Receiver.HeaderOf(env.rx))
      && Receiver.AnnouncedSize(env) == |content|
  {
    var env := CleanEnv(name, content, cpu, handle);
    XmodemHeaderAccepted(name, |content|);
    Below32(|content|);
    assert Receiver.HeaderOf(env.rx) == XmodemHeader(name, |content|);
  }

  /** The frames after that header deliver the contents. */
  lemma CleanData(name: string, content: seq<bv8>, cpu: Receiver.CpuMode, handle: bv8)
    requires |name| < Protocol.HeaderSize
    ensures var env := CleanEnv(name, content, cpu, handle);
      && Receiver.Delivers(Receiver.Drop(env.rx), |content|)
      && Receiver.Accepted(Receiver.Drop(env.rx), |content|) == content
  {
    var env := CleanEnv(name, content, cpu, handle);
    FrameTrafficDelivers(content);
    assert Receiver.Drop(env.rx) == FrameTraffic(Protocol.Chunks(content));
  }

  /** Such surroundings meet every condition under which `jget` promises
      exit code 0, and announce the size of the contents. */
  lemma CleanEnvDelivers(name: string, content: seq<bv8>, cpu: Receiver.CpuMode, handle: bv8, argv: seq<seq<bv8>>)
    requires |name| < Protocol.HeaderSize
    requires |content| < 0x1_0000_0000
    requires |argv| == 2
    ensures var env := CleanEnv(name, content, cpu, handle);
      && Receiver.Quiet(env.tx) && Receiver.WritesSucceed(env.writes) && Receiver.FileOpens(env, argv)
      && Receiver.NextRx(env.rx).status == 0 && Receiver.HeaderValid(Receiver.HeaderOf(env.rx))
      && Receiver.AnnouncedSize(env) == |content|
      && Receiver.Delivers(Receiver.Drop(env.rx), |content|)
      && Receiver.Accepted(Receiver.Drop(env.rx), |content|) == content
  {
    CleanHeader(name, content, cpu, handle);
    CleanData(name, content, cpu, handle);
  }

  /** With the receiver's CRC on both header and chunks and clean
      surroundings, `jget` ends with 0 holding exactly the sent contents,
      in the processor mode it started in. */
  method CleanTransfer(name: string, content: seq<bv8>, cpu: Receiver.CpuMode, handle: bv8,
                       port: seq<bv8>, speed: seq<bv8>)
    returns (r: Receiver.Step)
    requires |name| < Protocol.HeaderSize
    requires |content| < 0x1_0000_0000
    ensures r.Halted? && r.code == 0
    ensures r.s.file == content
    ensures r.s.mode == cpu
  {
    CleanEnvDelivers(name, content, cpu, handle, [port, speed]);
    r := Receiver.JGet(CleanEnv(name, content, cpu, handle), [port, speed]);
  }

  // ---------------------------------------------------------------------
  // Acknowledgements

  /** The bytes the receiver puts on the line when it answers `answers`,
      one 4-byte block per answer. */
  function AckStream(answers: seq<bv8>): (r: seq<bv8>)
    ensures |r| == 4 * |answers|
  {
    if |answers| == 0 then [] else Receiver.Ack(answers[0]) + AckStream(answers[1..])
  }

  /** Byte i of the stream repeats answer i / 4. */
  lemma {:induction false} AckStreamIndex(answers: seq<bv8>)
    ensures forall i | 0 <= i < |AckStream(answers)| :: AckStream(answers)[i] == answers[i / 4]
  {
    if |answers| > 0 {
      AckStreamIndex(answers[1..]);
      forall i | 0 <= i < |AckStream(answers)|
        ensures AckStream(answers)[i] == answers[i / 4]
      {
        if i >= 4 {
          assert AckStream(answers)[i] == AckStream(answers[1..])[i - 4];
          assert (i - 4) / 4 == i / 4 - 1;
        }
      }
    }
  }

  /** The replies the sender takes from `stream`: `ReadByte` returns one
      byte per call. */
  function ByteReplies(stream: seq<bv8>): (r: seq<int>)
    ensures |r| == |stream|
    ensures forall i | 0 <= i < |stream| :: r[i] == stream[i] as int
  {
    seq(|stream|, i requires 0 <= i < |stream| => stream[i] as int)
  }

  /** As written, the sender takes the second byte of the receiver's first
      block as the answer to its second frame: once the header (or any
      frame) is accepted, the next frame counts as accepted at the first
      try, whatever the receiver answered it. */
  method SecondFrameAsWritten(first: seq<bv8>, second: seq<bv8>, answers: seq<bv8>)
    returns (firstOutcome: Result<(), Sender.SendError>, secondOutcome: Result<(), Sender.SendError>, secondTries: nat)
    requires |answers| >= 1 && answers[0] == Receiver.AckOk
    ensures firstOutcome.Success?
    ensures secondOutcome.Success? && secondTries == 1
  {
    var replies := ByteReplies(AckStream(answers));
    AckStreamIndex(answers);
    assert replies[0] == 0 && replies[1] == 0;
    var firstTries, rest;
    firstOutcome, firstTries, rest := Sender.SendData(first, replies);
    secondOutcome, secondTries, rest := Sender.SendData(second, rest);
  }

  /** A sender that consumes a whole block per frame: the first byte of
      each complete 4-byte block. */
  function BlockReplies(stream: seq<bv8>): (r: seq<int>)
    ensures |r| == |stream| / 4
    decreases |stream|
  {
    if |stream| < 4 then [] else [stream[0] as int] + BlockReplies(stream[4..])
  }

  /** Reading block by block gives back the receiver's answers in order. */
  lemma {:induction false} BlockRepliesRoundTrip(answers: seq<bv8>)
    ensures BlockReplies(AckStream(answers)) == seq(|answers|, i requires 0 <= i < |answers| => answers[i] as int)
  {
    if |answers| > 0 {
      var stream := AckStream(answers);
      assert stream[4..] == AckStream(answers[1..]);
      BlockRepliesRoundTrip(answers[1..]);
    }
  }

  /** Read block by block, the second frame goes out again when the
      receiver reports a CRC error on it, and counts as accepted at the
      first try only when the receiver accepted it. */
  method SecondFrameByBlocks(first: seq<bv8>, second: seq<bv8>, answers: seq<bv8>)
    returns (firstOutcome: Result<(), Sender.SendError>, secondOutcome: Result<(), Sender.SendError>, secondTries: nat)
    requires |answers| >= 2 && answers[0] == Receiver.AckOk
    ensures firstOutcome.Success?
    ensures answers[1] == Receiver.AckOk ==> secondOutcome.Success? && secondTries == 1
    ensures answers[1] == Receiver.AckCrcError ==> secondTries >= 2
    ensures answers[1] !in {Receiver.AckOk, Receiver.AckCrcError} ==>
      secondOutcome == Failure(Sender.PeerClosed(answers[1] as int))
  {
    var replies := BlockReplies(AckStream(answers));
    BlockRepliesRoundTrip(answers);
    var firstTries, rest;
    firstOutcome, firstTries, rest := Sender.SendData(first, replies);
    assert rest == replies[1..];
    secondOutcome, secondTries, rest := Sender.SendData(second, rest);
  }
}
