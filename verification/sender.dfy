/** The PC side, `Sender`: it checks that the name to send is an MS-DOS
    8.3 name, sends a 19-byte header and then the file in chunks of at most
    1024 bytes, each followed by its two checksum bytes, sending a frame
    again while the peer answers 1 (CRC error), at most six times in all.

    The file system, the serial port and the peer are parameters: the file's
    contents, whether the file and the port open, and the script of bytes
    the peer answers (`replies`, one per `ReadByte`; an exhausted script is
    a read that times out). Everything observable goes into the event
    `trace`. */
module Sender {
  import opened Wrappers
  import Bytes
  import Protocol
  import X25

  /** The exceptions that leave `Send`. */
  datatype SendError =
    | NameTooLong
    | ExtensionTooLong
    | NameOverflow
    | FileOpenFailed
    | PortOpenFailed
    | TooManyCrcErrors
    | PeerClosed(code: int)
    | ReadTimeout

  datatype Event =
    | FileOpened
    | PortOpened
    | Wrote(frame: seq<bv8>)
    | HeaderSent(length: nat, name: string)
    | DataSent(size: nat)
    | PortClosed
    | FileClosed

  /** Most transmissions of one frame: the first and five retries. */
  const MaxTries: nat := 6

  // ---------------------------------------------------------------------
  // File names

  /** Both directory separators `Path` accepts on Windows. */
  predicate IsSeparator(c: char) {
    c == '/' || c == '\\'
  }

  /** `Path.GetFileName`: what follows the last separator. */
  function FileName(path: string): (r: string)
    ensures |r| <= |path|
  {
    if |path| == 0 || IsSeparator(path[|path| - 1]) then ""
    else FileName(path[..|path| - 1]) + [path[|path| - 1]]
  }

  /** The file name is the longest tail of the path without a separator. */
  lemma {:induction false} FileNameIsTail(path: string)
    ensures FileName(path) == path[|path| - |FileName(path)|..]
    ensures forall i | 0 <= i < |FileName(path)| :: !IsSeparator(FileName(path)[i])
    ensures |FileName(path)| < |path| ==> IsSeparator(path[|path| - |FileName(path)| - 1])
    decreases |path|
  {
    if |path| > 0 && !IsSeparator(path[|path| - 1]) {
      var init := path[..|path| - 1];
      FileNameIsTail(init);
      var r0 := FileName(init);
      var r := FileName(path);
      var a := |init| - |r0|;
      assert r == r0 + [path[|path| - 1]];
      assert init[a..] == path[a..|path| - 1];
      assert path[a..] == path[a..|path| - 1] + [path[|path| - 1]];
      forall i | 0 <= i < |r|
        ensures !IsSeparator(r[i])
      {
        if i < |r0| {
          assert r[i] == r0[i];
        }
      }
      if |r| < |path| {
        assert path[|path| - |r| - 1] == init[a - 1];
      }
    }
  }

  /** Index of the last `c` in `s`, or -1. */
  function LastIndexOf(s: string, c: char): (i: int)
    ensures -1 <= i < |s|
  {
    if |s| == 0 then -1
    else if s[|s| - 1] == c then |s| - 1
    else LastIndexOf(s[..|s| - 1], c)
  }

  /** `LastIndexOf` finds `c` when it is there, and no later `c`. */
  lemma {:induction false} LastIndexOfIsLast(s: string, c: char)
    ensures LastIndexOf(s, c) >= 0 ==> s[LastIndexOf(s, c)] == c
    ensures forall j | LastIndexOf(s, c) < j < |s| :: s[j] != c
    decreases |s|
  {
    if |s| > 0 && s[|s| - 1] != c {
      LastIndexOfIsLast(s[..|s| - 1], c);
    }
  }

  /** `Path.GetFileNameWithoutExtension`: the file name up to its last dot. */
  function BaseName(path: string): string {
    var name := FileName(path);
    var dot := LastIndexOf(name, '.');
    if dot < 0 then name else name[..dot]
  }

  /** `Path.GetExtension`: the file name from its last dot on, or nothing
      when it has no dot or ends with the dot. */
  function Extension(path: string): string {
    var name := FileName(path);
    var dot := LastIndexOf(name, '.');
    if dot < 0 || dot == |name| - 1 then "" else name[dot..]
  }

  /** The file name is its base name followed by its extension, or by a
      lone dot that `Extension` does not report; an extension is a dot
      followed by no further dot. */
  lemma NameSplits(path: string)
    ensures FileName(path) == BaseName(path) + Extension(path)
         || FileName(path) == BaseName(path) + "."
    ensures Extension(path) != "" ==>
      Extension(path)[0] == '.' && forall i | 1 <= i < |Extension(path)| :: Extension(path)[i] != '.'
    ensures forall i | 0 <= i < |BaseName(path)| :: !IsSeparator(BaseName(path)[i])
  {
    var name := FileName(path);
    var dot := LastIndexOf(name, '.');
    FileNameIsTail(path);
    LastIndexOfIsLast(name, '.');
    if dot >= 0 {
      assert name == name[..dot] + name[dot..];
      if dot == |name| - 1 {
        assert name[dot..] == ".";
      }
    }
  }

  /** `ToUpper` on the letters a-z. */
  function UpperChar(c: char): char {
    if 'a' <= c <= 'z' then (c as int - 32) as char else c
  }

  function ToUpper(s: string): string {
    seq(|s|, i requires 0 <= i < |s| => UpperChar(s[i]))
  }

  /** Line 43: the name given by the caller, or else the upper-cased file
      name of the path. */
  function ChooseName(filePath: string, nameArg: Option<string>): string {
    match nameArg
    case Some(n) => n
    case None => ToUpper(FileName(filePath))
  }

  /** With no name given, the name sent is the path's file name with a-z
      upper-cased: just as long, with no lower-case ASCII letter left, every
      such letter replaced by its capital (32 code points lower), and every
      other character kept. */
  lemma DefaultNameIsUpper(filePath: string)
    ensures |ChooseName(filePath, None)| == |FileName(filePath)|
    ensures forall i | 0 <= i < |ChooseName(filePath, None)| ::
      && !('a' <= ChooseName(filePath, None)[i] <= 'z')
      && (('a' <= FileName(filePath)[i] <= 'z') || ChooseName(filePath, None)[i] == FileName(filePath)[i])
      && ('a' <= FileName(filePath)[i] <= 'z' ==>
            ChooseName(filePath, None)[i] as int == FileName(filePath)[i] as int - 32)
  {
  }

  /** Lines 44-49: at most 8 characters before the extension and at most 4
      in the extension, dot included. */
  function CheckName(name: string): Result<(), SendError> {
    if |BaseName(name)| > 8 then Failure(NameTooLong)
    else if |Extension(name)| > 4 then Failure(ExtensionTooLong)
    else Success(())
  }

  /** An MS-DOS 8.3 name: at most 8 characters before its last dot (at most
      8 in all when it has none) and at most 3 after it. */
  predicate Is83(name: string) {
    var dot := LastIndexOf(name, '.');
    if dot < 0 then |name| <= 8 else dot <= 8 && |name| - dot - 1 <= 3
  }

  /** A name without a separator is its own file name. */
  lemma PlainFileName(name: string)
    requires forall i | 0 <= i < |name| :: !IsSeparator(name[i])
    ensures FileName(name) == name
  {
    FileNameIsTail(name);
  }

  /** A name that passes the check and holds no directory part is an MS-DOS
      8.3 name, and so has at most 12 characters, which fit the 13-byte name
      field with its terminating 0. */
  lemma CheckedNameIs83(name: string)
    requires CheckName(name).Success?
    requires forall i | 0 <= i < |name| :: !IsSeparator(name[i])
    ensures Is83(name)
    ensures LastIndexOf(name, '.') < 0 ==> |name| <= 8
    ensures LastIndexOf(name, '.') >= 0 ==>
      LastIndexOf(name, '.') <= 8 && |name| - LastIndexOf(name, '.') - 1 <= 3
    ensures |name| < Protocol.NameFieldSize
  {
    var dot := LastIndexOf(name, '.');
    PlainFileName(name);
    if dot >= 0 {
      assert |BaseName(name)| == dot;
      if dot < |name| - 1 {
        assert |Extension(name)| == |name| - dot;
      }
    } else {
      assert BaseName(name) == name;
    }
  }

  /** Every 8.3 name without a directory part passes the check. */
  lemma Is83Passes(name: string)
    requires forall i | 0 <= i < |name| :: !IsSeparator(name[i])
    requires Is83(name)
    ensures CheckName(name).Success?
  {
    var dot := LastIndexOf(name, '.');
    PlainFileName(name);
    if dot >= 0 {
      assert |BaseName(name)| == dot;
      assert |Extension(name)| <= |name| - dot;
    } else {
      assert BaseName(name) == name && Extension(name) == "";
    }
  }

  /** On names without a directory part the check is exactly the 8.3 rule. */
  lemma CheckNameMeans83(name: string)
    requires forall i | 0 <= i < |name| :: !IsSeparator(name[i])
    ensures CheckName(name).Success? <==> Is83(name)
  {
    if CheckName(name).Success? {
      CheckedNameIs83(name);
    } else if Is83(name) {
      Is83Passes(name);
    }
  }

  // ---------------------------------------------------------------------
  // Header and frames

  /** `Encoding.ASCII`: a character outside ASCII becomes '?'. */
  function AsciiByte(c: char): bv8 {
    if c as int < 128 then c as int as bv8 else 0x3F
  }

  function Ascii(s: string): (r: seq<bv8>)
    ensures |r| == |s|
  {
    seq(|s|, i requires 0 <= i < |s| => AsciiByte(s[i]))
  }

  /** The first 13 bytes of the zeroed header array once the name's ASCII
      bytes and the 0 after them are stored from offset 0 (line 96-97). */
  function NameField(name: string): (r: seq<bv8>)
    requires |name| < Protocol.HeaderSize
    ensures |r| == Protocol.NameFieldSize
    ensures |name| < Protocol.NameFieldSize ==>
      r[..|name|] == Ascii(name) && forall i | |name| <= i < Protocol.NameFieldSize :: r[i] == 0
  {
    var zeroed := Ascii(name) + seq(Protocol.HeaderSize - |name|, _ => 0);
    zeroed[..Protocol.NameFieldSize]
  }

  /** Lines 95-104: the name field, the low four bytes of the little-endian
      64-bit length copied to offset 13 (over the name if it is longer
      than 12), and the checksum of the first 17 bytes, low byte first, at
      offset 17 (over the name if it is longer than 16). A name of 19 or
      more characters makes `GetBytes` or the store of the 0 throw. */
  function EncodeHeader(name: string, length: nat): (r: Result<seq<bv8>, SendError>)
    ensures r.Success? <==> |name| < Protocol.HeaderSize
    ensures r.Failure? ==> r.error == NameOverflow
    ensures r.Success? ==>
      && |r.value| == Protocol.HeaderSize
      && r.value[..13] == NameField(name)
      && Bytes.ReadLe(r.value[13..17]) == length % 0x1_0000_0000
      && Bytes.ReadLe16(r.value[17], r.value[18]) == X25.Checksum(r.value[..17])
  {
    if |name| >= Protocol.HeaderSize then Failure(NameOverflow)
    else
      var body := NameField(name) + Bytes.Le32(length);
      var crc := X25.Checksum(body);
      var header := body + Bytes.Le16(crc);
      Bytes.Le16RoundTrip(crc);
      assert header[..17] == body && header[..13] == NameField(name);
      assert header[13..17] == Bytes.Le32(length);
      Success(header)
  }

  /** Lines 115-119: a chunk followed by its checksum, low byte first. */
  function Frame(chunk: seq<bv8>): seq<bv8> {
    chunk + Bytes.Le16(X25.Checksum(chunk))
  }

  // ---------------------------------------------------------------------
  // sendData

  /** How many answers at the head of `replies` are 1 (CRC error). */
  function LeadingOnes(replies: seq<int>): (k: nat)
    ensures k <= |replies|
    ensures forall i | 0 <= i < k :: replies[i] == 1
    ensures k < |replies| ==> replies[k] != 1
  {
    if |replies| == 0 || replies[0] != 1 then 0 else 1 + LeadingOnes(replies[1..])
  }

  /** Whether the answers `replies` accept a frame: fewer than six CRC
      errors in a row, then 0. */
  predicate Accepted(replies: seq<int>) {
    var k := LeadingOnes(replies);
    k < MaxTries && k < |replies| && replies[k] == 0
  }

  /** Lines 66-91: write `frame` and read one answer, again while the answer
      is 1. With `k` leading answers of 1, the frame goes out
      - six times and fails with "Too many CRC errors" when k >= 6;
      - k + 1 times otherwise, and then the next answer decides: 0 returns,
        any other value fails with "Peer closed connection", and a missing
        one is a read timeout.
      `tries` counts the writes and `rest` is what is left of the script. */
  method SendData(frame: seq<bv8>, replies: seq<int>)
    returns (outcome: Result<(), SendError>, tries: nat, rest: seq<int>)
    ensures 1 <= tries <= MaxTries
    ensures LeadingOnes(replies) >= MaxTries ==>
      outcome == Failure(TooManyCrcErrors) && tries == MaxTries && rest == replies[MaxTries..]
    ensures LeadingOnes(replies) < MaxTries ==> tries == LeadingOnes(replies) + 1
    ensures LeadingOnes(replies) < MaxTries && LeadingOnes(replies) == |replies| ==>
      outcome == Failure(ReadTimeout) && rest == []
    ensures LeadingOnes(replies) < MaxTries && LeadingOnes(replies) < |replies| ==>
      rest == replies[tries..]
      && (replies[tries - 1] == 0 ==> outcome == Success(()))
      && (replies[tries - 1] != 0 ==> outcome == Failure(PeerClosed(replies[tries - 1])))
    ensures |replies| > 0 && replies[0] == 0 ==> outcome.Success? && rest == replies[1..]
    ensures outcome.Success? <==> Accepted(replies)
  {
    var retries := 0;
    rest := replies;
    tries := 0;
    while true
      invariant 0 <= retries < MaxTries && tries == retries
      invariant retries <= |replies| && rest == replies[retries..]
      invariant LeadingOnes(replies) >= retries
      invariant forall i | 0 <= i < retries :: replies[i] == 1
      decreases MaxTries - retries
    {
      tries := tries + 1;
      if |rest| == 0 {
        return Failure(ReadTimeout), tries, rest;
      }
      var result := rest[0];
      rest := rest[1..];
      if result == 0 {
        return Success(()), tries, rest;
      } else if result == 1 {
        retries := retries + 1;
        if retries > 5 {
          return Failure(TooManyCrcErrors), tries, rest;
        }
      } else {
        return Failure(PeerClosed(result)), tries, rest;
      }
    }
  }

  // ---------------------------------------------------------------------
  // SendCore

  function Repeat(e: Event, n: nat): (r: seq<Event>)
    ensures |r| == n && forall i | 0 <= i < n :: r[i] == e
  {
    seq(n, _ => e)
  }

  /** The line traffic of the chunks `chunks` when chunk i went out
      `tries[i]` times: its frame written that many times, then `DataSent`
      with the frame's size. */
  function DataTrace(chunks: seq<seq<bv8>>, tries: seq<nat>): seq<Event>
    requires |tries| == |chunks|
    decreases |chunks|
  {
    if |chunks| == 0 then []
    else
      Repeat(Wrote(Frame(chunks[0])), tries[0])
      + [DataSent(|chunks[0]| + Protocol.CrcSize)]
      + DataTrace(chunks[1..], tries[1..])
  }

  /** The line traffic of a chunk loop that stops at chunk `|tries| - 1`:
      the chunks before it as in `DataTrace`, then that chunk's frame
      written `tries[|tries| - 1]` times and nothing after it. */
  function StalledTrace(chunks: seq<seq<bv8>>, tries: seq<nat>): seq<Event>
    requires 0 < |tries| <= |chunks|
    decreases |tries|
  {
    if |tries| == 1 then Repeat(Wrote(Frame(chunks[0])), tries[0])
    else
      Repeat(Wrote(Frame(chunks[0])), tries[0])
      + [DataSent(|chunks[0]| + Protocol.CrcSize)]
      + StalledTrace(chunks[1..], tries[1..])
  }

  /** A stalled loop is the complete traffic of the chunks before the one
      that failed, followed by the failed frame's writes. */
  lemma {:induction false} StalledSplit(chunks: seq<seq<bv8>>, tries: seq<nat>)
    requires 0 < |tries| <= |chunks|
    ensures var k := |tries| - 1;
      StalledTrace(chunks, tries)
      == DataTrace(chunks[..k], tries[..k]) + Repeat(Wrote(Frame(chunks[k])), tries[k])
    decreases |tries|
  {
    var k := |tries| - 1;
    if k > 0 {
      StalledSplit(chunks[1..], tries[1..]);
      assert chunks[1..][..k - 1] == chunks[..k][1..];
      assert tries[1..][..k - 1] == tries[..k][1..];
      assert chunks[1..][k - 1] == chunks[k];
      assert tries[1..][k - 1] == tries[k];
      DataTraceCons(chunks[..k], tries[..k]);
    }
  }

  /** The line traffic of a transfer that succeeds: the header written
      `tries[0]` times, `HeaderSent` with the length and the name, then the
      chunks of the contents in file order. */
  function Transmission(name: string, content: seq<bv8>, tries: seq<nat>): seq<Event>
    requires EncodeHeader(name, |content|).Success?
    requires |tries| == |Protocol.Chunks(content)| + 1
  {
    Repeat(Wrote(EncodeHeader(name, |content|).value), tries[0])
    + [HeaderSent(|content|, name)]
    + DataTrace(Protocol.Chunks(content), tries[1..])
  }

  /** The line traffic of a transfer whose header was accepted and whose
      chunk loop then stopped: the header's writes, `HeaderSent`, then the
      stalled chunk loop. */
  function Interrupted(name: string, content: seq<bv8>, tries: seq<nat>): seq<Event>
    requires EncodeHeader(name, |content|).Success?
    requires 2 <= |tries| <= |Protocol.Chunks(content)| + 1
  {
    Repeat(Wrote(EncodeHeader(name, |content|).value), tries[0])
    + [HeaderSent(|content|, name)]
    + StalledTrace(Protocol.Chunks(content), tries[1..])
  }

  /** The whole trace of a transfer that succeeds: the file opened, the
      port opened, then the transmission. */
  function Delivery(name: string, content: seq<bv8>, tries: seq<nat>): seq<Event>
    requires EncodeHeader(name, |content|).Success?
    requires |tries| == |Protocol.Chunks(content)| + 1
  {
    [FileOpened, PortOpened] + Transmission(name, content, tries)
  }

  /** The sizes the `DataSent` events of `t` announce, in order. */
  function Announced(t: seq<Event>): seq<nat>
    decreases |t|
  {
    if |t| == 0 then [] else (if t[0].DataSent? then [t[0].size] else []) + Announced(t[1..])
  }

  lemma {:induction false} AnnouncedAppend(a: seq<Event>, b: seq<Event>)
    ensures Announced(a + b) == Announced(a) + Announced(b)
    decreases |a|
  {
    if |a| == 0 {
      assert a + b == b;
    } else {
      assert (a + b)[0] == a[0] && (a + b)[1..] == a[1..] + b;
      AnnouncedAppend(a[1..], b);
    }
  }

  lemma {:induction false} AnnouncedOnlyWrites(t: seq<Event>)
    requires forall i | 0 <= i < |t| :: t[i].Wrote?
    ensures Announced(t) == []
    decreases |t|
  {
    if |t| > 0 {
      AnnouncedOnlyWrites(t[1..]);
    }
  }

  /** The size each chunk is announced with: its length plus the two
      checksum bytes. */
  function FrameSizes(chunks: seq<seq<bv8>>): (r: seq<nat>)
    ensures |r| == |chunks|
    ensures forall i | 0 <= i < |chunks| :: r[i] == |chunks[i]| + Protocol.CrcSize
    decreases |chunks|
  {
    if |chunks| == 0 then [] else [|chunks[0]| + Protocol.CrcSize] + FrameSizes(chunks[1..])
  }

  /** The data trace announces every chunk once, in order, with its size
      plus the two checksum bytes. */
  lemma {:induction false} DataTraceAnnounces(chunks: seq<seq<bv8>>, tries: seq<nat>)
    requires |tries| == |chunks|
    ensures Announced(DataTrace(chunks, tries)) == FrameSizes(chunks)
    decreases |chunks|
  {
    if |chunks| > 0 {
      var writes := Repeat(Wrote(Frame(chunks[0])), tries[0]);
      var sent := [DataSent(|chunks[0]| + Protocol.CrcSize)];
      var rest := DataTrace(chunks[1..], tries[1..]);
      DataTraceAnnounces(chunks[1..], tries[1..]);
      AnnouncedAppend(writes + sent, rest);
      AnnouncedAppend(writes, sent);
      AnnouncedOnlyWrites(writes);
      assert Announced(sent) == [|chunks[0]| + Protocol.CrcSize];
      assert Announced(writes + sent) == [|chunks[0]| + Protocol.CrcSize];
    }
  }

  /** The data trace holds no event but frame writes and announcements. */
  lemma {:induction false} DataTraceEvents(chunks: seq<seq<bv8>>, tries: seq<nat>, e: Event)
    requires |tries| == |chunks|
    requires !e.Wrote? && !e.DataSent?
    ensures Count(DataTrace(chunks, tries), e) == 0
    decreases |chunks|
  {
    if |chunks| > 0 {
      var writes := Repeat(Wrote(Frame(chunks[0])), tries[0]);
      var sent := [DataSent(|chunks[0]| + Protocol.CrcSize)];
      DataTraceEvents(chunks[1..], tries[1..], e);
      CountAppend(writes + sent, DataTrace(chunks[1..], tries[1..]), e);
      CountAppend(writes, sent, e);
      CountWrites(writes, e);
      CountSingle(sent[0], e);
    }
  }

  /** In a successful transfer the header is announced exactly once. */
  lemma DeliveryHeaderOnce(name: string, content: seq<bv8>, tries: seq<nat>)
    requires EncodeHeader(name, |content|).Success?
    requires |tries| == |Protocol.Chunks(content)| + 1
    ensures Count(Delivery(name, content, tries), HeaderSent(|content|, name)) == 1
  {
    var e := HeaderSent(|content|, name);
    DataTraceEvents(Protocol.Chunks(content), tries[1..], e);
    HeaderOnceAmid(Repeat(Wrote(EncodeHeader(name, |content|).value), tries[0]), e,
                   DataTrace(Protocol.Chunks(content), tries[1..]));
  }

  /** An announcement between the header writes and traffic that does not
      repeat it occurs once in the whole trace. */
  lemma HeaderOnceAmid(writes: seq<Event>, e: Event, data: seq<Event>)
    requires forall i | 0 <= i < |writes| :: writes[i].Wrote?
    requires e.HeaderSent? && Count(data, e) == 0
    ensures Count([FileOpened, PortOpened] + (writes + [e] + data), e) == 1
  {
    var opening := [FileOpened, PortOpened] + writes;
    assert [FileOpened, PortOpened] + (writes + [e] + data) == opening + [e] + data;
    CountAppend(opening + [e], data, e);
    CountAppend(opening, [e], e);
    CountSingle(e, e);
    OpeningCount(writes, e);
  }

  /** The openings and the header writes hold no announcement. */
  lemma OpeningCount(writes: seq<Event>, e: Event)
    requires forall i | 0 <= i < |writes| :: writes[i].Wrote?
    requires e.HeaderSent?
    ensures Count([FileOpened, PortOpened] + writes, e) == 0
  {
    CountAppend([FileOpened, PortOpened], writes, e);
    CountAppend([FileOpened], [PortOpened], e);
    assert [FileOpened] + [PortOpened] == [FileOpened, PortOpened];
    CountSingle(FileOpened, e);
    CountSingle(PortOpened, e);
    CountWrites(writes, e);
  }

  /** `DataSent` announces each chunk of the contents once, in file order,
      with its size plus 2, and nothing else in a successful transfer does. */
  lemma DeliveryAnnouncements(name: string, content: seq<bv8>, tries: seq<nat>)
    requires EncodeHeader(name, |content|).Success?
    requires |tries| == |Protocol.Chunks(content)| + 1
    ensures Announced(Delivery(name, content, tries)) == FrameSizes(Protocol.Chunks(content))
  {
    DataTraceAnnounces(Protocol.Chunks(content), tries[1..]);
    AnnouncedAmid(Repeat(Wrote(EncodeHeader(name, |content|).value), tries[0]),
                  HeaderSent(|content|, name), DataTrace(Protocol.Chunks(content), tries[1..]));
  }

  /** Openings, writes and the header announcement announce no chunk. */
  lemma AnnouncedAmid(writes: seq<Event>, e: Event, data: seq<Event>)
    requires forall i | 0 <= i < |writes| :: writes[i].Wrote?
    requires e.HeaderSent?
    ensures Announced([FileOpened, PortOpened] + (writes + [e] + data)) == Announced(data)
  {
    var opening := [FileOpened, PortOpened] + writes;
    assert [FileOpened, PortOpened] + (writes + [e] + data) == opening + [e] + data;
    AnnouncedAppend(opening + [e], data);
    AnnouncedAppend(opening, [e]);
    AnnouncedAppend([FileOpened, PortOpened], writes);
    AnnouncedOnlyWrites(writes);
  }

  /** Every answer in `replies` is 0, and there are at least `n`. */
  predicate Accepts(replies: seq<int>, n: nat) {
    |replies| >= n && forall i | 0 <= i < |replies| :: replies[i] == 0
  }

  /** A peer that accepts `n > 0` more frames accepts the next one at once. */
  lemma AcceptsNext(replies: seq<int>, n: nat)
    requires Accepts(replies, n) && n > 0
    ensures replies[0] == 0 && Accepts(replies[1..], n - 1)
  {
  }

  /** Lines 115-117: the chunk, its checksum as `CalculateCrc` computes it
      over the start of the buffer, and the two checksum bytes stored
      after the chunk, low byte first. */
  method FrameChunk(chunk: seq<bv8>) returns (frame: seq<bv8>)
    ensures frame == Frame(chunk)
  {
    var crc := X25.CalculateCrc(chunk, |chunk|);
    assert chunk[..|chunk|] == chunk;
    frame := chunk + Bytes.Le16(crc);
  }

  /** Lines 111-121 from the read that returns the first byte of `data`
      on: a read returns what is left of the file, at most 1024 bytes, and
      0 at its end; each chunk goes out with its checksum through
      `sendData` and is announced with its size plus 2. On success the
      chunks, in order, are the chunks of `data`, each sent at most six
      times and announced once; a peer that accepts every frame at once
      makes the loop succeed. */
  method SendChunks(data: seq<bv8>, replies: seq<int>)
    returns (result: Result<(), SendError>, trace: seq<Event>, tries: seq<nat>)
    ensures forall i | 0 <= i < |tries| :: 1 <= tries[i] <= MaxTries
    ensures forall i | 0 <= i < |trace| :: trace[i].Wrote? || trace[i].DataSent?
    ensures result.Success? ==>
      |tries| == |Protocol.Chunks(data)| && trace == DataTrace(Protocol.Chunks(data), tries)
    ensures result.Failure? ==>
      0 < |tries| <= |Protocol.Chunks(data)| && trace == StalledTrace(Protocol.Chunks(data), tries)
    ensures Accepts(replies, |Protocol.Chunks(data)|) ==> result.Success?
    decreases |data|
  {
    if |data| == 0 {
      return Success(()), [], [];
    }
    var size := Protocol.ChunkSize(|data|);
    var chunk := data[..size];
    var frame := FrameChunk(chunk);
    if Accepts(replies, |Protocol.Chunks(data)|) {
      AcceptsNext(replies, |Protocol.Chunks(data)|);
    }
    var ok, k, rest := SendData(frame, replies);
    var piece := Repeat(Wrote(frame), k);
    if ok.Failure? {
      Protocol.ChunksHead(data);
      return Failure(ok.error), piece, [k];
    }
    piece := piece + [DataSent(size + Protocol.CrcSize)];
    var later, laterTrace, laterTries := SendChunks(data[size..], rest);
    trace := piece + laterTrace;
    tries := [k] + laterTries;
    result := later;
    DataKinds(piece, laterTrace);
    TriesJoin([k], laterTries);
    if result.Success? {
      DataTraceFirst(data, k, laterTries);
    } else {
      StalledFirst(data, k, laterTries);
    }
  }

  /** Counts of sends within the limit, followed by more of them. */
  lemma TriesJoin(a: seq<nat>, b: seq<nat>)
    requires forall i | 0 <= i < |a| :: 1 <= a[i] <= MaxTries
    requires forall i | 0 <= i < |b| :: 1 <= b[i] <= MaxTries
    ensures forall i | 0 <= i < |a + b| :: 1 <= (a + b)[i] <= MaxTries
  {
    forall i | 0 <= i < |a + b|
      ensures 1 <= (a + b)[i] <= MaxTries
    {
      if i >= |a| {
        assert (a + b)[i] == b[i - |a|];
      }
    }
  }

  /** Frame writes and announcements followed by more of them. */
  lemma DataKinds(a: seq<Event>, b: seq<Event>)
    requires forall i | 0 <= i < |a| :: a[i].Wrote? || a[i].DataSent?
    requires forall i | 0 <= i < |b| :: b[i].Wrote? || b[i].DataSent?
    ensures forall i | 0 <= i < |a + b| :: (a + b)[i].Wrote? || (a + b)[i].DataSent?
  {
    forall i | 0 <= i < |a + b|
      ensures (a + b)[i].Wrote? || (a + b)[i].DataSent?
    {
      if i >= |a| {
        assert (a + b)[i] == b[i - |a|];
      }
    }
  }

  /** The data trace of a file is the first chunk's traffic followed by the
      data trace of the rest of the file. */
  lemma DataTraceFirst(data: seq<bv8>, k: nat, later: seq<nat>)
    requires |data| > 0
    requires |later| == |Protocol.Chunks(data[Protocol.ChunkSize(|data|)..])|
    ensures |[k] + later| == |Protocol.Chunks(data)|
    ensures var size := Protocol.ChunkSize(|data|);
      DataTrace(Protocol.Chunks(data), [k] + later)
      == Repeat(Wrote(Frame(data[..size])), k) + [DataSent(size + Protocol.CrcSize)]
         + DataTrace(Protocol.Chunks(data[size..]), later)
  {
    var size := Protocol.ChunkSize(|data|);
    var chunks := Protocol.Chunks(data);
    var t := [k] + later;
    Protocol.ChunksHead(data);
    assert t[0] == k && t[1..] == later;
    DataTraceCons(chunks, t);
  }

  /** A loop that stops after the first chunk went through is the first
      chunk's traffic followed by the stalled loop over the rest. */
  lemma StalledFirst(data: seq<bv8>, k: nat, later: seq<nat>)
    requires |data| > 0
    requires 0 < |later| <= |Protocol.Chunks(data[Protocol.ChunkSize(|data|)..])|
    ensures 0 < |[k] + later| <= |Protocol.Chunks(data)|
    ensures var size := Protocol.ChunkSize(|data|);
      StalledTrace(Protocol.Chunks(data), [k] + later)
      == Repeat(Wrote(Frame(data[..size])), k) + [DataSent(size + Protocol.CrcSize)]
         + StalledTrace(Protocol.Chunks(data[size..]), later)
  {
    var t := [k] + later;
    Protocol.ChunksHead(data);
    assert t[0] == k && t[1..] == later;
  }

  /** Unfolds the data trace once. */
  lemma DataTraceCons(chunks: seq<seq<bv8>>, tries: seq<nat>)
    requires |chunks| > 0 && |tries| == |chunks|
    ensures DataTrace(chunks, tries)
      == Repeat(Wrote(Frame(chunks[0])), tries[0]) + [DataSent(|chunks[0]| + Protocol.CrcSize)]
         + DataTrace(chunks[1..], tries[1..])
  {
  }

  /** Events the header exchange and the chunk loop emit: neither an
      opening nor a closing. */
  predicate Traffic(e: Event) {
    e.Wrote? || e.HeaderSent? || e.DataSent?
  }

  /** Lines 95-121 once the file and the port are open: compose the header
      for `name` and the file size, send it, announce it, then send the
      chunks. Every frame went out at most six times.
      - A header the peer does not accept ends the transfer after its
        writes: nothing is announced and no chunk goes out.
      - An accepted header is announced once, before any chunk goes out;
        on success every chunk follows, and on failure the chunks up to the
        one that failed, with nothing after that chunk's writes. */
  method Transmit(name: string, content: seq<bv8>, replies: seq<int>)
    returns (result: Result<(), SendError>, trace: seq<Event>, tries: seq<nat>)
    ensures forall i | 0 <= i < |trace| :: Traffic(trace[i])
    ensures forall i | 0 <= i < |tries| :: 1 <= tries[i] <= MaxTries
    ensures |name| >= Protocol.HeaderSize ==> result == Failure(NameOverflow) && trace == []
    ensures |name| < Protocol.HeaderSize && !Accepted(replies) ==>
      && result.Failure? && |tries| == 1
      && trace == Repeat(Wrote(EncodeHeader(name, |content|).value), tries[0])
    ensures |name| < Protocol.HeaderSize && Accepted(replies) && result.Failure? ==>
      && EncodeHeader(name, |content|).Success?
      && 2 <= |tries| <= |Protocol.Chunks(content)| + 1
      && trace == Interrupted(name, content, tries)
    ensures result.Success? ==>
      && EncodeHeader(name, |content|).Success? && Accepted(replies)
      && |tries| == |Protocol.Chunks(content)| + 1
      && trace == Transmission(name, content, tries)
    ensures |name| < Protocol.HeaderSize && Accepts(replies, |Protocol.Chunks(content)| + 1) ==>
      result.Success?
  {
    var encoded := EncodeHeader(name, |content|);
    if encoded.Failure? {
      return Failure(encoded.error), [], [];
    }
    var header := encoded.value;
    var sent, n, rest := SendData(header, replies);
    var writes := Repeat(Wrote(header), n);
    if sent.Failure? {
      return Failure(sent.error), writes, [n];
    }
    if Accepts(replies, |Protocol.Chunks(content)| + 1) {
      AcceptsNext(replies, |Protocol.Chunks(content)| + 1);
    }
    result, trace, tries := AfterHeader(name, content, n, rest);
  }

  /** Lines 106-121 once the header, written `n` times, was accepted:
      announce it, then run the chunk loop on the answers left. */
  method AfterHeader(name: string, content: seq<bv8>, n: nat, rest: seq<int>)
    returns (result: Result<(), SendError>, trace: seq<Event>, tries: seq<nat>)
    requires EncodeHeader(name, |content|).Success? && 1 <= n <= MaxTries
    ensures forall i | 0 <= i < |trace| :: Traffic(trace[i])
    ensures forall i | 0 <= i < |tries| :: 1 <= tries[i] <= MaxTries
    ensures result.Success? ==>
      |tries| == |Protocol.Chunks(content)| + 1 && trace == Transmission(name, content, tries)
    ensures result.Failure? ==>
      2 <= |tries| <= |Protocol.Chunks(content)| + 1 && trace == Interrupted(name, content, tries)
    ensures Accepts(rest, |Protocol.Chunks(content)|) ==> result.Success?
  {
    var writes := Repeat(Wrote(EncodeHeader(name, |content|).value), n);
    var chunkTrace, chunkTries;
    result, chunkTrace, chunkTries := SendChunks(content, rest);
    trace := writes + [HeaderSent(|content|, name)] + chunkTrace;
    tries := [n] + chunkTries;
    TrafficParts(writes, HeaderSent(|content|, name), chunkTrace);
    TriesJoin([n], chunkTries);
    if result.Success? {
      TransmissionParts(name, content, n, chunkTries);
    } else {
      InterruptedParts(name, content, n, chunkTries);
    }
  }

  /** Header writes, the announcement and chunk traffic are all line
      traffic. */
  lemma TrafficParts(writes: seq<Event>, e: Event, data: seq<Event>)
    requires forall i | 0 <= i < |writes| :: writes[i].Wrote?
    requires e.HeaderSent?
    requires forall i | 0 <= i < |data| :: data[i].Wrote? || data[i].DataSent?
    ensures forall i | 0 <= i < |writes + [e] + data| :: Traffic((writes + [e] + data)[i])
  {
    var t := writes + [e] + data;
    forall i | 0 <= i < |t|
      ensures Traffic(t[i])
    {
      if i < |writes| {
        assert t[i] == writes[i];
      } else if i > |writes| {
        assert t[i] == data[i - |writes| - 1];
      }
    }
  }

  /** A transmission is the header's writes, its announcement, then the
      data trace of the contents. */
  lemma TransmissionParts(name: string, content: seq<bv8>, n: nat, later: seq<nat>)
    requires EncodeHeader(name, |content|).Success?
    requires |later| == |Protocol.Chunks(content)|
    ensures |[n] + later| == |Protocol.Chunks(content)| + 1
    ensures Transmission(name, content, [n] + later)
      == Repeat(Wrote(EncodeHeader(name, |content|).value), n) + [HeaderSent(|content|, name)]
         + DataTrace(Protocol.Chunks(content), later)
  {
    assert ([n] + later)[0] == n && ([n] + later)[1..] == later;
  }

  /** An interrupted transfer is the header's writes, its announcement,
      then the stalled chunk loop. */
  lemma InterruptedParts(name: string, content: seq<bv8>, n: nat, later: seq<nat>)
    requires EncodeHeader(name, |content|).Success?
    requires 0 < |later| <= |Protocol.Chunks(content)|
    ensures 2 <= |[n] + later| <= |Protocol.Chunks(content)| + 1
    ensures Interrupted(name, content, [n] + later)
      == Repeat(Wrote(EncodeHeader(name, |content|).value), n) + [HeaderSent(|content|, name)]
         + StalledTrace(Protocol.Chunks(content), later)
  {
    assert ([n] + later)[0] == n && ([n] + later)[1..] == later;
  }

  /** Lines 43-59: choose and check the name, then open the file and the
      port. A name that fails the check throws before anything is opened;
      on success the name is the checked one and both are open. */
  method Open(filePath: string, nameArg: Option<string>, fileOpens: bool, portOpens: bool)
    returns (result: Result<string, SendError>, trace: seq<Event>)
    ensures var name := ChooseName(filePath, nameArg);
      CheckName(name).Failure? ==> result == Failure(CheckName(name).error) && trace == []
    ensures var name := ChooseName(filePath, nameArg);
      CheckName(name).Success? && !fileOpens ==> result == Failure(FileOpenFailed) && trace == []
    ensures var name := ChooseName(filePath, nameArg);
      CheckName(name).Success? && fileOpens && !portOpens ==>
        result == Failure(PortOpenFailed) && trace == [FileOpened]
    ensures var name := ChooseName(filePath, nameArg);
      CheckName(name).Success? && fileOpens && portOpens ==>
        result == Success(name) && trace == [FileOpened, PortOpened]
  {
    var name := ChooseName(filePath, nameArg);
    var check := CheckName(name);
    if check.Failure? {
      return Failure(check.error), [];
    }
    if !fileOpens {
      return Failure(FileOpenFailed), [];
    }
    if !portOpens {
      return Failure(PortOpenFailed), [FileOpened];
    }
    return Success(name), [FileOpened, PortOpened];
  }

  /** What a `SendCore` trace looks like: the file opened first, the port
      second, then only line traffic. */
  predicate CoreShape(trace: seq<Event>) {
    && (|trace| > 0 ==> trace[0] == FileOpened)
    && (|trace| > 1 ==> trace[1] == PortOpened)
    && forall i | 2 <= i < |trace| :: Traffic(trace[i])
  }

  /** Lines 39-122 on a file with contents `content` (`fileLength` is its
      size) and a peer answering `replies`. `tries` lists how often the
      header and each chunk went out.
      - A name that fails the check throws before anything is opened.
      - On success the trace is exactly `Delivery`: the header is accepted
        and announced before any chunk goes out, and the chunks, in order,
        make up the contents, each sent at most six times and announced
        once with its size plus 2.
      - Once both are open, a header the peer does not accept ends the
        trace with its writes, and a chunk loop that fails ends it with the
        failed frame's writes, as `Transmit` states.
      - A peer that answers 0 to everything makes the transfer succeed.
      - The file is opened first and the port second, and nothing is ever
        closed here. */
  method SendCore(filePath: string, nameArg: Option<string>, content: seq<bv8>,
                  fileOpens: bool, portOpens: bool, replies: seq<int>)
    returns (result: Result<(), SendError>, trace: seq<Event>, tries: seq<nat>)
    ensures var name := ChooseName(filePath, nameArg);
      CheckName(name).Failure? ==> result == Failure(CheckName(name).error) && trace == []
    ensures var name := ChooseName(filePath, nameArg);
      CheckName(name).Success? && !fileOpens ==> result == Failure(FileOpenFailed) && trace == []
    ensures var name := ChooseName(filePath, nameArg);
      CheckName(name).Success? && fileOpens && !portOpens ==>
        result == Failure(PortOpenFailed) && trace == [FileOpened]
    ensures forall i | 0 <= i < |tries| :: 1 <= tries[i] <= MaxTries
    ensures var name := ChooseName(filePath, nameArg);
      CheckName(name).Success? && fileOpens && portOpens && |name| >= Protocol.HeaderSize ==>
        result == Failure(NameOverflow) && trace == [FileOpened, PortOpened]
    ensures var name := ChooseName(filePath, nameArg);
      CheckName(name).Success? && fileOpens && portOpens && |name| < Protocol.HeaderSize
      && !Accepted(replies) ==>
        && result.Failure? && |tries| == 1
        && trace == [FileOpened, PortOpened] + Repeat(Wrote(EncodeHeader(name, |content|).value), tries[0])
    ensures var name := ChooseName(filePath, nameArg);
      CheckName(name).Success? && fileOpens && portOpens && |name| < Protocol.HeaderSize
      && Accepted(replies) && result.Failure? ==>
        && 2 <= |tries| <= |Protocol.Chunks(content)| + 1
        && trace == [FileOpened, PortOpened] + Interrupted(name, content, tries)
    ensures result.Success? ==>
      var name := ChooseName(filePath, nameArg);
      && EncodeHeader(name, |content|).Success? && Accepted(replies)
      && |tries| == |Protocol.Chunks(content)| + 1
      && trace == Delivery(name, content, tries)
    ensures (var name := ChooseName(filePath, nameArg);
             CheckName(name).Success? && |name| < Protocol.HeaderSize && fileOpens && portOpens
             && Accepts(replies, |Protocol.Chunks(content)| + 1)) ==>
      result.Success?
    ensures CoreShape(trace)
    ensures CheckName(ChooseName(filePath, nameArg)).Success? && fileOpens ==> |trace| > 0
  {
    var checked, opening := Open(filePath, nameArg, fileOpens, portOpens);
    if checked.Failure? {
      return Failure(checked.error), opening, [];
    }
    var traffic;
    result, traffic, tries := Transmit(checked.value, content, replies);
    trace := opening + traffic;
    OpenedShape(traffic);
  }

  /** Line traffic after the two openings keeps the shape. */
  lemma OpenedShape(traffic: seq<Event>)
    requires forall i | 0 <= i < |traffic| :: Traffic(traffic[i])
    ensures CoreShape([FileOpened, PortOpened] + traffic)
  {
    var trace := [FileOpened, PortOpened] + traffic;
    forall i | 2 <= i < |trace|
      ensures Traffic(trace[i])
    {
      assert trace[i] == traffic[i - 2];
    }
  }

  // ---------------------------------------------------------------------
  // Send

  /** How many times `e` occurs in `t`. */
  function Count(t: seq<Event>, e: Event): nat
    decreases |t|
  {
    if |t| == 0 then 0 else Count(t[..|t| - 1], e) + (if t[|t| - 1] == e then 1 else 0)
  }

  lemma {:induction false} CountAppend(a: seq<Event>, b: seq<Event>, e: Event)
    ensures Count(a + b, e) == Count(a, e) + Count(b, e)
    decreases |b|
  {
    if |b| > 0 {
      assert (a + b)[..|a + b| - 1] == a + b[..|b| - 1];
      assert (a + b)[|a + b| - 1] == b[|b| - 1];
      CountAppend(a, b[..|b| - 1], e);
    } else {
      assert a + b == a;
    }
  }

  lemma CountSingle(x: Event, e: Event)
    ensures Count([x], e) == if x == e then 1 else 0
  {
    assert [x][..0] == [];
  }

  /** A run of writes holds nothing but writes. */
  lemma {:induction false} CountWrites(t: seq<Event>, e: Event)
    requires forall i | 0 <= i < |t| :: t[i].Wrote?
    requires !e.Wrote?
    ensures Count(t, e) == 0
    decreases |t|
  {
    if |t| > 0 {
      CountWrites(t[..|t| - 1], e);
    }
  }

  /** Line traffic holds no opening or closing. */
  lemma {:induction false} CountTraffic(t: seq<Event>, e: Event)
    requires forall i | 0 <= i < |t| :: Traffic(t[i])
    requires !Traffic(e)
    ensures Count(t, e) == 0
    decreases |t|
  {
    if |t| > 0 {
      CountTraffic(t[..|t| - 1], e);
    }
  }

  /** A `SendCore` trace opens the file once when it is not empty, the port
      once when it has more than one event, and closes neither. */
  lemma CoreOpenings(core: seq<Event>)
    requires CoreShape(core)
    ensures Count(core, FileOpened) == (if |core| > 0 then 1 else 0)
    ensures Count(core, PortOpened) == (if |core| > 1 then 1 else 0)
    ensures Count(core, FileClosed) == 0 && Count(core, PortClosed) == 0
  {
    var k := if |core| > 1 then 2 else |core|;
    var head, tail := core[..k], core[k..];
    assert core == head + tail;
    assert forall i | 0 <= i < |tail| :: Traffic(tail[i]) by {
      forall i | 0 <= i < |tail|
        ensures Traffic(tail[i])
      {
        assert tail[i] == core[k + i];
      }
    }
    forall e | !Traffic(e)
      ensures Count(core, e) == Count(head, e)
    {
      CountAppend(head, tail, e);
      CountTraffic(tail, e);
    }
    if k == 2 {
      assert head[..1] == [FileOpened] && [FileOpened][..0] == [];
    } else if k == 1 {
      assert head[..0] == [];
    }
  }

  /** What the `finally` block of `Send` closes after a `SendCore` trace:
      the port if it was opened, then the file if it was opened. */
  function Closing(core: seq<Event>): seq<Event> {
    if |core| > 1 then [PortClosed, FileClosed]
    else if |core| > 0 then [FileClosed]
    else []
  }

  /** Whatever `trace` opens it also closes, as often, after every other
      event: the port, then the file. */
  predicate Balanced(trace: seq<Event>) {
    && Count(trace, FileOpened) == Count(trace, FileClosed)
    && Count(trace, PortOpened) == Count(trace, PortClosed)
    && (Count(trace, FileOpened) > 0 ==> trace[|trace| - 1] == FileClosed)
    && (Count(trace, PortOpened) > 0 ==> |trace| >= 2 && trace[|trace| - 2] == PortClosed)
  }

  /** The closings make a `SendCore` trace balanced. */
  lemma ClosingBalances(core: seq<Event>)
    requires CoreShape(core)
    ensures Balanced(core + Closing(core))
  {
    CoreOpenings(core);
    var closing := Closing(core);
    forall e
      ensures Count(core + closing, e) == Count(core, e) + Count(closing, e)
    {
      CountAppend(core, closing, e);
    }
    forall e
      ensures Count(closing, e)
        == (if |core| > 1 && e == PortClosed then 1 else 0) + (if |core| > 0 && e == FileClosed then 1 else 0)
    {
      CountSingle(PortClosed, e);
      CountSingle(FileClosed, e);
      if |core| > 1 {
        CountAppend([PortClosed], [FileClosed], e);
      }
    }
  }

  /** Lines 21-37 as written: `SendCore` opens the file and the port into
      local variables that shadow the fields of the same names, so the
      `finally` block finds both fields null and closes nothing. Whatever
      was opened is still open when `Send` returns or throws. */
  method SendAsWritten(filePath: string, nameArg: Option<string>, content: seq<bv8>,
                       fileOpens: bool, portOpens: bool, replies: seq<int>)
    returns (result: Result<(), SendError>, trace: seq<Event>)
    ensures Count(trace, FileClosed) == 0 && Count(trace, PortClosed) == 0
    ensures CheckName(ChooseName(filePath, nameArg)).Success? && fileOpens ==>
      Count(trace, FileOpened) == 1 && !Balanced(trace)
  {
    var port: Option<()> := None;
    var fileStream: Option<()> := None;
    var tries;
    result, trace, tries := SendCore(filePath, nameArg, content, fileOpens, portOpens, replies);
    CoreOpenings(trace);
    if port.Some? {
      trace := trace + [PortClosed];
    }
    if fileStream.Some? {
      trace := trace + [FileClosed];
    }
  }

  /** `Send` as its `finally` block intends it: the port and then the file
      are closed whenever they were opened, after everything else, whether
      `SendCore` returned or threw; the outcome and the traffic before the
      closings are `SendCore`'s. */
  method Send(filePath: string, nameArg: Option<string>, content: seq<bv8>,
              fileOpens: bool, portOpens: bool, replies: seq<int>)
    returns (result: Result<(), SendError>, trace: seq<Event>, tries: seq<nat>)
    ensures Balanced(trace)
    ensures result.Success? ==>
      var name := ChooseName(filePath, nameArg);
      && EncodeHeader(name, |content|).Success?
      && |tries| == |Protocol.Chunks(content)| + 1
      && trace == Delivery(name, content, tries) + [PortClosed, FileClosed]
    ensures var name := ChooseName(filePath, nameArg);
      CheckName(name).Success? && fileOpens && portOpens && |name| < Protocol.HeaderSize
      && !Accepted(replies) ==>
        && result.Failure? && |tries| == 1
        && trace == [FileOpened, PortOpened] + Repeat(Wrote(EncodeHeader(name, |content|).value), tries[0])
                    + [PortClosed, FileClosed]
    ensures var name := ChooseName(filePath, nameArg);
      CheckName(name).Success? && fileOpens && portOpens && |name| < Protocol.HeaderSize
      && Accepted(replies) && result.Failure? ==>
        && 2 <= |tries| <= |Protocol.Chunks(content)| + 1
        && trace == [FileOpened, PortOpened] + Interrupted(name, content, tries) + [PortClosed, FileClosed]
    ensures (var name := ChooseName(filePath, nameArg);
             CheckName(name).Success? && |name| < Protocol.HeaderSize && fileOpens && portOpens
             && Accepts(replies, |Protocol.Chunks(content)| + 1)) ==>
      result.Success?
  {
    var core;
    result, core, tries := SendCore(filePath, nameArg, content, fileOpens, portOpens, replies);
    ClosingBalances(core);
    trace := core + Closing(core);
  }
}
