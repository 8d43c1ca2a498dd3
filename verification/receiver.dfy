/** The MSX side, `jget`: it receives a header, creates the output file,
    then receives the file in CRC-checked chunks, answering every block with
    a four-byte acknowledgement.

    The program is modelled as a state machine over a `Session` that holds
    the C globals plus the scripted answers of everything the program cannot
    see: the serial line (`rx`: one result per receive call, `tx`: one status
    per send call), the disk (`writes`: one DOS answer per write) and the
    file-creation calls. An exhausted `rx` script answers "RTS line timeout"
    (status 1), as a silent line would; exhausted `tx` and `writes` scripts
    answer success. Everything observable goes into the event `trace`. */
module Receiver {
  import opened Wrappers
  import Bytes
  import Protocol
  import Xmodem

  /** The processor modes of an MSX turbo R, as `GETCPU` reports them;
      `Z80` is `CPU_Z80`. */
  datatype CpuMode = Z80 | R800Rom | R800Dram

  /** The answer of one serial receive call: its status (0 = success) and
      the bytes that arrived. */
  datatype RxResult = RxResult(status: bv8, data: seq<bv8>)

  /** A DOS error code; DOS reports success as 0, so an error is never 0. */
  type ErrorCode = e: bv8 | e != 0 witness 1

  /** The answer of a DOS call that opens or creates a file: a handle, or the
      DOS error code with which the program then terminates. */
  datatype OpenResult = Opened(handle: bv8) | OpenFailed(error: ErrorCode)

  /** The answer of one DOS write: its error code (0 = success) and, for a
      failed write, how many of the bytes still reached the disk. DOS
      reports that count, but `WriteToFile` drops it. */
  datatype WriteAnswer = WriteAnswer(error: bv8, stored: nat)

  datatype Event =
    | CpuSet(mode: CpuMode, turboLed: bool)
    | SpeedSet(speed: bv8)
    | Port2Selected(fast: bool)
    | PathOpened(path: seq<bv8>, handle: bv8)
    | Received(length: nat, mode: CpuMode, fast: bool)
    | Sent(block: seq<bv8>, mode: CpuMode, fast: bool)
    | Created(name: seq<bv8>, handle: bv8)
    | Wrote(handle: bv8, data: seq<bv8>, error: bv8)
    | Closed(handle: bv8)
    | Exited(code: bv8)
    | Returned(code: bv8)

  /** Everything outside the program: whether DOS 2 is running, the processor
      mode the machine is in, and the scripted answers of the oracles. */
  datatype Env = Env(
    dos2: bool,
    cpu: CpuMode,
    pathResult: OpenResult,
    createResult: OpenResult,
    rx: seq<RxResult>,
    tx: seq<bv8>,
    writes: seq<WriteAnswer>)

  /** The program's globals (`currentCpu`, `is57k`, `fileHandle`, `result`,
      `remaining`, `chunkSize`, the receive buffer), the processor mode in
      force, the oracles not yet consumed, the bytes written to the file so
      far and the trace. */
  datatype Session = Session(
    currentCpu: CpuMode,
    mode: CpuMode,
    fast: bool,
    fileHandle: bv8,
    result: bv8,
    remaining: nat,
    chunkSize: nat,
    buffer: seq<bv8>,
    createResult: OpenResult,
    rx: seq<RxResult>,
    tx: seq<bv8>,
    writes: seq<WriteAnswer>,
    file: seq<bv8>,
    trace: seq<Event>)

  /** A step either lets the program go on or ends it with an exit code
      (through `Terminate` or a `return` from `main`). */
  datatype Step = Continue(s: Session) | Halted(s: Session, code: bv8)

  const AckOk: bv8 := 0
  const AckCrcError: bv8 := 1
  const AckHeaderCrcError: bv8 := 2

  /** Exit code when a send fails ("CTS line timeout") and when the header
      CRC does not match. */
  const ExitSendFailed: bv8 := 5
  const ExitHeaderCrc: bv8 := 5
  /** Exit code for receive statuses other than 1, 2 and 3. */
  const ExitUnexpected: bv8 := 4

  // ---------------------------------------------------------------------
  // Trace properties, each defined on the last event so that appending one
  // event at a time (`Emit`) keeps them cheap to check.

  function Last(t: seq<Event>): Event
    requires |t| > 0
  {
    t[|t| - 1]
  }

  predicate IsSerial(e: Event) {
    e.Received? || e.Sent?
  }

  predicate IsOpen(e: Event) {
    e.PathOpened? || e.Created?
  }

  /** The header and chunk acceptance: an acknowledgement of status 0. */
  predicate IsAccept(e: Event) {
    e.Sent? && e.block == Ack(AckOk)
  }

  /** Every serial transfer in `t` ran with the processor in Z80 mode. */
  predicate SerialAtZ80(t: seq<Event>)
    decreases |t|
  {
    |t| == 0 || (SerialAtZ80(t[..|t| - 1]) && (IsSerial(Last(t)) ==> Last(t).mode == Z80))
  }

  /** An output file has been opened or created in `t`. */
  predicate HasOpened(t: seq<Event>)
    decreases |t|
  {
    |t| > 0 && (IsOpen(Last(t)) || HasOpened(t[..|t| - 1]))
  }

  /** Every acceptance in `t` comes after an output file was opened. */
  predicate AcceptAfterOpen(t: seq<Event>)
    decreases |t|
  {
    |t| == 0 || (AcceptAfterOpen(t[..|t| - 1]) && (IsAccept(Last(t)) ==> HasOpened(t[..|t| - 1])))
  }

  /** A write that succeeded. */
  predicate IsGoodWrite(e: Event) {
    e.Wrote? && e.error == 0
  }

  /** The last event of `t` other than a processor switch is a successful
      write. */
  predicate WroteLast(t: seq<Event>)
    decreases |t|
  {
    |t| > 0 && (if Last(t).CpuSet? then WroteLast(t[..|t| - 1]) else IsGoodWrite(Last(t)))
  }

  /** Every acceptance in `t` but the first, which accepts the header,
      comes right after a successful write, processor switches aside: a
      chunk is acknowledged only once it is on the disk. */
  predicate AcceptAfterWrite(t: seq<Event>)
    decreases |t|
  {
    |t| == 0 ||
    (AcceptAfterWrite(t[..|t| - 1])
     && (IsAccept(Last(t)) && Acks(t[..|t| - 1], AckOk) > 0 ==> WroteLast(t[..|t| - 1])))
  }

  function Creations(t: seq<Event>): nat
    decreases |t|
  {
    if |t| == 0 then 0 else Creations(t[..|t| - 1]) + (if Last(t).Created? then 1 else 0)
  }

  /** The number of acknowledgements of status `v` sent in `t`. */
  function Acks(t: seq<Event>, v: bv8): nat
    decreases |t|
  {
    if |t| == 0 then 0 else Acks(t[..|t| - 1], v) + (if Last(t).Sent? && Last(t).block == Ack(v) then 1 else 0)
  }

  function Closings(t: seq<Event>): nat
    decreases |t|
  {
    if |t| == 0 then 0 else Closings(t[..|t| - 1]) + (if Last(t).Closed? then 1 else 0)
  }

  /** Record one event. */
  function Emit(s: Session, e: Event): (r: Session)
    ensures r == s.(trace := s.trace + [e])
    ensures SerialAtZ80(r.trace) <==> SerialAtZ80(s.trace) && (IsSerial(e) ==> e.mode == Z80)
    ensures HasOpened(r.trace) <==> HasOpened(s.trace) || IsOpen(e)
    ensures AcceptAfterOpen(r.trace) <==> AcceptAfterOpen(s.trace) && (IsAccept(e) ==> HasOpened(s.trace))
    ensures AcceptAfterWrite(r.trace) <==>
      AcceptAfterWrite(s.trace) && (IsAccept(e) && Acks(s.trace, AckOk) > 0 ==> WroteLast(s.trace))
    ensures WroteLast(r.trace) <==> if e.CpuSet? then WroteLast(s.trace) else IsGoodWrite(e)
    ensures Creations(r.trace) == Creations(s.trace) + (if e.Created? then 1 else 0)
    ensures Closings(r.trace) == Closings(s.trace) + (if e.Closed? then 1 else 0)
    ensures forall v :: Acks(r.trace, v) == Acks(s.trace, v) + (if e.Sent? && e.block == Ack(v) then 1 else 0)
  {
    AppendKeeps(s.trace, e);
    s.(trace := s.trace + [e])
  }

  lemma AppendKeeps(t: seq<Event>, e: Event)
    ensures SerialAtZ80(t + [e]) <==> SerialAtZ80(t) && (IsSerial(e) ==> e.mode == Z80)
    ensures HasOpened(t + [e]) <==> HasOpened(t) || IsOpen(e)
    ensures AcceptAfterOpen(t + [e]) <==> AcceptAfterOpen(t) && (IsAccept(e) ==> HasOpened(t))
    ensures AcceptAfterWrite(t + [e]) <==>
      AcceptAfterWrite(t) && (IsAccept(e) && Acks(t, AckOk) > 0 ==> WroteLast(t))
    ensures WroteLast(t + [e]) <==> if e.CpuSet? then WroteLast(t) else IsGoodWrite(e)
    ensures Creations(t + [e]) == Creations(t) + (if e.Created? then 1 else 0)
    ensures Closings(t + [e]) == Closings(t) + (if e.Closed? then 1 else 0)
    ensures forall v :: Acks(t + [e], v) == Acks(t, v) + (if e.Sent? && e.block == Ack(v) then 1 else 0)
  {
    assert (t + [e])[..|t|] == t;
  }

  /** The trace properties every step keeps. */
  predicate Disciplined(s: Session) {
    SerialAtZ80(s.trace) && AcceptAfterOpen(s.trace) && AcceptAfterWrite(s.trace)
  }

  /** The processor runs in the mode captured by `GetCpu`. */
  predicate Captured(s: Session) {
    s.mode == s.currentCpu
  }

  // ---------------------------------------------------------------------
  // Oracles

  function NextRx(rx: seq<RxResult>): RxResult {
    if |rx| == 0 then RxResult(1, []) else rx[0]
  }

  function NextStatus(script: seq<bv8>): bv8 {
    if |script| == 0 then 0 else script[0]
  }

  /** Every call answered by `script` succeeds. */
  predicate Quiet(script: seq<bv8>) {
    forall i | 0 <= i < |script| :: script[i] == 0
  }

  function NextWrite(script: seq<WriteAnswer>): WriteAnswer {
    if |script| == 0 then WriteAnswer(0, 0) else script[0]
  }

  /** Every write answered by `script` succeeds. */
  predicate WritesSucceed(script: seq<WriteAnswer>) {
    forall i | 0 <= i < |script| :: script[i].error == 0
  }

  /** How many of `n` bytes a write answered `w` puts on the disk. */
  function Stored(w: WriteAnswer, n: nat): (k: nat)
    ensures k <= n
    ensures w.error == 0 ==> k == n
  {
    if w.error == 0 || w.stored > n then n else w.stored
  }

  function Drop<T>(script: seq<T>): seq<T> {
    if |script| == 0 then [] else script[1..]
  }

  /** The bytes a receive call leaves in a buffer of `n` bytes. */
  function Fit(data: seq<bv8>, n: nat): (r: seq<bv8>)
    ensures |r| == n
    ensures |data| >= n ==> r == data[..n]
  {
    if |data| >= n then data[..n] else data + seq(n - |data|, _ => 0)
  }

  // ---------------------------------------------------------------------
  // Processor mode

  /** A step that emits no serial transfer, opening, creation, closing or
      acknowledgement leaves every trace property as it was. */
  ghost predicate Neutral(t: seq<Event>, t1: seq<Event>) {
    && (SerialAtZ80(t) ==> SerialAtZ80(t1))
    && (AcceptAfterOpen(t) ==> AcceptAfterOpen(t1))
    && (AcceptAfterWrite(t) ==> AcceptAfterWrite(t1))
    && (HasOpened(t) ==> HasOpened(t1))
    && Creations(t1) == Creations(t) && Closings(t1) == Closings(t)
    && (forall v :: Acks(t1, v) == Acks(t, v))
  }

  /** `SetCpu`: the mode is masked with 3 and the turbo LED lit for any
      mode but Z80. */
  method SetCpu(s: Session, cpu: CpuMode) returns (r: Session)
    ensures r == s.(mode := cpu, trace := s.trace + [CpuSet(cpu, cpu != Z80)])
    ensures Neutral(s.trace, r.trace)
    ensures WroteLast(r.trace) <==> WroteLast(s.trace)
  {
    r := Emit(s, CpuSet(cpu, cpu != Z80)).(mode := cpu);
  }

  /** The mode a serial transfer of session `s` runs in: Z80, unless Z80
      is the captured mode and nothing is switched. */
  function TransferMode(s: Session): CpuMode {
    if s.currentCpu != Z80 then Z80 else s.mode
  }

  /** The processor switch to `cpu` around a serial transfer: one when the
      captured mode `captured` is not Z80, none when it is. */
  function SwitchTo(captured: CpuMode, cpu: CpuMode): seq<Event> {
    if captured != Z80 then [CpuSet(cpu, cpu != Z80)] else []
  }

  /** The events of one serial transfer `e` in session `s`: the switch to
      Z80, the transfer, the switch back. */
  function AroundZ80(s: Session, e: Event): seq<Event> {
    SwitchTo(s.currentCpu, Z80) + [e] + SwitchTo(s.currentCpu, s.currentCpu)
  }

  /** The switch to Z80 that precedes every serial transfer. */
  method ToZ80(s: Session) returns (r: Session)
    ensures s.currentCpu != Z80 || Captured(s) ==> r.mode == Z80
    ensures r.mode == TransferMode(s)
    ensures r == s.(mode := r.mode, trace := s.trace + SwitchTo(s.currentCpu, Z80))
    ensures Neutral(s.trace, r.trace)
    ensures WroteLast(r.trace) <==> WroteLast(s.trace)
  {
    r := s;
    if s.currentCpu != Z80 {
      r := SetCpu(s, Z80);
    }
  }

  /** The switch back to the captured mode that follows every transfer. */
  method RestoreCpu(s: Session) returns (r: Session)
    ensures s.currentCpu != Z80 || s.mode == Z80 ==> r.mode == s.currentCpu
    ensures s.currentCpu == Z80 ==> r.mode == s.mode
    ensures r == s.(mode := r.mode, trace := s.trace + SwitchTo(s.currentCpu, s.currentCpu))
    ensures Neutral(s.trace, r.trace)
  {
    r := s;
    if s.currentCpu != Z80 {
      r := SetCpu(s, s.currentCpu);
    }
  }

  /** `BUFFER` once `SerialSendByte(value)` has put its block in the
      first four bytes; the rest is kept. */
  function AckInBuffer(buffer: seq<bv8>, value: bv8): (r: seq<bv8>)
    ensures |r| >= 4 && r[..4] == Ack(value)
    ensures |buffer| >= 4 ==> |r| == |buffer| && r[4..] == buffer[4..]
  {
    Ack(value) + (if |buffer| >= 4 then buffer[4..] else [])
  }

  /** The block `SerialSendByte` puts on the line. */
  function Ack(value: bv8): (r: seq<bv8>)
    ensures |r| == 4
    ensures forall i | 0 <= i < |r| :: r[i] == value
  {
    [value, value, value, value]
  }

  lemma DropQuiet(script: seq<bv8>)
    requires Quiet(script)
    ensures Quiet(Drop(script)) && NextStatus(script) == 0
  {
  }

  lemma DropWrites(script: seq<WriteAnswer>)
    requires WritesSucceed(script)
    ensures WritesSucceed(Drop(script)) && NextWrite(script).error == 0
  {
  }

  // ---------------------------------------------------------------------
  // The routines of jget.c

  /** What `Terminate(code)` leaves behind when called in session `s`:
      exactly the events of `TerminationEvents` (the captured processor
      mode restored, then the open file closed, then the exit with
      `code`); no file created, nothing written, no acknowledgement sent. */
  ghost predicate TerminatedFrom(s: Session, r: Step, code: bv8) {
    && r.Halted? && r.code == code
    && r.s.trace == s.trace + TerminationEvents(s, code)
    && (s.currentCpu != Z80 || Captured(s) ==> r.s.mode == s.currentCpu)
    && (s.currentCpu == Z80 ==> r.s.mode == s.mode)
    && Closings(r.s.trace) == Closings(s.trace) + (if s.fileHandle != 0 then 1 else 0)
    && Creations(r.s.trace) == Creations(s.trace)
    && (forall v :: Acks(r.s.trace, v) == Acks(s.trace, v))
    && (Disciplined(s) ==> Disciplined(r.s))
    && (HasOpened(s.trace) ==> HasOpened(r.s.trace))
    && r.s == s.(mode := r.s.mode, trace := r.s.trace)
  }

  /** The events `Terminate(code)` adds in session `s`, in this order: the
      switch back to the captured mode unless that is Z80, the closing of
      the file when a handle is open, the exit. */
  function TerminationEvents(s: Session, code: bv8): seq<Event> {
    SwitchTo(s.currentCpu, s.currentCpu) + (Closing(s.fileHandle) + [Exited(code)])
  }

  /** The closing of handle `h`, when one is open. */
  function Closing(h: bv8): seq<Event> {
    if h != 0 then [Closed(h)] else []
  }

  /** The end of `Terminate`: close the open file, if any, and exit. */
  method CloseAndExit(s: Session, code: bv8) returns (r: Session)
    ensures r == s.(trace := s.trace + (Closing(s.fileHandle) + [Exited(code)]))
    ensures Closings(r.trace) == Closings(s.trace) + (if s.fileHandle != 0 then 1 else 0)
    ensures Creations(r.trace) == Creations(s.trace) && forall v :: Acks(r.trace, v) == Acks(s.trace, v)
    ensures Disciplined(s) ==> Disciplined(r)
    ensures HasOpened(s.trace) ==> HasOpened(r.trace)
  {
    var s1 := CloseOpenFile(s);
    r := Emit(s1, Exited(code));
    JoinAssoc(s.trace, Closing(s.fileHandle), [Exited(code)]);
  }

  /** The `CloseFile` call of `Terminate`, made only when a file is open. */
  method CloseOpenFile(s: Session) returns (r: Session)
    ensures r == s.(trace := s.trace + Closing(s.fileHandle))
    ensures Closings(r.trace) == Closings(s.trace) + (if s.fileHandle != 0 then 1 else 0)
    ensures Creations(r.trace) == Creations(s.trace) && forall v :: Acks(r.trace, v) == Acks(s.trace, v)
    ensures Disciplined(s) ==> Disciplined(r)
    ensures HasOpened(s.trace) ==> HasOpened(r.trace)
  {
    r := s;
    if s.fileHandle != 0 {
      r := Emit(s, Closed(s.fileHandle));
    }
  }

  /** `Terminate`. */
  method Terminate(s: Session, code: bv8) returns (r: Step)
    ensures TerminatedFrom(s, r, code)
  {
    var s1 := RestoreCpu(s);
    var s2 := CloseAndExit(s1, code);
    r := Halted(s2, code);
    JoinAssoc(s.trace, SwitchTo(s.currentCpu, s.currentCpu), Closing(s.fileHandle) + [Exited(code)]);
  }

  /** `SerialReceive(length)`: switch to Z80, receive, switch back; the
      status goes to the global `result`. */
  method SerialReceive(s: Session, length: nat) returns (r: Session)
    ensures r.result == NextRx(s.rx).status && r.rx == Drop(s.rx)
    ensures r.buffer == Fit(NextRx(s.rx).data, length)
    ensures r.trace == s.trace + AroundZ80(s, Received(length, TransferMode(s), s.fast))
    ensures s.currentCpu != Z80 || Captured(s) ==> r.mode == s.currentCpu
    ensures s.currentCpu == Z80 ==> r.mode == s.mode
    ensures Captured(s) ==> Captured(r)
    ensures Captured(s) && Disciplined(s) ==> Disciplined(r)
    ensures HasOpened(s.trace) ==> HasOpened(r.trace)
    ensures Creations(r.trace) == Creations(s.trace) && Closings(r.trace) == Closings(s.trace)
    ensures forall v :: Acks(r.trace, v) == Acks(s.trace, v)
    ensures r == s.(mode := r.mode, result := r.result, buffer := r.buffer, rx := r.rx, trace := r.trace)
  {
    var x := NextRx(s.rx);
    var s1 := ToZ80(s);
    var s2 := Emit(s1, Received(length, s1.mode, s.fast));
    r := RestoreCpu(s2.(result := x.status, buffer := Fit(x.data, length), rx := Drop(s.rx)));
    JoinThree(s.trace, SwitchTo(s.currentCpu, Z80), [Received(length, s1.mode, s.fast)], SwitchTo(s.currentCpu, s.currentCpu));
  }

  /** `ProcessReceiveError`: it tests the global `result` (its parameter is
      unused); 0 goes on, 1, 2 and 3 exit with that code, anything else
      with 4. */
  method ProcessReceiveError(s: Session) returns (r: Step)
    ensures r.Continue? <==> s.result == 0
    ensures r.Continue? ==> r.s == s
    ensures 1 <= s.result <= 3 ==> TerminatedFrom(s, r, s.result)
    ensures s.result > 3 ==> TerminatedFrom(s, r, ExitUnexpected)
  {
    if s.result == 1 {
      r := Terminate(s, 1);
    } else if s.result == 2 {
      r := Terminate(s, 2);
    } else if s.result == 3 {
      r := Terminate(s, 3);
    } else if s.result != 0 {
      r := Terminate(s, ExitUnexpected);
    } else {
      r := Continue(s);
    }
  }

  /** The transfer of `SerialSendByte(value)`: switch to Z80, put the
      status four times in `BUFFER` and send it, switch back; the send
      status goes to the global `result`. */
  method SendBlock(s: Session, value: bv8) returns (r: Session)
    ensures r == s.(mode := r.mode, result := NextStatus(s.tx), tx := Drop(s.tx), buffer := AckInBuffer(s.buffer, value),
                    trace := s.trace + AroundZ80(s, Sent(Ack(value), TransferMode(s), s.fast)))
    ensures s.currentCpu != Z80 || Captured(s) ==> r.mode == s.currentCpu
    ensures s.currentCpu == Z80 ==> r.mode == s.mode
    ensures Captured(s) && Disciplined(s)
            && (value != AckOk || (HasOpened(s.trace) && (Acks(s.trace, AckOk) == 0 || WroteLast(s.trace))))
            ==> Disciplined(r)
    ensures HasOpened(s.trace) ==> HasOpened(r.trace)
    ensures Acks(r.trace, value) == Acks(s.trace, value) + 1
    ensures forall v | v != value :: Acks(r.trace, v) == Acks(s.trace, v)
    ensures Creations(r.trace) == Creations(s.trace) && Closings(r.trace) == Closings(s.trace)
  {
    var s1 := ToZ80(s);
    var s2 := Emit(s1, Sent(Ack(value), s1.mode, s.fast));
    r := RestoreCpu(s2.(result := NextStatus(s.tx), tx := Drop(s.tx), buffer := AckInBuffer(s.buffer, value)));
    JoinThree(s.trace, SwitchTo(s.currentCpu, Z80), [Sent(Ack(value), s1.mode, s.fast)], SwitchTo(s.currentCpu, s.currentCpu));
  }

  /** `SerialSendByte(value)`: switch to Z80, send the status four times,
      switch back; a failed send exits with 5. The send status overwrites the
      global `result`. */
  method SerialSendByte(s: Session, value: bv8) returns (r: Step)
    ensures r.s.currentCpu == s.currentCpu
    ensures r.Continue? <==> NextStatus(s.tx) == 0
    ensures r.Continue? ==>
      r.s == s.(mode := r.s.mode, result := 0, tx := Drop(s.tx), buffer := AckInBuffer(s.buffer, value),
                trace := s.trace + AroundZ80(s, Sent(Ack(value), TransferMode(s), s.fast)))
    ensures r.Halted? ==> r.code == ExitSendFailed && r.s.file == s.file && r.s.remaining == s.remaining
    ensures r.Halted? ==>
      r.s.trace == s.trace + AroundZ80(s, Sent(Ack(value), TransferMode(s), s.fast))
                   + TerminationEvents(s, ExitSendFailed)
    ensures Captured(s) ==> Captured(r.s)
    ensures Captured(s) && Disciplined(s)
            && (value != AckOk || (HasOpened(s.trace) && (Acks(s.trace, AckOk) == 0 || WroteLast(s.trace))))
            ==> Disciplined(r.s)
    ensures HasOpened(s.trace) ==> HasOpened(r.s.trace)
    ensures Acks(r.s.trace, value) == Acks(s.trace, value) + 1
    ensures forall v | v != value :: Acks(r.s.trace, v) == Acks(s.trace, v)
    ensures Creations(r.s.trace) == Creations(s.trace)
    ensures Closings(r.s.trace) == Closings(s.trace) + (if r.Halted? && s.fileHandle != 0 then 1 else 0)
  {
    var s3 := SendBlock(s, value);
    if s3.result != 0 {
      r := Terminate(s3, ExitSendFailed);
    } else {
      r := Continue(s3);
    }
  }

  /** `WriteToFile`: the DOS error code of the write goes to `result`; a
      successful write appends the data to the file. */
  method WriteToFile(s: Session, data: seq<bv8>) returns (r: Session)
    ensures r.result == NextWrite(s.writes).error
    ensures r.result == 0 ==> r.file == s.file + data
    ensures r.result != 0 ==> r.file == s.file + data[..Stored(NextWrite(s.writes), |data|)]
    ensures s.file <= r.file && r.file <= s.file + data
    ensures Neutral(s.trace, r.trace)
    ensures r.trace == s.trace + [Wrote(s.fileHandle, data, r.result)]
    ensures WroteLast(r.trace) <==> r.result == 0
    ensures r == s.(result := r.result, file := r.file, writes := Drop(s.writes), trace := r.trace)
  {
    var w := NextWrite(s.writes);
    var k := Stored(w, |data|);
    var s1 := Emit(s, Wrote(s.fileHandle, data, w.error));
    r := s1.(result := w.error, file := s.file + data[..k], writes := Drop(s.writes));
    JoinPrefix(s.file, data[..k]);
    JoinMonotone(s.file, data[..k], data);
  }

  /** `CreateFile(name)`: a handle, or termination with the DOS error. */
  method CreateFile(s: Session, name: seq<bv8>) returns (r: Step)
    ensures r.Continue? <==> s.createResult.Opened?
    ensures r.Continue? ==> r.s == s.(fileHandle := s.createResult.handle, trace := r.s.trace)
    ensures r.Continue? ==> HasOpened(r.s.trace) && Creations(r.s.trace) == Creations(s.trace) + 1
    ensures r.Continue? ==> (Disciplined(s) ==> Disciplined(r.s)) && forall v :: Acks(r.s.trace, v) == Acks(s.trace, v)
    ensures r.Halted? ==> TerminatedFrom(s, r, s.createResult.error)
  {
    match s.createResult
    case Opened(h) =>
      r := Continue(Emit(s, Created(name, h)).(fileHandle := h));
    case OpenFailed(e) =>
      r := Terminate(s, e);
  }

  /** `CreateFileAndGetPath(path)`: the file named on the command line is
      created and opened, or the program terminates with the DOS error. */
  method CreateFileAndGetPath(s: Session, path: seq<bv8>, result: OpenResult) returns (r: Step)
    ensures r.Continue? <==> result.Opened?
    ensures r.Continue? ==> r.s == s.(fileHandle := result.handle, trace := r.s.trace)
    ensures r.Continue? ==> HasOpened(r.s.trace) && Creations(r.s.trace) == Creations(s.trace)
    ensures r.Continue? ==> (Disciplined(s) ==> Disciplined(r.s)) && forall v :: Acks(r.s.trace, v) == Acks(s.trace, v)
    ensures r.Halted? ==> TerminatedFrom(s, r, result.error)
  {
    match result
    case Opened(h) =>
      r := Continue(Emit(s, PathOpened(path, h)).(fileHandle := h));
    case OpenFailed(e) =>
      r := Terminate(s, e);
  }

  /** Lines 147-150 as written: the DOS error `result` is echoed as the
      acknowledgement, but `SerialSendByte` stores its own send status in
      the same global, so `Terminate(result)` then exits with that status:
      0 whenever the acknowledgement went out. */
  method WriteFailedAsWritten(s: Session) returns (r: Step)
    requires s.result != 0
    ensures r.Halted?
    ensures Acks(r.s.trace, s.result) == Acks(s.trace, s.result) + 1
    ensures NextStatus(s.tx) == 0 ==> r.code == 0
    ensures NextStatus(s.tx) != 0 ==> r.code == ExitSendFailed
    ensures r.s.file == s.file && r.s.remaining == s.remaining
  {
    var sent := SerialSendByte(s, s.result);
    if sent.Halted? {
      return sent;
    }
    var s1 := sent.s;
    r := Terminate(s1, s1.result);
  }

  /** The write failure with the exit code the code evidently means: the
      DOS error echoed as the acknowledgement is also the exit code. */
  method WriteFailed(s: Session) returns (r: Step)
    ensures r.s.currentCpu == s.currentCpu
    requires s.result != 0
    ensures r.Halted? && r.code != 0
    ensures NextStatus(s.tx) == 0 ==> r.code == s.result
    ensures NextStatus(s.tx) != 0 ==> r.code == ExitSendFailed
    ensures Acks(r.s.trace, s.result) == Acks(s.trace, s.result) + 1
    ensures Captured(s) ==> Captured(r.s)
    ensures Captured(s) && Disciplined(s) ==> Disciplined(r.s)
    ensures HasOpened(s.trace) ==> HasOpened(r.s.trace)
    ensures Creations(r.s.trace) == Creations(s.trace) && r.s.file == s.file
  {
    var e := s.result;
    var sent := SerialSendByte(s, e);
    if sent.Halted? {
      return sent;
    }
    r := Terminate(sent.s, e);
  }

  /** The `crc16` routine over the first `length` bytes of `buf`
      (`Xmodem.Crc16` models the routine itself). A length of 0 would make
      the routine run over 65536 bytes, so every caller must pass at least
      1: 17 for the header, `chunkSize`, which is positive inside the loop,
      for a chunk. */
  function Crc16Of(buf: seq<bv8>, length: nat): bv16
    requires 1 <= length <= |buf| && length < 0x10000
  {
    Xmodem.Crc(buf[..length])
  }

  /** A chunk frame of `n` data bytes passes when the CRC of the data
      matches the little-endian CRC that follows it. */
  predicate FrameOk(frame: seq<bv8>, n: nat)
    requires 1 <= n <= Protocol.MaxChunkSize && |frame| == n + Protocol.CrcSize
  {
    Crc16Of(frame, n) == Bytes.ReadLe16(frame[n], frame[n + 1])
  }

  /** The data a receiver owed `remaining` bytes keeps from the line
      traffic `rx`, as a function of the traffic alone: a frame that fails
      its CRC is dropped and asked for again, a frame that passes is kept,
      and the first receive error ends it. */
  function Accepted(rx: seq<RxResult>, remaining: nat): seq<bv8>
    decreases |rx|
  {
    if remaining == 0 || |rx| == 0 || rx[0].status != 0 then []
    else
      var n := Protocol.ChunkSize(remaining);
      var frame := Fit(rx[0].data, n + Protocol.CrcSize);
      if FrameOk(frame, n) then frame[..n] + Accepted(rx[1..], remaining - n)
      else Accepted(rx[1..], remaining)
  }

  /** The traffic `rx` delivers all `remaining` bytes before any receive
      error. */
  predicate Delivers(rx: seq<RxResult>, remaining: nat)
    decreases |rx|
  {
    remaining == 0 ||
    (|rx| > 0 && rx[0].status == 0 &&
      var n := Protocol.ChunkSize(remaining);
      var frame := Fit(rx[0].data, n + Protocol.CrcSize);
      if FrameOk(frame, n) then Delivers(rx[1..], remaining - n) else Delivers(rx[1..], remaining))
  }

  /** The frame the next chunk receive of session `s` leaves in the buffer. */
  function NextFrame(s: Session): seq<bv8> {
    Fit(NextRx(s.rx).data, s.chunkSize + Protocol.CrcSize)
  }

  /** The loop state of lines 134-157: something is still owed and the
      chunk size follows the chunking rule. */
  predicate LoopState(s: Session) {
    s.chunkSize == Protocol.ChunkSize(s.remaining) && Captured(s) && Disciplined(s) && HasOpened(s.trace)
  }

  /** One pass of the chunk loop: receive a frame of `chunkSize + 2`
      bytes; on a CRC mismatch answer 1 and change nothing else; on a match
      write the data, answer 0, and move on by `chunkSize`. */
  method ChunkStep(s: Session) returns (r: Step)
    ensures r.s.currentCpu == s.currentCpu
    requires s.remaining > 0 && LoopState(s)
    ensures LoopState(r.s) || r.Halted?
    ensures Captured(r.s) && Disciplined(r.s)
    ensures r.Continue? ==> |s.rx| > 0 && s.rx[0].status == 0 && r.s.rx == s.rx[1..]
    ensures r.Continue? && !FrameOk(NextFrame(s), s.chunkSize) ==>
      r.s.remaining == s.remaining && r.s.chunkSize == s.chunkSize && r.s.file == s.file
      && Acks(r.s.trace, AckCrcError) == Acks(s.trace, AckCrcError) + 1
      && Acks(r.s.trace, AckOk) == Acks(s.trace, AckOk)
      && r.s.trace == s.trace + AroundZ80(s, Received(s.chunkSize + Protocol.CrcSize, TransferMode(s), s.fast))
                     + AroundZ80(s, Sent(Ack(AckCrcError), TransferMode(s), s.fast))
    ensures r.Continue? && FrameOk(NextFrame(s), s.chunkSize) ==>
      r.s.remaining == s.remaining - s.chunkSize && r.s.file == s.file + NextFrame(s)[..s.chunkSize]
      && Acks(r.s.trace, AckOk) == Acks(s.trace, AckOk) + 1
      && r.s.trace == s.trace + AroundZ80(s, Received(s.chunkSize + Protocol.CrcSize, TransferMode(s), s.fast))
                     + [Wrote(s.fileHandle, NextFrame(s)[..s.chunkSize], 0)]
                     + AroundZ80(s, Sent(Ack(AckOk), TransferMode(s), s.fast))
    ensures r.Halted? ==> r.code != 0 && Creations(r.s.trace) == Creations(s.trace)
    ensures r.Halted? ==>
      (r.s.file == s.file ||
       (|s.rx| > 0 && s.rx[0].status == 0 && FrameOk(NextFrame(s), s.chunkSize)
        && s.file <= r.s.file && r.s.file <= s.file + NextFrame(s)[..s.chunkSize]))
    ensures Quiet(s.tx) && WritesSucceed(s.writes) && |s.rx| > 0 && s.rx[0].status == 0 ==>
      r.Continue? && Quiet(r.s.tx) && WritesSucceed(r.s.writes)
    ensures r.Continue? ==> Creations(r.s.trace) == Creations(s.trace)
  {
    var received := ReceiveFrame(s);
    if received.Halted? {
      return received;
    }
    r := JudgeFrame(received.s);
  }

  /** Lines 136-138: receive a frame of `chunkSize + 2` bytes; a receive
      error ends the program, and otherwise only the buffer, the processor
      mode, the receive script and the trace change. */
  method ReceiveFrame(s: Session) returns (r: Step)
    requires s.remaining > 0 && LoopState(s)
    ensures r.s.currentCpu == s.currentCpu
    ensures Captured(r.s) && Disciplined(r.s)
    ensures r.Halted? ==> r.code != 0 && Creations(r.s.trace) == Creations(s.trace) && r.s.file == s.file
    ensures r.Continue? <==> NextRx(s.rx).status == 0
    ensures r.Continue? ==>
      && |s.rx| > 0 && LoopState(r.s)
      && r.s == s.(mode := r.s.mode, result := 0, buffer := NextFrame(s), rx := s.rx[1..],
                   trace := s.trace + AroundZ80(s, Received(s.chunkSize + Protocol.CrcSize, TransferMode(s), s.fast)))
      && TransferMode(r.s) == TransferMode(s)
      && (forall e :: AroundZ80(r.s, e) == AroundZ80(s, e))
      && (forall v :: Acks(r.s.trace, v) == Acks(s.trace, v))
      && Creations(r.s.trace) == Creations(s.trace)
  {
    var s1 := SerialReceive(s, s.chunkSize + Protocol.CrcSize);
    r := ProcessReceiveError(s1);
    if r.Continue? {
      SameTransfers(s, s1);
    }
  }

  /** Lines 139-156, once a frame is in the buffer: on a CRC mismatch
      answer 1 and change nothing else; on a match store the chunk. */
  method JudgeFrame(s: Session) returns (r: Step)
    requires s.remaining > 0 && LoopState(s) && |s.buffer| == s.chunkSize + Protocol.CrcSize
    ensures r.s.currentCpu == s.currentCpu
    ensures LoopState(r.s) || r.Halted?
    ensures Captured(r.s) && Disciplined(r.s)
    ensures r.Continue? ==> r.s.rx == s.rx
    ensures r.Continue? && !FrameOk(s.buffer, s.chunkSize) ==>
      r.s.remaining == s.remaining && r.s.chunkSize == s.chunkSize && r.s.file == s.file
      && Acks(r.s.trace, AckCrcError) == Acks(s.trace, AckCrcError) + 1
      && Acks(r.s.trace, AckOk) == Acks(s.trace, AckOk)
      && r.s.trace == s.trace + AroundZ80(s, Sent(Ack(AckCrcError), TransferMode(s), s.fast))
    ensures r.Continue? && FrameOk(s.buffer, s.chunkSize) ==>
      r.s.remaining == s.remaining - s.chunkSize && r.s.file == s.file + s.buffer[..s.chunkSize]
      && Acks(r.s.trace, AckOk) == Acks(s.trace, AckOk) + 1
      && r.s.trace == s.trace + [Wrote(s.fileHandle, s.buffer[..s.chunkSize], 0)]
                     + AroundZ80(s, Sent(Ack(AckOk), TransferMode(s), s.fast))
    ensures r.Halted? ==> r.code != 0 && Creations(r.s.trace) == Creations(s.trace)
    ensures r.Halted? ==>
      (r.s.file == s.file ||
       (FrameOk(s.buffer, s.chunkSize) && s.file <= r.s.file && r.s.file <= s.file + s.buffer[..s.chunkSize]))
    ensures Quiet(s.tx) && WritesSucceed(s.writes) ==> r.Continue? && Quiet(r.s.tx) && WritesSucceed(r.s.writes)
    ensures r.Continue? ==> Creations(r.s.trace) == Creations(s.trace)
  {
    var n := s.chunkSize;
    if Crc16Of(s.buffer, n) != Bytes.ReadLe16(s.buffer[n], s.buffer[n + 1]) {
      r := SerialSendByte(s, AckCrcError);
      if Quiet(s.tx) {
        DropQuiet(s.tx);
      }
      return;
    }
    r := StoreChunk(s);
  }

  /** Two sessions with the same captured mode, processor mode and serial
      routines bracket a transfer with the same events. */
  lemma SameTransfers(s: Session, s1: Session)
    requires s1.currentCpu == s.currentCpu && s1.fast == s.fast
    requires s.currentCpu == Z80 ==> s1.mode == s.mode
    ensures TransferMode(s1) == TransferMode(s)
    ensures forall e :: AroundZ80(s1, e) == AroundZ80(s, e)
  {
  }

  /** Lines 144-155, once a frame has passed its CRC: write the chunk
      (a write failure ends the program), answer 0, and move on by
      `chunkSize`. */
  method StoreChunk(s: Session) returns (r: Step)
    requires s.chunkSize <= s.remaining && s.chunkSize + Protocol.CrcSize == |s.buffer|
    ensures r.s.currentCpu == s.currentCpu
    ensures Captured(s) && Disciplined(s) && HasOpened(s.trace) ==>
      Captured(r.s) && Disciplined(r.s) && HasOpened(r.s.trace)
    ensures r.Continue? ==>
      && r.s.rx == s.rx
      && r.s.remaining == s.remaining - s.chunkSize
      && r.s.chunkSize == Protocol.ChunkSize(r.s.remaining)
      && r.s.file == s.file + s.buffer[..s.chunkSize]
      && Acks(r.s.trace, AckOk) == Acks(s.trace, AckOk) + 1
    ensures r.Continue? ==>
      r.s.trace == s.trace + [Wrote(s.fileHandle, s.buffer[..s.chunkSize], 0)]
                   + AroundZ80(s, Sent(Ack(AckOk), TransferMode(s), s.fast))
    ensures r.Halted? ==>
      r.code != 0 && s.file <= r.s.file && r.s.file <= s.file + s.buffer[..s.chunkSize]
    ensures Creations(r.s.trace) == Creations(s.trace)
    ensures Quiet(s.tx) && WritesSucceed(s.writes) ==> r.Continue? && Quiet(r.s.tx) && WritesSucceed(r.s.writes)
  {
    var n := s.chunkSize;
    var s3 := WriteToFile(s, s.buffer[..n]);
    if s3.result != 0 {
      r := WriteFailed(s3);
      return;
    }
    var sent := SerialSendByte(s3, AckOk);
    if sent.Halted? {
      return sent;
    }
    var s4 := sent.s;
    var rem := s4.remaining - n;
    r := Continue(s4.(remaining := rem, chunkSize := Protocol.ChunkSize(rem)));
    if Quiet(s.tx) && WritesSucceed(s.writes) {
      DropQuiet(s.tx);
      DropWrites(s.writes);
    }
  }

  /** `StoreChunk` as written, with the write failure of lines 146-150
      exiting through `WriteFailedAsWritten`: when a write fails but its
      error goes out, the program exits with 0 although the chunk is at
      most partly on the disk and `remaining` bytes are still owed. */
  method StoreChunkAsWritten(s: Session) returns (r: Step)
    requires s.chunkSize <= s.remaining && s.chunkSize + Protocol.CrcSize == |s.buffer|
    ensures NextWrite(s.writes).error != 0 && NextStatus(s.tx) == 0 ==>
      && r.Halted? && r.code == 0
      && r.s.remaining == s.remaining
      && r.s.file == s.file + s.buffer[..Stored(NextWrite(s.writes), s.chunkSize)]
    ensures r.Continue? ==>
      r.s.remaining == s.remaining - s.chunkSize && r.s.file == s.file + s.buffer[..s.chunkSize]
  {
    var n := s.chunkSize;
    var s3 := WriteToFile(s, s.buffer[..n]);
    if s3.result != 0 {
      r := WriteFailedAsWritten(s3);
      return;
    }
    var sent := SerialSendByte(s3, AckOk);
    if sent.Halted? {
      return sent;
    }
    var s4 := sent.s;
    var rem := s4.remaining - n;
    r := Continue(s4.(remaining := rem, chunkSize := Protocol.ChunkSize(rem)));
  }

  /** One pass of the loop moves data from the traffic still to come into
      the file without changing what the two hold together: `file`, `rx`
      and `remaining` before the pass, `file1`, `rx1` and `remaining1`
      after it. */
  lemma StepAccounting(file: seq<bv8>, rx: seq<RxResult>, remaining: nat,
                       file1: seq<bv8>, rx1: seq<RxResult>, remaining1: nat)
    requires remaining > 0 && |rx| > 0 && rx[0].status == 0 && rx1 == rx[1..]
    requires var n := Protocol.ChunkSize(remaining);
      var frame := Fit(rx[0].data, n + Protocol.CrcSize);
      !FrameOk(frame, n) ==> remaining1 == remaining && file1 == file
    requires var n := Protocol.ChunkSize(remaining);
      var frame := Fit(rx[0].data, n + Protocol.CrcSize);
      FrameOk(frame, n) ==> remaining1 == remaining - n && file1 == file + frame[..n]
    ensures file1 + Accepted(rx1, remaining1) == file + Accepted(rx, remaining)
    ensures |file1| + remaining1 == |file| + remaining
    ensures Delivers(rx, remaining) ==> Delivers(rx1, remaining1)
  {
    var n := Protocol.ChunkSize(remaining);
    var frame := Fit(rx[0].data, n + Protocol.CrcSize);
    var rest := Accepted(rx1, remaining1);
    if FrameOk(frame, n) {
      AcceptedPass(rx, remaining);
      JoinAssoc(file, frame[..n], rest);
    } else {
      AcceptedFail(rx, remaining);
    }
    StepDelivers(rx, remaining, rx1, remaining1);
  }

  /** A line that delivers everything still does so after one pass. */
  lemma StepDelivers(rx: seq<RxResult>, remaining: nat, rx1: seq<RxResult>, remaining1: nat)
    requires remaining > 0 && |rx| > 0 && rx[0].status == 0 && rx1 == rx[1..]
    requires var n := Protocol.ChunkSize(remaining);
      var frame := Fit(rx[0].data, n + Protocol.CrcSize);
      remaining1 == if FrameOk(frame, n) then remaining - n else remaining
    ensures Delivers(rx, remaining) ==> Delivers(rx1, remaining1)
  {
    var n := Protocol.ChunkSize(remaining);
    if FrameOk(Fit(rx[0].data, n + Protocol.CrcSize), n) {
      AcceptedPass(rx, remaining);
    } else {
      AcceptedFail(rx, remaining);
    }
  }

  /** A pass that stops the loop leaves the file a prefix of what the
      traffic would have delivered: unchanged, or with the first frame's
      data when that frame passed. */
  lemma HaltedPrefix(file: seq<bv8>, rx: seq<RxResult>, remaining: nat, file1: seq<bv8>)
    requires remaining > 0
    requires file1 == file ||
      (|rx| > 0 && rx[0].status == 0 &&
       var n := Protocol.ChunkSize(remaining);
       var frame := Fit(rx[0].data, n + Protocol.CrcSize);
       FrameOk(frame, n) && file1 <= file + frame[..n])
    ensures file1 <= file + Accepted(rx, remaining)
  {
    if file1 == file {
      JoinPrefix(file, Accepted(rx, remaining));
    } else {
      var n := Protocol.ChunkSize(remaining);
      var frame := Fit(rx[0].data, n + Protocol.CrcSize);
      var rest := Accepted(rx[1..], remaining - n);
      AcceptedPass(rx, remaining);
      JoinAssoc(file, frame[..n], rest);
      JoinPrefix(file + frame[..n], rest);
      PrefixTrans(file1, file + frame[..n], file + Accepted(rx, remaining));
    }
  }

  lemma JoinAssoc<T>(a: seq<T>, b: seq<T>, c: seq<T>)
    ensures a + b + c == a + (b + c)
  {
  }

  lemma JoinThree<T>(t: seq<T>, a: seq<T>, b: seq<T>, c: seq<T>)
    ensures t + a + b + c == t + (a + b + c)
  {
    JoinAssoc(t + a, b, c);
    JoinAssoc(t, a, b + c);
    JoinAssoc(a, b, c);
  }

  lemma JoinEmpty(a: seq<bv8>)
    ensures [] + a == a
  {
  }

  lemma JoinPrefix(a: seq<bv8>, b: seq<bv8>)
    ensures a <= a + b
  {
  }

  lemma JoinMonotone(a: seq<bv8>, b: seq<bv8>, c: seq<bv8>)
    requires b <= c
    ensures a + b <= a + c
  {
    forall i | 0 <= i < |a + b|
      ensures (a + b)[i] == (a + c)[i]
    {
      if i >= |a| {
        assert (a + b)[i] == b[i - |a|];
      }
    }
  }

  lemma PrefixTrans(a: seq<bv8>, b: seq<bv8>, c: seq<bv8>)
    requires a <= b && b <= c
    ensures a <= c
  {
  }

  /** A first frame that passes its CRC is kept, and the rest of the
      traffic owes `ChunkSize` bytes less. */
  lemma AcceptedPass(rx: seq<RxResult>, remaining: nat)
    requires remaining > 0 && |rx| > 0 && rx[0].status == 0
    requires FrameOk(Fit(rx[0].data, Protocol.ChunkSize(remaining) + Protocol.CrcSize),
                     Protocol.ChunkSize(remaining))
    ensures var n := Protocol.ChunkSize(remaining);
      Accepted(rx, remaining)
        == Fit(rx[0].data, n + Protocol.CrcSize)[..n] + Accepted(rx[1..], remaining - n)
    ensures Delivers(rx, remaining) <==> Delivers(rx[1..], remaining - Protocol.ChunkSize(remaining))
  {
  }

  /** A first frame that fails its CRC is dropped, and the rest of the
      traffic owes as much as before. */
  lemma AcceptedFail(rx: seq<RxResult>, remaining: nat)
    requires remaining > 0 && |rx| > 0 && rx[0].status == 0
    requires !FrameOk(Fit(rx[0].data, Protocol.ChunkSize(remaining) + Protocol.CrcSize),
                      Protocol.ChunkSize(remaining))
    ensures Accepted(rx, remaining) == Accepted(rx[1..], remaining)
    ensures Delivers(rx, remaining) <==> Delivers(rx[1..], remaining)
  {
  }

  /** Lines 134-157: the chunk loop runs until nothing is owed. When it
      completes, the file holds exactly the data `Accepted` keeps from the
      traffic, which is `remaining` bytes long; when it stops early, the
      file holds a prefix of it. A line that delivers everything, with every
      send and write succeeding, makes it complete. */
  method ChunkLoop(s0: Session) returns (r: Step)
    ensures r.s.currentCpu == s0.currentCpu
    requires LoopState(s0)
    ensures Captured(r.s) && Disciplined(r.s)
    ensures r.Continue? ==> r.s.remaining == 0 && r.s.file == s0.file + Accepted(s0.rx, s0.remaining)
    ensures r.Continue? ==> |Accepted(s0.rx, s0.remaining)| == s0.remaining
    ensures r.Halted? ==> r.code != 0 && r.s.file <= s0.file + Accepted(s0.rx, s0.remaining)
    ensures Quiet(s0.tx) && WritesSucceed(s0.writes) && Delivers(s0.rx, s0.remaining) ==> r.Continue?
    ensures Creations(r.s.trace) == Creations(s0.trace)
    ensures s0.remaining == 0 ==> r == Continue(s0)
    decreases |s0.rx|
  {
    if s0.remaining == 0 {
      return Continue(s0);
    }
    var step := ChunkStep(s0);
    if step.Halted? {
      if step.s.file != s0.file {
        assert NextFrame(s0) == Fit(s0.rx[0].data, s0.chunkSize + Protocol.CrcSize);
      }
      HaltedPrefix(s0.file, s0.rx, s0.remaining, step.s.file);
      return step;
    }
    assert NextFrame(s0) == Fit(s0.rx[0].data, s0.chunkSize + Protocol.CrcSize);
    StepAccounting(s0.file, s0.rx, s0.remaining, step.s.file, step.s.rx, step.s.remaining);
    r := ChunkLoop(step.s);
  }

  // ---------------------------------------------------------------------
  // Command line

  /** The serial configuration chosen by the first two arguments: the
      57600 bps routines, or the slow ones with a speed index; and whether
      joystick port 2 is used instead of port 1. */
  datatype Config = Config(fast: bool, speed: Option<bv8>, port2: bool)

  /** The first character of a C string (its terminator when empty). */
  function FirstByte(arg: seq<bv8>): bv8 {
    if |arg| == 0 then 0 else arg[0]
  }

  /** Lines 85-100: speed "4" selects the 57600 bps routines; any other
      first character `c` selects the slow routines with speed index
      `c - '0'` (a byte, so it wraps). Port "2" selects port 2. */
  function SelectConfig(port: seq<bv8>, speed: seq<bv8>): (c: Config)
    ensures c.fast <==> FirstByte(speed) == 0x34
    ensures c.speed.Some? <==> !c.fast
    ensures c.speed.Some? ==> c.speed.value + 0x30 == FirstByte(speed)
    ensures c.port2 <==> FirstByte(port) == 0x32
  {
    var fast := FirstByte(speed) == 0x34;
    Config(fast, if fast then None else Some(FirstByte(speed) - 0x30), FirstByte(port) == 0x32)
  }

  /** The digits 0 to 3 select the slow speed of the same index. */
  lemma SlowSpeedDigits(port: seq<bv8>, speed: seq<bv8>)
    requires |speed| > 0 && 0x30 <= speed[0] <= 0x33
    ensures SelectConfig(port, speed).speed == Some(speed[0] - 0x30)
    ensures SelectConfig(port, speed).speed.value <= 3
  {
  }

  /** Apply the configuration: set the slow speed, select port 2. */
  method Configure(s: Session, c: Config) returns (r: Session)
    ensures r == s.(fast := c.fast, trace := r.trace)
    ensures Neutral(s.trace, r.trace)
  {
    r := s;
    if c.speed.Some? {
      r := Emit(r, SpeedSet(c.speed.value));
    }
    if c.port2 {
      r := Emit(r, Port2Selected(c.fast));
    }
    r := r.(fast := c.fast);
  }

  // ---------------------------------------------------------------------
  // Header

  datatype Header = Header(name: seq<bv8>, fileSize: nat, crc: bv16)

  /** The header as the C struct lays it out on the Z80: a 13-byte name
      field, a little-endian 32-bit size, a little-endian 16-bit CRC. */
  function ParseHeader(raw: seq<bv8>): (h: Header)
    requires |raw| == Protocol.HeaderSize
    ensures |h.name| == Protocol.NameFieldSize
    ensures h.fileSize < 0x1_0000_0000
  {
    Header(raw[..13], Bytes.ReadLe32(raw[13..17]), Bytes.ReadLe16(raw[17], raw[18]))
  }

  /** The header passes the gate when the CRC of its first 17 bytes matches
      its CRC field. */
  predicate HeaderValid(raw: seq<bv8>)
    requires |raw| == Protocol.HeaderSize
  {
    Crc16Of(raw, Protocol.HeaderCrcSpan) == ParseHeader(raw).crc
  }

  /** The header the first receive of `rx` delivers. */
  function HeaderOf(rx: seq<RxResult>): seq<bv8> {
    Fit(NextRx(rx).data, Protocol.HeaderSize)
  }

  /** Lines 114-118: a header whose CRC does not match is answered with 2
      and `main` returns 5 at once; `Terminate` is not called, so a file
      opened from the command line stays open (unless the answer itself
      fails, which terminates through `SerialSendByte`). */
  method RejectHeader(s: Session) returns (r: Step)
    ensures r.s.currentCpu == s.currentCpu
    ensures r.Halted? && r.code == ExitHeaderCrc
    ensures Creations(r.s.trace) == Creations(s.trace) && r.s.file == s.file
    ensures Acks(r.s.trace, AckHeaderCrcError) == Acks(s.trace, AckHeaderCrcError) + 1
    ensures Acks(r.s.trace, AckOk) == Acks(s.trace, AckOk)
    ensures Captured(s) ==> Captured(r.s)
    ensures Captured(s) && Disciplined(s) ==> Disciplined(r.s)
    ensures NextStatus(s.tx) == 0 ==>
      |r.s.trace| > 0 && Last(r.s.trace) == Returned(ExitHeaderCrc) && Closings(r.s.trace) == Closings(s.trace)
  {
    var sent := SerialSendByte(s, AckHeaderCrcError);
    if sent.Halted? {
      return sent;
    }
    r := Halted(Emit(sent.s, Returned(ExitHeaderCrc)), ExitHeaderCrc);
  }

  /** Lines 125-133: a valid header sets `remaining` to its size; the file
      is created from the header's name unless one is already open, and
      only then is the header accepted. */
  method AcceptHeader(s: Session, h: Header) returns (r: Step)
    ensures r.s.currentCpu == s.currentCpu
    requires Captured(s) && Disciplined(s) && Acks(s.trace, AckOk) == 0
    requires s.fileHandle != 0 ==> HasOpened(s.trace)
    ensures Captured(r.s) && Disciplined(r.s)
    ensures r.Halted? ==> r.code != 0
    ensures r.Continue? ==> LoopState(r.s) && r.s.remaining == h.fileSize
    ensures r.Continue? ==> r.s.file == s.file && r.s.rx == s.rx
    ensures r.Continue? ==> Acks(r.s.trace, AckOk) == Acks(s.trace, AckOk) + 1
    ensures s.fileHandle != 0 ==> Creations(r.s.trace) == Creations(s.trace)
    ensures (Quiet(s.tx) && (s.fileHandle != 0 || s.createResult.Opened?)) ==> r.Continue? && Quiet(r.s.tx)
    ensures r.Continue? ==> r.s.writes == s.writes
  {
    var s1 := s.(remaining := h.fileSize);
    if s1.fileHandle == 0 {
      var created := CreateFile(s1, h.name);
      if created.Halted? {
        return created;
      }
      s1 := created.s;
    }
    var sent := SerialSendByte(s1, AckOk);
    if sent.Halted? {
      return sent;
    }
    r := Continue(sent.s.(chunkSize := Protocol.ChunkSize(sent.s.remaining)));
    if Quiet(s.tx) {
      DropQuiet(s.tx);
    }
  }

  /** Lines 110-131 of `main`: receive the header and check the CRC of its
      first 17 bytes against its CRC field before anything else. */
  method HeaderGate(s: Session) returns (r: Step)
    ensures r.s.currentCpu == s.currentCpu
    requires Captured(s) && Disciplined(s) && Acks(s.trace, AckOk) == 0
    requires s.fileHandle != 0 ==> HasOpened(s.trace)
    ensures Captured(r.s) && Disciplined(r.s)
    ensures r.Halted? ==> r.code != 0
    ensures r.Continue? ==> NextRx(s.rx).status == 0 && HeaderValid(HeaderOf(s.rx))
    ensures r.Continue? ==> LoopState(r.s) && r.s.remaining == ParseHeader(HeaderOf(s.rx)).fileSize
    ensures r.Continue? ==> r.s.file == s.file && r.s.rx == Drop(s.rx)
    ensures r.Continue? ==> Acks(r.s.trace, AckOk) == Acks(s.trace, AckOk) + 1
    ensures s.fileHandle != 0 ==> Creations(r.s.trace) == Creations(s.trace)
    ensures NextRx(s.rx).status == 0 && !HeaderValid(HeaderOf(s.rx)) ==>
      r.Halted? && r.code == ExitHeaderCrc && Creations(r.s.trace) == Creations(s.trace)
      && Acks(r.s.trace, AckHeaderCrcError) == Acks(s.trace, AckHeaderCrcError) + 1
      && Acks(r.s.trace, AckOk) == Acks(s.trace, AckOk)
    ensures NextRx(s.rx).status == 0 && !HeaderValid(HeaderOf(s.rx)) && NextStatus(s.tx) == 0 ==>
      |r.s.trace| > 0 && Last(r.s.trace) == Returned(ExitHeaderCrc) && Closings(r.s.trace) == Closings(s.trace)
    ensures (Quiet(s.tx) && WritesSucceed(s.writes) && NextRx(s.rx).status == 0 && HeaderValid(HeaderOf(s.rx))
             && (s.fileHandle != 0 || s.createResult.Opened?)) ==>
      r.Continue? && Quiet(r.s.tx) && WritesSucceed(r.s.writes)
  {
    var s1 := SerialReceive(s, Protocol.HeaderSize);
    var checked := ProcessReceiveError(s1);
    if checked.Halted? {
      return checked;
    }
    var s2 := checked.s;
    var h := ParseHeader(s2.buffer);
    if Crc16Of(s2.buffer, Protocol.HeaderCrcSpan) != h.crc {
      r := RejectHeader(s2);
    } else {
      r := AcceptHeader(s2, h);
    }
  }

  // ---------------------------------------------------------------------
  // main

  /** The session at the start of `main`: no file, `currentCpu` still 0,
      the machine in whatever mode it was started in. */
  function Start(env: Env): Session {
    Session(Z80, env.cpu, false, 0, 0, 0, 0, [], env.createResult, env.rx, env.tx, env.writes, [], [])
  }

  /** An output file gets opened whichever way `main` goes: the path given
      on the command line opens, and if that leaves no handle the file
      named by the header is created. */
  predicate FileOpens(env: Env, argv: seq<seq<bv8>>) {
    && (|argv| > 2 ==> env.pathResult.Opened?)
    && ((|argv| > 2 && env.pathResult.handle != 0) || env.createResult.Opened?)
  }

  /** The size the header received first announces. */
  function AnnouncedSize(env: Env): nat {
    ParseHeader(HeaderOf(env.rx)).fileSize
  }

  /** Lines 85-107 of `main` for at least two arguments: configure the
      serial routines, open the file named on the command line if there is
      one, and capture the processor mode. Nothing goes over the line. */
  method Setup(env: Env, argv: seq<seq<bv8>>) returns (r: Step)
    requires |argv| >= 2
    ensures r.Halted? ==> r.code != 0 && r.s.mode == env.cpu && Disciplined(r.s)
    ensures r.Continue? ==> Captured(r.s) && Disciplined(r.s) && r.s.currentCpu == env.cpu
    ensures r.Continue? ==> r.s.fileHandle != 0 ==> HasOpened(r.s.trace)
    ensures r.Continue? ==> r.s.file == [] && r.s.rx == env.rx && r.s.tx == env.tx && r.s.writes == env.writes
    ensures r.Continue? ==> r.s.createResult == env.createResult && Creations(r.s.trace) == 0 && Acks(r.s.trace, AckOk) == 0
    ensures r.Continue? && |argv| > 2 && env.pathResult.Opened? ==> r.s.fileHandle == env.pathResult.handle
    ensures (|argv| > 2 ==> env.pathResult.Opened?) ==> r.Continue?
  {
    var s := Start(env);
    s := Configure(s, SelectConfig(argv[0], argv[1]));
    if |argv| > 2 {
      var atPath := CreateFileAndGetPath(s, argv[2], env.pathResult);
      if atPath.Halted? {
        return atPath;
      }
      s := atPath.s;
    }
    r := Continue(s.(currentCpu := env.cpu));
  }

  /** Lines 110-160: the header gate, the chunk loop and the final
      `Terminate(0)`. */
  method Transfer(s: Session) returns (r: Step)
    requires Captured(s) && Disciplined(s) && s.file == [] && Acks(s.trace, AckOk) == 0
    requires s.fileHandle != 0 ==> HasOpened(s.trace)
    ensures r.Halted? && r.s.mode == s.currentCpu && Disciplined(r.s)
    ensures NextRx(s.rx).status == 0 && !HeaderValid(HeaderOf(s.rx)) ==>
      r.code == ExitHeaderCrc && Creations(r.s.trace) == Creations(s.trace)
      && Acks(r.s.trace, AckOk) == Acks(s.trace, AckOk)
    ensures r.code == 0 ==>
      var size := ParseHeader(HeaderOf(s.rx)).fileSize;
      r.s.file == Accepted(Drop(s.rx), size) && |r.s.file| == size
    ensures (Quiet(s.tx) && WritesSucceed(s.writes) && (s.fileHandle != 0 || s.createResult.Opened?)
             && NextRx(s.rx).status == 0 && HeaderValid(HeaderOf(s.rx))
             && Delivers(Drop(s.rx), ParseHeader(HeaderOf(s.rx)).fileSize)) ==>
      r.code == 0
  {
    var gate := HeaderGate(s);
    if gate.Halted? {
      return gate;
    }
    var loop := ChunkLoop(gate.s);
    if loop.Halted? {
      return loop;
    }
    JoinEmpty(Accepted(gate.s.rx, gate.s.remaining));
    r := Terminate(loop.s, 0);
  }

  /** `main(argv, argc)` with `argc = |argv|`: argv[0] is the port, argv[1]
      the speed, argv[2] the optional file path.
      - Without DOS 2 or with fewer than two arguments it returns 0 and
        does nothing else.
      - Every serial transfer runs in Z80 mode, the processor is back in
        its original mode at the end, and the header (or a chunk) is only
        accepted once an output file is open.
      - A header with a bad CRC ends the program with 5 without creating a
        file or accepting anything.
      - An exit code of 0 after a transfer means the file holds exactly the
        announced number of bytes, the data the line delivered.
      - A line that delivers a valid header and all the data, with every
        send and write succeeding, makes the transfer end with 0. */
  method JGet(env: Env, argv: seq<seq<bv8>>) returns (r: Step)
    ensures r.Halted?
    ensures !env.dos2 || |argv| < 2 ==> r.code == 0 && r.s.trace == [Returned(0)]
    ensures r.s.mode == env.cpu
    ensures SerialAtZ80(r.s.trace) && AcceptAfterOpen(r.s.trace) && AcceptAfterWrite(r.s.trace)
    ensures (env.dos2 && |argv| >= 2 && (|argv| > 2 ==> env.pathResult.Opened?)
             && NextRx(env.rx).status == 0 && !HeaderValid(HeaderOf(env.rx))) ==>
      r.code == ExitHeaderCrc && Creations(r.s.trace) == 0 && Acks(r.s.trace, AckOk) == 0
    ensures env.dos2 && |argv| >= 2 && r.code == 0 ==>
      r.s.file == Accepted(Drop(env.rx), AnnouncedSize(env)) && |r.s.file| == AnnouncedSize(env)
    ensures (env.dos2 && |argv| >= 2 && Quiet(env.tx) && WritesSucceed(env.writes) && FileOpens(env, argv)
             && NextRx(env.rx).status == 0 && HeaderValid(HeaderOf(env.rx))
             && Delivers(Drop(env.rx), AnnouncedSize(env))) ==>
      r.code == 0
  {
    if !env.dos2 || |argv| < 2 {
      return Halted(Emit(Start(env), Returned(0)), 0);
    }
    r := MainBody(env, argv);
  }

  /** Lines 85-162 of `main`, past its DOS 2 and argument checks: `Setup`,
      then `Transfer`. */
  method MainBody(env: Env, argv: seq<seq<bv8>>) returns (r: Step)
    requires env.dos2 && |argv| >= 2
    ensures r.Halted? && r.s.mode == env.cpu
    ensures SerialAtZ80(r.s.trace) && AcceptAfterOpen(r.s.trace) && AcceptAfterWrite(r.s.trace)
    ensures ((|argv| > 2 ==> env.pathResult.Opened?)
             && NextRx(env.rx).status == 0 && !HeaderValid(HeaderOf(env.rx))) ==>
      r.code == ExitHeaderCrc && Creations(r.s.trace) == 0 && Acks(r.s.trace, AckOk) == 0
    ensures r.code == 0 ==>
      r.s.file == Accepted(Drop(env.rx), AnnouncedSize(env)) && |r.s.file| == AnnouncedSize(env)
    ensures (Quiet(env.tx) && WritesSucceed(env.writes) && FileOpens(env, argv)
             && NextRx(env.rx).status == 0 && HeaderValid(HeaderOf(env.rx))
             && Delivers(Drop(env.rx), AnnouncedSize(env))) ==>
      r.code == 0
  {
    var setup := Setup(env, argv);
    if setup.Halted? {
      return setup;
    }
    r := Transfer(setup.s);
  }
}
