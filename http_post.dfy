/** `http_post`: connect to the server through the Wi-Fi coprocessor, send the
    request in 40-byte pieces, poll for the response until the declared body
    should have arrived, and close the connection. Every step reports on the
    screen through the shared 256-byte text buffer, and each report
    `unwrap`s its `writeln!`, so an over-long report panics. */
module HttpPost {
  import opened ByteText
  import opened Heapless
  import ContentLength

  // The literal pieces of the reports.
  const ErrLine: seq<Byte> := Ascii("Err\n")
  const Mark: seq<Byte> := Ascii("+")
  const OkPrefix: seq<Byte> := Ascii("Ok ")
  const FoundPrefix: seq<Byte> := Ascii("find content length ")
  const ConnectPrefix: seq<Byte> := Ascii("Connect OK : ")
  const Separator: seq<Byte> := Ascii(", ")
  const FinPrefix: seq<Byte> := Ascii("fin recv ")
  const ClosedLine: seq<Byte> := Ascii("Connection Closed\n")

  /** What `recv()` hands back: a chunk of bytes, or an error. */
  datatype RecvResult = RecvOk(chunk: seq<Byte>) | RecvErr

  /** One remote call made to the coprocessor. */
  datatype WifiCall =
    | ConnectCall(ip: U32, port: U16, timeout: nat)
    | SendCall(bytes: seq<Byte>)
    | RecvCall
    | CloseCall

  /** Why `http_post` panicked. */
  datatype Abort =
    | ConnectReportOverflow        // "Connect OK : .." or "Err" does not fit the text buffer
    | BadSlice(chunk: nat)         // `&msg[..]` cut through a UTF-8 sequence
    | SendFailed(chunk: nat)       // `send` returned `Err`, which is reported, then unwrapped
    | MessageReportOverflow        // "{msg}\n" does not fit the text buffer
    | InvalidUtf8(poll: nat)       // `String::from_utf8(..).unwrap()` on a received chunk
    | ProgressReportOverflow(poll: nat)  // "Ok {progress}\n" does not fit the text buffer
    | ResponseReportOverflow       // "fin recv {text}\n" does not fit the text buffer

  /** How `http_post` ends: it returns after polling `polls` times with the
      accumulated `response`, having closed the connection or not, or it
      panics. */
  datatype Outcome = Posted(response: seq<Byte>, polls: nat, closed: bool) | Aborted(reason: Abort)

  datatype RecvOutcome = Received(text: seq<Byte>, polls: nat) | RecvAborted(reason: Abort)

  function Drop<T>(s: seq<T>, n: nat): seq<T>
  {
    if n >= |s| then [] else s[n..]
  }

  lemma DropStep<T>(s: seq<T>, n: nat)
    ensures Drop(Drop(s, n), 1) == Drop(s, n + 1)
    ensures Drop(s, n) != [] <==> n < |s|
    ensures n < |s| ==> Drop(s, n)[0] == s[n]
  {
  }

  /** The Wi-Fi coprocessor, reached over RPC, as a scripted peer: the
      results it will give, and the log of the calls made to it. A send
      beyond its script succeeds; a receive beyond its script fails. */
  class Wifi {
    var connectOk: bool
    var sendResults: seq<bool>
    var recvResults: seq<RecvResult>
    var closeOk: bool
    var calls: seq<WifiCall>

    constructor (connectOk: bool, sendResults: seq<bool>, recvResults: seq<RecvResult>, closeOk: bool)
      ensures this.connectOk == connectOk && this.sendResults == sendResults
      ensures this.recvResults == recvResults && this.closeOk == closeOk
      ensures calls == []
    {
      this.connectOk := connectOk;
      this.sendResults := sendResults;
      this.recvResults := recvResults;
      this.closeOk := closeOk;
      calls := [];
    }

    method Connect(ip: U32, port: U16, timeout: nat) returns (ok: bool)
      modifies this
      ensures ok == connectOk
      ensures calls == old(calls) + [ConnectCall(ip, port, timeout)]
      ensures connectOk == old(connectOk) && sendResults == old(sendResults)
      ensures recvResults == old(recvResults) && closeOk == old(closeOk)
    {
      ok := connectOk;
      calls := calls + [ConnectCall(ip, port, timeout)];
    }

    method Send(bytes: seq<Byte>) returns (ok: bool)
      modifies this
      ensures ok == (old(sendResults) == [] || old(sendResults)[0])
      ensures sendResults == Drop(old(sendResults), 1)
      ensures calls == old(calls) + [SendCall(bytes)]
      ensures connectOk == old(connectOk) && recvResults == old(recvResults) && closeOk == old(closeOk)
    {
      ok := sendResults == [] || sendResults[0];
      sendResults := Drop(sendResults, 1);
      calls := calls + [SendCall(bytes)];
    }

    method Recv() returns (r: RecvResult)
      modifies this
      ensures r == (if old(recvResults) == [] then RecvErr else old(recvResults)[0])
      ensures recvResults == Drop(old(recvResults), 1)
      ensures calls == old(calls) + [RecvCall]
      ensures connectOk == old(connectOk) && sendResults == old(sendResults) && closeOk == old(closeOk)
    {
      r := if recvResults == [] then RecvErr else recvResults[0];
      recvResults := Drop(recvResults, 1);
      calls := calls + [RecvCall];
    }

    method Close() returns (ok: bool)
      modifies this
      ensures ok == closeOk
      ensures calls == old(calls) + [CloseCall]
      ensures connectOk == old(connectOk) && sendResults == old(sendResults)
      ensures recvResults == old(recvResults) && closeOk == old(closeOk)
    {
      ok := closeOk;
      calls := calls + [CloseCall];
    }
  }

  /** `writeln!(textbuffer, ..).unwrap()`, the drawing of the buffer, then
      `truncate(0)`. It returns false where the `unwrap` panics. */
  method Report(textbuffer: BoundedString, pieces: seq<seq<Byte>>) returns (ok: bool)
    requires textbuffer.Valid()
    modifies textbuffer, textbuffer.data
    ensures textbuffer.Valid()
    ensures ok <==> old(textbuffer.len) + |Flatten(pieces)| <= textbuffer.capacity
    ensures ok ==> textbuffer.Bytes() == []
  {
    ok := textbuffer.WriteFmt(pieces);
    if ok {
      textbuffer.Clear();
    }
  }

  // ---------------------------------------------------------------------
  // Sending: `(len + 39) / 40` pieces of at most 40 bytes.

  const ChunkSize: nat := 40

  function ChunkCount(len: nat): nat
  {
    (len + ChunkSize - 1) / ChunkSize
  }

  function ChunkEnd(msg: seq<Byte>, i: nat): nat
  {
    Min(ChunkSize * (i + 1), |msg|)
  }

  /** `&msg[40*i .. min(40*(i+1), msg.len())]`. */
  function Chunk(msg: seq<Byte>, i: nat): seq<Byte>
    requires i < ChunkCount(|msg|)
  {
    msg[ChunkSize * i..ChunkEnd(msg, i)]
  }

  function Chunks(msg: seq<Byte>): seq<seq<Byte>>
  {
    seq(ChunkCount(|msg|), i requires 0 <= i < ChunkCount(|msg|) => Chunk(msg, i))
  }

  /** Every piece is one to forty bytes long, and all but the last are
      exactly forty. */
  lemma ChunkSizes(msg: seq<Byte>, i: nat)
    requires i < ChunkCount(|msg|)
    ensures 1 <= |Chunk(msg, i)| <= ChunkSize
    ensures i + 1 < ChunkCount(|msg|) ==> |Chunk(msg, i)| == ChunkSize
  {
  }

  /** No piece is empty, so the count is the least number of 40-byte pieces
      that cover the message. */
  lemma ChunkCountIsLeast(len: nat)
    ensures ChunkSize * ChunkCount(len) >= len
    ensures ChunkCount(len) > 0 ==> ChunkSize * (ChunkCount(len) - 1) < len
  {
  }

  lemma {:induction false} ChunksFrom(msg: seq<Byte>, i: nat)
    requires i <= ChunkCount(|msg|)
    ensures Flatten(Chunks(msg)[i..]) == msg[Min(ChunkSize * i, |msg|)..]
    decreases ChunkCount(|msg|) - i
  {
    var cs := Chunks(msg);
    if i == ChunkCount(|msg|) {
      assert cs[i..] == [];
    } else {
      ChunksFrom(msg, i + 1);
      assert cs[i..][1..] == cs[i + 1..];
      assert cs[i..][0] == Chunk(msg, i);
      assert ChunkEnd(msg, i) == Min(ChunkSize * (i + 1), |msg|);
      assert msg[ChunkSize * i..] == Chunk(msg, i) + msg[ChunkEnd(msg, i)..];
    }
  }

  /** The pieces put back together are the message. */
  lemma ChunksRebuildMessage(msg: seq<Byte>)
    ensures Flatten(Chunks(msg)) == msg
  {
    ChunksFrom(msg, 0);
    assert Chunks(msg)[0..] == Chunks(msg);
  }

  /** Slicing a `&str` panics unless both ends fall on character
      boundaries. */
  predicate SliceOk(msg: seq<Byte>, i: nat)
  {
    IsCharBoundary(msg, ChunkSize * i) && IsCharBoundary(msg, ChunkEnd(msg, i))
  }

  /** The answer to the `i`-th send. */
  predicate SendAnswer(answers: seq<bool>, i: nat)
  {
    i >= |answers| || answers[i]
  }

  /** The first piece, from `i` on, whose slice panics or whose send fails. */
  function FirstSendFailure(msg: seq<Byte>, answers: seq<bool>, i: nat): (r: Option<Abort>)
    ensures r.Some? ==> r.value.BadSlice? || r.value.SendFailed?
    decreases ChunkCount(|msg|) - i
  {
    if i >= ChunkCount(|msg|) then None
    else if !SliceOk(msg, i) then Some(BadSlice(i))
    else if !SendAnswer(answers, i) then Some(SendFailed(i))
    else FirstSendFailure(msg, answers, i + 1)
  }

  /** The sends that were made before the loop stopped. */
  function SendsMade(msg: seq<Byte>, failure: Option<Abort>): nat
  {
    match failure
    case Some(BadSlice(i)) => Min(i, ChunkCount(|msg|))
    case Some(SendFailed(i)) => Min(i + 1, ChunkCount(|msg|))
    case _ => ChunkCount(|msg|)
  }

  function SendCalls(msg: seq<Byte>, n: nat): seq<WifiCall>
    requires n <= ChunkCount(|msg|)
  {
    seq(n, i requires 0 <= i < n => SendCall(Chunk(msg, i)))
  }

  lemma {:induction false} FirstSendFailureIsFirst(msg: seq<Byte>, answers: seq<bool>, i: nat)
    ensures var r := FirstSendFailure(msg, answers, i);
            && (r == None ==> forall j :: i <= j < ChunkCount(|msg|) ==> SliceOk(msg, j) && SendAnswer(answers, j))
            && (r.Some? && r.value.BadSlice? ==> i <= r.value.chunk < ChunkCount(|msg|) && !SliceOk(msg, r.value.chunk))
            && (r.Some? && r.value.SendFailed? ==> i <= r.value.chunk < ChunkCount(|msg|)
                                                    && SliceOk(msg, r.value.chunk) && !SendAnswer(answers, r.value.chunk))
    decreases ChunkCount(|msg|) - i
  {
    if i < ChunkCount(|msg|) && SliceOk(msg, i) && SendAnswer(answers, i) {
      FirstSendFailureIsFirst(msg, answers, i + 1);
    }
  }

  /** An ASCII message never has a piece cut through a character. */
  lemma {:induction false} AsciiSlicesOk(msg: seq<Byte>, answers: seq<bool>, i: nat)
    requires IsAscii(msg)
    ensures var r := FirstSendFailure(msg, answers, i); r.Some? ==> r.value.SendFailed?
    decreases ChunkCount(|msg|) - i
  {
    if i < ChunkCount(|msg|) {
      AsciiBoundaries(msg, ChunkSize * i);
      AsciiBoundaries(msg, ChunkEnd(msg, i));
      AsciiSlicesOk(msg, answers, i + 1);
    }
  }

  /** The send loop. A piece whose slice panics stops it before the send;
      a failed send is reported and then stops it. Otherwise every piece is
      sent, in order. The connection state does not matter. */
  method SendChunks(wifi: Wifi, msg: seq<Byte>, textbuffer: BoundedString) returns (failure: Option<Abort>)
    requires textbuffer.Valid()
    modifies wifi, textbuffer, textbuffer.data
    ensures textbuffer.Valid()
    ensures failure == FirstSendFailure(msg, old(wifi.sendResults), 0)
    ensures wifi.calls == old(wifi.calls) + SendCalls(msg, SendsMade(msg, failure))
    ensures wifi.sendResults == Drop(old(wifi.sendResults), SendsMade(msg, failure))
    ensures wifi.recvResults == old(wifi.recvResults) && wifi.closeOk == old(wifi.closeOk)
    ensures failure == None ==> textbuffer.len == old(textbuffer.len) && textbuffer.Bytes() == old(textbuffer.Bytes())
  {
    ghost var answers, calls0 := wifi.sendResults, wifi.calls;
    var n := ChunkCount(|msg|);
    for i := 0 to n
      invariant wifi.calls == calls0 + SendCalls(msg, i)
      invariant wifi.sendResults == Drop(answers, i)
      invariant wifi.recvResults == old(wifi.recvResults) && wifi.closeOk == old(wifi.closeOk)
      invariant FirstSendFailure(msg, answers, 0) == FirstSendFailure(msg, answers, i)
      invariant textbuffer.Valid() && textbuffer.len == old(textbuffer.len)
      invariant textbuffer.Bytes() == old(textbuffer.Bytes())
    {
      ghost var before := wifi.calls;
      failure := SendPiece(wifi, msg, textbuffer, i, answers);
      if failure.Some? {
        assert SendsMade(msg, failure) == if failure.value.BadSlice? then i else i + 1;
        assert wifi.calls == calls0 + SendCalls(msg, SendsMade(msg, failure));
        return;
      }
      assert wifi.calls == calls0 + SendCalls(msg, i + 1);
    }
    failure := None;
  }

  /** One pass of the send loop: the slice of piece `i`, its send, and the
      report of a failed send. */
  method SendPiece(wifi: Wifi, msg: seq<Byte>, textbuffer: BoundedString, i: nat, ghost answers: seq<bool>)
    returns (failure: Option<Abort>)
    requires i < ChunkCount(|msg|)
    requires textbuffer.Valid() && wifi.sendResults == Drop(answers, i)
    modifies wifi, textbuffer, textbuffer.data
    ensures textbuffer.Valid()
    ensures failure == if !SliceOk(msg, i) then Some(BadSlice(i))
                       else if !SendAnswer(answers, i) then Some(SendFailed(i))
                       else None
    ensures wifi.calls == old(wifi.calls) + if SliceOk(msg, i) then [SendCall(Chunk(msg, i))] else []
    ensures SendCalls(msg, i + 1) == SendCalls(msg, i) + [SendCall(Chunk(msg, i))]
    ensures wifi.sendResults == if SliceOk(msg, i) then Drop(answers, i + 1) else Drop(answers, i)
    ensures wifi.recvResults == old(wifi.recvResults) && wifi.closeOk == old(wifi.closeOk)
    ensures failure == None ==> textbuffer.len == old(textbuffer.len) && textbuffer.Bytes() == old(textbuffer.Bytes())
  {
    assert SendCalls(msg, i + 1) == SendCalls(msg, i) + [SendCall(Chunk(msg, i))];
    if !SliceOk(msg, i) {
      return Some(BadSlice(i));
    }
    DropStep(answers, i);
    var sent := wifi.Send(Chunk(msg, i));
    if !sent {
      var _ := Report(textbuffer, [ErrLine]);
      return Some(SendFailed(i));
    }
    failure := None;
  }

  // ---------------------------------------------------------------------
  // Receiving.

  /** The capacity of `text` and `progress`, both `String<U4096>`. */
  const TextCapacity: nat := 4096
  /** The starting value of `countdown`. */
  const PollsWithoutHeader: nat := 20

  function RecvAt(script: seq<RecvResult>, i: nat): RecvResult
  {
    if i < |script| then script[i] else RecvErr
  }

  /** `text.push_str(t).ok()`: a chunk is appended whole when it fits and
      dropped whole when it does not; an error changes nothing. */
  function Absorb(text: seq<Byte>, r: RecvResult): seq<Byte>
  {
    match r
    case RecvOk(c) => if |text| + |c| <= TextCapacity then text + c else text
    case RecvErr => text
  }

  /** The accumulated response after `n` polls. */
  function Accum(script: seq<RecvResult>, n: nat): seq<Byte>
    decreases n
  {
    if n == 0 then [] else Absorb(Accum(script, n - 1), RecvAt(script, n - 1))
  }

  /** What the scanner reports after poll `n`. */
  ghost function Found(script: seq<RecvResult>, n: nat): Option<U32>
  {
    ContentLength.ContentLengthOf(Accum(script, n))
  }

  /** What the scanner reports after each of the first twenty polls; entry
      `m - 1` is the report after poll `m`. */
  ghost function Scans(script: seq<RecvResult>): (r: seq<Option<U32>>)
    ensures |r| == PollsWithoutHeader
  {
    seq(PollsWithoutHeader, i requires 0 <= i < PollsWithoutHeader => Found(script, i + 1))
  }

  /** The first poll, from `n` up to the twentieth, after which the scanner
      succeeds. */
  function FirstFound(scans: seq<Option<U32>>, n: nat): (r: Option<nat>)
    requires |scans| == PollsWithoutHeader && 1 <= n <= PollsWithoutHeader
    ensures r.Some? ==> n <= r.value <= PollsWithoutHeader && scans[r.value - 1].Some?
    decreases PollsWithoutHeader - n
  {
    if scans[n - 1].Some? then Some(n)
    else if n == PollsWithoutHeader then None
    else FirstFound(scans, n + 1)
  }

  /** `(a + 511) / 512` on `u32`: the polls granted once the length is known.
      The addition wraps, as in a release build; a debug build panics
      instead. */
  function Budget(a: U32): (b: nat)
    ensures b <= 0x80_0000
  {
    ((a + 511) % U32Modulus) / 512
  }

  /** The number of polls: twenty when no length is ever found; otherwise
      the poll that found it plus the budget it grants. */
  function Planned(scans: seq<Option<U32>>): nat
    requires |scans| == PollsWithoutHeader
  {
    match FirstFound(scans, 1)
    case None => PollsWithoutHeader
    case Some(k) => k + Budget(scans[k - 1].value)
  }

  ghost function PlannedPolls(script: seq<RecvResult>): nat
  {
    Planned(Scans(script))
  }

  /** The panic, if any, at poll `p` (counted from 1): a chunk that is not
      UTF-8, or a chunk whose "Ok {progress}" report, carrying `p` progress
      marks up to the buffer's limit, does not fit the text buffer. */
  function AbortAt(script: seq<RecvResult>, p: nat): (r: Option<Abort>)
    requires p >= 1
    ensures r.Some? ==> r.value == InvalidUtf8(p) || r.value == ProgressReportOverflow(p)
  {
    match RecvAt(script, p - 1)
    case RecvOk(c) =>
      if !ValidUtf8(c) then Some(InvalidUtf8(p))
      else if 3 + Min(p, TextCapacity) + 1 > 256 then Some(ProgressReportOverflow(p))
      else None
    case RecvErr => None
  }

  function FirstAbort(script: seq<RecvResult>, p: nat, last: nat): Option<Abort>
    requires p >= 1
    decreases last + 1 - p
  {
    if p > last then None
    else if AbortAt(script, p).Some? then AbortAt(script, p)
    else FirstAbort(script, p + 1, last)
  }

  /** How the receive loop ends for a script of answers. */
  ghost function ReceiveOutcome(script: seq<RecvResult>): RecvOutcome
  {
    OutcomeOf(script, Scans(script))
  }

  /** The end of the loop for given answers and scanner reports. */
  function OutcomeOf(script: seq<RecvResult>, scans: seq<Option<U32>>): RecvOutcome
    requires |scans| == PollsWithoutHeader
  {
    var last := Planned(scans);
    match FirstAbort(script, 1, last)
    case Some(reason) => RecvAborted(reason)
    case None => Received(Accum(script, last), last)
  }

  function RecvCalls(n: nat): seq<WifiCall>
  {
    seq(n, _ => RecvCall)
  }

  function PollsOf(o: RecvOutcome): nat
  {
    match o
    case Received(_, polls) => polls
    case RecvAborted(InvalidUtf8(p)) => p
    case RecvAborted(ProgressReportOverflow(p)) => p
    case RecvAborted(_) => 0
  }

  lemma {:induction false} FirstFoundIsFirst(scans: seq<Option<U32>>, n: nat)
    requires |scans| == PollsWithoutHeader && 1 <= n <= PollsWithoutHeader
    ensures var r := FirstFound(scans, n);
            && (r.Some? ==> forall i :: n - 1 <= i < r.value - 1 ==> scans[i].None?)
            && (r.None? ==> forall i :: n - 1 <= i < PollsWithoutHeader ==> scans[i].None?)
    decreases PollsWithoutHeader - n
  {
    if scans[n - 1].None? && n < PollsWithoutHeader {
      FirstFoundIsFirst(scans, n + 1);
    }
  }

  lemma {:induction false} FirstAbortIsFirst(script: seq<RecvResult>, p: nat, last: nat)
    requires p >= 1
    ensures var r := FirstAbort(script, p, last);
            && (r.Some? ==> exists q :: p <= q <= last && AbortAt(script, q) == r
                                        && forall q' :: p <= q' < q ==> AbortAt(script, q').None?)
            && (r.None? ==> forall q :: p <= q <= last ==> AbortAt(script, q).None?)
    decreases last + 1 - p
  {
    if p <= last && AbortAt(script, p).None? {
      FirstAbortIsFirst(script, p + 1, last);
    }
  }

  /** The loop state the plan prescribes before a poll: `polls` polls are
      done, none of them panicked, and `countdown` and `bodyLength` are what
      the scanner's reports so far make them. */
  predicate OnPlan(script: seq<RecvResult>, scans: seq<Option<U32>>,
                   polls: nat, countdown: int, bodyLength: int, k: nat)
    requires |scans| == PollsWithoutHeader
  {
    var last := Planned(scans);
    && polls < last && countdown >= 1
    && FirstAbort(script, 1, last) == FirstAbort(script, polls + 1, last)
    && (bodyLength == 0 ==>
          && polls < PollsWithoutHeader && countdown == PollsWithoutHeader - polls
          && FirstFound(scans, 1) == FirstFound(scans, polls + 1))
    && (bodyLength != 0 ==>
          && 1 <= k <= polls && FirstFound(scans, 1) == Some(k)
          && scans[k - 1] == Some(bodyLength) && countdown == k + Budget(bodyLength) - polls)
  }

  lemma OnPlanAtStart(script: seq<RecvResult>, scans: seq<Option<U32>>)
    requires |scans| == PollsWithoutHeader
    ensures OnPlan(script, scans, 0, PollsWithoutHeader, 0, 0)
  {
  }

  /** A poll that panics is the first panic of the plan. */
  lemma AbortIsPlanned(script: seq<RecvResult>, scans: seq<Option<U32>>,
                       polls: nat, countdown: int, bodyLength: int, k: nat)
    requires |scans| == PollsWithoutHeader
    requires OnPlan(script, scans, polls, countdown, bodyLength, k)
    requires AbortAt(script, polls + 1).Some?
    ensures OutcomeOf(script, scans) == RecvAborted(AbortAt(script, polls + 1).value)
  {
  }

  /** A poll that does not panic and after which no length is newly found:
      the countdown drops by one, and either it ran out after exactly the
      planned polls or the state is on plan again. */
  lemma PlanCountdown(script: seq<RecvResult>, scans: seq<Option<U32>>,
                      polls: nat, countdown: int, bodyLength: int, k: nat)
    requires |scans| == PollsWithoutHeader
    requires OnPlan(script, scans, polls, countdown, bodyLength, k)
    requires AbortAt(script, polls + 1).None?
    requires bodyLength != 0 || scans[polls].None?
    ensures countdown == 1 ==> OutcomeOf(script, scans) == Received(Accum(script, polls + 1), polls + 1)
    ensures countdown != 1 ==> OnPlan(script, scans, polls + 1, countdown - 1, bodyLength, k)
  {
    var last := Planned(scans);
    assert FirstAbort(script, polls + 1, last) == FirstAbort(script, polls + 2, last);
    if bodyLength == 0 && polls + 1 < PollsWithoutHeader {
      assert FirstFound(scans, polls + 1) == FirstFound(scans, polls + 2);
    }
  }

  /** A poll that does not panic and after which the scanner first finds the
      length `a`: the countdown restarts at `Budget(a)`; when that is zero
      the loop ends after exactly the planned polls. */
  lemma PlanFound(script: seq<RecvResult>, scans: seq<Option<U32>>,
                  polls: nat, countdown: int, k: nat)
    requires |scans| == PollsWithoutHeader
    requires OnPlan(script, scans, polls, countdown, 0, k)
    requires AbortAt(script, polls + 1).None?
    requires scans[polls].Some?
    ensures var a := scans[polls].value;
            && (Budget(a) == 0 ==> OutcomeOf(script, scans) == Received(Accum(script, polls + 1), polls + 1))
            && (Budget(a) != 0 ==> a != 0 && OnPlan(script, scans, polls + 1, Budget(a), a, polls + 1))
  {
    var last := Planned(scans);
    assert FirstAbort(script, polls + 1, last) == FirstAbort(script, polls + 2, last);
  }

  lemma ScanIs(script: seq<RecvResult>, n: nat)
    requires 1 <= n <= PollsWithoutHeader
    ensures Scans(script)[n - 1] == Found(script, n)
  {
  }

  /** One poll: a progress mark, a `recv`, and for a chunk its UTF-8 check,
      its append to `text` and its report. */
  method PollOnce(wifi: Wifi, textbuffer: BoundedString, text: BoundedString, progress: BoundedString,
                  ghost script: seq<RecvResult>, polls: nat)
    returns (abort: Option<Abort>)
    requires text.Valid() && text.capacity == TextCapacity && text.Bytes() == Accum(script, polls)
    requires progress.Valid() && progress.capacity == TextCapacity && progress.len == Min(polls, TextCapacity)
    requires textbuffer.Valid() && textbuffer.capacity == 256 && textbuffer.Bytes() == []
    requires text.data != textbuffer.data && progress.data != textbuffer.data && text.data != progress.data
    requires wifi.recvResults == Drop(script, polls)
    modifies wifi, textbuffer, textbuffer.data, text, text.data, progress, progress.data
    ensures abort == AbortAt(script, polls + 1)
    ensures wifi.calls == old(wifi.calls) + [RecvCall] && wifi.recvResults == Drop(script, polls + 1)
    ensures wifi.sendResults == old(wifi.sendResults) && wifi.closeOk == old(wifi.closeOk)
    ensures text.Valid() && progress.Valid() && textbuffer.Valid()
    ensures abort == None ==> && text.Bytes() == Accum(script, polls + 1)
                              && progress.len == Min(polls + 1, TextCapacity)
                              && textbuffer.Bytes() == []
  {
    var _ := progress.PushStr(Mark);
    DropStep(script, polls);
    var r := wifi.Recv();
    assert r == RecvAt(script, polls);
    abort := None;
    if r.RecvOk? {
      if !ValidUtf8(r.chunk) {
        return Some(InvalidUtf8(polls + 1));
      }
      var _ := text.PushStr(r.chunk);
      FlattenThree(OkPrefix, progress.Bytes(), Newline);
      var shown := Report(textbuffer, [OkPrefix, progress.Bytes(), Newline]);
      if !shown {
        return Some(ProgressReportOverflow(polls + 1));
      }
    }
  }

  /** "find content length {a}" always fits the emptied text buffer. */
  method ReportLength(textbuffer: BoundedString, a: U32)
    requires textbuffer.Valid() && textbuffer.capacity == 256 && textbuffer.Bytes() == []
    modifies textbuffer, textbuffer.data
    ensures textbuffer.Valid() && textbuffer.Bytes() == []
  {
    ContentLength.DecimalLength(a, 10);
    FlattenThree(FoundPrefix, Decimal(a), Newline);
    var shown := Report(textbuffer, [FoundPrefix, Decimal(a), Newline]);
  }

  /** The rest of a poll that did not panic: `countdown -= 1`, and while no
      length is known yet, a scan of the text, which on success sets the
      length and restarts the countdown. */
  method Advance(text: seq<Byte>, textbuffer: BoundedString,
                 ghost script: seq<RecvResult>, ghost scans: seq<Option<U32>>,
                 polls: nat, countdown: U32, bodyLength: U32, ghost k: nat)
    returns (c1: U32, b1: U32, ghost k1: nat)
    requires |scans| == PollsWithoutHeader
    requires OnPlan(script, scans, polls, countdown, bodyLength, k)
    requires AbortAt(script, polls + 1).None?
    requires bodyLength == 0 ==> scans[polls] == Found(script, polls + 1)
    requires text == Accum(script, polls + 1)
    requires textbuffer.Valid() && textbuffer.capacity == 256 && textbuffer.Bytes() == []
    modifies textbuffer, textbuffer.data
    ensures textbuffer.Valid() && textbuffer.Bytes() == []
    ensures c1 == 0 ==> OutcomeOf(script, scans) == Received(Accum(script, polls + 1), polls + 1)
    ensures c1 != 0 ==> OnPlan(script, scans, polls + 1, c1, b1, k1)
    ensures c1 != 0 ==> (bodyLength == 0 && b1 != 0) || ((bodyLength == 0) == (b1 == 0) && c1 < countdown)
  {
    var found;
    c1, b1, k1, found := Countdown(text, script, scans, polls, countdown, bodyLength, k);
    if found.Some? {
      ReportLength(textbuffer, found.value);
    }
  }

  /** The countdown and length bookkeeping of a poll: `countdown -= 1`, and
      while no length is known, a scan of the text; a length it finds is
      returned in `found`. */
  method Countdown(text: seq<Byte>, ghost script: seq<RecvResult>, ghost scans: seq<Option<U32>>,
                   polls: nat, countdown: U32, bodyLength: U32, ghost k: nat)
    returns (c1: U32, b1: U32, ghost k1: nat, found: Option<U32>)
    requires |scans| == PollsWithoutHeader
    requires OnPlan(script, scans, polls, countdown, bodyLength, k)
    requires AbortAt(script, polls + 1).None?
    requires bodyLength == 0 ==> scans[polls] == ContentLength.ContentLengthOf(text)
    ensures c1 == 0 ==> OutcomeOf(script, scans) == Received(Accum(script, polls + 1), polls + 1)
    ensures c1 != 0 ==> OnPlan(script, scans, polls + 1, c1, b1, k1)
    ensures c1 != 0 ==> (bodyLength == 0 && b1 != 0) || ((bodyLength == 0) == (b1 == 0) && c1 < countdown)
  {
    c1, b1, k1, found := countdown - 1, bodyLength, k, None;
    if bodyLength == 0 {
      var ret := ContentLength.FindContentLength(text);
      if ret.Some? {
        PlanFound(script, scans, polls, countdown, k);
        b1 := ret.value;
        k1 := polls + 1;
        c1 := Budget(ret.value);
        found := ret;
        return;
      }
    }
    PlanCountdown(script, scans, polls, countdown, bodyLength, k);
  }

  /** One pass of the receive loop's body: either a panic, which is the
      first of the plan, or the loop's next state, which is again on plan
      unless the countdown has run out after exactly the planned polls. */
  method Poll(wifi: Wifi, textbuffer: BoundedString, text: BoundedString, progress: BoundedString,
              ghost script: seq<RecvResult>, ghost scans: seq<Option<U32>>,
              polls: nat, countdown: U32, bodyLength: U32, ghost k: nat)
    returns (abort: Option<Abort>, c1: U32, b1: U32, ghost k1: nat)
    requires |scans| == PollsWithoutHeader
    requires OnPlan(script, scans, polls, countdown, bodyLength, k)
    requires bodyLength == 0 ==> scans[polls] == Found(script, polls + 1)
    requires text.Valid() && text.capacity == TextCapacity && text.Bytes() == Accum(script, polls)
    requires progress.Valid() && progress.capacity == TextCapacity && progress.len == Min(polls, TextCapacity)
    requires textbuffer.Valid() && textbuffer.capacity == 256 && textbuffer.Bytes() == []
    requires text.data != textbuffer.data && progress.data != textbuffer.data && text.data != progress.data
    requires wifi.recvResults == Drop(script, polls)
    modifies wifi, textbuffer, textbuffer.data, text, text.data, progress, progress.data
    ensures wifi.calls == old(wifi.calls) + [RecvCall] && wifi.recvResults == Drop(script, polls + 1)
    ensures wifi.sendResults == old(wifi.sendResults) && wifi.closeOk == old(wifi.closeOk)
    ensures text.Valid() && progress.Valid() && textbuffer.Valid()
    ensures abort.Some? ==> OutcomeOf(script, scans) == RecvAborted(abort.value)
                            && PollsOf(RecvAborted(abort.value)) == polls + 1
    ensures abort.None? ==> && text.Bytes() == Accum(script, polls + 1)
                            && progress.len == Min(polls + 1, TextCapacity)
                            && textbuffer.Bytes() == []
                            && (c1 == 0 ==> OutcomeOf(script, scans) == Received(Accum(script, polls + 1), polls + 1))
                            && (c1 != 0 ==> OnPlan(script, scans, polls + 1, c1, b1, k1))
                            && (c1 != 0 ==> (bodyLength == 0 && b1 != 0) || ((bodyLength == 0) == (b1 == 0) && c1 < countdown))
  {
    abort := PollOnce(wifi, textbuffer, text, progress, script, polls);
    if abort.Some? {
      AbortIsPlanned(script, scans, polls, countdown, bodyLength, k);
      return abort, countdown, bodyLength, k;
    }
    c1, b1, k1 := Advance(text.Bytes(), textbuffer, script, scans, polls, countdown, bodyLength, k);
  }

  /** The receive loop of `http_post`. */
  method ReceiveLoop(wifi: Wifi, textbuffer: BoundedString) returns (outcome: RecvOutcome)
    requires textbuffer.Valid() && textbuffer.capacity == 256 && textbuffer.Bytes() == []
    modifies wifi, textbuffer, textbuffer.data
    ensures textbuffer.Valid()
    ensures outcome == ReceiveOutcome(old(wifi.recvResults))
    ensures wifi.calls == old(wifi.calls) + RecvCalls(PollsOf(outcome))
    ensures wifi.recvResults == Drop(old(wifi.recvResults), PollsOf(outcome))
    ensures wifi.sendResults == old(wifi.sendResults) && wifi.closeOk == old(wifi.closeOk)
    ensures outcome.Received? ==> textbuffer.Bytes() == []
  {
    ghost var script := wifi.recvResults;
    ghost var scans := Scans(script);
    ghost var k: nat := 0;
    var text := new BoundedString(TextCapacity);
    var countdown: U32 := PollsWithoutHeader;
    var bodyLength: U32 := 0;
    var progress := new BoundedString(TextCapacity);
    var polls: nat := 0;
    OnPlanAtStart(script, scans);
    while true
      invariant text.Valid() && text.capacity == TextCapacity && text.Bytes() == Accum(script, polls)
      invariant progress.Valid() && progress.capacity == TextCapacity && progress.len == Min(polls, TextCapacity)
      invariant textbuffer.Valid() && textbuffer.Bytes() == []
      invariant text.data != textbuffer.data && progress.data != textbuffer.data && text.data != progress.data
      invariant wifi.calls == old(wifi.calls) + RecvCalls(polls)
      invariant wifi.recvResults == Drop(script, polls)
      invariant wifi.sendResults == old(wifi.sendResults) && wifi.closeOk == old(wifi.closeOk)
      invariant OnPlan(script, scans, polls, countdown, bodyLength, k)
      decreases (if bodyLength == 0 then 1 else 0), countdown
    {
      var abort;
      if bodyLength == 0 {
        ScanIs(script, polls + 1);
      }
      abort, countdown, bodyLength, k := Poll(wifi, textbuffer, text, progress, script, scans,
                                              polls, countdown, bodyLength, k);
      assert RecvCalls(polls + 1) == RecvCalls(polls) + [RecvCall];
      if abort.Some? {
        return RecvAborted(abort.value);
      }
      polls := polls + 1;
      if countdown == 0 {
        break;
      }
    }
    outcome := Received(text.Bytes(), polls);
  }

  // ---------------------------------------------------------------------
  // Properties of the receive loop.

  /** The response never outgrows `text`, and what it held after `m` polls
      is kept, in order, at every later poll. */
  lemma {:induction false} AccumGrows(script: seq<RecvResult>, m: nat, n: nat)
    requires m <= n
    ensures |Accum(script, n)| <= TextCapacity
    ensures Accum(script, m) <= Accum(script, n)
    decreases n
  {
    if n > 0 {
      if m < n {
        AccumGrows(script, m, n - 1);
      } else {
        AccumGrows(script, m - 1, n - 1);
      }
    }
  }

  /** A poll that returns an error, or a chunk that does not fit, leaves
      the response as it was; a chunk that fits is appended. */
  lemma AbsorbStep(script: seq<RecvResult>, n: nat)
    ensures RecvAt(script, n).RecvErr? ==> Accum(script, n + 1) == Accum(script, n)
    ensures RecvAt(script, n).RecvOk? ==>
              Accum(script, n + 1) ==
                if |Accum(script, n)| + |RecvAt(script, n).chunk| <= TextCapacity
                then Accum(script, n) + RecvAt(script, n).chunk
                else Accum(script, n)
  {
  }

  /** After `n` polls none of which panicked, the response is valid UTF-8. */
  lemma {:induction false} AccumUtf8(script: seq<RecvResult>, n: nat)
    requires forall q :: 1 <= q <= n ==> AbortAt(script, q).None?
    ensures ValidUtf8(Accum(script, n))
    decreases n
  {
    if n > 0 {
      AccumUtf8(script, n - 1);
      assert AbortAt(script, n).None?;
      var r := RecvAt(script, n - 1);
      if r.RecvOk? && |Accum(script, n - 1)| + |r.chunk| <= TextCapacity {
        ValidUtf8Concat(Accum(script, n - 1), r.chunk);
      }
    }
  }

  /** `(a + 511) / 512` is the number of 512-byte polls that cover `a`
      bytes, except that a zero length grants none and, because the
      addition wraps, a length within 511 of the `u32` limit grants none
      either. */
  lemma BudgetFacts(a: U32)
    ensures a == 0 ==> Budget(a) == 0
    ensures 0 < a <= U32Modulus - 512 ==> 1 <= Budget(a) && 512 * (Budget(a) - 1) < a <= 512 * Budget(a)
    ensures a > U32Modulus - 512 ==> Budget(a) == 0
  {
    if a <= U32Modulus - 512 {
      assert (a + 511) % U32Modulus == a + 511;
    } else {
      assert (a + 511) % U32Modulus == a + 511 - U32Modulus;
    }
  }

  /** When the scanner never succeeds within twenty polls, the loop polls
      twenty times. */
  lemma PollsWhenNeverFound(script: seq<RecvResult>)
    requires forall n :: 1 <= n <= PollsWithoutHeader ==> Found(script, n).None?
    ensures PlannedPolls(script) == PollsWithoutHeader
  {
    var scans := Scans(script);
    assert forall i :: 0 <= i < PollsWithoutHeader ==> scans[i] == Found(script, i + 1);
    FirstFoundAbsent(scans, 1);
  }

  lemma {:induction false} FirstFoundAbsent(scans: seq<Option<U32>>, n: nat)
    requires |scans| == PollsWithoutHeader && 1 <= n <= PollsWithoutHeader
    requires forall i :: 0 <= i < PollsWithoutHeader ==> scans[i].None?
    ensures FirstFound(scans, n) == None
    decreases PollsWithoutHeader - n
  {
    if n < PollsWithoutHeader {
      FirstFoundAbsent(scans, n + 1);
    }
  }

  /** When the scanner first succeeds after poll `k`, reading `a`, the loop
      polls `k + (a + 511) / 512` times: it stops at once for a length of
      zero, and scans no more once a length is known. */
  lemma PollsWhenFoundAt(script: seq<RecvResult>, k: nat, a: U32)
    requires 1 <= k <= PollsWithoutHeader && Found(script, k) == Some(a)
    requires forall m :: 1 <= m < k ==> Found(script, m).None?
    ensures PlannedPolls(script) == k + Budget(a)
  {
    var scans := Scans(script);
    assert forall i :: 0 <= i < PollsWithoutHeader ==> scans[i] == Found(script, i + 1);
    FirstFoundAt(scans, 1, k);
  }

  lemma {:induction false} FirstFoundAt(scans: seq<Option<U32>>, n: nat, k: nat)
    requires |scans| == PollsWithoutHeader && 1 <= n <= k <= PollsWithoutHeader
    requires scans[k - 1].Some? && forall i :: n - 1 <= i < k - 1 ==> scans[i].None?
    ensures FirstFound(scans, n) == Some(k)
    decreases k - n
  {
    if n < k {
      FirstFoundAt(scans, n + 1, k);
    }
  }

  /** A loop that ends normally has made exactly the planned polls, none of
      which panicked, and hands back the accumulated text, which is valid
      UTF-8 of at most 4096 bytes. */
  lemma ReceivedFacts(script: seq<RecvResult>)
    requires ReceiveOutcome(script).Received?
    ensures var o := ReceiveOutcome(script);
            && o.polls == PlannedPolls(script)
            && o.text == Accum(script, o.polls)
            && (forall q :: 1 <= q <= o.polls ==> AbortAt(script, q).None?)
            && ValidUtf8(o.text) && |o.text| <= TextCapacity
  {
    var last := PlannedPolls(script);
    FirstAbortIsFirst(script, 1, last);
    AccumUtf8(script, last);
    AccumGrows(script, last, last);
  }

  // ---------------------------------------------------------------------
  // The whole of `http_post`.

  /** `4000*1000`, the timeout handed to `connect`. */
  const ConnectTimeout: nat := 4000 * 1000

  /** The report after `connect`: "Connect OK : {ip}, {msg.len()}" or "Err". */
  function ConnectLine(connected: bool, ip: U32, msgLength: nat): seq<seq<Byte>>
  {
    if connected then [ConnectPrefix, Decimal(ip), Separator, Decimal(msgLength), Newline]
    else [ErrLine]
  }

  /** How `http_post` ends, given what the text buffer held on entry and the
      coprocessor's answers. A failed connect is only reported; the response
      is never examined beyond its length. */
  ghost function PostOutcome(ip: U32, msg: seq<Byte>, bufferLength: nat, connected: bool,
                             sends: seq<bool>, recvs: seq<RecvResult>, closeOk: bool): Outcome
  {
    if bufferLength + |Flatten(ConnectLine(connected, ip, |msg|))| > 256 then Aborted(ConnectReportOverflow)
    else OutcomeAfterConnect(msg, sends, recvs, closeOk)
  }

  /** From the first chunk on: a failed send ends the post; `{msg}` must fit
      the empty text buffer. */
  ghost function OutcomeAfterConnect(msg: seq<Byte>, sends: seq<bool>, recvs: seq<RecvResult>, closeOk: bool): Outcome
  {
    match FirstSendFailure(msg, sends, 0)
    case Some(f) => Aborted(f)
    case None =>
      if |msg| + 1 > 256 then Aborted(MessageReportOverflow)
      else OutcomeAfterSend(recvs, closeOk)
  }

  /** From the receive loop on: `fin recv {text}` must fit the empty text
      buffer; the result of `close` is only reported. */
  ghost function OutcomeAfterSend(recvs: seq<RecvResult>, closeOk: bool): Outcome
  {
    match ReceiveOutcome(recvs)
    case RecvAborted(r) => Aborted(r)
    case Received(text, polls) =>
      if 9 + |text| + 1 > 256 then Aborted(ResponseReportOverflow)
      else Posted(text, polls, closeOk)
  }

  /** The calls `http_post` makes, in order, up to where it ends. */
  ghost function PostCalls(ip: U32, port: U16, msg: seq<Byte>, bufferLength: nat, connected: bool,
                           sends: seq<bool>, recvs: seq<RecvResult>): seq<WifiCall>
  {
    [ConnectCall(ip, port, ConnectTimeout)]
    + if bufferLength + |Flatten(ConnectLine(connected, ip, |msg|))| > 256 then []
      else CallsAfterConnect(msg, sends, recvs)
  }

  ghost function CallsAfterConnect(msg: seq<Byte>, sends: seq<bool>, recvs: seq<RecvResult>): seq<WifiCall>
  {
    var failure := FirstSendFailure(msg, sends, 0);
    SendCalls(msg, SendsMade(msg, failure))
    + if failure.Some? || |msg| + 1 > 256 then [] else CallsAfterSend(recvs)
  }

  ghost function CallsAfterSend(recvs: seq<RecvResult>): seq<WifiCall>
  {
    var received := ReceiveOutcome(recvs);
    RecvCalls(PollsOf(received))
    + if received.RecvAborted? || 9 + |received.text| + 1 > 256 then [] else [CloseCall]
  }

  /** `http_post`. */
  method HttpPost(ip: U32, port: U16, msg: seq<Byte>, textbuffer: BoundedString, wifi: Wifi)
    returns (outcome: Outcome)
    requires textbuffer.Valid() && textbuffer.capacity == 256
    modifies wifi, textbuffer, textbuffer.data
    ensures textbuffer.Valid()
    ensures outcome == PostOutcome(ip, msg, old(textbuffer.len), old(wifi.connectOk),
                                   old(wifi.sendResults), old(wifi.recvResults), old(wifi.closeOk))
    ensures wifi.calls == old(wifi.calls) + PostCalls(ip, port, msg, old(textbuffer.len), old(wifi.connectOk),
                                                      old(wifi.sendResults), old(wifi.recvResults))
    ensures outcome.Posted? ==> textbuffer.Bytes() == []
  {
    ghost var calls0, len0 := wifi.calls, textbuffer.len;
    ghost var sends, recvs, closeOk := wifi.sendResults, wifi.recvResults, wifi.closeOk;
    var connected := wifi.Connect(ip, port, ConnectTimeout);
    ghost var connectCall := [ConnectCall(ip, port, ConnectTimeout)];
    ghost var trace := PostCalls(ip, port, msg, len0, connected, sends, recvs);
    var shown := Report(textbuffer, ConnectLine(connected, ip, |msg|));
    if !shown {
      assert trace == connectCall + [];
      return Aborted(ConnectReportOverflow);
    }
    assert PostOutcome(ip, msg, len0, connected, sends, recvs, closeOk)
        == OutcomeAfterConnect(msg, sends, recvs, closeOk);
    ghost var rest := CallsAfterConnect(msg, sends, recvs);
    assert trace == connectCall + rest;
    outcome := SendAndReceive(msg, textbuffer, wifi);
    assert wifi.calls == (calls0 + connectCall) + rest == calls0 + trace;
  }

  /** The chunked send, the echo of `msg`, and what follows. */
  method SendAndReceive(msg: seq<Byte>, textbuffer: BoundedString, wifi: Wifi) returns (outcome: Outcome)
    requires textbuffer.Valid() && textbuffer.capacity == 256 && textbuffer.Bytes() == []
    modifies wifi, textbuffer, textbuffer.data
    ensures textbuffer.Valid()
    ensures outcome == OutcomeAfterConnect(msg, old(wifi.sendResults), old(wifi.recvResults), old(wifi.closeOk))
    ensures wifi.calls == old(wifi.calls) + CallsAfterConnect(msg, old(wifi.sendResults), old(wifi.recvResults))
    ensures outcome.Posted? ==> textbuffer.Bytes() == []
  {
    ghost var calls0, sends, recvs, closeOk := wifi.calls, wifi.sendResults, wifi.recvResults, wifi.closeOk;
    var failure := SendChunks(wifi, msg, textbuffer);
    ghost var sent := SendCalls(msg, SendsMade(msg, failure));
    assert wifi.calls == calls0 + sent;
    if failure.Some? {
      assert CallsAfterConnect(msg, sends, recvs) == sent + [];
      return Aborted(failure.value);
    }
    FlattenTwo(msg, Newline);
    var shown := Report(textbuffer, [msg, Newline]);
    if !shown {
      assert CallsAfterConnect(msg, sends, recvs) == sent + [];
      return Aborted(MessageReportOverflow);
    }
    assert OutcomeAfterConnect(msg, sends, recvs, closeOk) == OutcomeAfterSend(recvs, closeOk);
    assert CallsAfterConnect(msg, sends, recvs) == sent + CallsAfterSend(recvs);
    outcome := ReceiveAndClose(textbuffer, wifi);
  }

  /** The receive loop, `fin recv {text}`, and `close`. */
  method ReceiveAndClose(textbuffer: BoundedString, wifi: Wifi) returns (outcome: Outcome)
    requires textbuffer.Valid() && textbuffer.capacity == 256 && textbuffer.Bytes() == []
    modifies wifi, textbuffer, textbuffer.data
    ensures textbuffer.Valid()
    ensures outcome == OutcomeAfterSend(old(wifi.recvResults), old(wifi.closeOk))
    ensures wifi.calls == old(wifi.calls) + CallsAfterSend(old(wifi.recvResults))
    ensures outcome.Posted? ==> textbuffer.Bytes() == []
  {
    var received := ReceiveLoop(wifi, textbuffer);
    if received.RecvAborted? {
      return Aborted(received.reason);
    }
    FlattenThree(FinPrefix, received.text, Newline);
    var shown := Report(textbuffer, [FinPrefix, received.text, Newline]);
    if !shown {
      return Aborted(ResponseReportOverflow);
    }
    var closed := wifi.Close();
    if closed {
      var _ := Report(textbuffer, [ClosedLine]);
    }
    outcome := Posted(received.text, received.polls, closed);
  }

  // ---------------------------------------------------------------------
  // Properties of `http_post`.

  /** The bytes carried by the sends among `calls`, in order. */
  function SentBytes(calls: seq<WifiCall>): seq<Byte>
    decreases |calls|
  {
    if calls == [] then []
    else SentBytes(calls[..|calls| - 1]) + (if calls[|calls| - 1].SendCall? then calls[|calls| - 1].bytes else [])
  }

  /** The first `n` sends carry the message up to byte `40 n`. */
  lemma {:induction false} SendCallsCarry(msg: seq<Byte>, n: nat)
    requires n <= ChunkCount(|msg|)
    ensures SentBytes(SendCalls(msg, n)) == msg[..Min(ChunkSize * n, |msg|)]
    decreases n
  {
    if n > 0 {
      var calls := SendCalls(msg, n);
      assert calls[..n - 1] == SendCalls(msg, n - 1);
      SendCallsCarry(msg, n - 1);
      ChunkSizes(msg, n - 1);
      assert msg[..Min(ChunkSize * n, |msg|)] == msg[..ChunkSize * (n - 1)] + Chunk(msg, n - 1);
    }
  }

  /** The connect report fits an empty text buffer whatever `connect`
      returned, for a message that fits a `String<256>`. */
  lemma ConnectLineFits(connected: bool, ip: U32, msgLength: nat)
    requires msgLength <= 256
    ensures |Flatten(ConnectLine(connected, ip, msgLength))| <= 256
  {
    if connected {
      FlattenFive(ConnectPrefix, Decimal(ip), Separator, Decimal(msgLength), Newline);
      ContentLength.DecimalLength(ip, 10);
      ContentLength.DecimalLength(msgLength, 3);
    } else {
      var none: seq<seq<Byte>> := [];
      assert [ErrLine][1..] == none;
    }
  }

  /** A failed `connect` is only reported: from an empty text buffer the
      post goes on as if it had succeeded. */
  lemma ConnectFailureOnlyReported(ip: U32, msg: seq<Byte>, sends: seq<bool>, recvs: seq<RecvResult>, closeOk: bool)
    requires |msg| <= 256
    ensures PostOutcome(ip, msg, 0, false, sends, recvs, closeOk) == PostOutcome(ip, msg, 0, true, sends, recvs, closeOk)
    ensures PostOutcome(ip, msg, 0, true, sends, recvs, closeOk) == OutcomeAfterConnect(msg, sends, recvs, closeOk)
  {
    ConnectLineFits(false, ip, |msg|);
    ConnectLineFits(true, ip, |msg|);
  }

  /** An ASCII message is never cut through a character. */
  lemma AsciiMessageSlicesCleanly(ip: U32, msg: seq<Byte>, bufferLength: nat, connected: bool,
                                  sends: seq<bool>, recvs: seq<RecvResult>, closeOk: bool)
    requires IsAscii(msg)
    ensures !PostOutcome(ip, msg, bufferLength, connected, sends, recvs, closeOk).Aborted?
            || !PostOutcome(ip, msg, bufferLength, connected, sends, recvs, closeOk).reason.BadSlice?
  {
    AsciiSlicesOk(msg, sends, 0);
    FirstAbortIsFirst(recvs, 1, PlannedPolls(recvs));
  }

  /** A post that returns sent the whole message, accepted by every send,
      in pieces that rebuild it; the message and the response each fit
      their report; the response is the accumulated text after the planned
      polls, valid UTF-8; and `closed` is what `close` answered. */
  lemma PostedFacts(ip: U32, msg: seq<Byte>, bufferLength: nat, connected: bool,
                    sends: seq<bool>, recvs: seq<RecvResult>, closeOk: bool)
    requires PostOutcome(ip, msg, bufferLength, connected, sends, recvs, closeOk).Posted?
    ensures var o := PostOutcome(ip, msg, bufferLength, connected, sends, recvs, closeOk);
            && |msg| <= 255 && |o.response| <= 246
            && (forall i :: 0 <= i < ChunkCount(|msg|) ==> SendAnswer(sends, i))
            && SentBytes(SendCalls(msg, ChunkCount(|msg|))) == msg
            && o.polls == PlannedPolls(recvs)
            && o.response == Accum(recvs, o.polls) && ValidUtf8(o.response)
            && o.closed == closeOk
  {
    FirstSendFailureIsFirst(msg, sends, 0);
    SendCallsCarry(msg, ChunkCount(|msg|));
    ChunkCountIsLeast(|msg|);
    ReceivedFacts(recvs);
  }
}
