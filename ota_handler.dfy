/**
  * The firmware-update handler behind `POST /ota*` (main/http_ota_handler.c).
  *
  * The handler streams the request body into the next OTA partition in reads of at
  * most 1024 bytes, draws a progress bar of `*` marks in the plain-text response, and on
  * full receipt finalises the image, makes it the boot partition and schedules a restart.
  * Everything the handler does to the outside world (response chunks and flash calls) is
  * recorded, in order, as one trace of `Effect`s.
  *
  * The socket is an input: each call of `httpd_req_recv` consumes the next `RecvEvent`,
  * and the bytes it delivers are taken, in order, from `body`, the bytes the client sent.
  */
module OtaHandler {
  import opened CStrings

  /** The size of the stack buffer `buf`, and so the largest read. */
  const BufSize: nat := 1024

  /** The non-positive codes `httpd_req_recv` returns. */
  const HttpdSockErrFail: int := -1
  const HttpdSockErrTimeout: int := -3

  const InternalServerError: nat := 500

  /** `size_t` on the ESP32 is 32 bits wide, and `int` is a 32-bit two's complement type. */
  const SizeModulus: nat := 0x1_0000_0000
  const IntLimit: nat := 0x8000_0000

  const StartText := "Start to update firmware.\n"
  const ScaleText := "0        20        40        60        80       100%\n"
  const RulerText := "|---------+---------+---------+---------+---------+\n"
  const Mark := "*"
  const CompleteText := "*\nComplete.\n"
  const FailText := "Failed to receive firmware."

  /** What the socket does on one `httpd_req_recv`: time out, fail, or have `avail` bytes ready. */
  datatype RecvEvent = Timeout | SocketError | Arrived(avail: nat)

  /** One call the handler makes on the response or on the OTA partition. */
  datatype Effect =
    | SetType(mime: string)              // httpd_resp_set_type
    | Send(text: string)                 // httpd_resp_sendstr_chunk with a string
    | SendError(status: nat, message: string)  // httpd_resp_send_err
    | EndResponse                        // httpd_resp_sendstr_chunk(req, NULL)
    | OtaBegin(imageSize: nat)           // esp_ota_begin
    | OtaWrite(data: seq<byte>)          // esp_ota_write
    | OtaEnd                             // esp_ota_end
    | SetBootPartition                   // esp_ota_set_boot_partition
    | SpawnRestart                       // xTaskCreate(restart_task, ...)

  /**
    * How the handler ends: it returned ESP_OK after activating the image, it returned
    * ESP_FAIL after a fatal read, or it is still inside its read loop when the supplied
    * socket events run out.
    */
  datatype Outcome = Completed | Failed | Receiving

  /**
    * The loop's variables: `remain`, `percent`, the bytes the client has not yet had read,
    * and what the loop has emitted so far.
    */
  datatype Session = Session(remain: nat, percent: nat, pending: seq<byte>, sent: seq<Effect>)

  /** The result of one loop iteration: go round again, or return ESP_FAIL. */
  datatype StepResult = Continue(next: Session) | Abort

  /** A whole run: the session as the loop left it, the full trace and the outcome. */
  datatype Run = Run(last: Session, effects: seq<Effect>, outcome: Outcome)

  /** What a request's handler did: its trace and how it ended. */
  datatype Reply = Reply(effects: seq<Effect>, outcome: Outcome)

  /**
    * Line 33, `total_size = req->content_len`: the 32-bit `size_t` length read as an
    * `int`. It is the length itself below 2^31 and negative from 2^31 on.
    */
  function TotalSize(contentLen: nat): (t: int)
    requires contentLen < SizeModulus
    ensures -(IntLimit as int) <= t < IntLimit
    ensures t < 0 <==> contentLen >= IntLimit
    ensures t >= 0 ==> t == contentLen
    ensures t < 0 ==> t + SizeModulus == contentLen
  {
    if contentLen < IntLimit then contentLen else contentLen - SizeModulus
  }

  /** What the handler sends and calls before its first read. */
  function Prelude(total: nat): (p: seq<Effect>)
    ensures |p| == 6 && p[0] == SetType("text/plain") && p[|p| - 1] == OtaBegin(total)
  {
    [SetType("text/plain"), Send(StartText), Send(ScaleText), Send(RulerText), Send(Mark), OtaBegin(total)]
  }

  /** What the handler sends and calls after its loop, by outcome. */
  function Closing(outcome: Outcome): (c: seq<Effect>)
    ensures OtaEnd in c <==> outcome == Completed
    ensures SetBootPartition in c <==> outcome == Completed
    ensures SpawnRestart in c <==> outcome == Completed
    ensures c == [] <==> outcome == Receiving
    ensures forall e :: e in c ==> !e.OtaWrite?
  {
    match outcome
    case Completed => [OtaEnd, SetBootPartition, Send(CompleteText), EndResponse, SpawnRestart]
    case Failed => [SendError(InternalServerError, FailText)]
    case Receiving => []
  }

  /** `percent` as the loop keeps it: even, from 2 to 100. */
  predicate ValidPercent(p: nat)
  {
    2 <= p <= 100 && p % 2 == 0
  }

  /** The length asked of `httpd_req_recv`: the whole buffer, or what remains if that is less. */
  function RequestSize(remain: nat): (want: nat)
    requires remain > 0
    ensures 0 < want <= remain && want <= BufSize
    ensures want == remain || want == BufSize
  {
    if remain < BufSize then remain else BufSize
  }

  /**
    * What `httpd_req_recv(req, buf, want)` returns: the timeout or failure code, or the
    * number of bytes copied, which is bounded by the bytes ready, the buffer length asked
    * for, and the bytes the client still has to send. A result of 0 means nothing came.
    */
  function Receive(ev: RecvEvent, want: nat, pending: seq<byte>): (n: int)
    ensures n == HttpdSockErrTimeout <==> ev.Timeout?
    ensures n < 0 <==> !ev.Arrived?
    ensures n >= 0 ==> n <= want && n <= |pending|
    ensures ev.Arrived? && 0 < ev.avail && 0 < want && 0 < |pending| ==> n > 0
  {
    match ev
    case Timeout => HttpdSockErrTimeout
    case SocketError => HttpdSockErrFail
    case Arrived(avail) =>
      if avail <= want && avail <= |pending| then avail
      else if want <= |pending| then want
      else |pending|
  }

  /** The progress threshold: a mark is due once `remain` drops below it. */
  function Threshold(total: nat, percent: nat): (t: int)
    ensures percent <= 100 ==> 0 <= t <= total
    ensures percent <= 100 ==> t * 100 <= total * (100 - percent) < t * 100 + 100
  {
    total * (100 - percent) / 100
  }

  /** One pass of `while (remain > 0)`: a read, and if it delivered bytes, a write and perhaps a mark. */
  function Step(total: nat, s: Session, ev: RecvEvent): (r: StepResult)
    requires s.remain > 0 && ValidPercent(s.percent)
    ensures ev.Timeout? ==> r == Continue(s)
    ensures r.Continue? ==> ValidPercent(r.next.percent)
    ensures r.Abort? <==> Receive(ev, RequestSize(s.remain), s.pending) <= 0 && !ev.Timeout?
    ensures r.Continue? ==> s.sent <= r.next.sent && r.next.remain <= s.remain
  {
    var n := Receive(ev, RequestSize(s.remain), s.pending);
    if n <= 0 then
      if n == HttpdSockErrTimeout then Continue(s) else Abort
    else
      var remain := s.remain - n;
      var sent := s.sent + [OtaWrite(s.pending[..n])];
      if remain < Threshold(total, s.percent) then
        Continue(Session(remain, s.percent + 2, s.pending[n..], sent + [Send(Mark)]))
      else
        Continue(Session(remain, s.percent, s.pending[n..], sent))
  }

  /** The read loop from session `s`, fed with `events`, and what the handler does after it. */
  function Loop(total: nat, s: Session, events: seq<RecvEvent>): (r: Run)
    requires ValidPercent(s.percent)
    ensures r.effects == Prelude(total) + r.last.sent + Closing(r.outcome)
    ensures s.sent <= r.last.sent && r.last.remain <= s.remain
    ensures r.outcome == Completed <==> r.last.remain == 0
    decreases |events|
  {
    if s.remain == 0 then Run(s, Prelude(total) + s.sent + Closing(Completed), Completed)
    else if events == [] then Run(s, Prelude(total) + s.sent + Closing(Receiving), Receiving)
    else
      match Step(total, s, events[0])
      case Abort => Run(s, Prelude(total) + s.sent + Closing(Failed), Failed)
      case Continue(next) => Loop(total, next, events[1..])
  }

  /** The session as the handler enters its loop. */
  function Initial(total: nat, body: seq<byte>): Session
  {
    Session(total, 2, body, [])
  }

  /** The whole handler, for a declared length `total`, the bytes sent and the socket's behaviour. */
  function Handle(total: nat, body: seq<byte>, events: seq<RecvEvent>): (r: Run)
    ensures Prelude(total) <= r.effects && r.last.remain <= total
    ensures r.outcome == Completed <==> r.last.remain == 0
  {
    Loop(total, Initial(total, body), events)
  }

  lemma AppendAssoc(a: seq<Effect>, b: seq<Effect>, c: seq<Effect>)
    ensures a + b + c == a + (b + c)
  {
  }

  /** Where the loop stops: the trace closes with the calls of the outcome it stopped with. */
  lemma LoopStop(total: nat, s: Session, rest: seq<RecvEvent>, outcome: Outcome)
    requires ValidPercent(s.percent)
    requires || (outcome == Completed && s.remain == 0)
             || (outcome == Receiving && s.remain > 0 && rest == [])
             || (outcome == Failed && s.remain > 0 && rest != [] && Step(total, s, rest[0]).Abort?)
    ensures Loop(total, s, rest) == Run(s, Prelude(total) + s.sent + Closing(outcome), outcome)
  {
  }

  /**
    * The handler for a request declaring `contentLen` bytes. A negative `total_size`
    * makes `remain` negative, so `while (remain > 0)` is skipped and the handler goes on
    * to its closing calls. `esp_ota_begin` takes `total_size` back as a `size_t`, which
    * is `contentLen` again.
    */
  function HandleRequest(contentLen: nat, body: seq<byte>, events: seq<RecvEvent>): (r: Reply)
    requires contentLen < SizeModulus
    ensures Prelude(contentLen) <= r.effects
    ensures contentLen < IntLimit ==> r == Reply(Handle(contentLen, body, events).effects, Handle(contentLen, body, events).outcome)
    ensures contentLen >= IntLimit ==> r.outcome == Completed
  {
    if TotalSize(contentLen) < 0 then Reply(Prelude(contentLen) + Closing(Completed), Completed)
    else
      var run := Handle(contentLen, body, events);
      Reply(run.effects, run.outcome)
  }

  /** Lines 45-51: ask `httpd_req_recv` for a full buffer, or for what remains if that is less. */
  method Read(remain: nat, pending: seq<byte>, ev: RecvEvent) returns (n: int)
    requires remain > 0
    ensures n == Receive(ev, RequestSize(remain), pending)
  {
    var want := if remain < BufSize then remain else BufSize;
    n := Receive(ev, want, pending);
  }

  /**
    * Lines 61-67, after a read of `n > 0` bytes: write them, count them off, and draw a
    * mark when `remain` drops below the next threshold. The result is the step `Step` takes.
    */
  method Advance(total: nat, remain: nat, percent: nat, pending: seq<byte>, ev: RecvEvent, n: int, ghost sent: seq<Effect>)
    returns (remain': nat, percent': nat, pending': seq<byte>, emitted: seq<Effect>)
    requires remain > 0 && ValidPercent(percent)
    requires n == Receive(ev, RequestSize(remain), pending) && n > 0
    ensures Step(total, Session(remain, percent, pending, sent), ev) == Continue(Session(remain', percent', pending', sent + emitted))
  {
    emitted := [OtaWrite(pending[..n])];
    pending' := pending[n..];
    remain' := remain - n;
    percent' := percent;
    if remain' < Threshold(total, percent) {
      emitted := emitted + [Send(Mark)];
      percent' := percent + 2;
    }
    assert sent + emitted == sent + [OtaWrite(pending[..n])] + emitted[1..];
  }

  /** `http_handle_ota`, statement by statement, for a request declaring `contentLen` bytes. */
  method HandleOta(contentLen: nat, body: seq<byte>, events: seq<RecvEvent>)
    returns (effects: seq<Effect>, outcome: Outcome)
    requires contentLen < SizeModulus
    ensures effects == HandleRequest(contentLen, body, events).effects
    ensures outcome == HandleRequest(contentLen, body, events).outcome
  {
    effects := [SetType("text/plain"), Send(StartText)];
    var total := TotalSize(contentLen);
    effects := effects + [Send(ScaleText), Send(RulerText), Send(Mark)];
    effects := effects + [OtaBegin(contentLen)];
    var remain: int := total;
    var percent: nat := 2;
    var pending := body;
    var i := 0;
    ghost var sent: seq<Effect> := [];
    assert events[0..] == events;
    while remain > 0
      invariant i <= |events|
      invariant ValidPercent(percent)
      invariant effects == Prelude(contentLen) + sent
      invariant total < 0 ==> remain == total && sent == []
      invariant total >= 0 ==> 0 <= remain && Loop(contentLen, Session(remain, percent, pending, sent), events[i..]) == Handle(contentLen, body, events)
      decreases |events| - i
    {
      assert total >= 0;
      ghost var cur := Session(remain, percent, pending, sent);
      if i == |events| {
        LoopStop(contentLen, cur, events[i..], Receiving);
        outcome := Receiving;
        return;
      }
      assert events[i..][1..] == events[i + 1..];
      var n := Read(remain, pending, events[i]);
      if n <= 0 {
        i := i + 1;
        if n == HttpdSockErrTimeout {
          continue;
        }
        LoopStop(contentLen, cur, events[i - 1..], Failed);
        effects := effects + [SendError(InternalServerError, FailText)];
        outcome := Failed;
        return;
      }
      var emitted;
      remain, percent, pending, emitted := Advance(contentLen, remain, percent, pending, events[i], n, sent);
      AppendAssoc(Prelude(contentLen), sent, emitted);
      effects := effects + emitted;
      sent := sent + emitted;
      i := i + 1;
    }
    if total >= 0 {
      LoopStop(contentLen, Session(remain, percent, pending, sent), events[i..], Completed);
    }
    effects := effects + [OtaEnd, SetBootPartition, Send(CompleteText), EndResponse, SpawnRestart];
    outcome := Completed;
  }

  // ---------------------------------------------------------------------------------
  // The shape of what the read loop emits.

  /** The bytes handed to `esp_ota_write`, concatenated in call order. */
  function Written(t: seq<Effect>): seq<byte>
  {
    if t == [] then []
    else Written(t[..|t| - 1]) + (if t[|t| - 1].OtaWrite? then t[|t| - 1].data else [])
  }

  /** The number of `esp_ota_write` calls. */
  function Writes(t: seq<Effect>): nat
  {
    if t == [] then 0 else Writes(t[..|t| - 1]) + (if t[|t| - 1].OtaWrite? then 1 else 0)
  }

  /** The number of progress marks. */
  function Marks(t: seq<Effect>): nat
  {
    if t == [] then 0 else Marks(t[..|t| - 1]) + (if t[|t| - 1] == Send(Mark) then 1 else 0)
  }

  /** A chunk as a read can deliver it: 1 to 1024 bytes. */
  predicate GoodChunk(e: Effect)
  {
    e.OtaWrite? && 1 <= |e.data| <= BufSize
  }

  /** At position `i`: a chunk, or a progress mark right after a chunk. */
  predicate TransferAt(t: seq<Effect>, i: nat)
    requires i < |t|
  {
    GoodChunk(t[i]) || (t[i] == Send(Mark) && i > 0 && GoodChunk(t[i - 1]))
  }

  /** What the read loop emits: chunks, each followed by at most one mark, and nothing else. */
  predicate Transfer(t: seq<Effect>)
  {
    forall i :: 0 <= i < |t| ==> TransferAt(t, i)
  }

  /** The handler's variables at the head of its loop, tied to what it emitted and to the bytes sent. */
  predicate SessionInv(total: nat, body: seq<byte>, s: Session)
  {
    && Transfer(s.sent)
    && Written(s.sent) + s.pending == body
    && s.remain + |Written(s.sent)| == total
    && ValidPercent(s.percent)
    && Marks(s.sent) == (s.percent - 2) / 2
  }

  lemma CountsAppend(t: seq<Effect>, e: Effect)
    ensures Written(t + [e]) == Written(t) + (if e.OtaWrite? then e.data else [])
    ensures Writes(t + [e]) == Writes(t) + (if e.OtaWrite? then 1 else 0)
    ensures Marks(t + [e]) == Marks(t) + (if e == Send(Mark) then 1 else 0)
  {
    assert (t + [e])[..|t|] == t;
  }

  lemma TransferAppend(t: seq<Effect>, e: Effect)
    requires Transfer(t)
    requires GoodChunk(e) || (e == Send(Mark) && t != [] && GoodChunk(t[|t| - 1]))
    ensures Transfer(t + [e])
  {
    var t' := t + [e];
    forall i | 0 <= i < |t'| ensures TransferAt(t', i) {
      if i < |t| {
        assert TransferAt(t, i);
      }
    }
  }

  /** Writing the next `n` pending bytes keeps the session invariant. */
  lemma WriteKeepsInv(total: nat, body: seq<byte>, s: Session, n: nat)
    requires SessionInv(total, body, s) && 0 < n <= s.remain && n <= |s.pending| && n <= BufSize
    ensures SessionInv(total, body, Session(s.remain - n, s.percent, s.pending[n..], s.sent + [OtaWrite(s.pending[..n])]))
  {
    var w := OtaWrite(s.pending[..n]);
    CountsAppend(s.sent, w);
    TransferAppend(s.sent, w);
    assert s.pending[..n] + s.pending[n..] == s.pending;
  }

  /** A mark right after a chunk keeps the session invariant when the percentage stays valid. */
  lemma MarkKeepsInv(total: nat, body: seq<byte>, s: Session)
    requires SessionInv(total, body, s) && s.sent != [] && GoodChunk(s.sent[|s.sent| - 1])
    requires ValidPercent(s.percent + 2)
    ensures SessionInv(total, body, Session(s.remain, s.percent + 2, s.pending, s.sent + [Send(Mark)]))
  {
    CountsAppend(s.sent, Send(Mark));
    TransferAppend(s.sent, Send(Mark));
  }

  /** Every step of the loop keeps the session invariant. */
  lemma StepKeepsInv(total: nat, body: seq<byte>, s: Session, ev: RecvEvent)
    requires s.remain > 0 && SessionInv(total, body, s)
    ensures Step(total, s, ev).Continue? ==> SessionInv(total, body, Step(total, s, ev).next)
  {
    var n := Receive(ev, RequestSize(s.remain), s.pending);
    if n > 0 {
      var w := Session(s.remain - n, s.percent, s.pending[n..], s.sent + [OtaWrite(s.pending[..n])]);
      WriteKeepsInv(total, body, s, n);
      if w.remain < Threshold(total, s.percent) {
        assert Step(total, s, ev) == Continue(Session(w.remain, s.percent + 2, w.pending, w.sent + [Send(Mark)]));
        MarkKeepsInv(total, body, w);
      } else {
        assert Step(total, s, ev) == Continue(w);
      }
    }
  }

  /** How any run ends: in a session that keeps the invariant, with the outcome its `remain` implies. */
  lemma {:induction false} LoopInv(total: nat, body: seq<byte>, s: Session, events: seq<RecvEvent>)
    requires SessionInv(total, body, s)
    ensures var r := Loop(total, s, events);
      && SessionInv(total, body, r.last)
      && r.effects == Prelude(total) + r.last.sent + Closing(r.outcome)
      && (r.outcome == Completed <==> r.last.remain == 0)
    decreases |events|
  {
    if s.remain > 0 && events != [] {
      var st := Step(total, s, events[0]);
      if st.Continue? {
        StepKeepsInv(total, body, s, events[0]);
        LoopInv(total, body, st.next, events[1..]);
      }
    }
  }

  /** Any run of the handler: the prelude, a well-formed transfer, and the closing calls. */
  lemma HandleShape(total: nat, body: seq<byte>, events: seq<RecvEvent>)
    ensures var r := Handle(total, body, events);
      && SessionInv(total, body, r.last)
      && r.effects == Prelude(total) + r.last.sent + Closing(r.outcome)
      && (r.outcome == Completed <==> r.last.remain == 0)
  {
    assert SessionInv(total, body, Initial(total, body));
    LoopInv(total, body, Initial(total, body), events);
  }

  /** A transfer has no more marks than writes, and no chunk is larger than the buffer. */
  lemma {:induction false} TransferCounts(t: seq<Effect>)
    requires Transfer(t)
    ensures Marks(t) <= Writes(t)
    ensures |Written(t)| <= BufSize * Writes(t)
    decreases |t|
  {
    if t != [] {
      var k := |t| - 1;
      assert t[..k] + [t[k]] == t;
      assert TransferAt(t, k);
      assert Transfer(t[..k]) by {
        forall i | 0 <= i < k ensures TransferAt(t[..k], i) {
          assert TransferAt(t, i);
        }
      }
      CountsAppend(t[..k], t[k]);
      if GoodChunk(t[k]) {
        TransferCounts(t[..k]);
        assert BufSize * Writes(t) == BufSize * Writes(t[..k]) + BufSize;
      } else {
        var j := k - 1;
        assert t[..j] + [t[j]] == t[..k];
        assert Transfer(t[..j]) by {
          forall i | 0 <= i < j ensures TransferAt(t[..j], i) {
            assert TransferAt(t, i);
          }
        }
        CountsAppend(t[..j], t[j]);
        TransferCounts(t[..j]);
        assert GoodChunk(t[j]) && t[j] != Send(Mark);
        assert Writes(t) == Writes(t[..j]) + 1;
        assert BufSize * Writes(t) == BufSize * Writes(t[..j]) + BufSize;
      }
    }
  }

  // ---------------------------------------------------------------------------------
  // Properties of the handler.

  /**
    * Before anything is read the handler sets the type, sends the banner, the scale, the
    * ruler and one mark, and begins the OTA write; between that and its closing calls it
    * only writes chunks and draws marks.
    */
  lemma TraceLayout(total: nat, body: seq<byte>, events: seq<RecvEvent>)
    ensures var r := Handle(total, body, events);
      && r.effects == Prelude(total) + r.last.sent + Closing(r.outcome)
      && forall i :: 0 <= i < |r.last.sent| ==> GoodChunk(r.last.sent[i]) || r.last.sent[i] == Send(Mark)
  {
    HandleShape(total, body, events);
    var t := Handle(total, body, events).last.sent;
    forall i | 0 <= i < |t| ensures GoodChunk(t[i]) || t[i] == Send(Mark) {
      assert TransferAt(t, i);
    }
  }

  /**
    * On success the chunks given to `esp_ota_write` are, in order, exactly the first
    * `total` bytes the client sent, and the trace then ends the image, sets the boot
    * partition, sends the completion text, ends the response and spawns the restart task.
    */
  lemma CompletedWritesWholeImage(total: nat, body: seq<byte>, events: seq<RecvEvent>)
    requires Handle(total, body, events).outcome == Completed
    ensures var r := Handle(total, body, events);
      && total <= |body|
      && Written(r.last.sent) == body[..total]
      && r.effects == Prelude(total) + r.last.sent + [OtaEnd, SetBootPartition, Send(CompleteText), EndResponse, SpawnRestart]
  {
    HandleShape(total, body, events);
    var t := Handle(total, body, events).last.sent;
    assert |Written(t)| == total;
    assert body[..total] == Written(t);
  }

  /**
    * A fatal read answers 500 "Failed to receive firmware." and never finalises the image,
    * never sets the boot partition and never schedules a restart.
    */
  lemma FailedNeverActivates(total: nat, body: seq<byte>, events: seq<RecvEvent>)
    requires Handle(total, body, events).outcome == Failed
    ensures var r := Handle(total, body, events);
      && |r.effects| > 0
      && r.effects[|r.effects| - 1] == SendError(InternalServerError, FailText)
      && OtaEnd !in r.effects && SetBootPartition !in r.effects && SpawnRestart !in r.effects
  {
    TraceLayout(total, body, events);
  }

  /**
    * The image becomes the boot partition only when every declared byte has arrived, and
    * then it took at least one write per 1024 bytes.
    */
  lemma ActivationNeedsWholeImage(total: nat, body: seq<byte>, events: seq<RecvEvent>)
    requires SetBootPartition in Handle(total, body, events).effects
    ensures Handle(total, body, events).outcome == Completed
    ensures total <= |body| && total <= BufSize * Writes(Handle(total, body, events).last.sent)
  {
    TraceLayout(total, body, events);
    HandleShape(total, body, events);
    TransferCounts(Handle(total, body, events).last.sent);
  }

  /**
    * A declared length of 2^31 bytes or more turns `total_size` negative: the loop is
    * skipped, and the image is finalised and made the boot partition without a single write.
    */
  lemma OversizedLengthActivatesUnwritten(contentLen: nat, body: seq<byte>, events: seq<RecvEvent>)
    requires IntLimit <= contentLen < SizeModulus
    ensures var r := HandleRequest(contentLen, body, events);
      && r.outcome == Completed
      && r.effects == Prelude(contentLen) + Closing(Completed)
      && SetBootPartition in r.effects
      && forall e :: e in r.effects ==> !e.OtaWrite?
  {
  }

  /**
    * The progress bar: `percent` stays even and between 2 and 100, so the `uint8_t` never
    * wraps; the loop draws one mark per 2 percent, at most one per chunk and at most 49 in all.
    */
  lemma ProgressBounded(total: nat, body: seq<byte>, events: seq<RecvEvent>)
    ensures var s := Handle(total, body, events).last;
      && ValidPercent(s.percent)
      && Marks(s.sent) == (s.percent - 2) / 2 <= 49
      && Marks(s.sent) <= Writes(s.sent)
  {
    HandleShape(total, body, events);
    TransferCounts(Handle(total, body, events).last.sent);
  }

  /** With nothing declared, the loop is skipped and the image is activated at once. */
  lemma EmptyImageCompletes(body: seq<byte>, events: seq<RecvEvent>)
    ensures Handle(0, body, events).outcome == Completed
    ensures Handle(0, body, events).effects == Prelude(0) + Closing(Completed)
  {
  }

  /** The socket events without their timeouts. */
  function DropTimeouts(events: seq<RecvEvent>): (r: seq<RecvEvent>)
    ensures forall i :: 0 <= i < |r| ==> !r[i].Timeout?
    ensures |r| <= |events|
    ensures forall e :: e in r <==> e in events && !e.Timeout?
  {
    if events == [] then []
    else if events[0].Timeout? then DropTimeouts(events[1..])
    else [events[0]] + DropTimeouts(events[1..])
  }

  /** Dropping the timeouts keeps the other events in their order. */
  lemma {:induction false} DropTimeoutsAppend(a: seq<RecvEvent>, b: seq<RecvEvent>)
    ensures DropTimeouts(a + b) == DropTimeouts(a) + DropTimeouts(b)
    decreases |a|
  {
    if a != [] {
      assert (a + b)[1..] == a[1..] + b;
      DropTimeoutsAppend(a[1..], b);
    } else {
      assert a + b == b;
    }
  }

  lemma {:induction false} LoopIgnoresTimeouts(total: nat, s: Session, events: seq<RecvEvent>)
    requires ValidPercent(s.percent)
    ensures Loop(total, s, events) == Loop(total, s, DropTimeouts(events))
    decreases |events|
  {
    if s.remain > 0 && events != [] {
      var d := DropTimeouts(events);
      if events[0].Timeout? {
        LoopIgnoresTimeouts(total, s, events[1..]);
      } else {
        assert d[0] == events[0] && d[1..] == DropTimeouts(events[1..]);
        match Step(total, s, events[0])
        case Abort =>
        case Continue(next) =>
          LoopIgnoresTimeouts(total, next, events[1..]);
      }
    }
  }

  /**
    * A read that times out changes nothing: the handler behaves exactly as if the
    * timeout had never happened, and retries the same read.
    */
  lemma TimeoutsChangeNothing(total: nat, body: seq<byte>, events: seq<RecvEvent>)
    ensures Handle(total, body, events) == Handle(total, body, DropTimeouts(events))
  {
    LoopIgnoresTimeouts(total, Initial(total, body), events);
  }

  /**
    * A 2048-byte image delivered in full reads is written in exactly two 1024-byte
    * chunks; each crosses a progress threshold, so each is followed by one mark.
    */
  lemma TwoKilobyteImage(body: seq<byte>)
    requires |body| == 2048
    ensures var r := Handle(2048, body, [Arrived(4096), Arrived(4096)]);
      && r.outcome == Completed
      && r.effects == Prelude(2048) + [OtaWrite(body[..1024]), Send(Mark), OtaWrite(body[1024..]), Send(Mark)]
                      + Closing(Completed)
  {
    var s0 := Initial(2048, body);
    var s1 := Step(2048, s0, Arrived(4096)).next;
    assert Threshold(2048, 2) == 2007;
    assert s1 == Session(1024, 4, body[1024..], [OtaWrite(body[..1024]), Send(Mark)]);
    var s2 := Step(2048, s1, Arrived(4096)).next;
    assert Threshold(2048, 4) == 1966;
    assert body[1024..][..1024] == body[1024..];
    assert s2 == Session(0, 6, body[1024..][1024..], [OtaWrite(body[..1024]), Send(Mark), OtaWrite(body[1024..]), Send(Mark)]);
  }

  // ---------------------------------------------------------------------------------
  // The rollback check in `http_ota_handler_install`.

  /** `esp_ota_img_states_t`. */
  datatype ImgState = New | PendingVerify | Valid | Invalid | Aborted | Undefined

  /** Whether the handler cancels the rollback, and the running image's state afterwards. */
  datatype RollbackCheck = RollbackCheck(markValid: bool, state: ImgState)

  /**
    * With rollback support compiled in, a running image whose state can be read and is
    * `PendingVerify` is marked valid; every other image is left as it is.
    */
  function InstallRollbackCheck(rollbackEnabled: bool, queryOk: bool, state: ImgState): (r: RollbackCheck)
    ensures r.markValid <==> rollbackEnabled && queryOk && state == PendingVerify
    ensures r.state == (if r.markValid then Valid else state)
  {
    if rollbackEnabled && queryOk && state == PendingVerify then RollbackCheck(true, Valid)
    else RollbackCheck(false, state)
  }

  /** Running the check a second time changes nothing more. */
  lemma RollbackCheckIdempotent(rollbackEnabled: bool, queryOk: bool, state: ImgState)
    ensures var once := InstallRollbackCheck(rollbackEnabled, queryOk, state);
      InstallRollbackCheck(rollbackEnabled, queryOk, once.state).state == once.state
    ensures rollbackEnabled && queryOk ==> InstallRollbackCheck(rollbackEnabled, queryOk, state).state != PendingVerify
  {
  }
}
