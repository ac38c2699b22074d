// The in-process service-frame stream and the framed exchange over it
// (crates/broadwebd/src/service_frame.rs). The JSON form of requests and responses, and the
// handler's answers, are parameters; an answer may depend on what was dispatched before.
module ServiceStream {
  import opened Text
  import opened Framing

  /** How a value is written out, chunk by chunk, and read back. */
  datatype Json<!M> = Json(chunks: M -> seq<Bytes>, decode: Bytes -> Option<M>) {
    function Bytes(m: M): Framing.Bytes {
      Flat(chunks(m))
    }
  }

  /** Reading back what was written gives the value. */
  ghost predicate Inverse<M(!new)>(json: Json<M>) {
    forall m: M :: json.decode(json.Bytes(m)) == Some(m)
  }

  datatype Service<!Req, !Resp> = Service(
    limit: nat,
    requests: Json<Req>,
    responses: Json<Resp>,
    answer: (seq<Req>, Req) -> Result<Resp, FrameError>)

  // ---------- the stream as a state machine ----------

  /** `log` lists the requests dispatched so far. */
  datatype State<Req> = State(request: Bytes, response: Bytes, position: nat, ready: bool, log: seq<Req>)

  datatype Op = Write(buffer: Bytes) | Flush | Read(room: nat)

  datatype Outcome = Wrote(count: nat) | Flushed | Got(bytes: Bytes) | Failed

  function Fresh<Req>(log: seq<Req>): State<Req> {
    State([], [], 0, false, log)
  }

  /** The first framed request among the bytes written, if it can be read and decoded. */
  function FirstRequest<Req, Resp>(c: Service<Req, Resp>, written: Bytes): Option<Req> {
    match ReadFrame(written, c.limit)
    case Frame(frame, _) => c.requests.decode(frame)
    case _ => None
  }

  /** Read the request, dispatch it, and frame the reply; a failure on the way leaves the stream unready. */
  function Prepare<Req, Resp>(c: Service<Req, Resp>, s: State<Req>): State<Req> {
    if s.ready then s
    else match FirstRequest(c, s.request)
      case None => s
      case Some(request) =>
        var dispatched := s.(log := s.log + [request]);
        match c.answer(s.log, request)
        case Err(_) => dispatched
        case Ok(reply) =>
          var frame := c.responses.Bytes(reply);
          if !Fits(frame, c.limit) then dispatched
          else dispatched.(response := Framed(frame), position := 0, ready := true)
  }

  function Min(a: nat, b: nat): nat {
    if a <= b then a else b
  }

  function Step<Req, Resp>(c: Service<Req, Resp>, s: State<Req>, op: Op): (State<Req>, Outcome) {
    match op
    case Write(buffer) =>
      if s.ready then (s, Failed) else (s.(request := s.request + buffer), Wrote(|buffer|))
    case Flush =>
      var t := Prepare(c, s);
      (t, if t.ready then Flushed else Failed)
    case Read(room) =>
      var t := Prepare(c, s);
      if !t.ready then (t, Failed)
      else
        var start := Min(t.position, |t.response|);
        var n := Min(room, |t.response| - start);
        (t.(position := t.position + n), Got(t.response[start..start + n]))
  }

  function Run<Req, Resp>(c: Service<Req, Resp>, s: State<Req>, ops: seq<Op>): State<Req>
    decreases |ops|
  {
    if ops == [] then s else Run(c, Step(c, s, ops[0]).0, ops[1..])
  }

  /** Everything read over a run, in order. */
  function Delivered<Req, Resp>(c: Service<Req, Resp>, s: State<Req>, ops: seq<Op>): Bytes
    decreases |ops|
  {
    if ops == [] then []
    else
      var (t, outcome) := Step(c, s, ops[0]);
      Taken(outcome) + Delivered(c, t, ops[1..])
  }

  function Taken(outcome: Outcome): Bytes {
    match outcome
    case Got(bytes) => bytes
    case _ => []
  }

  /** The bytes of the writes a run accepted. */
  function Accepted<Req, Resp>(c: Service<Req, Resp>, s: State<Req>, ops: seq<Op>): Bytes
    decreases |ops|
  {
    if ops == [] then []
    else
      var (t, outcome) := Step(c, s, ops[0]);
      (match ops[0] case Write(buffer) => (if outcome.Wrote? then buffer else []) case _ => [])
      + Accepted(c, t, ops[1..])
  }

  // ---------- what every run keeps ----------

  /** The reply this state's response bytes frame: the answer to the last dispatch, which was the first request written. */
  predicate IsReply<Req(==), Resp>(c: Service<Req, Resp>, s: State<Req>) {
    && s.log != []
    && FirstRequest(c, s.request) == Some(s.log[|s.log| - 1])
    && var answer := c.answer(s.log[..|s.log| - 1], s.log[|s.log| - 1]);
       && answer.Ok?
       && Fits(c.responses.Bytes(answer.value), c.limit)
       && s.response == Framed(c.responses.Bytes(answer.value))
  }

  /** Everything dispatched since the stream was made is the first request written. */
  predicate OneRequest<Req(==), Resp>(c: Service<Req, Resp>, before: seq<Req>, s: State<Req>) {
    && before <= s.log
    && forall i :: |before| <= i < |s.log| ==> FirstRequest(c, s.request) == Some(s.log[i])
  }

  predicate Inv<Req(==), Resp>(c: Service<Req, Resp>, before: seq<Req>, s: State<Req>) {
    && OneRequest(c, before, s)
    && s.position <= |s.response|
    && (s.ready ==> IsReply(c, s) && |before| < |s.log|)
    && (!s.ready ==> s.response == [] && s.position == 0)
  }

  lemma FirstRequestStable<Req, Resp>(c: Service<Req, Resp>, written: Bytes, more: Bytes)
    requires FirstRequest(c, written).Some?
    ensures FirstRequest(c, written + more) == FirstRequest(c, written)
  {
    ReadStable(written, more, c.limit);
  }

  lemma PrepareKeeps<Req, Resp>(c: Service<Req, Resp>, before: seq<Req>, s: State<Req>)
    requires Inv(c, before, s)
    ensures Inv(c, before, Prepare(c, s)) && Prepare(c, s).request == s.request
  {
    var t := Prepare(c, s);
    if !s.ready && FirstRequest(c, s.request).Some? {
      assert t.log[..|t.log| - 1] == s.log;
    }
  }

  lemma StepKeeps<Req, Resp>(c: Service<Req, Resp>, before: seq<Req>, s: State<Req>, op: Op)
    requires Inv(c, before, s)
    ensures Inv(c, before, Step(c, s, op).0)
  {
    match op
    case Write(buffer) =>
      if !s.ready && |before| < |s.log| {
        assert FirstRequest(c, s.request) == Some(s.log[|before|]);
        FirstRequestStable(c, s.request, buffer);
      }
    case _ => PrepareKeeps(c, before, s);
  }

  /** From a fresh stream, every run keeps the invariant. */
  lemma {:induction false} RunKeeps<Req, Resp>(c: Service<Req, Resp>, before: seq<Req>, s: State<Req>, ops: seq<Op>)
    requires Inv(c, before, s)
    ensures Inv(c, before, Run(c, s, ops))
    decreases |ops|
  {
    if ops != [] {
      StepKeeps(c, before, s, ops[0]);
      RunKeeps(c, before, Step(c, s, ops[0]).0, ops[1..]);
    }
  }

  /** Once ready, nothing but the read position ever changes: no write is taken, nothing is dispatched again. */
  lemma {:induction false} ReadyIsFinal<Req, Resp>(c: Service<Req, Resp>, s: State<Req>, ops: seq<Op>)
    requires s.ready
    ensures Run(c, s, ops) == s.(position := Run(c, s, ops).position)
    ensures Accepted(c, s, ops) == []
    decreases |ops|
  {
    if ops != [] {
      ReadyIsFinal(c, Step(c, s, ops[0]).0, ops[1..]);
    }
  }

  lemma {:induction false} RequestIsAccepted<Req, Resp>(c: Service<Req, Resp>, s: State<Req>, ops: seq<Op>)
    ensures Run(c, s, ops).request == s.request + Accepted(c, s, ops)
    decreases |ops|
  {
    if ops != [] {
      var t := Step(c, s, ops[0]).0;
      RequestIsAccepted(c, t, ops[1..]);
    }
  }

  /** Preparing the reply delivers nothing by itself. */
  lemma PrepareDelivers<Req, Resp>(c: Service<Req, Resp>, before: seq<Req>, s: State<Req>)
    requires Inv(c, before, s)
    ensures var t := Prepare(c, s);
            t.position <= |t.response| && t.response[..t.position] == s.response[..s.position]
  {
    PrepareKeeps(c, before, s);
  }

  lemma TakeMore(bytes: Bytes, position: nat, n: nat)
    requires position + n <= |bytes|
    ensures bytes[..position + n] == bytes[..position] + bytes[position..position + n]
  {
  }

  lemma StepDelivers<Req, Resp>(c: Service<Req, Resp>, before: seq<Req>, s: State<Req>, op: Op)
    requires Inv(c, before, s)
    ensures var (t, outcome) := Step(c, s, op);
            && t.position <= |t.response|
            && t.response[..t.position] == s.response[..s.position] + Taken(outcome)
  {
    var front := s.response[..s.position];
    assert front + [] == front;
    if !op.Write? {
      PrepareDelivers(c, before, s);
      var t := Prepare(c, s);
      if op.Read? && t.ready {
        TakeMore(t.response, t.position, Min(op.room, |t.response| - t.position));
      }
    }
  }

  /** What has been read so far is the front of the response, up to the position. */
  lemma {:induction false} DeliveredIsPrefix<Req, Resp>(c: Service<Req, Resp>, before: seq<Req>, s: State<Req>, ops: seq<Op>)
    requires Inv(c, before, s)
    ensures var t := Run(c, s, ops);
            t.position <= |t.response| && s.response[..s.position] + Delivered(c, s, ops) == t.response[..t.position]
    decreases |ops|
  {
    if ops == [] {
      assert s.response[..s.position] + [] == s.response[..s.position];
    } else {
      var (t, outcome) := Step(c, s, ops[0]);
      StepKeeps(c, before, s, ops[0]);
      StepDelivers(c, before, s, ops[0]);
      DeliveredIsPrefix(c, before, t, ops[1..]);
      AppendAssociative(s.response[..s.position], Taken(outcome), Delivered(c, t, ops[1..]));
    }
  }

  lemma DeliveredFromFresh<Req, Resp>(c: Service<Req, Resp>, before: seq<Req>, ops: seq<Op>)
    ensures var s := Run(c, Fresh(before), ops);
            s.position <= |s.response| && Delivered(c, Fresh(before), ops) == s.response[..s.position]
  {
    DeliveredIsPrefix(c, before, Fresh(before), ops);
    var delivered := Delivered(c, Fresh(before), ops);
    assert [] + delivered == delivered;
  }

  /** What is delivered is the front of the response, and nothing is before it is ready. */
  predicate IsDelivered<Req(==)>(s: State<Req>, delivered: Bytes) {
    delivered <= s.response && (delivered != [] ==> s.ready)
  }

  lemma DeliveredIsFront<Req, Resp>(c: Service<Req, Resp>, before: seq<Req>, ops: seq<Op>)
    ensures IsDelivered(Run(c, Fresh(before), ops), Delivered(c, Fresh(before), ops))
  {
    RunKeeps(c, before, Fresh(before), ops);
    DeliveredFromFresh(c, before, ops);
  }

  lemma AcceptedFromFresh<Req, Resp>(c: Service<Req, Resp>, before: seq<Req>, ops: seq<Op>)
    ensures Run(c, Fresh(before), ops).request == Accepted(c, Fresh(before), ops)
  {
    RequestIsAccepted(c, Fresh(before), ops);
    var accepted := Accepted(c, Fresh(before), ops);
    assert [] + accepted == accepted;
  }

  /**
   * Any interleaving of writes, flushes and reads on a fresh stream: the bytes read are the front
   * of one framed reply, the handler's answer to the first framed request among the bytes written,
   * and that request is the only one ever dispatched.
   */
  lemma AnyInterleaving<Req, Resp>(c: Service<Req, Resp>, before: seq<Req>, ops: seq<Op>)
    ensures var s := Run(c, Fresh(before), ops);
            && s.request == Accepted(c, Fresh(before), ops)
            && OneRequest(c, before, s)
            && IsDelivered(s, Delivered(c, Fresh(before), ops))
            && (s.ready ==> IsReply(c, s))
  {
    RunKeeps(c, before, Fresh(before), ops);
    AcceptedFromFresh(c, before, ops);
    DeliveredIsFront(c, before, ops);
  }

  lemma {:induction false} RunAppend<Req, Resp>(c: Service<Req, Resp>, s: State<Req>, a: seq<Op>, b: seq<Op>)
    ensures Run(c, s, a + b) == Run(c, Run(c, s, a), b)
    decreases |a|
  {
    if a == [] {
      assert a + b == b;
    } else {
      assert (a + b)[0] == a[0] && (a + b)[1..] == a[1..] + b;
      RunAppend(c, Step(c, s, a[0]).0, a[1..], b);
    }
  }

  /** Once some prefix of a run made the response ready, the rest of it dispatches and changes nothing. */
  lemma NothingAfterReady<Req, Resp>(c: Service<Req, Resp>, before: seq<Req>, earlier: seq<Op>, later: seq<Op>)
    requires Run(c, Fresh(before), earlier).ready
    ensures var s, t := Run(c, Fresh(before), earlier), Run(c, Fresh(before), earlier + later);
            t.request == s.request && t.response == s.response && t.log == s.log && t.ready
  {
    RunAppend(c, Fresh(before), earlier, later);
    ReadyIsFinal(c, Run(c, Fresh(before), earlier), later);
  }

  /**
   * Once a request has been dispatched, a further flush or read dispatches it again exactly when
   * its reply never became ready. So "at most one dispatch" is not a law of the stream.
   */
  lemma DispatchesAgainIff<Req, Resp>(c: Service<Req, Resp>, before: seq<Req>, s: State<Req>, op: Op)
    requires Inv(c, before, s) && |before| < |s.log| && !op.Write?
    ensures Step(c, s, op).0.log == if s.ready then s.log else s.log + [s.log[|s.log| - 1]]
  {
    assert FirstRequest(c, s.request) == Some(s.log[|s.log| - 1]);
  }

  lemma RunOne<Req, Resp>(c: Service<Req, Resp>, s: State<Req>, op: Op, ops: seq<Op>)
    ensures Run(c, s, [op] + ops) == Run(c, Step(c, s, op).0, ops)
  {
    assert ([op] + ops)[1..] == ops;
  }

  /** What a direct call to the handler, with the reply in bounds, amounts to. */
  function DirectCall<Req, Resp>(c: Service<Req, Resp>, log: seq<Req>, request: Req): Result<Resp, FrameError> {
    match c.answer(log, request)
    case Err(_) => Err(Io)
    case Ok(reply) => if Fits(c.responses.Bytes(reply), c.limit) then Ok(reply) else Err(Io)
  }

  /** Preparing dispatches the first request, and becomes ready exactly when the direct call succeeds. */
  lemma PrepareDispatches<Req, Resp>(c: Service<Req, Resp>, s: State<Req>)
    requires !s.ready
    ensures match FirstRequest(c, s.request)
            case None => Prepare(c, s) == s
            case Some(request) =>
              Prepare(c, s).log == s.log + [request] && (Prepare(c, s).ready <==> DirectCall(c, s.log, request).Ok?)
  {
  }

  /** Whatever the cause, a request whose direct call fails is dispatched by both of two flushes. */
  lemma FailedReplyDispatchesTwice<Req, Resp>(c: Service<Req, Resp>, before: seq<Req>, frame: Bytes, request: Req)
    requires Fits(frame, c.limit) && c.requests.decode(frame) == Some(request)
    requires DirectCall(c, before, request).Err?
    ensures Run(c, Fresh(before), [Write(Framed(frame))] + ([Flush] + ([Flush] + []))).log == before + [request] + [request]
  {
    var framed := Framed(frame);
    FirstOfOne(c, frame);
    var written := Step(c, Fresh(before), Write(framed)).0;
    var failed := Step(c, written, Flush).0;
    RunOne(c, Fresh(before), Write(framed), [Flush] + ([Flush] + []));
    RunOne(c, written, Flush, [Flush] + []);
    RunOne(c, failed, Flush, []);
    PrepareDispatches(c, written);
    PrepareDispatches(c, failed);
    assert failed.request == written.request;
  }

  lemma FirstOfOne<Req, Resp>(c: Service<Req, Resp>, frame: Bytes)
    requires Fits(frame, c.limit)
    ensures FirstRequest(c, [] + Framed(frame)) == c.requests.decode(frame)
  {
    ReadFramed(frame, [], c.limit);
    assert [] + Framed(frame) == Framed(frame) + [];
  }

  ghost predicate IsReadable<Req, Resp>(c: Service<Req, Resp>, request: Req) {
    exists frame :: Fits(frame, c.limit) && c.requests.decode(frame) == Some(request)
  }

  /** Every request that can be read at all is answered, and the answer fits a frame. */
  ghost predicate AlwaysReplies<Req(!new), Resp>(c: Service<Req, Resp>, before: seq<Req>) {
    forall request: Req :: IsReadable(c, request) ==> DirectCall(c, before, request).Ok?
  }

  ghost predicate AtMostOnce<Req(!new), Resp>(c: Service<Req, Resp>, before: seq<Req>) {
    forall ops: seq<Op> :: |Run(c, Fresh(before), ops).log| <= |before| + 1
  }

  /** Either nothing was dispatched yet, or one request was and its reply is ready. */
  predicate OnceReady<Req(==)>(before: seq<Req>, s: State<Req>) {
    if s.ready then |s.log| == |before| + 1 else s.log == before
  }

  lemma PrepareOnce<Req(!new), Resp>(c: Service<Req, Resp>, before: seq<Req>, s: State<Req>)
    requires AlwaysReplies(c, before) && OnceReady(before, s)
    ensures OnceReady(before, Prepare(c, s))
  {
    if !s.ready {
      PrepareDispatches(c, s);
      if FirstRequest(c, s.request).Some? {
        ReadOnlyFramed(s.request, c.limit);
        assert IsReadable(c, FirstRequest(c, s.request).value);
      }
    }
  }

  lemma {:induction false} RunOnce<Req(!new), Resp>(c: Service<Req, Resp>, before: seq<Req>, s: State<Req>, ops: seq<Op>)
    requires AlwaysReplies(c, before) && OnceReady(before, s)
    ensures OnceReady(before, Run(c, s, ops))
    decreases |ops|
  {
    if ops != [] {
      PrepareOnce(c, before, s);
      RunOnce(c, before, Step(c, s, ops[0]).0, ops[1..]);
    }
  }

  /**
   * No interleaving dispatches more than once exactly when every request that can be read is
   * answered with a reply that fits a frame.
   */
  lemma AtMostOnceIff<Req(!new), Resp>(c: Service<Req, Resp>, before: seq<Req>)
    ensures AtMostOnce(c, before) <==> AlwaysReplies(c, before)
  {
    if AlwaysReplies(c, before) {
      forall ops: seq<Op> ensures |Run(c, Fresh(before), ops).log| <= |before| + 1 {
        RunOnce(c, before, Fresh(before), ops);
      }
    }
    if AtMostOnce(c, before) {
      forall request: Req | IsReadable(c, request) ensures DirectCall(c, before, request).Ok? {
        var frame :| Fits(frame, c.limit) && c.requests.decode(frame) == Some(request);
        if DirectCall(c, before, request).Err? {
          FailedReplyDispatchesTwice(c, before, frame, request);
        }
      }
    }
  }

  /** Reading exactly n bytes: the first read prepares the reply, and asking for none reads nothing. */
  function ExactRead<Req, Resp>(c: Service<Req, Resp>, s: State<Req>, n: nat): (r: (State<Req>, Result<Bytes, FrameError>))
    ensures r.1.Ok? ==> |r.1.value| == n
  {
    var t := Prepare(c, s);
    if n == 0 then (s, Ok([]))
    else if !t.ready then (t, Err(Io))
    else if t.position + n <= |t.response| then
      (t.(position := t.position + n), Ok(t.response[t.position..t.position + n]))
    else (t.(position := |t.response|), Err(Io))
  }

  /** These bytes of the reply have been read since the start. */
  predicate IsReading<Req(==), Resp>(c: Service<Req, Resp>, start: State<Req>, s: State<Req>, got: Bytes) {
    if got == [] then s == start
    else
      var t := Prepare(c, start);
      && t.ready && s == t.(position := t.position + |got|)
      && t.position + |got| <= |t.response| && got == t.response[t.position..t.position + |got|]
  }

  lemma PreparedReading<Req, Resp>(c: Service<Req, Resp>, start: State<Req>, s: State<Req>, got: Bytes)
    requires IsReading(c, start, s, got) && start.position <= |start.response|
    ensures var t := Prepare(c, start);
            Prepare(c, s) == t.(position := t.position + |got|) && t.position + |got| <= |t.response|
  {
  }

  lemma SliceMore(bytes: Bytes, from: nat, mid: nat, to: nat)
    requires from <= mid <= to <= |bytes|
    ensures bytes[from..mid] + bytes[mid..to] == bytes[from..to]
  {
  }

  /** A read of an already prepared stream. */
  lemma PreparedRead<Req, Resp>(c: Service<Req, Resp>, s: State<Req>, u: State<Req>, room: nat)
    requires u == Prepare(c, s) && u.position <= |u.response|
    ensures var n := Min(room, |u.response| - u.position);
            Step(c, s, Op.Read(room)) ==
            if u.ready then (u.(position := u.position + n), Got(u.response[u.position..u.position + n])) else (u, Failed)
  {
  }

  /** The next read, in terms of the prepared reply. */
  lemma ReadingRead<Req, Resp>(c: Service<Req, Resp>, start: State<Req>, s: State<Req>, got: Bytes, room: nat)
    requires IsReading(c, start, s, got) && start.position <= |start.response|
    ensures var t := Prepare(c, start);
            && t.position + |got| <= |t.response|
            && var k := Min(room, |t.response| - t.position - |got|);
               Step(c, s, Op.Read(room)) ==
               if t.ready then
                 (t.(position := t.position + |got| + k), Got(t.response[t.position + |got|..t.position + |got| + k]))
               else (t.(position := t.position + |got|), Failed)
  {
    PreparedReading(c, start, s, got);
    PreparedRead(c, s, Prepare(c, s), room);
  }

  lemma ReadingStops<Req, Resp>(c: Service<Req, Resp>, start: State<Req>, s: State<Req>, got: Bytes, n: nat)
    requires IsReading(c, start, s, got) && |got| < n && start.position <= |start.response|
    ensures var (next, outcome) := Step(c, s, Op.Read(n - |got|));
            outcome.Failed? || outcome == Got([]) ==> ExactRead(c, start, n) == (next, Err(Io))
  {
    ReadingRead(c, start, s, got, n - |got|);
  }

  lemma GrownReading<Req, Resp>(c: Service<Req, Resp>, start: State<Req>, t: State<Req>, got: Bytes, k: nat)
    requires t == Prepare(c, start) && t.ready && k > 0
    requires t.position + |got| + k <= |t.response| && got == t.response[t.position..t.position + |got|]
    ensures IsReading(c, start, t.(position := t.position + |got| + k),
              got + t.response[t.position + |got|..t.position + |got| + k])
  {
    SliceMore(t.response, t.position, t.position + |got|, t.position + |got| + k);
  }

  lemma ReadBytes<Req, Resp>(c: Service<Req, Resp>, start: State<Req>, s: State<Req>, got: Bytes)
    requires IsReading(c, start, s, got) && Prepare(c, start).position <= |Prepare(c, start).response|
    ensures var t := Prepare(c, start);
            t.position + |got| <= |t.response| && got == t.response[t.position..t.position + |got|]
  {
  }

  /** What a loop step does with a read of the prepared reply t. */
  ghost predicate Progress<Req, Resp>(c: Service<Req, Resp>, start: State<Req>, got: Bytes, n: nat, next: State<Req>, outcome: Outcome) {
    outcome.Got? && outcome.bytes != [] ==> |got + outcome.bytes| <= n && IsReading(c, start, next, got + outcome.bytes)
  }

  lemma ProgressBy<Req, Resp>(c: Service<Req, Resp>, start: State<Req>, t: State<Req>, got: Bytes, n: nat, next: State<Req>, outcome: Outcome)
    requires t == Prepare(c, start) && |got| < n
    requires t.position + |got| <= |t.response| && got == t.response[t.position..t.position + |got|]
    requires var k := Min(n - |got|, |t.response| - t.position - |got|);
             if t.ready then
               && next == t.(position := t.position + |got| + k)
               && outcome == Got(t.response[t.position + |got|..t.position + |got| + k])
             else outcome == Failed
    ensures Progress(c, start, got, n, next, outcome)
  {
    var k := Min(n - |got|, |t.response| - t.position - |got|);
    if t.ready && k > 0 {
      GrownReading(c, start, t, got, k);
    }
  }

  lemma ReadingGoes<Req, Resp>(
    c: Service<Req, Resp>, start: State<Req>, s: State<Req>, got: Bytes, n: nat, next: State<Req>, outcome: Outcome)
    requires IsReading(c, start, s, got) && |got| < n && start.position <= |start.response|
    requires (next, outcome) == Step(c, s, Op.Read(n - |got|))
    ensures Progress(c, start, got, n, next, outcome)
  {
    PreparedInBounds(c, start);
    ReadingRead(c, start, s, got, n - |got|);
    ReadBytes(c, start, s, got);
    ProgressBy(c, start, Prepare(c, start), got, n, next, outcome);
  }

  lemma ReadingStep<Req, Resp>(
    c: Service<Req, Resp>, start: State<Req>, s: State<Req>, got: Bytes, n: nat, next: State<Req>, outcome: Outcome)
    requires IsReading(c, start, s, got) && |got| < n && start.position <= |start.response|
    requires (next, outcome) == Step(c, s, Op.Read(n - |got|))
    ensures outcome.Failed? || outcome == Got([]) ==> ExactRead(c, start, n) == (next, Err(Io))
    ensures Progress(c, start, got, n, next, outcome)
  {
    ReadingStops(c, start, s, got, n);
    ReadingGoes(c, start, s, got, n, next, outcome);
  }

  lemma ReadingDone<Req, Resp>(c: Service<Req, Resp>, start: State<Req>, s: State<Req>, got: Bytes)
    requires IsReading(c, start, s, got)
    ensures ExactRead(c, start, |got|) == (s, Ok(got))
  {
  }

  /** Reading a frame: its length, then as many bytes. */
  function FrameRead<Req, Resp>(c: Service<Req, Resp>, s: State<Req>, limit: nat): (State<Req>, Result<Bytes, FrameError>) {
    var (next, header) := ExactRead(c, s, 4);
    if header.Err? then (next, header)
    else
      var n := FromBe32(header.value);
      if n > limit then (next, Err(FrameTooLarge(limit, n))) else ExactRead(c, next, n)
  }

  /** What the reads of a frame return, of a prepared reply with these unread bytes. */
  lemma FrameOfUnread(unread: Bytes, limit: nat)
    ensures |unread| < 4 ==> ReadFrame(unread, limit) == UnexpectedEof
    ensures |unread| >= 4 ==>
              var n := FromBe32(unread[..4]);
              ReadFrame(unread, limit) ==
              if n > limit then TooLarge(n, unread[4..])
              else if |unread| < 4 + n then UnexpectedEof
              else Frame(unread[4..4 + n], unread[4 + n..])
  {
  }

  lemma PreparedInBounds<Req, Resp>(c: Service<Req, Resp>, s: State<Req>)
    requires s.position <= |s.response|
    ensures Prepare(c, s).position <= |Prepare(c, s).response|
  {
  }

  lemma ExactReadReady<Req, Resp>(c: Service<Req, Resp>, s: State<Req>, n: nat)
    requires s.ready && s.position <= |s.response|
    ensures ExactRead(c, s, n) ==
            if s.position + n <= |s.response|
            then (s.(position := s.position + n), Ok(s.response[s.position..s.position + n]))
            else (s.(position := |s.response|), Err(Io))
  {
    assert s.response[s.position..s.position] == [];
  }

  lemma SliceOfTail(bytes: Bytes, from: nat, i: nat, j: nat)
    requires from + j <= |bytes| && i <= j
    ensures bytes[from..][i..j] == bytes[from + i..from + j]
  {
  }

  lemma FrameReadOf<Req, Resp>(c: Service<Req, Resp>, s: State<Req>, t: State<Req>, limit: nat)
    requires t == Prepare(c, s) && t.ready && t.position <= |t.response|
    ensures var (next, r) := FrameRead(c, s, limit);
            && next == t.(position := next.position)
            && var unread := t.response[t.position..];
               if |unread| < 4 then r == Err(Io)
               else
                 var n := FromBe32(unread[..4]);
                 r == if n > limit then Err(FrameTooLarge(limit, n))
                      else if |unread| < 4 + n then Err(Io)
                      else Ok(unread[4..4 + n])
  {
    var unread := t.response[t.position..];
    if |unread| >= 4 {
      SliceOfTail(t.response, t.position, 0, 4);
      var header := unread[..4];
      assert header == unread[0..4];
      var n, after := FromBe32(header), t.(position := t.position + 4);
      assert ExactRead(c, s, 4) == (after, Ok(header));
      ExactReadReady(c, after, n);
      if n <= limit {
        assert FrameRead(c, s, limit) == ExactRead(c, after, n);
        if 4 + n <= |unread| {
          SliceOfTail(t.response, t.position, 4, 4 + n);
        }
      }
    }
  }

  /** Reading a frame is reading it off the unread part of the prepared reply. */
  lemma FrameReadMeaning<Req, Resp>(c: Service<Req, Resp>, s: State<Req>, limit: nat)
    requires s.position <= |s.response|
    ensures var t := Prepare(c, s);
            && t.position <= |t.response|
            && if !t.ready then FrameRead(c, s, limit) == (t, Err(Io))
               else
                 var (next, r) := FrameRead(c, s, limit);
                 && next == t.(position := next.position)
                 && match ReadFrame(t.response[t.position..], limit)
                    case Frame(frame, _) => r == Ok(frame)
                    case TooLarge(actual, _) => r == Err(FrameTooLarge(limit, actual))
                    case UnexpectedEof => r == Err(Io)
  {
    var t := Prepare(c, s);
    PreparedInBounds(c, s);
    if t.ready {
      FrameReadOf(c, s, t, limit);
      FrameOfUnread(t.response[t.position..], limit);
    }
  }

  // ---------- the stream object ----------

  /** The service behind a stream; `log` lists what it was asked. */
  class Handler<Req, Resp> {
    const answer: (seq<Req>, Req) -> Result<Resp, FrameError>
    var log: seq<Req>

    constructor (answer: (seq<Req>, Req) -> Result<Resp, FrameError>)
      ensures this.answer == answer && log == []
    {
      this.answer, log := answer, [];
    }

    method Dispatch(request: Req) returns (r: Result<Resp, FrameError>)
      modifies this
      ensures log == old(log) + [request]
      ensures r == answer(old(log), request)
    {
      r := answer(log, request);
      log := log + [request];
    }
  }

  method EncodeJsonFrame<M>(json: Json<M>, value: M, limit: nat) returns (r: Result<Bytes, FrameError>)
    ensures var frame := json.Bytes(value);
            if |frame| <= limit then r == Ok(frame)
            else r.Err? && r.error.FrameTooLarge? && r.error.limit == limit && limit < r.error.actual <= |frame|
  {
    r := EncodeFrame(json.chunks(value), true, limit);
  }

  class InProcessStream<Req, Resp> {
    const handler: Handler<Req, Resp>
    const service: Service<Req, Resp>
    var requestBytes: Bytes
    var responseBytes: Bytes
    var position: nat
    var responseReady: bool

    ghost predicate Valid()
      reads this
    {
      service.answer == handler.answer && position <= |responseBytes|
    }

    ghost function Now(): State<Req>
      reads this, handler
    {
      State(requestBytes, responseBytes, position, responseReady, handler.log)
    }

    constructor (handler: Handler<Req, Resp>, service: Service<Req, Resp>)
      requires service.answer == handler.answer
      ensures Valid() && this.handler == handler && this.service == service
      ensures Now() == Fresh(handler.log)
    {
      this.handler, this.service := handler, service;
      requestBytes, responseBytes, position, responseReady := [], [], 0, false;
    }

    method PrepareResponse() returns (ok: bool)
      requires Valid()
      modifies this, handler
      ensures Valid()
      ensures Now() == Prepare(service, old(Now())) && ok == Now().ready
    {
      if responseReady {
        return true;
      }
      var reader := new Reader(requestBytes);
      var frame := reader.ReadLenPrefixedFrame(service.limit);
      if frame.Err? {
        return false;
      }
      var request := service.requests.decode(frame.value);
      if request.None? {
        return false;
      }
      var reply := handler.Dispatch(request.value);
      if reply.Err? {
        return false;
      }
      var encoded := EncodeJsonFrame(service.responses, reply.value, service.limit);
      if encoded.Err? || |encoded.value| >= U32_LIMIT {
        return false;
      }
      responseBytes, position := ToBe32(|encoded.value|) + encoded.value, 0;
      responseReady := true;
      return true;
    }

    method Read(room: nat) returns (r: Result<Bytes, FrameError>)
      requires Valid()
      modifies this, handler
      ensures Valid()
      ensures (Now(), match r case Ok(bytes) => Got(bytes) case Err(_) => Failed) == Step(service, old(Now()), Op.Read(room))
      ensures r.Err? ==> r == Err(Io)
    {
      var ok := PrepareResponse();
      if !ok {
        return Err(Io);
      }
      var start := Min(position, |responseBytes|);
      var n := Min(room, |responseBytes| - start);
      position := position + n;
      return Ok(responseBytes[start..start + n]);
    }

    method Write(buffer: Bytes) returns (r: Result<nat, FrameError>)
      requires Valid()
      modifies this
      ensures Valid()
      ensures (Now(), match r case Ok(n) => Wrote(n) case Err(_) => Failed) == Step(service, old(Now()), Op.Write(buffer))
      ensures r.Err? ==> r == Err(Io)
    {
      if responseReady {
        return Err(Io);
      }
      requestBytes := requestBytes + buffer;
      return Ok(|buffer|);
    }

    method Flush() returns (r: Result<(), FrameError>)
      requires Valid()
      modifies this, handler
      ensures Valid()
      ensures (Now(), if r.Ok? then Flushed else Failed) == Step(service, old(Now()), Op.Flush)
      ensures r == Ok(()) || r == Err(Io)
    {
      var ok := PrepareResponse();
      return if ok then Ok(()) else Err(Io);
    }

    /** The standard write-all loop. */
    method WriteAll(buffer: Bytes) returns (r: Result<(), FrameError>)
      requires Valid()
      modifies this
      ensures Valid()
      ensures if old(responseReady) && buffer != [] then r == Err(Io) && Now() == old(Now())
              else r == Ok(()) && Now() == old(Now()).(request := old(requestBytes) + buffer)
    {
      var pending := buffer;
      assert old(requestBytes) + [] == old(requestBytes);
      while pending != []
        invariant Valid() && responseReady == old(responseReady) && (pending == buffer || pending == [])
        invariant pending != [] ==> Now() == old(Now())
        invariant pending == [] ==> !(responseReady && buffer != []) && Now() == old(Now()).(request := old(requestBytes) + buffer)
        decreases |pending|
      {
        var w := Write(pending);
        if w.Err? {
          return Err(w.error);
        }
        pending := pending[w.value..];
      }
      return Ok(());
    }

    /** The standard read-exact loop: its first read prepares the reply. */
    method ReadExact(n: nat) returns (r: Result<Bytes, FrameError>)
      requires Valid()
      modifies this, handler
      ensures Valid()
      ensures (Now(), r) == ExactRead(service, old(Now()), n)
    {
      ghost var start := Now();
      var got: Bytes := [];
      while |got| < n
        invariant Valid() && |got| <= n
        invariant IsReading(service, start, Now(), got)
        decreases n - |got|
      {
        ghost var before := Now();
        var chunk := Read(n - |got|);
        ReadingStep(service, start, before, got, n, Now(), match chunk case Ok(bytes) => Got(bytes) case Err(_) => Failed);
        if chunk.Err? || chunk.value == [] {
          return Err(Io);
        }
        got := got + chunk.value;
      }
      ReadingDone(service, start, Now(), got);
      return Ok(got);
    }

    method ReadLenPrefixedFrame(limit: nat) returns (r: Result<Bytes, FrameError>)
      requires Valid()
      modifies this, handler
      ensures Valid()
      ensures (Now(), r) == FrameRead(service, old(Now()), limit)
    {
      var header := ReadExact(4);
      if header.Err? {
        return header;
      }
      var n := FromBe32(header.value);
      if n > limit {
        return Err(FrameTooLarge(limit, n));
      }
      r := ReadExact(n);
    }
  }

  /** Encode, write the frame, flush: the request side of the exchange. */
  method WriteRequest<Req, Resp>(stream: InProcessStream<Req, Resp>, request: Req) returns (r: Result<(), FrameError>)
    requires stream.Valid()
    modifies stream, stream.handler
    ensures stream.Valid()
    ensures var c, frame := stream.service, stream.service.requests.Bytes(request);
            if |frame| > c.limit then
              && stream.Now() == old(stream.Now())
              && r.Err? && r.error.FrameTooLarge? && r.error.limit == c.limit && c.limit < r.error.actual <= |frame|
            else if |frame| >= U32_LIMIT then
              stream.Now() == old(stream.Now()) && r == Err(Request)
            else if old(stream.responseReady) then
              stream.Now() == old(stream.Now()) && r == Err(Io)
            else
              && stream.Now() == Prepare(c, old(stream.Now()).(request := old(stream.requestBytes) + Framed(frame)))
              && r == if stream.responseReady then Ok(()) else Err(Io)
  {
    var encoded := EncodeJsonFrame(stream.service.requests, request, stream.service.limit);
    if encoded.Err? {
      return Err(encoded.error);
    }
    var frame := encoded.value;
    if |frame| >= U32_LIMIT {
      return Err(Request);
    }
    assert stream.requestBytes + ToBe32(|frame|) + frame == stream.requestBytes + Framed(frame);
    r := stream.WriteAll(ToBe32(|frame|));
    if r.Err? {
      return;
    }
    r := stream.WriteAll(frame);
    if r.Err? {
      return;
    }
    r := stream.Flush();
  }

  /** Read one frame and decode it: the reply side. */
  method ReadResponse<Req, Resp>(stream: InProcessStream<Req, Resp>) returns (r: Result<Resp, FrameError>)
    requires stream.Valid()
    modifies stream, stream.handler
    ensures stream.Valid()
    ensures var t := Prepare(stream.service, old(stream.Now()));
            if !t.ready then r == Err(Io) && stream.Now() == t
            else
              && stream.Now() == t.(position := stream.position)
              && match ReadFrame(t.response[t.position..], stream.service.limit)
                 case Frame(frame, _) =>
                   (match stream.service.responses.decode(frame) case Some(reply) => r == Ok(reply) case None => r == Err(Request))
                 case _ => r.Err?
  {
    FrameReadMeaning(stream.service, stream.Now(), stream.service.limit);
    var frame := stream.ReadLenPrefixedFrame(stream.service.limit);
    if frame.Err? {
      return Err(frame.error);
    }
    var decoded := stream.service.responses.decode(frame.value);
    return if decoded.Some? then Ok(decoded.value) else Err(Request);
  }

  /** On any unready stream: the first request among the bytes, old ones included, is the one that is answered. */
  ghost predicate Answered<Req, Resp>(c: Service<Req, Resp>, written: Bytes, log: seq<Req>, newLog: seq<Req>, r: Result<Resp, FrameError>) {
    match FirstRequest(c, written)
    case None => newLog == log && r == Err(Io)
    case Some(first) => newLog == log + [first] && r == DirectCall(c, log, first)
  }

  /** Once written and flushed, what is left is to read the prepared reply. */
  lemma PreparedReply<Req, Resp(!new)>(c: Service<Req, Resp>, s: State<Req>)
    requires !s.ready && Inverse(c.responses)
    ensures var t := Prepare(c, s);
            if t.ready then
              && FirstRequest(c, s.request).Some? && t.position == 0
              && var call := DirectCall(c, s.log, FirstRequest(c, s.request).value);
                 && call.Ok? && t.log == s.log + [FirstRequest(c, s.request).value]
                 && ReadFrame(t.response, c.limit) == Frame(c.responses.Bytes(call.value), [])
                 && c.responses.decode(c.responses.Bytes(call.value)) == Some(call.value)
            else Answered(c, s.request, s.log, t.log, Err(Io))
  {
    PrepareDispatches(c, s);
    if Prepare(c, s).ready {
      ReplyReadBack(c, DirectCall(c, s.log, FirstRequest(c, s.request).value).value);
    }
  }

  /**
   * A request sent over a stream. If it does not fit a frame, the handler is never called. On a
   * stream without earlier bytes it is called once, with that request, and its reply comes back
   * whole or not at all; bytes left by an earlier failed exchange come first. A stream that already
   * served a request takes no other.
   */
  method DispatchOverStream<Req(!new), Resp(!new)>(stream: InProcessStream<Req, Resp>, request: Req)
    returns (r: Result<Resp, FrameError>)
    requires stream.Valid()
    requires Inverse(stream.service.requests) && Inverse(stream.service.responses)
    modifies stream, stream.handler
    ensures stream.Valid()
    ensures var c, frame, log := stream.service, stream.service.requests.Bytes(request), old(stream.handler.log);
            if |frame| > c.limit then
              && stream.Now() == old(stream.Now())
              && r.Err? && r.error.FrameTooLarge? && r.error.limit == c.limit && c.limit < r.error.actual <= |frame|
            else if |frame| >= U32_LIMIT then
              stream.Now() == old(stream.Now()) && r == Err(Request)
            else if old(stream.responseReady) then
              stream.Now() == old(stream.Now()) && r == Err(Io)
            else if old(stream.requestBytes) == [] then
              stream.handler.log == log + [request] && r == DirectCall(c, log, request)
            else
              Answered(c, old(stream.requestBytes) + Framed(frame), log, stream.handler.log, r)
  {
    ghost var c, log, frame := stream.service, stream.handler.log, stream.service.requests.Bytes(request);
    if !stream.responseReady && Fits(frame, c.limit) {
      if stream.requestBytes == [] {
        RequestReadBack(c, request);
      }
      PreparedReply(c, stream.Now().(request := stream.requestBytes + Framed(frame)));
    }
    var written := WriteRequest(stream, request);
    if written.Err? {
      return Err(written.error);
    }
    assert stream.responseBytes[0..] == stream.responseBytes;
    r := ReadResponse(stream);
  }

  lemma RequestReadBack<Req(!new), Resp>(c: Service<Req, Resp>, request: Req)
    requires Inverse(c.requests) && Fits(c.requests.Bytes(request), c.limit)
    ensures FirstRequest(c, [] + Framed(c.requests.Bytes(request))) == Some(request)
  {
    var frame := c.requests.Bytes(request);
    ReadFramed(frame, [], c.limit);
    assert [] + Framed(frame) == Framed(frame) + [];
    assert c.requests.decode(c.requests.Bytes(request)) == Some(request);
  }

  lemma ReplyReadBack<Req, Resp(!new)>(c: Service<Req, Resp>, reply: Resp)
    requires Inverse(c.responses) && Fits(c.responses.Bytes(reply), c.limit)
    ensures var frame := c.responses.Bytes(reply);
            ReadFrame(Framed(frame), c.limit) == Frame(frame, []) && c.responses.decode(frame) == Some(reply)
  {
    var frame := c.responses.Bytes(reply);
    ReadFramed(frame, [], c.limit);
    assert Framed(frame) + [] == Framed(frame);
    assert c.responses.decode(c.responses.Bytes(reply)) == Some(reply);
  }
}
