/**
 `bridge` of src/h1.rs: a request side and a response side joined by a channel of 32 HEAD flags. Every
 head, flag and body is a step of its own; the steps of the two interleave freely.
 */
module Http1Pairing {
  import opened Http1Stream
  import opened Octets

  const CAPACITY: nat := 32

  /** A response head as read, and the framing its body was forwarded with. */
  datatype Response = Response(status: nat, own: Body, framed: Body)

  predicate Interim(status: nat) {
    100 <= status < 200
  }

  /** The framing of a response to a request that was HEAD or not; `own` is what its fields say. */
  function Framed(head: bool, status: nat, own: Body): Body {
    if head || Interim(status) || status == 204 || status == 304 then Empty else own
  }

  datatype Requests = AtHead | Holding(head: bool) | Sent | Copying | Ended

  datatype Responses = Waiting | Serving(head: bool) | Answering(head: bool)

  datatype End = Running | Clean | UpstreamEof | Failed

  /** `heads` logs the flags of the requests sent to the channel, `answered` the responses begun. */
  datatype State = State(requests: Requests, queue: seq<bool>, heads: seq<bool>, forwarded: nat,
                         responses: Responses, answered: seq<Response>, end: End)

  const START: State := State(AtHead, [], [], 0, Waiting, [], Running)

  datatype Step =
    | ReadHead(head: bool)
    | Send
    | WriteHead
    | FinishBody
    | EndRequests
    | Receive
    | ReadAnswer(status: nat, own: Body)
    | FinishAnswer
    | EndResponses
    | Fail

  /** The state after a step, where the side concerned can take it. */
  function Next(s: State, step: Step): Option<State> {
    if s.end != Running then None
    else
      match step
      case ReadHead(head) => if s.requests == AtHead then Some(s.(requests := Holding(head))) else None
      case Send =>
        if s.requests.Holding? && |s.queue| < CAPACITY
        then Some(s.(requests := Sent, queue := s.queue + [s.requests.head], heads := s.heads + [s.requests.head]))
        else None
      case WriteHead =>
        if s.requests == Sent then Some(s.(requests := Copying, forwarded := s.forwarded + 1)) else None
      case FinishBody => if s.requests == Copying then Some(s.(requests := AtHead)) else None
      case EndRequests => if s.requests == AtHead then Some(s.(requests := Ended)) else None
      case Receive =>
        if s.responses == Waiting && s.queue != []
        then Some(s.(responses := Serving(s.queue[0]), queue := s.queue[1..]))
        else None
      case ReadAnswer(status, own) =>
        if s.responses.Serving? && status != 101
        then
          var r := Response(status, own, Framed(s.responses.head, status, own));
          Some(s.(responses := Answering(s.responses.head), answered := s.answered + [r]))
        else None
      case FinishAnswer =>
        if s.responses.Answering? && s.answered != []
        then
          var r := s.answered[|s.answered| - 1];
          if r.framed == UntilEof then Some(s.(end := UpstreamEof))
          else if Interim(r.status) then Some(s.(responses := Serving(s.responses.head)))
          else Some(s.(responses := Waiting))
        else None
      case EndResponses =>
        if s.responses == Waiting && s.queue == [] && s.requests == Ended then Some(s.(end := Clean)) else None
      case Fail => Some(s.(end := Failed))
  }

  /** The state a run of steps leads to. */
  function Run(s: State, steps: seq<Step>): Option<State>
    decreases |steps|
  {
    if steps == [] then Some(s)
    else
      match Next(s, steps[0])
      case None => None
      case Some(t) => Run(t, steps[1..])
  }

  function Finals(answered: seq<Response>): (n: nat)
    ensures n <= |answered|
  {
    if answered == [] then 0
    else Finals(answered[..|answered| - 1]) + (if Interim(answered[|answered| - 1].status) then 0 else 1)
  }

  /** Finals begun and finished. */
  function Completed(s: State): nat {
    var n := Finals(s.answered);
    if s.responses.Answering? && s.answered != [] && !Interim(s.answered[|s.answered| - 1].status) && n > 0
    then n - 1 else n
  }

  // ----- Invariant -----

  /** Each response begun, in order, has the framing of the request its predecessors' finals leave first. */
  ghost predicate Paired(s: State) {
    forall i :: 0 <= i < |s.answered| ==>
      && Finals(s.answered[..i]) < |s.heads|
      && s.answered[i].framed == Framed(s.heads[Finals(s.answered[..i])], s.answered[i].status, s.answered[i].own)
      && s.answered[i].status != 101
  }

  /** Flags taken out of the channel. */
  function Taken(s: State): int {
    |s.heads| - |s.queue|
  }

  ghost predicate Inv(s: State) {
    && |s.queue| <= CAPACITY && |s.queue| <= |s.heads| && s.queue == s.heads[Taken(s)..]
    && |s.heads| == s.forwarded + (if s.requests == Sent then 1 else 0)
    && Taken(s) == Completed(s) + (if s.responses == Waiting then 0 else 1)
    && (s.responses != Waiting ==> Completed(s) < |s.heads| && s.heads[Completed(s)] == s.responses.head)
    && (s.responses.Answering? ==> s.answered != [])
    && Paired(s)
    && forall i :: 0 <= i < |s.answered| && s.answered[i].framed == UntilEof ==>
         i == |s.answered| - 1 && s.responses.Answering?
  }

  lemma SendKeepsInv(s: State)
    requires Inv(s) && s.requests.Holding? && |s.queue| < CAPACITY
    ensures var h := s.requests.head; Inv(s.(requests := Sent, queue := s.queue + [h], heads := s.heads + [h]))
  {
    hide Finals;
    var t := s.(requests := Sent, queue := s.queue + [s.requests.head], heads := s.heads + [s.requests.head]);
    assert t.heads[Taken(t)..] == t.queue;
    assert Completed(t) == Completed(s);
  }

  lemma FinalsSnoc(answered: seq<Response>, r: Response)
    ensures Finals(answered + [r]) == Finals(answered) + (if Interim(r.status) then 0 else 1)
  {
    assert (answered + [r])[..|answered|] == answered;
  }

  lemma PairedGrows(s: State, r: Response, t: State)
    requires Paired(s) && t.heads == s.heads && t.answered == s.answered + [r]
    requires Finals(s.answered) < |s.heads| && r.framed == Framed(s.heads[Finals(s.answered)], r.status, r.own)
    requires r.status != 101
    ensures Paired(t)
  {
    hide Finals, Framed;
    forall i | 0 <= i < |t.answered|
      ensures Finals(t.answered[..i]) < |t.heads|
      ensures t.answered[i].framed == Framed(t.heads[Finals(t.answered[..i])], t.answered[i].status, t.answered[i].own)
      ensures t.answered[i].status != 101
    {
      if i < |s.answered| {
        assert t.answered[..i] == s.answered[..i] && t.answered[i] == s.answered[i];
      } else {
        assert t.answered[..i] == s.answered;
      }
    }
  }

  lemma AnswerKeepsInv(s: State, status: nat, own: Body)
    requires Inv(s) && s.responses.Serving? && status != 101
    ensures var r := Response(status, own, Framed(s.responses.head, status, own));
            Inv(s.(responses := Answering(s.responses.head), answered := s.answered + [r]))
  {
    hide Finals, Framed, Paired, Interim;
    var r := Response(status, own, Framed(s.responses.head, status, own));
    var t := s.(responses := Answering(s.responses.head), answered := s.answered + [r]);
    FinalsSnoc(s.answered, r);
    assert Completed(t) == Completed(s);
    PairedGrows(s, r, t);
  }

  lemma StepKeepsInv(s: State, step: Step)
    requires Inv(s) && Next(s, step).Some?
    ensures Inv(Next(s, step).value)
  {
    hide Finals, Framed, Paired, Interim;
    match step {
      case Send => SendKeepsInv(s);
      case ReadAnswer(status, own) => AnswerKeepsInv(s, status, own);
      case FinishAnswer => FinishKeepsInv(s);
      case Receive =>
        var t := Next(s, step).value;
        assert t.heads[Taken(t)..] == t.queue;
        assert Completed(t) == Completed(s);
        PairedSame(s, t);
      case _ =>
        assert Completed(Next(s, step).value) == Completed(s);
        PairedSame(s, Next(s, step).value);
    }
  }

  lemma FinishKeepsInv(s: State)
    requires Inv(s) && Next(s, FinishAnswer).Some?
    ensures Inv(Next(s, FinishAnswer).value)
  {
    hide Finals, Framed, Paired, Interim;
    var n := |s.answered| - 1;
    assert s.answered == s.answered[..n] + [s.answered[n]];
    FinalsSnoc(s.answered[..n], s.answered[n]);
    var t := Next(s, FinishAnswer).value;
    PairedSame(s, t);
    assert s.answered[n].framed == UntilEof || Completed(t) == Finals(s.answered);
  }

  lemma PairedSame(s: State, t: State)
    requires Paired(s) && t.heads == s.heads && t.answered == s.answered
    ensures Paired(t)
  {
  }

  lemma {:induction false} RunKeepsInv(s: State, steps: seq<Step>)
    requires Inv(s) && Run(s, steps).Some?
    ensures Inv(Run(s, steps).value)
    decreases |steps|
  {
    hide Next, Inv;
    if steps != [] {
      StepKeepsInv(s, steps[0]);
      RunKeepsInv(Next(s, steps[0]).value, steps[1..]);
    }
  }

  lemma StartInv()
    ensures Inv(START)
  {
  }

  // ----- What every interleaving keeps -----

  /**
   The `i`th response is framed with the HEAD flag of the request numbered by the final responses before
   it: the k-th final response with that of the k-th request, and interim responses take no flag. An
   upgrade is never forwarded.
   */
  lemma ResponsesMatchRequests(steps: seq<Step>, i: nat)
    requires Run(START, steps).Some? && i < |Run(START, steps).value.answered|
    ensures var s := Run(START, steps).value;
            var k := Finals(s.answered[..i]);
            && k < |s.heads|
            && var r := s.answered[i];
               && (if s.heads[k] || 100 <= r.status < 200 || r.status == 204 || r.status == 304
                   then r.framed == Empty else r.framed == r.own)
               && r.status != 101
  {
    StartInv();
    RunKeepsInv(START, steps);
  }

  /** Heads forwarded exceed final responses completed by at most the channel's capacity and one in service. */
  lemma ForwardedBound(steps: seq<Step>)
    requires Run(START, steps).Some?
    ensures var s := Run(START, steps).value;
            s.forwarded <= |s.heads| <= Completed(s) + 33
  {
    hide Next, Completed, Run;
    StartInv();
    RunKeepsInv(START, steps);
  }

  /**
   The connection ends in order only when every request has had its final response, or after a body
   framed by the end of the stream.
   */
  lemma OrderlyEnd(steps: seq<Step>)
    requires Run(START, steps).Some?
    ensures var s := Run(START, steps).value;
            && (s.end == Clean ==> |s.heads| == Completed(s) == s.forwarded)
            && (forall i :: 0 <= i < |s.answered| && s.answered[i].framed == UntilEof ==> i == |s.answered| - 1)
  {
    StartInv();
    RunKeepsInv(START, steps);
    EndedWhen(START, steps);
  }

  lemma {:induction false} EndedWhen(s: State, steps: seq<Step>)
    requires Inv(s) && Run(s, steps).Some?
    requires s.end == Clean ==> |s.heads| == Completed(s) == s.forwarded
    ensures var t := Run(s, steps).value; t.end == Clean ==> |t.heads| == Completed(t) == t.forwarded
    decreases |steps|
  {
    if steps != [] {
      StepKeepsInv(s, steps[0]);
      CleanStep(s, steps[0]);
      hide Next, Inv, Completed;
      EndedWhen(Next(s, steps[0]).value, steps[1..]);
    }
  }

  lemma CleanStep(s: State, step: Step)
    requires Inv(s) && Next(s, step).Some?
    ensures var t := Next(s, step).value; t.end == Clean ==> |t.heads| == Completed(t) == t.forwarded
  {
    hide Finals, Framed;
  }

  // ----- Neither side waits but for the channel -----

  /** The request side waits only to send into a full channel, and no longer when it has ended. */
  lemma RequestsProceed(steps: seq<Step>, head: bool)
    requires Run(START, steps).Some? && Run(START, steps).value.end == Running
    ensures var s := Run(START, steps).value;
            match s.requests
            case AtHead => Next(s, ReadHead(head)).Some? && Next(s, EndRequests).Some?
            case Holding(_) => Next(s, Send).Some? <==> |s.queue| < 32
            case Sent => Next(s, WriteHead).Some?
            case Copying => Next(s, FinishBody).Some?
            case Ended => true
  {
    hide Run;
  }

  /** The response side waits only for the channel: for a flag, or for the end of the requests. */
  lemma ResponsesProceed(steps: seq<Step>, status: nat, own: Body)
    requires Run(START, steps).Some? && Run(START, steps).value.end == Running
    ensures var s := Run(START, steps).value;
            match s.responses
            case Waiting =>
              && (Next(s, Receive).Some? <==> s.queue != [])
              && (Next(s, EndResponses).Some? <==> s.queue == [] && s.requests == Ended)
            case Serving(_) => Next(s, ReadAnswer(status, own)).Some? <==> status != 101
            case Answering(_) => Next(s, FinishAnswer).Some?
  {
    hide Run;
    assert Run(START, steps).value.responses.Answering? ==> Run(START, steps).value.answered != [] by {
      StartInv();
      RunKeepsInv(START, steps);
      hide Finals, Framed, Paired, Completed;
    }
  }

  /** No run gets stuck: until the end some step other than a failure can be taken. */
  lemma NoDeadlock(steps: seq<Step>) returns (step: Step)
    requires Run(START, steps).Some? && Run(START, steps).value.end == Running
    ensures step != Fail && Next(Run(START, steps).value, step).Some?
  {
    hide Run;
    var s := Run(START, steps).value;
    RequestsProceed(steps, false);
    ResponsesProceed(steps, 200, Empty);
    hide Next;
    step := match s.responses
      case Serving(_) => ReadAnswer(200, Empty)
      case Answering(_) => FinishAnswer
      case Waiting =>
        if s.queue != [] then Receive
        else
          match s.requests
          case AtHead => EndRequests
          case Holding(_) => Send
          case Sent => WriteHead
          case Copying => FinishBody
          case Ended => EndResponses;
  }

  // ----- The bound is reached -----

  lemma {:induction false} RunConcat(s: State, a: seq<Step>, b: seq<Step>)
    requires Run(s, a).Some?
    ensures Run(s, a + b) == Run(Run(s, a).value, b)
    decreases |a|
  {
    hide Next;
    if a == [] {
      assert a + b == b;
    } else {
      assert (a + b)[1..] == a[1..] + b;
      RunConcat(Next(s, a[0]).value, a[1..], b);
    }
  }

  function Flags(n: nat): (f: seq<bool>)
    ensures |f| == n
  {
    if n == 0 then [] else Flags(n - 1) + [false]
  }

  function OneSteps(head: bool): seq<Step> {
    [ReadHead(head), Send, WriteHead, FinishBody]
  }

  lemma OneRequest(s: State, head: bool)
    requires s.end == Running && s.requests == AtHead && |s.queue| < CAPACITY
    ensures Run(s, OneSteps(head)) == Some(s.(queue := s.queue + [head], heads := s.heads + [head],
                                              forwarded := s.forwarded + 1))
  {
    var one := OneSteps(head);
    var s1 := Next(s, one[0]).value;
    var s2 := Next(s1, one[1]).value;
    var s3 := Next(s2, one[2]).value;
    var s4 := Next(s3, one[3]).value;
    assert one[1..][1..] == [WriteHead, FinishBody] && one[1..][1..][1..] == [FinishBody] && [FinishBody][1..] == [];
    assert Run(s4, []) == Some(s4);
    assert Run(s3, [FinishBody]) == Some(s4);
    assert Run(s2, [WriteHead, FinishBody]) == Some(s4);
    assert Run(s1, one[1..]) == Some(s4);
  }

  /** One request in service and `n` waiting in the channel. */
  lemma {:induction false} FillChannel(n: nat) returns (steps: seq<Step>)
    requires n <= CAPACITY
    ensures Run(START, steps) == Some(State(AtHead, Flags(n), Flags(n + 1), n + 1, Serving(false), [], Running))
  {
    hide Run, Next;
    if n == 0 {
      OneRequest(START, false);
      steps := OneSteps(false) + [Receive];
      RunConcat(START, OneSteps(false), [Receive]);
      FirstReceived(Run(START, OneSteps(false)).value);
    } else {
      var before := FillChannel(n - 1);
      steps := before + OneSteps(false);
      RunConcat(START, before, OneSteps(false));
      OneRequest(Run(START, before).value, false);
    }
  }

  lemma FirstReceived(s: State)
    requires s == State(AtHead, [false], [false], 1, Waiting, [], Running)
    ensures Run(s, [Receive]) == Some(State(AtHead, Flags(0), Flags(1), 1, Serving(false), [], Running))
  {
    assert [false][1..] == [] && [Receive][1..] == [] && Flags(0) == [] && Flags(1) == [] + [false];
    var t := Next(s, Receive).value;
    assert t == State(AtHead, [], [false], 1, Serving(false), [], Running);
    assert Run(t, []) == Some(t);
    var steps := [Receive];
    assert steps[1..] == [];
    assert Run(s, steps) == Run(t, steps[1..]);
    assert Flags(1) == [false];
    assert t == State(AtHead, Flags(0), Flags(1), 1, Serving(false), [], Running);
    assert Run(s, steps) == Some(t);
  }

  lemma BoundReached() returns (steps: seq<Step>)
    ensures Run(START, steps).Some?
    ensures var s := Run(START, steps).value; s.forwarded == Completed(s) + 33
  {
    hide Run, Next, Flags;
    steps := FillChannel(CAPACITY);
    assert Run(START, steps).value.answered == [];
  }

  // ----- Every exchange can be carried out -----

  type Answer = (nat, Body)

  /** A request, HEAD or not, any interim responses to it and its final one. */
  datatype Exchange = Exchange(head: bool, interim: seq<Answer>, final: Answer)

  ghost predicate Proper(x: Exchange) {
    && !(100 <= x.final.0 < 200)
    && forall i :: 0 <= i < |x.interim| ==> 100 <= x.interim[i].0 < 200 && x.interim[i].0 != 101
  }

  /** The stream's end frames the body of the final response. */
  predicate EndsStream(x: Exchange) {
    !x.head && x.final.0 != 204 && x.final.0 != 304 && x.final.1 == UntilEof
  }

  function Reply(head: bool, a: Answer): Response {
    Response(a.0, a.1, Framed(head, a.0, a.1))
  }

  function Replies(head: bool, answers: seq<Answer>): seq<Response> {
    if answers == [] then [] else Replies(head, answers[..|answers| - 1]) + [Reply(head, answers[|answers| - 1])]
  }

  function AllReplies(xs: seq<Exchange>): seq<Response> {
    if xs == [] then []
    else
      var x := xs[|xs| - 1];
      AllReplies(xs[..|xs| - 1]) + Replies(x.head, x.interim + [x.final])
  }

  function Heads(xs: seq<Exchange>): (hs: seq<bool>)
    ensures |hs| == |xs| && forall i :: 0 <= i < |xs| ==> hs[i] == xs[i].head
  {
    seq(|xs|, i requires 0 <= i < |xs| => xs[i].head)
  }

  lemma RunOne(s: State, step: Step)
    ensures Run(s, [step]) == Next(s, step)
  {
    hide Next;
    assert [step][1..] == [];
  }

  lemma RunMore(s: State, steps: seq<Step>, step: Step)
    requires Run(s, steps).Some?
    ensures Run(s, steps + [step]) == Next(Run(s, steps).value, step)
  {
    hide Next, Run;
    RunConcat(s, steps, [step]);
    RunOne(Run(s, steps).value, step);
  }

  lemma {:induction false} InterimRun(s: State, answers: seq<Answer>) returns (steps: seq<Step>)
    requires s.end == Running && s.responses.Serving?
    requires forall i :: 0 <= i < |answers| ==> 100 <= answers[i].0 < 200 && answers[i].0 != 101
    ensures Run(s, steps) == Some(s.(answered := s.answered + Replies(s.responses.head, answers)))
    decreases |answers|
  {
    hide Run;
    if answers == [] {
      steps := [];
      assert Run(s, []) == Some(s) by { RunNothing(s); }
      assert s.answered + [] == s.answered;
    } else {
      var n, h := |answers| - 1, s.responses.head;
      var (status, own) := answers[n];
      var before := InterimRun(s, answers[..n]);
      var t := Run(s, before).value;
      RunMore(s, before, ReadAnswer(status, own));
      RunMore(s, before + [ReadAnswer(status, own)], FinishAnswer);
      Assoc(s.answered, Replies(h, answers[..n]), [Reply(h, answers[n])]);
      steps := before + [ReadAnswer(status, own)] + [FinishAnswer];
    }
  }

  lemma RunNothing(s: State)
    ensures Run(s, []) == Some(s)
  {
  }

  /** One exchange after those before, all answered. */
  lemma ExchangeRun(s: State, x: Exchange) returns (steps: seq<Step>)
    requires s.end == Running && s.requests == AtHead && s.responses == Waiting && s.queue == [] && Proper(x)
    ensures Run(s, steps).Some?
    ensures var t := Run(s, steps).value;
            && t.heads == s.heads + [x.head] && t.forwarded == s.forwarded + 1 && t.queue == []
            && t.answered == s.answered + Replies(x.head, x.interim + [x.final]) && t.requests == AtHead
            && (if EndsStream(x) then t.end == UpstreamEof else t.end == Running && t.responses == Waiting)
  {
    hide Run;
    OneRequest(s, x.head);
    var steps1 := OneSteps(x.head);
    RunMore(s, steps1, Receive);
    var u := Run(s, steps1 + [Receive]).value;
    var more := InterimRun(u, x.interim);
    RunConcat(s, steps1 + [Receive], more);
    var steps2 := steps1 + [Receive] + more;
    var (status, own) := x.final;
    RunMore(s, steps2, ReadAnswer(status, own));
    RunMore(s, steps2 + [ReadAnswer(status, own)], FinishAnswer);
    var all := x.interim + [x.final];
    assert all[..|all| - 1] == x.interim && all[|all| - 1] == x.final;
    Assoc(s.answered, Replies(x.head, x.interim), [Reply(x.head, x.final)]);
    steps := steps2 + [ReadAnswer(status, own)] + [FinishAnswer];
  }

  /** Any number of exchanges can be carried out one after the other, and the connection then closed. */
  lemma {:induction false} ExchangesRun(xs: seq<Exchange>) returns (steps: seq<Step>)
    requires forall i :: 0 <= i < |xs| ==> Proper(xs[i])
    requires forall i :: 0 <= i < |xs| - 1 ==> !EndsStream(xs[i])
    ensures Run(START, steps).Some?
    ensures var t := Run(START, steps).value;
            && t.heads == Heads(xs) && t.forwarded == |xs| && t.answered == AllReplies(xs) && t.queue == []
            && t.requests == AtHead
            && (if xs != [] && EndsStream(xs[|xs| - 1]) then t.end == UpstreamEof
                else t.end == Running && t.responses == Waiting)
    decreases |xs|
  {
    hide Run, Proper, EndsStream;
    if xs == [] {
      steps := [];
      RunNothing(START);
    } else {
      var n := |xs| - 1;
      var before := ExchangesRun(xs[..n]);
      var s := Run(START, before).value;
      assert n > 0 ==> xs[..n][n - 1] == xs[n - 1];
      var more := ExchangeRun(s, xs[n]);
      RunConcat(START, before, more);
      assert Heads(xs) == Heads(xs[..n]) + [xs[n].head];
      steps := before + more;
    }
  }

  /** So no rule of the bridge stands in the way of a proper exchange, and all end in order. */
  lemma EveryExchangeServed(xs: seq<Exchange>) returns (steps: seq<Step>)
    requires forall i :: 0 <= i < |xs| ==> Proper(xs[i])
    requires forall i :: 0 <= i < |xs| - 1 ==> !EndsStream(xs[i])
    ensures Run(START, steps).Some?
    ensures var t := Run(START, steps).value;
            && t.heads == Heads(xs) && t.forwarded == |xs| && t.answered == AllReplies(xs)
            && t.end == if xs != [] && EndsStream(xs[|xs| - 1]) then UpstreamEof else Clean
  {
    hide Run, Proper, EndsStream;
    steps := ExchangesRun(xs);
    if !(xs != [] && EndsStream(xs[|xs| - 1])) {
      RunMore(START, steps, EndRequests);
      RunMore(START, steps + [EndRequests], EndResponses);
      steps := steps + [EndRequests] + [EndResponses];
    }
  }
}
