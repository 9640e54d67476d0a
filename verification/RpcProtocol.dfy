/** Calls and replies on one RPC connection (network/rpc.h, network/rpc.cpp): a caller, the server thread
    and the client's receiving thread, in any interleaving. The caller takes replies off a stack. */
module RpcProtocol {
  import opened Collections
  import opened Bytes

  /** A request on the wire: its message id and the procedure. */
  datatype Request = Request(id: nat, proc: nat)

  /** A reply on the wire or on the stack; the id of its request is known to the proof only. */
  datatype Answer = Answer(id: nat, payload: seq<byte>)

  /** What a typed call returned. */
  datatype Result = Result(call: nat, payload: seq<byte>)

  datatype State = State(
    next: nat,                        // the next message id
    waiting: Option<nat>,             // the typed call in progress
    requests: seq<Request>,           // sent and not yet served
    replies: seq<Answer>,             // served and not yet received
    stack: seq<Answer>,               // _call_return_stack, top last
    served: map<nat, seq<byte>>,      // what the server computed for each request
    results: seq<Result>)             // what typed calls returned, in order

  const START: State := State(0, None, [], [], [], map[], [])

  datatype Event =
    | CallTyped(proc: nat)
    | CallVoid(proc: nat)
    | Serve(payload: seq<byte>)
    | Receive
    | Pop

  /** When an event can happen. Calls on one connection are serialised; the server serves requests one
      after another, and a procedure's reply is empty exactly when it returns nothing. */
  predicate Enabled(nonvoid: set<nat>, s: State, e: Event) {
    match e
    case CallTyped(_) => s.waiting.None?
    case CallVoid(_) => s.waiting.None?
    case Serve(payload) => s.requests != [] && (payload != [] <==> s.requests[0].proc in nonvoid)
    case Receive => s.replies != []
    case Pop => s.waiting.Some? && s.stack != []
  }

  function Step(nonvoid: set<nat>, s: State, e: Event): State
    requires Enabled(nonvoid, s, e)
  {
    match e
    case CallTyped(proc) =>
      s.(next := s.next + 1, waiting := Some(s.next), requests := s.requests + [Request(s.next, proc)])
    case CallVoid(proc) =>
      s.(next := s.next + 1, requests := s.requests + [Request(s.next, proc)])
    case Serve(payload) =>
      var q := s.requests[0];
      s.(requests := s.requests[1..], replies := s.replies + [Answer(q.id, payload)], served := s.served[q.id := payload])
    case Receive =>
      // an empty reply is dropped
      var a := s.replies[0];
      s.(replies := s.replies[1..], stack := if a.payload != [] then s.stack + [a] else s.stack)
    case Pop =>
      var n := |s.stack| - 1;
      s.(waiting := None, stack := s.stack[..n], results := s.results + [Result(s.waiting.value, s.stack[n].payload)])
  }

  /** Typed calls go to procedures that return something, void calls to the others. */
  predicate Disciplined(nonvoid: set<nat>, e: Event) {
    (e.CallTyped? ==> e.proc in nonvoid) && (e.CallVoid? ==> e.proc !in nonvoid)
  }

  /** s is reached from the start by the disciplined events es, in any interleaving. */
  ghost predicate Reaches(nonvoid: set<nat>, es: seq<Event>, s: State) {
    if es == [] then s == START
    else
      var n := |es| - 1;
      exists t :: Reaches(nonvoid, es[..n], t) && Disciplined(nonvoid, es[n]) && Enabled(nonvoid, t, es[n])
                  && s == Step(nonvoid, t, es[n])
  }

  // ----- The replies a caller is still owed -----

  function Owed(nonvoid: set<nat>, qs: seq<Request>): seq<nat> {
    if qs == [] then []
    else (if qs[0].proc in nonvoid then [qs[0].id] else []) + Owed(nonvoid, qs[1..])
  }

  function Carried(xs: seq<Answer>): seq<nat> {
    if xs == [] then []
    else (if xs[0].payload != [] then [xs[0].id] else []) + Carried(xs[1..])
  }

  lemma {:induction false} OwedAppend(nonvoid: set<nat>, qs: seq<Request>, q: Request)
    ensures Owed(nonvoid, qs + [q]) == Owed(nonvoid, qs) + if q.proc in nonvoid then [q.id] else []
  {
    if qs == [] {
      assert qs + [q] == [q] && [q][1..] == [];
    } else {
      OwedAppend(nonvoid, qs[1..], q);
      assert (qs + [q])[1..] == qs[1..] + [q];
      var head := if qs[0].proc in nonvoid then [qs[0].id] else [];
      assert Owed(nonvoid, qs + [q]) == head + Owed(nonvoid, qs[1..] + [q]);
    }
  }

  lemma {:induction false} CarriedAppend(xs: seq<Answer>, a: Answer)
    ensures Carried(xs + [a]) == Carried(xs) + if a.payload != [] then [a.id] else []
  {
    if xs == [] {
      assert [] + [a] == [a] && [a][1..] == [];
    } else {
      assert (xs + [a])[1..] == xs[1..] + [a];
      CarriedAppend(xs[1..], a);
    }
  }

  function Outstanding(nonvoid: set<nat>, s: State): seq<nat> {
    Carried(s.stack) + Carried(s.replies) + Owed(nonvoid, s.requests)
  }

  ghost predicate Genuine(s: State, xs: seq<Answer>) {
    forall a :: a in xs ==> a.id in s.served && s.served[a.id] == a.payload
  }

  /** Exactly one non-empty reply is on its way while a typed call waits, and it is the reply to that
      call; none otherwise. */
  ghost predicate OneOwed(nonvoid: set<nat>, s: State) {
    && Outstanding(nonvoid, s) == (if s.waiting.Some? then [s.waiting.value] else [])
    && (forall a :: a in s.stack ==> a.payload != [])
  }

  /** Every reply on its way is what the server computed, and so is every result. */
  ghost predicate AllGenuine(s: State) {
    && Genuine(s, s.stack) && Genuine(s, s.replies)
    && (forall r :: r in s.results ==> r.call in s.served && s.served[r.call] == r.payload)
    && (forall k :: k in s.served ==> k < s.next)
  }

  /** Requests still to be served are new to the server. */
  ghost predicate RequestsNew(s: State) {
    && (forall i :: 0 <= i < |s.requests| ==> s.requests[i].id < s.next && s.requests[i].id !in s.served)
    && (forall i, j :: 0 <= i < j < |s.requests| ==> s.requests[i].id != s.requests[j].id)
  }

  ghost predicate Inv(nonvoid: set<nat>, s: State) {
    OneOwed(nonvoid, s) && AllGenuine(s) && RequestsNew(s)
  }

  lemma {:induction false} StackCarried(xs: seq<Answer>)
    requires forall a :: a in xs ==> a.payload != []
    ensures |Carried(xs)| == |xs|
    ensures xs != [] ==> Carried(xs)[0] == xs[0].id
  {
    if xs != [] {
      assert xs[0] in xs;
      StackCarried(xs[1..]);
    }
  }

  lemma OwedStep(nonvoid: set<nat>, s: State, e: Event)
    requires Inv(nonvoid, s) && Enabled(nonvoid, s, e) && Disciplined(nonvoid, e)
    ensures OneOwed(nonvoid, Step(nonvoid, s, e))
  {
    hide Owed, Carried, AllGenuine, RequestsNew;
    match e
    case CallTyped(proc) => OwedAppend(nonvoid, s.requests, Request(s.next, proc));
    case CallVoid(proc) => OwedAppend(nonvoid, s.requests, Request(s.next, proc));
    case Serve(payload) =>
      CarriedAppend(s.replies, Answer(s.requests[0].id, payload));
      OwedHead(nonvoid, s.requests);
    case Receive =>
      CarriedAppend(s.stack, s.replies[0]);
      CarriedHead(s.replies);
    case Pop =>
      PopsOwn(nonvoid, s);
      StackCarried(s.stack);
      NoneCarried();
      assert s.stack[..0] == [];
      assert |Carried(s.stack)| == |Outstanding(nonvoid, s)|;
  }

  lemma OwedHead(nonvoid: set<nat>, qs: seq<Request>)
    requires qs != []
    ensures Owed(nonvoid, qs) == (if qs[0].proc in nonvoid then [qs[0].id] else []) + Owed(nonvoid, qs[1..])
  {
  }

  lemma CarriedHead(xs: seq<Answer>)
    requires xs != []
    ensures Carried(xs) == (if xs[0].payload != [] then [xs[0].id] else []) + Carried(xs[1..])
  {
  }

  lemma NoneCarried()
    ensures Carried([]) == []
  {
  }

  lemma PopsOwn(nonvoid: set<nat>, s: State)
    requires OneOwed(nonvoid, s) && s.waiting.Some? && s.stack != []
    ensures |s.stack| == 1 && s.stack[0].id == s.waiting.value
  {
    StackCarried(s.stack);
    assert Carried(s.stack)[0] == Outstanding(nonvoid, s)[0];
    assert |Outstanding(nonvoid, s)| == 1;
  }

  lemma GenuineStep(nonvoid: set<nat>, s: State, e: Event)
    requires Inv(nonvoid, s) && Enabled(nonvoid, s, e)
    ensures AllGenuine(Step(nonvoid, s, e)) && RequestsNew(Step(nonvoid, s, e))
  {
    hide Outstanding;
    var t := Step(nonvoid, s, e);
    match e
    case CallTyped(_) =>
    case CallVoid(_) =>
    case Serve(payload) => ServeGenuine(nonvoid, s, payload);
    case Receive =>
      assert s.replies[0] in s.replies;
      assert forall a :: a in t.stack ==> a in s.stack || a == s.replies[0];
      assert forall a :: a in t.replies ==> a in s.replies;
    case Pop =>
      PopsOwn(nonvoid, s);
      assert s.stack[0] in s.stack && t.stack == [];
  }

  lemma ServeGenuine(nonvoid: set<nat>, s: State, payload: seq<byte>)
    requires AllGenuine(s) && RequestsNew(s) && Enabled(nonvoid, s, Serve(payload))
    ensures AllGenuine(Step(nonvoid, s, Serve(payload))) && RequestsNew(Step(nonvoid, s, Serve(payload)))
  {
    var t := Step(nonvoid, s, Serve(payload));
    var id := s.requests[0].id;
    forall a | a in t.replies
      ensures a.id in t.served && t.served[a.id] == a.payload
    {
      assert a in s.replies || a == Answer(id, payload);
    }
    forall i | 0 <= i < |t.requests|
      ensures t.requests[i].id < t.next && t.requests[i].id !in t.served
    {
      assert t.requests[i] == s.requests[i + 1];
    }
  }

  lemma StepInv(nonvoid: set<nat>, s: State, e: Event)
    requires Inv(nonvoid, s) && Enabled(nonvoid, s, e) && Disciplined(nonvoid, e)
    ensures Inv(nonvoid, Step(nonvoid, s, e))
  {
    OwedStep(nonvoid, s, e);
    GenuineStep(nonvoid, s, e);
  }

  lemma {:induction false} ReachesInv(nonvoid: set<nat>, es: seq<Event>, s: State)
    requires Reaches(nonvoid, es, s)
    ensures Inv(nonvoid, s)
    decreases |es|
  {
    if es != [] {
      var n := |es| - 1;
      var t :| Reaches(nonvoid, es[..n], t) && Disciplined(nonvoid, es[n]) && Enabled(nonvoid, t, es[n])
               && s == Step(nonvoid, t, es[n]);
      ReachesInv(nonvoid, es[..n], t);
      StepInv(nonvoid, t, es[n]);
    }
  }

  /** In every interleaving each typed call returned exactly what the server computed for that call, and
      the return stack is empty whenever no typed call is in progress. */
  lemma EveryCallGetsItsReply(nonvoid: set<nat>, es: seq<Event>, s: State)
    requires Reaches(nonvoid, es, s)
    ensures forall r :: r in s.results ==> r.call in s.served && r.payload == s.served[r.call]
    ensures s.waiting.None? ==> s.stack == []
    ensures s.waiting.Some? && s.stack != [] ==> |s.stack| == 1 && s.stack[0].id == s.waiting.value
  {
    ReachesInv(nonvoid, es, s);
    StackCarried(s.stack);
    if s.waiting.Some? && s.stack != [] { PopsOwn(nonvoid, s); }
  }

  // ----- Progress -----

  /** Steps of the two threads before the stack holds everything that was asked for. */
  function Distance(s: State): nat {
    2 * |s.requests| + |s.replies|
  }

  /** The event can happen, and pops the reply or brings it nearer. */
  predicate Nearer(nonvoid: set<nat>, s: State, e: Event) {
    Enabled(nonvoid, s, e) && (e.Pop? || Distance(Step(nonvoid, s, e)) < Distance(s))
  }

  /** A waiting typed call is never stuck: it can pop, or a thread can take a step that brings its reply
      nearer. */
  lemma WaitingProgresses(nonvoid: set<nat>, es: seq<Event>, s: State)
    requires Reaches(nonvoid, es, s) && s.waiting.Some?
    ensures exists e: Event :: Nearer(nonvoid, s, e)
  {
    ReachesInv(nonvoid, es, s);
    if s.stack != [] {
      assert Nearer(nonvoid, s, Pop);
    } else if s.replies != [] {
      assert Nearer(nonvoid, s, Receive);
    } else {
      assert s.requests != [];
      var payload: seq<byte> := if s.requests[0].proc in nonvoid then [0] else [];
      assert Nearer(nonvoid, s, Serve(payload));
    }
  }

  // ----- Every request is served -----

  /** The server answers the oldest request, and the receiving thread takes the oldest reply: on the stack if it
      carries anything. A call adds a request behind the others. */
  lemma StepMeans(nonvoid: set<nat>, s: State, e: Event)
    requires Enabled(nonvoid, s, e)
    ensures var t := Step(nonvoid, s, e);
            && ((e.CallTyped? || e.CallVoid?) ==>
                  t == s.(next := s.next + 1, requests := s.requests + [Request(s.next, e.proc)],
                          waiting := if e.CallTyped? then Some(s.next) else s.waiting))
            && (e.Serve? ==> s.requests != [] && t.requests == s.requests[1..]
                             && t.served == s.served[s.requests[0].id := e.payload]
                             && t.replies == s.replies + [Answer(s.requests[0].id, e.payload)])
            && (e.Receive? ==> s.replies != [] && t.replies == s.replies[1..]
                               && t.stack == s.stack + if s.replies[0].payload == [] then [] else [s.replies[0]])
  {
    if e.Receive? && s.replies[0].payload == [] { assert s.stack + [] == s.stack; }
  }

  /** Every call made so far has been served, or its request is waiting for the server. */
  ghost predicate Accounted(s: State) {
    forall id :: 0 <= id < s.next ==> id in s.served || exists i :: 0 <= i < |s.requests| && s.requests[i].id == id
  }

  lemma AccountedStep(nonvoid: set<nat>, s: State, e: Event)
    requires Accounted(s) && Enabled(nonvoid, s, e)
    ensures Accounted(Step(nonvoid, s, e))
  {
    var t := Step(nonvoid, s, e);
    forall id | 0 <= id < t.next
      ensures id in t.served || exists i :: 0 <= i < |t.requests| && t.requests[i].id == id
    {
      if id < s.next && id !in s.served {
        var i :| 0 <= i < |s.requests| && s.requests[i].id == id;
        match e
        case CallTyped(_) => assert t.requests[i].id == id;
        case CallVoid(_) => assert t.requests[i].id == id;
        case Serve(_) => if i > 0 { assert t.requests[i - 1].id == id; }
        case Receive => assert t.requests[i].id == id;
        case Pop => assert t.requests[i].id == id;
      } else if id == s.next {
        assert t.requests[|s.requests|].id == id;
      }
    }
  }

  lemma {:induction false} ReachesAccounted(nonvoid: set<nat>, es: seq<Event>, s: State)
    requires Reaches(nonvoid, es, s)
    ensures Accounted(s)
    decreases |es|
  {
    if es != [] {
      hide Step, Enabled, Accounted;
      var n := |es| - 1;
      var t :| Reaches(nonvoid, es[..n], t) && Disciplined(nonvoid, es[n]) && Enabled(nonvoid, t, es[n])
               && s == Step(nonvoid, t, es[n]);
      ReachesAccounted(nonvoid, es[..n], t);
      AccountedStep(nonvoid, t, es[n]);
    } else {
      NothingCalled();
    }
  }

  lemma NothingCalled()
    ensures Accounted(START)
  {
  }

  /** From every reachable state the server alone, by as many steps as there are requests, serves every call
      that was made, void calls too. */
  lemma {:induction false} EveryCallIsServed(nonvoid: set<nat>, es: seq<Event>, s: State) returns (more: seq<Event>, t: State)
    requires Reaches(nonvoid, es, s)
    ensures |more| == |s.requests| && (forall e :: e in more ==> e.Serve?) && Reaches(nonvoid, es + more, t)
    ensures t.next == s.next && t.requests == [] && forall id :: 0 <= id < s.next ==> id in t.served
    decreases |s.requests|
  {
    if s.requests == [] {
      more, t := [], s;
      assert es + more == es;
      ReachesAccounted(nonvoid, es, s);
    } else {
      var e := Serve(if s.requests[0].proc in nonvoid then [0] else []);
      var u := Step(nonvoid, s, e);
      assert (es + [e])[..|es|] == es && (es + [e])[|es|] == e;
      assert Reaches(nonvoid, es + [e], u);
      hide Reaches;
      var rest;
      rest, t := EveryCallIsServed(nonvoid, es + [e], u);
      more := [e] + rest;
      assert es + more == es + [e] + rest;
    }
  }

  // ----- Without the discipline -----

  /** One void call to a procedure that does return something, and the next typed call can return the
      reply to it. */
  lemma VoidCallMisleads(nonvoid: set<nat>, p: nat, q: nat, x: seq<byte>)
    requires p in nonvoid && q in nonvoid && x != []
    ensures var a := Step(nonvoid, START, CallVoid(p));
            && Enabled(nonvoid, a, Serve(x))
            && var b := Step(nonvoid, a, Serve(x));
            && Enabled(nonvoid, b, CallTyped(q))
            && var c := Step(nonvoid, b, CallTyped(q));
            && Enabled(nonvoid, c, Receive)
            && var d := Step(nonvoid, c, Receive);
            && Enabled(nonvoid, d, Pop)
            && var s := Step(nonvoid, d, Pop);
            s.results == [Result(1, x)] && 1 !in s.served
  {
  }

  /** A typed call to a procedure that returns nothing waits for ever: once its empty reply has been
      dropped nothing can happen on the connection. */
  lemma TypedCallOfVoidHangs(nonvoid: set<nat>, p: nat)
    requires p !in nonvoid
    ensures var s := Step(nonvoid, Step(nonvoid, Step(nonvoid, START, CallTyped(p)), Serve([])), Receive);
            s.waiting.Some? && forall e :: !Enabled(nonvoid, s, e)
  {
  }

  // ----- Exactly when the protocol is right -----

  /** Which procedures a client makes typed calls to, and which void calls. */
  datatype Policy = Policy(typed: set<nat>, voids: set<nat>)

  predicate Follows(p: Policy, e: Event) {
    (e.CallTyped? ==> e.proc in p.typed) && (e.CallVoid? ==> e.proc in p.voids)
  }

  /** s is reached from the start by events es that follow the policy, in any interleaving. */
  ghost predicate ReachesUnder(p: Policy, nonvoid: set<nat>, es: seq<Event>, s: State) {
    if es == [] then s == START
    else
      var n := |es| - 1;
      exists t :: ReachesUnder(p, nonvoid, es[..n], t) && StepsTo(p, nonvoid, t, es[n], s)
  }

  predicate StepsTo(p: Policy, nonvoid: set<nat>, t: State, e: Event, s: State) {
    Follows(p, e) && Enabled(nonvoid, t, e) && s == Step(nonvoid, t, e)
  }

  /** Every typed call returned the reply to that call, and a waiting one can make progress. */
  ghost predicate Right(nonvoid: set<nat>, s: State) {
    && (forall r :: r in s.results ==> r.call in s.served && r.payload == s.served[r.call])
    && (s.waiting.Some? ==> exists e :: Nearer(nonvoid, s, e))
  }

  ghost predicate AlwaysRight(p: Policy, nonvoid: set<nat>) {
    forall es, s :: ReachesUnder(p, nonvoid, es, s) ==> Right(nonvoid, s)
  }

  /** A client is served right in every interleaving exactly when its typed calls go to procedures that
      return something, and its void calls do not, unless it makes no typed calls at all. */
  lemma RightExactly(p: Policy, nonvoid: set<nat>)
    ensures AlwaysRight(p, nonvoid) <==> p.typed <= nonvoid && (p.typed == {} || p.voids !! nonvoid)
  {
    if p.typed <= nonvoid && (p.typed == {} || p.voids !! nonvoid) {
      forall es, s | ReachesUnder(p, nonvoid, es, s)
        ensures Right(nonvoid, s)
      {
        if p.typed == {} {
          OnlyVoidCalls(p, nonvoid, es, s);
        } else {
          UnderDiscipline(p, nonvoid, es, s);
          EveryCallGetsItsReply(nonvoid, es, s);
          if s.waiting.Some? { WaitingProgresses(nonvoid, es, s); }
        }
      }
    } else if q :| q in p.typed && q !in nonvoid {
      HangingRun(p, nonvoid, q);
    } else {
      var q :| q in p.typed;
      var v :| v in p.voids && v in nonvoid;
      MisledRun(p, nonvoid, v, q);
    }
  }

  lemma {:induction false} OnlyVoidCalls(p: Policy, nonvoid: set<nat>, es: seq<Event>, s: State)
    requires ReachesUnder(p, nonvoid, es, s) && p.typed == {}
    ensures s.waiting.None? && s.results == []
    decreases |es|
  {
    if es != [] {
      var n := |es| - 1;
      var t :| ReachesUnder(p, nonvoid, es[..n], t) && StepsTo(p, nonvoid, t, es[n], s);
      OnlyVoidCalls(p, nonvoid, es[..n], t);
    }
  }

  lemma {:induction false} UnderDiscipline(p: Policy, nonvoid: set<nat>, es: seq<Event>, s: State)
    requires ReachesUnder(p, nonvoid, es, s) && p.typed <= nonvoid && p.voids !! nonvoid
    ensures Reaches(nonvoid, es, s)
    decreases |es|
  {
    if es != [] {
      var n := |es| - 1;
      var t :| ReachesUnder(p, nonvoid, es[..n], t) && StepsTo(p, nonvoid, t, es[n], s);
      UnderDiscipline(p, nonvoid, es[..n], t);
      assert Disciplined(nonvoid, es[n]);
    }
  }

  lemma ReachesMore(p: Policy, nonvoid: set<nat>, es: seq<Event>, t: State, e: Event)
    requires ReachesUnder(p, nonvoid, es, t) && Follows(p, e) && Enabled(nonvoid, t, e)
    ensures ReachesUnder(p, nonvoid, es + [e], Step(nonvoid, t, e))
  {
    assert (es + [e])[..|es|] == es;
    assert StepsTo(p, nonvoid, t, (es + [e])[|es|], Step(nonvoid, t, e));
  }

  lemma HangingRun(p: Policy, nonvoid: set<nat>, q: nat)
    requires q in p.typed && q !in nonvoid
    ensures !AlwaysRight(p, nonvoid)
  {
    TypedCallOfVoidHangs(nonvoid, q);
    var a := Step(nonvoid, START, CallTyped(q));
    ReachesMore(p, nonvoid, [], START, CallTyped(q));
    var b := Step(nonvoid, a, Serve([]));
    ReachesMore(p, nonvoid, [] + [CallTyped(q)], a, Serve([]));
    var s := Step(nonvoid, b, Receive);
    ReachesMore(p, nonvoid, [] + [CallTyped(q)] + [Serve([])], b, Receive);
    assert !Right(nonvoid, s);
  }

  /** The reply to a void call is on the wire while the next, typed, call waits. */
  lemma MisledHalfway(p: Policy, nonvoid: set<nat>, v: nat, q: nat) returns (es: seq<Event>, c: State)
    requires v in p.voids && v in nonvoid && q in p.typed
    ensures ReachesUnder(p, nonvoid, es, c)
    ensures c == State(2, Some(1), [Request(1, q)], [Answer(0, [0])], [], map[0 := [0]], [])
  {
    var a := Step(nonvoid, START, CallVoid(v));
    ReachesMore(p, nonvoid, [], START, CallVoid(v));
    var b := Step(nonvoid, a, Serve([0]));
    ReachesMore(p, nonvoid, [] + [CallVoid(v)], a, Serve([0]));
    c := Step(nonvoid, b, CallTyped(q));
    ReachesMore(p, nonvoid, [] + [CallVoid(v)] + [Serve([0])], b, CallTyped(q));
    es := [] + [CallVoid(v)] + [Serve([0])] + [CallTyped(q)];
    hide ReachesUnder;
  }

  lemma NotAlways(p: Policy, nonvoid: set<nat>, es: seq<Event>, s: State, r: Result)
    requires ReachesUnder(p, nonvoid, es, s) && r in s.results && r.call !in s.served
    ensures !AlwaysRight(p, nonvoid)
  {
    assert !Right(nonvoid, s);
  }

  lemma {:induction false} MisledRun(p: Policy, nonvoid: set<nat>, v: nat, q: nat)
    requires v in p.voids && v in nonvoid && q in p.typed && q in nonvoid
    ensures !AlwaysRight(p, nonvoid)
  {
    var es, c := MisledHalfway(p, nonvoid, v, q);
    var d := State(2, Some(1), [Request(1, q)], [], [Answer(0, [0])], map[0 := [0]], []);
    var s := State(2, None, [Request(1, q)], [], [], map[0 := [0]], [Result(1, [0])]);
    LastSteps(nonvoid, c, d, s, q);
    hide ReachesUnder, AlwaysRight, Step, Enabled;
    ReachesMore(p, nonvoid, es, c, Receive);
    ReachesMore(p, nonvoid, es + [Receive], d, Pop);
    assert Result(1, [0]) in s.results;
    NotAlways(p, nonvoid, es + [Receive] + [Pop], s, Result(1, [0]));
  }

  lemma LastSteps(nonvoid: set<nat>, c: State, d: State, s: State, q: nat)
    requires c == State(2, Some(1), [Request(1, q)], [Answer(0, [0])], [], map[0 := [0]], [])
    requires d == State(2, Some(1), [Request(1, q)], [], [Answer(0, [0])], map[0 := [0]], [])
    requires s == State(2, None, [Request(1, q)], [], [], map[0 := [0]], [Result(1, [0])])
    ensures Enabled(nonvoid, c, Receive) && Step(nonvoid, c, Receive) == d
    ensures Enabled(nonvoid, d, Pop) && Step(nonvoid, d, Pop) == s
  {
    assert d.stack[..0] == [];
  }
}
