/** The event registry with its subscriptions and traffic statistics, as a value
    (network/mxevt.cpp keeps it in five parallel vectors and two maps). */
module EventSpec {
  import opened Collections
  import opened Bytes
  import opened Keys

  /** One event: its name, who is subscribed, the bytes counted for it, and per client. */
  datatype Info = Info(name: Key, subscribers: set<u64>, total: nat, io: map<u64, nat>)

  /** Event i + 1 is at index i. */
  type Board = seq<Info>

  datatype Op =
    | Register(name: Key)
    | Subscribe(name: Key, cid: u64)
    | Unsubscribe(name: Key, cid: u64)
    | Disconnect(cid: u64)
    | Count(eid: u16, cid: u64, bytes: nat, create: bool)
    | Tick

  /** The id of a name, 0 when it is not registered. */
  function IdOf(b: Board, name: Key): (id: nat)
    ensures id <= |b|
    ensures id > 0 ==> b[id - 1].name == name
    ensures id == 0 ==> forall i :: 0 <= i < |b| ==> b[i].name != name
  {
    if b == [] then 0
    else
      var n := |b| - 1;
      if b[n].name == name then |b| else IdOf(b[..n], name)
  }

  function Joined(e: Info, cid: u64): Info {
    e.(subscribers := e.subscribers + {cid}, io := if cid in e.io then e.io else e.io[cid := 0])
  }

  function Left(e: Info, cid: u64): Info {
    e.(subscribers := e.subscribers - {cid}, io := e.io - {cid})
  }

  /** A counted frame: the event's total always grows; a client's own count only if it has an entry. The
      frame that creates the entry is not counted for the client. */
  function Counted(e: Info, cid: u64, bytes: nat, create: bool): Info {
    e.(total := e.total + bytes,
       io := if cid in e.io then e.io[cid := e.io[cid] + bytes]
             else if create then e.io[cid := 0]
             else e.io)
  }

  function Cleared(e: Info): Info {
    e.(total := 0, io := map c | c in e.io :: 0)
  }

  function Apply(b: Board, op: Op): Board {
    match op
    case Register(name) => if IdOf(b, name) > 0 then b else b + [Info(name, {}, 0, map[])]
    case Subscribe(name, cid) =>
      var id := IdOf(b, name);
      if id == 0 || cid == 0 then b else b[id - 1 := Joined(b[id - 1], cid)]
    case Unsubscribe(name, cid) =>
      var id := IdOf(b, name);
      if id == 0 || cid == 0 || cid !in b[id - 1].subscribers then b else b[id - 1 := Left(b[id - 1], cid)]
    case Disconnect(cid) => seq(|b|, i requires 0 <= i < |b| => Left(b[i], cid))
    case Count(eid, cid, bytes, create) =>
      if eid == 0 || eid > |b| then b else b[eid - 1 := Counted(b[eid - 1], cid, bytes, create)]
    case Tick => seq(|b|, i requires 0 <= i < |b| => Cleared(b[i]))
  }

  // ----- What every state keeps -----

  ghost function Sum(m: map<u64, nat>): nat
    decreases |m|
  {
    if m == map[] then 0
    else
      var k :| k in m;
      m[k] + Sum(m - {k})
  }

  lemma {:induction false} SumRemove(m: map<u64, nat>, k: u64)
    requires k in m
    ensures Sum(m) == m[k] + Sum(m - {k})
    decreases |m|
  {
    var c :| c in m && Sum(m) == m[c] + Sum(m - {c});
    if c != k {
      SumRemove(m - {c}, k);
      SumRemove(m - {k}, c);
      assert m - {c} - {k} == m - {k} - {c};
    }
  }

  lemma SumUpdate(m: map<u64, nat>, k: u64, v: nat)
    ensures k in m ==> Sum(m[k := v]) == Sum(m) - m[k] + v
    ensures k !in m ==> Sum(m[k := v]) == Sum(m) + v
  {
    SumRemove(m[k := v], k);
    assert m[k := v] - {k} == m - {k};
    if k in m {
      SumRemove(m, k);
    } else {
      assert m - {k} == m;
    }
  }

  lemma {:induction false} SumZero(m: map<u64, nat>)
    requires forall k :: k in m ==> m[k] == 0
    ensures Sum(m) == 0
    decreases |m|
  {
    if m != map[] {
      var k :| k in m && Sum(m) == m[k] + Sum(m - {k});
      SumZero(m - {k});
    }
  }

  /** Every subscriber has a statistics entry, the server never subscribes, and the clients' counts never
      exceed the event's. */
  ghost predicate Sound(e: Info) {
    e.subscribers <= e.io.Keys && 0 !in e.subscribers && Sum(e.io) <= e.total
  }

  ghost predicate Inv(b: Board) {
    && (forall i :: 0 <= i < |b| ==> Sound(b[i]))
    && (forall i, j :: 0 <= i < j < |b| ==> b[i].name != b[j].name)
  }

  lemma InfoSteps(e: Info, cid: u64, bytes: nat, create: bool)
    requires Sound(e)
    ensures cid != 0 ==> Sound(Joined(e, cid))
    ensures Sound(Left(e, cid)) && Sound(Counted(e, cid, bytes, create)) && Sound(Cleared(e))
  {
    SumUpdate(e.io, cid, 0);
    if cid in e.io {
      SumRemove(e.io, cid);
      SumUpdate(e.io, cid, e.io[cid] + bytes);
    } else {
      assert e.io - {cid} == e.io;
    }
    SumZero(Cleared(e).io);
  }

  lemma ApplyInv(b: Board, op: Op)
    requires Inv(b)
    ensures Inv(Apply(b, op))
  {
    hide Sound, IdOf, Apply;
    NamesKept(b, op);
    var c := Apply(b, op);
    forall i | 0 <= i < |c|
      ensures Sound(c[i])
    {
      ApplySound(b, op, i);
    }
    forall i, j | 0 <= i < j < |c|
      ensures c[i].name != c[j].name
    {
      if j < |b| {
        assert b[i].name != b[j].name;
      }
    }
  }

  lemma ApplySound(b: Board, op: Op, i: nat)
    requires Inv(b) && i < |Apply(b, op)|
    ensures Sound(Apply(b, op)[i])
  {
    hide Sound, Joined, Left, Counted, Cleared, IdOf;
    if i < |b| {
      var cid := if op.Subscribe? || op.Unsubscribe? || op.Disconnect? || op.Count? then op.cid else 0;
      InfoSteps(b[i], cid, if op.Count? then op.bytes else 0, op.Count? && op.create);
    } else {
      NamesKept(b, op);
      FreshSound(op.name);
    }
  }

  lemma FreshSound(name: Key)
    ensures Sound(Info(name, {}, 0, map[]))
  {
  }

  lemma NamesKept(b: Board, op: Op)
    ensures |Apply(b, op)| == |b| || (op.Register? && Apply(b, op) == b + [Info(op.name, {}, 0, map[])] && IdOf(b, op.name) == 0)
    ensures forall i :: 0 <= i < |b| ==> Apply(b, op)[i].name == b[i].name
  {
  }

  function Run(b: Board, ops: seq<Op>): Board {
    if ops == [] then b else Apply(Run(b, ops[..|ops| - 1]), ops[|ops| - 1])
  }

  lemma {:induction false} RunGrows(ops: seq<Op>, n: nat)
    requires n <= |ops|
    ensures |Run([], ops[..n])| <= |Run([], ops)|
    decreases |ops|
  {
    hide Apply;
    if n == |ops| {
      assert ops[..n] == ops;
    } else {
      var init, op := ops[..|ops| - 1], ops[|ops| - 1];
      assert ops[..n] == init[..n];
      RunGrows(init, n);
      NamesKept(Run([], init), op);
    }
  }

  lemma {:induction false} RunInv(ops: seq<Op>)
    ensures Inv(Run([], ops))
  {
    if ops != [] {
      RunInv(ops[..|ops| - 1]);
      ApplyInv(Run([], ops[..|ops| - 1]), ops[|ops| - 1]);
    }
  }

  ghost predicate Absent(b: Board, cid: u64) {
    forall i :: 0 <= i < |b| ==> cid !in b[i].subscribers && cid !in b[i].io
  }

  /** What makes entries for a client: subscribing, and sending a frame. Frames on their way to a client
      are counted without making one. */
  predicate Mentions(op: Op, cid: u64) {
    (op.Subscribe? || (op.Count? && op.create)) && op.cid == cid
  }

  /** After a disconnect, and until the client subscribes or sends again, it is in no subscription and in
      no entry, whatever the others do, and whatever is still sent to it. */
  lemma {:induction false} GoneUntilBack(b: Board, cid: u64, ops: seq<Op>)
    requires forall op :: op in ops ==> !Mentions(op, cid)
    ensures Absent(Run(Apply(b, Disconnect(cid)), ops), cid)
    ensures var c := Run(Apply(b, Disconnect(cid)), ops);
            forall i :: 0 <= i < |c| ==> cid !in c[i].subscribers && cid !in c[i].io
  {
    if ops != [] {
      var n := |ops| - 1;
      GoneUntilBack(b, cid, ops[..n]);
      var s := Run(Apply(b, Disconnect(cid)), ops[..n]);
      assert !Mentions(ops[n], cid);
      StaysAbsent(s, cid, ops[n]);
    }
  }

  lemma StaysAbsent(b: Board, cid: u64, op: Op)
    requires Absent(b, cid) && !Mentions(op, cid)
    ensures Absent(Apply(b, op), cid)
  {
    NamesKept(b, op);
  }

  /** An id, once given, names the same event for ever, and different names have different ids. */
  lemma {:induction false} IdsAreStable(b: Board, ops: seq<Op>, name: Key)
    requires Inv(b) && IdOf(b, name) > 0
    ensures IdOf(Run(b, ops), name) == IdOf(b, name)
    ensures Inv(Run(b, ops)) && |b| <= |Run(b, ops)|
  {
    hide Inv, IdOf, Apply;
    if ops != [] {
      var n := |ops| - 1;
      IdsAreStable(b, ops[..n], name);
      IdStep(Run(b, ops[..n]), ops[n], name);
    }
  }

  lemma IdStep(b: Board, op: Op, name: Key)
    requires Inv(b) && IdOf(b, name) > 0
    ensures IdOf(Apply(b, op), name) == IdOf(b, name)
    ensures Inv(Apply(b, op)) && |b| <= |Apply(b, op)|
  {
    hide Inv, IdOf, Apply;
    ApplyInv(b, op);
    NamesKept(b, op);
    var i := IdOf(b, name) - 1;
    assert Apply(b, op)[i].name == name;
    IdUnique(Apply(b, op), name, i);
  }

  lemma IdUnique(b: Board, name: Key, i: nat)
    requires Inv(b) && i < |b| && b[i].name == name
    ensures IdOf(b, name) == i + 1
  {
    assert forall j :: 0 <= j < |b| && j != i ==> b[j].name != name by {
      assert forall j :: 0 <= j < i ==> b[j].name != b[i].name;
      assert forall j :: i < j < |b| ==> b[i].name != b[j].name;
    }
  }

  // ----- What one operation does -----

  /** A registration adds an empty event at the end, unless the name is known; no operation changes a name. */
  lemma RegisterMeans(b: Board, op: Op)
    ensures op.Register? ==>
              Apply(b, op) == if exists i :: 0 <= i < |b| && b[i].name == op.name then b else b + [Info(op.name, {}, 0, map[])]
    ensures !op.Register? ==> |Apply(b, op)| == |b|
    ensures forall i :: 0 <= i < |b| ==> i < |Apply(b, op)| && Apply(b, op)[i].name == b[i].name
  {
    if op.Register? && IdOf(b, op.name) > 0 { assert b[IdOf(b, op.name) - 1].name == op.name; }
  }

  /** Who is subscribed to event i + 1 afterwards: subscribing adds the client to the named event,
      unsubscribing removes it there, disconnecting removes it everywhere, and nothing else matters. */
  lemma SubscribersAfter(b: Board, op: Op, i: nat)
    requires i < |b|
    ensures i < |Apply(b, op)|
    ensures op.Subscribe? && op.cid != 0 && i + 1 == IdOf(b, op.name) ==>
              Apply(b, op)[i].subscribers == b[i].subscribers + {op.cid}
    ensures op.Unsubscribe? && op.cid != 0 && i + 1 == IdOf(b, op.name) ==>
              Apply(b, op)[i].subscribers == b[i].subscribers - {op.cid}
    ensures op.Disconnect? ==> Apply(b, op)[i].subscribers == b[i].subscribers - {op.cid}
    ensures !op.Disconnect? && !((op.Subscribe? || op.Unsubscribe?) && op.cid != 0 && i + 1 == IdOf(b, op.name)) ==>
              Apply(b, op)[i].subscribers == b[i].subscribers
  {
    hide IdOf;
    NamesKept(b, op);
  }

  /** What is counted for event i + 1 afterwards. */
  lemma TotalAfter(b: Board, op: Op, i: nat)
    requires i < |b|
    ensures i < |Apply(b, op)|
    ensures Apply(b, op)[i].total ==
            if op.Tick? then 0
            else if op.Count? && op.eid == i + 1 then b[i].total + op.bytes
            else b[i].total
  {
    hide IdOf;
    NamesKept(b, op);
  }

  /** A client's count for an event, if it has an entry. */
  function Counter(e: Info, c: u64): Option<nat> {
    if c in e.io then Some(e.io[c]) else None
  }

  /** What is counted for client c at event i + 1 afterwards, if it has an entry. */
  lemma EntryAfter(b: Board, op: Op, i: nat, c: u64)
    requires i < |b|
    ensures i < |Apply(b, op)|
    ensures op.Subscribe? && op.cid == c != 0 && i + 1 == IdOf(b, op.name) ==>
              Counter(Apply(b, op)[i], c) == Some(if c in b[i].io then b[i].io[c] else 0)
    ensures op.Unsubscribe? && op.cid == c != 0 && i + 1 == IdOf(b, op.name) && c in b[i].subscribers ==>
              Counter(Apply(b, op)[i], c) == None
    ensures op.Disconnect? && op.cid == c ==> Counter(Apply(b, op)[i], c) == None
    ensures op.Count? && op.eid == i + 1 && op.cid == c ==>
              Counter(Apply(b, op)[i], c) == if c in b[i].io then Some(b[i].io[c] + op.bytes) else if op.create then Some(0) else None
    ensures op.Tick? ==> Counter(Apply(b, op)[i], c) == if c in b[i].io then Some(0) else None
    ensures && !op.Tick? && !(op.Disconnect? && op.cid == c) && !(op.Count? && op.eid == i + 1 && op.cid == c)
            && !(op.Subscribe? && op.cid == c != 0 && i + 1 == IdOf(b, op.name))
            && !(op.Unsubscribe? && op.cid == c != 0 && i + 1 == IdOf(b, op.name) && c in b[i].subscribers) ==>
              Counter(Apply(b, op)[i], c) == Counter(b[i], c)
  {
    hide IdOf;
    NamesKept(b, op);
  }

  // ----- Who receives an event -----

  /** A name is known exactly when it was registered in the run. */
  lemma {:induction false} RegisteredExactly(ops: seq<Op>, name: Key)
    ensures IdOf(Run([], ops), name) > 0 <==> Register(name) in ops
  {
    if ops != [] {
      var init, op := ops[..|ops| - 1], ops[|ops| - 1];
      var b := Run([], init);
      RegisteredExactly(init, name);
      RunInv(ops);
      RunInv(init);
      assert ops == init + [op];
      if IdOf(b, name) > 0 {
        IdStep(b, op, name);
      } else {
        hide Run, IdOf;
        UnknownStep(b, op, name);
      }
    }
  }

  lemma UnknownStep(b: Board, op: Op, name: Key)
    requires Inv(b) && IdOf(b, name) == 0
    ensures IdOf(Apply(b, op), name) > 0 <==> op == Register(name)
  {
    RegisterMeans(b, op);
    ApplyInv(b, op);
    var c := Apply(b, op);
    hide IdOf, Apply;
    if op == Register(name) {
      assert c == b + [Info(name, {}, 0, map[])];
      assert c[|b|].name == name;
      IdUnique(c, name, |b|);
    } else {
      forall i | 0 <= i < |c|
        ensures c[i].name != name
      {
        if i < |b| { assert c[i].name == b[i].name; }
      }
    }
  }

  /** Whether the operation takes the client off the named event. */
  predicate Removes(op: Op, name: Key, cid: u64) {
    op == Unsubscribe(name, cid) || op == Disconnect(cid)
  }

  /** Subscribe i was accepted, the event being registered before, and nothing later removed the client. */
  ghost predicate StillSubscribed(ops: seq<Op>, name: Key, cid: u64, i: nat) {
    && i < |ops| && ops[i] == Subscribe(name, cid) && cid != 0 && Register(name) in ops[..i]
    && forall j :: i < j < |ops| ==> ops[j] != Unsubscribe(name, cid) && ops[j] != Disconnect(cid)
  }

  /** In every run a client receives a named event exactly when an accepted subscription comes after its last
      unsubscription and its last disconnect. */
  lemma ReceivesExactly(ops: seq<Op>, name: Key, cid: u64)
    ensures var b := Run([], ops);
            (IdOf(b, name) > 0 && cid in b[IdOf(b, name) - 1].subscribers) <==> exists i :: StillSubscribed(ops, name, cid, i)
  {
    hide Run, IdOf, StillSubscribed;
    ReceivesStanding(ops, name, cid);
  }

  ghost predicate Standing(ops: seq<Op>, name: Key, cid: u64) {
    exists i :: StillSubscribed(ops, name, cid, i)
  }

  lemma {:induction false} ReceivesStanding(ops: seq<Op>, name: Key, cid: u64)
    ensures Receives(Run([], ops), name, cid) <==> Standing(ops, name, cid)
  {
    hide IdOf, Apply, Inv, Standing, Receives;
    if ops == [] {
      NobodyYet(name, cid);
    } else {
      var init, op := ops[..|ops| - 1], ops[|ops| - 1];
      ReceivesStanding(init, name, cid);
      RegisteredExactly(init, name);
      RunInv(init);
      ReceiverStep(Run([], init), op, name, cid);
      SubscriptionStep(init, op, name, cid);
      assert ops == init + [op];
    }
  }

  lemma NobodyYet(name: Key, cid: u64)
    ensures !Receives(Run([], []), name, cid) && !Standing([], name, cid)
  {
  }

  ghost predicate Receives(b: Board, name: Key, cid: u64) {
    IdOf(b, name) > 0 && cid in b[IdOf(b, name) - 1].subscribers
  }

  lemma ReceiverStep(b: Board, op: Op, name: Key, cid: u64)
    requires Inv(b)
    ensures Receives(Apply(b, op), name, cid) <==>
              if op == Subscribe(name, cid) && cid != 0 && IdOf(b, name) > 0 then true
              else Receives(b, name, cid) && !Removes(op, name, cid)
  {
    if IdOf(b, name) > 0 {
      IdStep(b, op, name);
      KnownReceiver(b, op, name, cid);
    } else {
      UnknownStep(b, op, name);
      hide IdOf, Inv;
      if op == Register(name) { NewHasNone(b, name); }
    }
  }

  lemma NewHasNone(b: Board, name: Key)
    requires Inv(b) && IdOf(b, name) == 0
    ensures var c := Apply(b, Register(name));
            IdOf(c, name) == |b| + 1 == |c| && c[|b|].subscribers == {}
  {
    ApplyInv(b, Register(name));
    RegisterMeans(b, Register(name));
    IdUnique(Apply(b, Register(name)), name, |b|);
  }

  lemma KnownReceiver(b: Board, op: Op, name: Key, cid: u64)
    requires Inv(b) && IdOf(b, name) > 0 && IdOf(b, name) == IdOf(Apply(b, op), name)
    ensures Receives(Apply(b, op), name, cid) <==>
              if op == Subscribe(name, cid) && cid != 0 then true else Receives(b, name, cid) && !Removes(op, name, cid)
  {
    hide IdOf, Apply, Inv;
    var i := IdOf(b, name) - 1;
    SubscribersAfter(b, op, i);
    OtherId(b, op, name);
    NotTheServer(b, i);
  }

  lemma NotTheServer(b: Board, i: nat)
    requires Inv(b) && i < |b|
    ensures 0 !in b[i].subscribers
  {
    assert Sound(b[i]);
  }

  lemma OtherId(b: Board, op: Op, name: Key)
    requires IdOf(b, name) > 0
    ensures op.Subscribe? || op.Unsubscribe? ==> (IdOf(b, op.name) == IdOf(b, name) <==> op.name == name)
  {
  }

  lemma SubscriptionStep(init: seq<Op>, op: Op, name: Key, cid: u64)
    ensures Standing(init + [op], name, cid) <==>
              if op == Subscribe(name, cid) && cid != 0 && Register(name) in init then true
              else Standing(init, name, cid) && !Removes(op, name, cid)
  {
    var ops := init + [op];
    assert forall j :: 0 <= j <= |init| ==> ops[..j] == init[..j];
    assert init[..|init|] == init;
    assert forall j :: 0 <= j < |init| ==> ops[j] == init[j];
    if op == Subscribe(name, cid) && cid != 0 && Register(name) in init {
      assert StillSubscribed(ops, name, cid, |init|);
    } else {
      if i: nat :| StillSubscribed(ops, name, cid, i) {
        assert ops[|init|] == op;
        assert i != |init|;
        assert StillSubscribed(init, name, cid, i);
      }
      if i: nat :| StillSubscribed(init, name, cid, i) && !Removes(op, name, cid) {
        assert StillSubscribed(ops, name, cid, i);
      }
    }
  }

  // ----- Where the bytes of an event are counted -----

  /** The frame is added to the client's own count exactly when the client already has an entry. */
  lemma CountedForClient(e: Info, cid: u64, bytes: nat, create: bool)
    requires bytes > 0
    ensures var f := Counted(e, cid, bytes, create);
            && f.total == e.total + bytes
            && ((cid in f.io && f.io[cid] == (if cid in e.io then e.io[cid] else 0) + bytes) <==> cid in e.io)
            && forall c :: c != cid ==> (c in f.io <==> c in e.io) && (c in e.io ==> f.io[c] == e.io[c])
  {
  }

  /** The first frame of a client that never subscribed: 100 bytes for the event, none for the client. */
  lemma FirstFrameUncounted(name: Key)
    ensures var b := Run([], [Register(name), Count(1, 7, 100, true)]);
            |b| == 1 && b[0].total == 100 && b[0].io == map[7 := 0]
  {
    var ops := [Register(name), Count(1, 7, 100, true)];
    assert ops[..1] == [Register(name)] && [Register(name)][..0] == [];
    assert Run([], ops[..1]) == [Info(name, {}, 0, map[])];
  }

  /** What an event's total holds beyond its clients' counts: bytes of frames whose client had no entry,
      and counts of clients that have left. */
  datatype Beyond = Beyond(unseen: nat, departed: nat)

  /** The count that leaves event i + 1 with a client. */
  function Departing(b: Board, op: Op, i: nat): nat
    requires i < |b| <= |Apply(b, op)|
  {
    if (op.Unsubscribe? || op.Disconnect?) && op.cid in b[i].io && op.cid !in Apply(b, op)[i].io then b[i].io[op.cid] else 0
  }

  /** The two sums for event i + 1 since the last Tick. */
  function BeyondClients(ops: seq<Op>, i: nat): Beyond {
    if ops == [] then Beyond(0, 0)
    else
      var b, op := Run([], ops[..|ops| - 1]), ops[|ops| - 1];
      var r := BeyondClients(ops[..|ops| - 1], i);
      NamesKept(b, op);
      if i >= |b| || op.Tick? then Beyond(0, 0)
      else
        var unseen := if op.Count? && op.eid == i + 1 && op.cid !in b[i].io then op.bytes else 0;
        Beyond(r.unseen + unseen, r.departed + Departing(b, op, i))
  }

  /** In every run the total of an event is exactly the sum of its clients' counts, the frames whose client
      had no entry, and the counts of the clients that left, since the last Tick. */
  lemma {:induction false} TotalsAddUp(ops: seq<Op>, i: nat)
    requires i < |Run([], ops)|
    ensures var e, r := Run([], ops)[i], BeyondClients(ops, i);
            e.total == Sum(e.io) + r.unseen + r.departed
  {
    var init, op := ops[..|ops| - 1], ops[|ops| - 1];
    var b := Run([], init);
    NamesKept(b, op);
    if i < |b| {
      TotalsAddUp(init, i);
      hide Run, BeyondClients;
      TotalStep(b, op, i);
    }
  }

  lemma TotalStep(b: Board, op: Op, i: nat)
    requires i < |b| <= |Apply(b, op)|
    ensures var e, f := b[i], Apply(b, op)[i];
            if op.Tick? then f.total == 0 == Sum(f.io)
            else
              f.total - Sum(f.io) == e.total - Sum(e.io)
                + (if op.Count? && op.eid == i + 1 && op.cid !in e.io then op.bytes else 0) + Departing(b, op, i)
  {
    hide IdOf;
    var e := b[i];
    match op
    case Register(_) =>
    case Subscribe(_, cid) => SumUpdate(e.io, cid, 0);
    case Unsubscribe(_, cid) => SumLeft(e.io, cid);
    case Disconnect(cid) => SumLeft(e.io, cid);
    case Count(_, cid, bytes, _) => SumUpdate(e.io, cid, if cid in e.io then e.io[cid] + bytes else 0);
    case Tick => SumZero(Cleared(e).io);
  }

  lemma SumLeft(m: map<u64, nat>, cid: u64)
    ensures Sum(m) == Sum(m - {cid}) + if cid in m then m[cid] else 0
  {
    if cid in m { SumRemove(m, cid); } else { assert m - {cid} == m; }
  }
}
