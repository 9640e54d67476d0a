/** The event server's tables (network/mxevt.cpp): the registry, the subscriptions and the statistics in
    parallel vectors, updated in place. They refine the board of module EventSpec. */
module Events {
  import opened Collections
  import opened Bytes
  import opened Keys
  import opened EventSpec

  function IndexIn(cs: seq<u64>, c: u64): (i: nat)
    ensures i <= |cs| && (i < |cs| ==> cs[i] == c) && c !in cs[..i]
  {
    if cs == [] then 0
    else if cs[0] == c then 0
    else
      var i := IndexIn(cs[1..], c);
      assert cs[..1 + i] == [cs[0]] + cs[1..][..i];
      1 + i
  }

  predicate NoRepeats(cs: seq<u64>) {
    forall i, j :: 0 <= i < j < |cs| ==> cs[i] != cs[j]
  }

  /** A clients vector and its frames vector, as a map. */
  function IoOf(cs: seq<u64>, fs: seq<nat>): (m: map<u64, nat>)
    requires |cs| == |fs|
    ensures forall c :: c in m <==> c in cs
  {
    map c | c in cs :: fs[IndexIn(cs, c)]
  }

  lemma IoAt(cs: seq<u64>, fs: seq<nat>, i: nat)
    requires |cs| == |fs| && NoRepeats(cs) && i < |cs|
    ensures IndexIn(cs, cs[i]) == i && IoOf(cs, fs)[cs[i]] == fs[i]
  {
    var j := IndexIn(cs, cs[i]);
    assert forall k :: 0 <= k < j ==> cs[..j][k] == cs[k] && cs[k] != cs[i];
  }

  /** EvtMakeStatsEntry */
  lemma IoAppend(cs: seq<u64>, fs: seq<nat>, c: u64, f: nat)
    requires |cs| == |fs| && NoRepeats(cs) && c !in cs
    ensures NoRepeats(cs + [c]) && IoOf(cs + [c], fs + [f]) == IoOf(cs, fs)[c := f]
  {
    hide IoOf, IndexIn;
    var ds, gs := cs + [c], fs + [f];
    assert NoRepeats(ds);
    forall i | 0 <= i < |ds|
      ensures IoOf(ds, gs)[ds[i]] == IoOf(cs, fs)[c := f][ds[i]]
    {
      IoAt(ds, gs, i);
      if i < |cs| { IoAt(cs, fs, i); }
    }
  }

  /** EvtAccumulateEventStatistics */
  lemma IoUpdate(cs: seq<u64>, fs: seq<nat>, i: nat, f: nat)
    requires |cs| == |fs| && NoRepeats(cs) && i < |cs|
    ensures IoOf(cs, fs[i := f]) == IoOf(cs, fs)[cs[i] := f]
  {
    hide IoOf, IndexIn;
    forall j | 0 <= j < |cs|
      ensures IoOf(cs, fs[i := f])[cs[j]] == IoOf(cs, fs)[cs[i] := f][cs[j]]
    {
      IoAt(cs, fs[i := f], j);
      IoAt(cs, fs, j);
    }
  }

  /** EvtDeleteStatsEntry */
  lemma IoErase(cs: seq<u64>, fs: seq<nat>, i: nat)
    requires |cs| == |fs| && NoRepeats(cs) && i < |cs|
    ensures NoRepeats(Without(cs, i)) && IoOf(Without(cs, i), Without(fs, i)) == IoOf(cs, fs) - {cs[i]}
  {
    hide Without, IoOf, IndexIn;
    var ds, gs := Without(cs, i), Without(fs, i);
    ErasedKeys(cs, i);
    assert IoOf(ds, gs).Keys == (IoOf(cs, fs) - {cs[i]}).Keys;
    forall j | 0 <= j < |ds|
      ensures IoOf(ds, gs)[ds[j]] == IoOf(cs, fs)[ds[j]]
    {
      IoAt(ds, gs, j);
      IoAt(cs, fs, if j < i then j else j + 1);
    }
  }

  lemma ErasedKeys(cs: seq<u64>, i: nat)
    requires NoRepeats(cs) && i < |cs|
    ensures NoRepeats(Without(cs, i))
    ensures forall c :: c in Without(cs, i) <==> c in cs && c != cs[i]
  {
    hide Without;
    var ds := Without(cs, i);
    forall c | c in cs && c != cs[i]
      ensures c in ds
    {
      var k := IndexIn(cs, c);
      assert ds[if k < i then k else k - 1] == c;
    }
  }

  lemma IoCleared(cs: seq<u64>, fs: seq<nat>)
    requires |cs| == |fs|
    ensures IoOf(cs, seq(|fs|, _ => 0)) == map c | c in IoOf(cs, fs) :: 0
  {
  }

  /** The tables as a value: the registry, the next id less one, the subscriptions, the statistics vectors. */
  datatype Tables = Tables(reg: map<Key, u16>, next: u16, subs: map<u16, set<u64>>, names: seq<Key>,
                           totals: seq<nat>, clients: seq<seq<u64>>, frames: seq<seq<nat>>)

  /** The ids are exactly 1 to n, one for each name. */
  ghost predicate Registered(reg: map<Key, u16>, names: seq<Key>) {
    && (forall n :: n in reg ==> 1 <= reg[n] <= |names| && names[reg[n] - 1] == n)
    && (forall i :: 0 <= i < |names| ==> names[i] in reg && reg[names[i]] == i + 1)
  }

  /** The vectors are aligned, and every clients vector is duplicate-free. */
  ghost predicate Aligned(t: Tables) {
    && |t.names| == |t.totals| == |t.clients| == |t.frames| == t.next
    && (forall i :: 0 <= i < t.next ==> |t.clients[i]| == |t.frames[i]| && NoRepeats(t.clients[i]))
    && (forall e :: e in t.subs <==> 1 <= e <= t.next)
  }

  ghost predicate Shape(t: Tables) {
    Aligned(t) && Registered(t.reg, t.names)
  }

  ghost function InfoAt(t: Tables, i: nat): Info
    requires Aligned(t) && i < t.next
  {
    Info(t.names[i], t.subs[i + 1], t.totals[i], IoOf(t.clients[i], t.frames[i]))
  }

  /** The board that aligned tables stand for. */
  ghost function BoardOf(t: Tables): (b: Board)
    requires Aligned(t)
    ensures |b| == t.next
    ensures forall i :: 0 <= i < t.next ==> b[i] == InfoAt(t, i)
  {
    seq(t.next as nat, i requires 0 <= i < t.next => InfoAt(t, i))
  }

  /** A client has an entry on the board when it is in the clients vector. */
  lemma EntryOf(t: Tables, i: nat, cid: u64)
    requires Aligned(t) && i < t.next
    ensures cid in BoardOf(t)[i].io <==> cid in t.clients[i]
  {
  }

  lemma NamesOnBoard(t: Tables)
    requires Aligned(t)
    ensures forall i :: 0 <= i < t.next ==> BoardOf(t)[i].name == t.names[i]
  {
  }

  lemma Lookup(t: Tables, name: Key)
    requires Shape(t) && Inv(BoardOf(t))
    ensures name in t.reg <==> IdOf(BoardOf(t), name) > 0
    ensures name in t.reg ==> t.reg[name] == IdOf(BoardOf(t), name)
  {
    hide IoOf, IdOf, InfoAt, Registered;
    NamesOnBoard(t);
    LookupNames(t.reg, t.names, BoardOf(t), name);
  }

  lemma LookupNames(reg: map<Key, u16>, names: seq<Key>, b: Board, name: Key)
    requires Registered(reg, names) && |b| == |names| && Inv(b)
    requires forall i :: 0 <= i < |b| ==> b[i].name == names[i]
    ensures name in reg <==> IdOf(b, name) > 0
    ensures name in reg ==> reg[name] == IdOf(b, name)
  {
    hide IdOf, Inv;
    if name in reg {
      assert b[reg[name] - 1].name == name;
      IdUnique(b, name, reg[name] - 1);
    } else {
      assert forall i :: 0 <= i < |b| ==> b[i].name in reg;
    }
  }

  lemma NewName(reg: map<Key, u16>, names: seq<Key>, name: Key, id: u16)
    requires Registered(reg, names) && name !in reg && id == |names| + 1
    ensures Registered(reg[name := id], names + [name])
  {
  }

  /** A new event at the end of every table. */
  lemma Added(t: Tables, name: Key, id: u16)
    requires Shape(t) && name !in t.reg && id == t.next + 1
    ensures var u := Tables(t.reg[name := id], id, t.subs[id := {}], t.names + [name], t.totals + [0], t.clients + [[]], t.frames + [[]]);
            Shape(u) && BoardOf(u) == BoardOf(t) + [Info(name, {}, 0, map[])]
  {
    hide IoOf;
    var u := Tables(t.reg[name := id], id, t.subs[id := {}], t.names + [name], t.totals + [0], t.clients + [[]], t.frames + [[]]);
    NewName(t.reg, t.names, name, id);
    hide Registered;
    assert Aligned(u);
    EmptyIo();
    assert forall i :: 0 <= i < t.next ==> InfoAt(u, i) == InfoAt(t, i);
    assert InfoAt(u, t.next as nat) == Info(name, {}, 0, map[]);
  }

  lemma EmptyIo()
    ensures IoOf([], []) == map[]
  {
  }

  /** New subscribers, counters or entries for one event. */
  lemma Updated(t: Tables, i: nat, sub: set<u64>, total: nat, cs: seq<u64>, fs: seq<nat>)
    requires Shape(t) && i < t.next && |cs| == |fs| && NoRepeats(cs)
    ensures var u := t.(subs := t.subs[i + 1 := sub], totals := t.totals[i := total],
                        clients := t.clients[i := cs], frames := t.frames[i := fs]);
            Shape(u) && BoardOf(u) == BoardOf(t)[i := Info(t.names[i], sub, total, IoOf(cs, fs))]
  {
    hide IoOf, Registered, NoRepeats;
    var u := t.(subs := t.subs[i + 1 := sub], totals := t.totals[i := total],
                clients := t.clients[i := cs], frames := t.frames[i := fs]);
    assert Aligned(u);
    assert forall j :: 0 <= j < t.next ==> InfoAt(u, j) == if j == i then Info(t.names[i], sub, total, IoOf(cs, fs)) else InfoAt(t, j);
  }

  class EventTables {
    var reg: map<Key, u16>           // _evt_server_reg
    var next: u16                    // _evt_server_reg_next
    var subs: map<u16, set<u64>>     // _evt_current_subscriptions
    var len: nat                     // _evt_event_stats._len
    var names: seq<Key>              // and its vectors
    var totals: seq<nat>
    var clients: seq<seq<u64>>
    var frames: seq<seq<nat>>

    ghost function Now(): Tables
      reads this
    {
      Tables(reg, next, subs, names, totals, clients, frames)
    }

    ghost predicate Valid()
      reads this
    {
      len == next && Shape(Now()) && Inv(BoardOf(Now()))
    }

    ghost function Board(): Board
      reads this
      requires Valid()
    {
      BoardOf(Now())
    }

    lemma NextIsLength()
      requires Valid()
      ensures |Board()| == next
    {
    }

    lemma Opened()
      requires Valid()
      ensures len == next && Shape(Now()) && Inv(BoardOf(Now())) && Board() == BoardOf(Now())
    {
    }

    lemma Closed()
      requires len == next && Shape(Now()) && Inv(BoardOf(Now()))
      ensures Valid() && Board() == BoardOf(Now())
    {
    }

    lemma Length()
      requires Shape(Now())
      ensures Aligned(Now()) && |BoardOf(Now())| == next == |clients|
    {
    }

    constructor ()
      ensures Valid() && Board() == []
    {
      reg, next, subs, len := map[], 0, map[], 0;
      names, totals, clients, frames := [], [], [], [];
    }

    /** std::find in a clients vector */
    method FindClient(i: nat, cid: u64) returns (k: nat)
      requires i < |clients|
      ensures k == IndexIn(clients[i], cid)
      ensures k == |clients[i]| <==> cid !in clients[i]
    {
      k := 0;
      while k < |clients[i]| && clients[i][k] != cid
        invariant k <= |clients[i]|
        invariant forall j :: 0 <= j < k ==> clients[i][j] != cid
      {
        k := k + 1;
      }
      ghost var f := IndexIn(clients[i], cid);
      assert forall j :: 0 <= j < f ==> clients[i][..f][j] == clients[i][j] && clients[i][j] != cid;
    }

    /** EvtGetId */
    method GetId(name: Key) returns (id: u16)
      requires Valid()
      ensures id == IdOf(Board(), name)
    {
      hide Aligned, Registered, Inv, IdOf, BoardOf;
      Lookup(Now(), name);
      if name in reg {
        return reg[name];
      }
      return 0;
    }

    /** EvtRegister with EvtMakeStats. Ids are 16-bit: the one after 65535 is 0, the id that stands for an
        unknown event, and gets no statistics. */
    method Register(name: Key) returns (ok: bool)
      requires Valid()
      modifies this
      ensures ok <==> IdOf(old(Board()), name) == 0
      ensures !ok || old(next) < U16 - 1 ==> Valid() && Board() == Apply(old(Board()), EventSpec.Register(name))
      ensures ok ==> reg == old(reg)[name := (old(next) + 1) % U16]
      ensures ok && old(next) == U16 - 1 ==> next == 0 && names == old(names)
    {
      hide Inv, IdOf, BoardOf, InfoAt, Registered, NoRepeats;
      Lookup(Now(), name);
      if name in reg {
        return false;
      }
      ghost var t := Now();
      next := (next + 1) % U16;
      if next !in subs {
        subs := subs[next := {}];
      }
      reg := reg[name := next];
      if next > len {
        len := len + 1;
        names := names + [name];
        totals := totals + [0];
        clients := clients + [[]];
        frames := frames + [[]];
      }
      if old(next) < U16 - 1 {
        Added(t, name, next);
        ApplyInv(BoardOf(t), EventSpec.Register(name));
      }
      ok := true;
    }

    /** EvtMakeStatsEntry */
    method MakeStatsEntry(eid: u16, cid: u64)
      requires Shape(Now()) && 1 <= eid <= next
      modifies this`clients, this`frames
      ensures Shape(Now())
      ensures var e := BoardOf(old(Now()))[eid - 1];
              BoardOf(Now()) == BoardOf(old(Now()))[eid - 1 := e.(io := if cid in e.io then e.io else e.io[cid := 0])]
    {
      hide IoOf, IndexIn, BoardOf, Registered, NoRepeats;
      var i := eid - 1;
      ghost var t := Now();
      var k := FindClient(i, cid);
      if k == |clients[i]| {
        IoAppend(clients[i], frames[i], cid, 0);
        Updated(t, i, subs[eid], totals[i], clients[i] + [cid], frames[i] + [0]);
        clients := clients[i := clients[i] + [cid]];
        frames := frames[i := frames[i] + [0]];
        assert Now() == t.(subs := t.subs[i + 1 := t.subs[eid]], totals := t.totals[i := t.totals[i]],
                           clients := clients, frames := frames);
      }
    }

    /** EvtDeleteStatsEntry */
    method DeleteStatsEntry(eid: u16, cid: u64)
      requires Shape(Now()) && 1 <= eid <= next
      modifies this`clients, this`frames
      ensures Shape(Now())
      ensures var e := BoardOf(old(Now()))[eid - 1];
              BoardOf(Now()) == BoardOf(old(Now()))[eid - 1 := e.(io := e.io - {cid})]
    {
      hide IoOf, IndexIn, Without, BoardOf, Registered, NoRepeats;
      var i := eid - 1;
      ghost var t := Now();
      var k := FindClient(i, cid);
      if k < |clients[i]| {
        IoErase(clients[i], frames[i], k);
        Updated(t, i, subs[eid], totals[i], Without(clients[i], k), Without(frames[i], k));
        clients := clients[i := Without(clients[i], k)];
        frames := frames[i := Without(frames[i], k)];
        assert Now() == t.(subs := t.subs[i + 1 := t.subs[eid]], totals := t.totals[i := t.totals[i]],
                           clients := clients, frames := frames);
      } else {
        NothingToErase(IoOf(clients[i], frames[i]), cid);
      }
    }

    lemma NothingToErase(m: map<u64, nat>, cid: u64)
      requires cid !in m
      ensures m - {cid} == m
    {
    }

    /** Replaces the subscriptions of one event. */
    method SetSubscribers(eid: u16, sub: set<u64>)
      requires Shape(Now()) && 1 <= eid <= next
      modifies this`subs
      ensures Shape(Now())
      ensures BoardOf(Now()) == BoardOf(old(Now()))[eid - 1 := BoardOf(old(Now()))[eid - 1].(subscribers := sub)]
    {
      hide IoOf, BoardOf, Registered, NoRepeats;
      var i := eid - 1;
      ghost var t := Now();
      Updated(t, i, sub, totals[i], clients[i], frames[i]);
      subs := subs[eid := sub];
      assert Now() == t.(subs := t.subs[i + 1 := sub], totals := t.totals[i := t.totals[i]],
                         clients := t.clients[i := t.clients[i]], frames := t.frames[i := t.frames[i]]);
    }

    /** EvtSubscribe, called by the client cid */
    method Subscribe(name: Key, cid: u64) returns (ok: bool)
      requires Valid()
      modifies this`subs, this`clients, this`frames
      ensures Valid() && Board() == Apply(old(Board()), EventSpec.Subscribe(name, cid))
      ensures ok <==> IdOf(old(Board()), name) > 0 && cid != 0
    {
      hide Aligned, Registered, IdOf, Inv, BoardOf;
      var eid := GetId(name);
      if eid == 0 || cid == 0 {
        return false;
      }
      ghost var b := Board();
      ApplyInv(b, EventSpec.Subscribe(name, cid));
      MakeStatsEntry(eid, cid);
      SubsAt(Now(), eid);
      assert BoardOf(Now())[eid - 1].subscribers == b[eid - 1].subscribers;
      SetSubscribers(eid, subs[eid] + {cid});
      assert BoardOf(Now())[eid - 1] == Joined(b[eid - 1], cid);
      assert BoardOf(Now()) == b[eid - 1 := Joined(b[eid - 1], cid)];
      return true;
    }

    lemma SubsAt(t: Tables, eid: u16)
      requires Shape(t) && 1 <= eid <= t.next
      ensures eid in t.subs && BoardOf(t)[eid - 1].subscribers == t.subs[eid]
    {
    }

    /** EvtUnsubscribe of a client id from an event id */
    method UnsubscribeId(cid: u64, eid: u16) returns (ok: bool)
      requires Shape(Now()) && len == next
      modifies this`subs, this`clients, this`frames
      ensures Shape(Now()) && subs.Keys == old(subs.Keys)
      ensures ok <==> cid != 0 && 1 <= eid <= next && cid in BoardOf(old(Now()))[eid - 1].subscribers
      ensures BoardOf(Now()) == if ok then BoardOf(old(Now()))[eid - 1 := Left(BoardOf(old(Now()))[eid - 1], cid)]
                                else BoardOf(old(Now()))
    {
      hide BoardOf, Registered, NoRepeats;
      if cid == 0 {
        return false;
      }
      if eid !in subs {
        return false;
      }
      SubsAt(Now(), eid);
      if cid !in subs[eid] {
        return false;
      }
      DeleteStatsEntry(eid, cid);
      SetSubscribers(eid, subs[eid] - {cid});
      return true;
    }

    /** EvtUnsubscribe by name */
    method Unsubscribe(name: Key, cid: u64) returns (ok: bool)
      requires Valid()
      modifies this`subs, this`clients, this`frames
      ensures Valid() && Board() == Apply(old(Board()), EventSpec.Unsubscribe(name, cid))
      ensures ok <==> cid != 0 && IdOf(old(Board()), name) > 0
                      && cid in old(Board())[IdOf(old(Board()), name) - 1].subscribers
    {
      hide Aligned, Registered, IdOf, Inv, BoardOf;
      var eid := GetId(name);
      ghost var b := Board();
      ApplyInv(b, EventSpec.Unsubscribe(name, cid));
      ok := UnsubscribeId(cid, eid);
    }

    /** OnClientDisconnect: leaves every subscription, then drops every statistics entry. */
    method Disconnect(cid: u64)
      requires Valid()
      modifies this`subs, this`clients, this`frames
      ensures Valid() && Board() == Apply(old(Board()), EventSpec.Disconnect(cid))
    {
      hide Aligned, Registered, IdOf, Inv, BoardOf;
      ghost var b := Board();
      ApplyInv(b, EventSpec.Disconnect(cid));
      SubsKeys(Now());
      var todo := subs.Keys;
      while todo != {}
        invariant Shape(Now()) && len == next == old(next)
        invariant forall e :: e in todo ==> 1 <= e <= next
        invariant PartlyLeft(b, BoardOf(Now()), cid, todo)
        decreases todo
      {
        var eid :| eid in todo;
        ghost var c := BoardOf(Now());
        var ok := UnsubscribeId(cid, eid);
        LeftOne(b, c, BoardOf(Now()), cid, todo, eid, ok);
        todo := todo - {eid};
      }
      PurgeClient(cid, b);
      assert BoardOf(Now()) == Apply(b, EventSpec.Disconnect(cid));
    }

    /** EvtPurgeStatsEntryClient */
    method PurgeClient(cid: u64, ghost b: Board)
      requires Shape(Now()) && len == next && PartlyLeft(b, BoardOf(Now()), cid, {})
      modifies this`clients, this`frames
      ensures Shape(Now()) && |b| == next
      ensures forall j :: 0 <= j < next ==> BoardOf(Now())[j] == Left(b[j], cid)
    {
      Length();
      PurgedNone(b, BoardOf(Now()), cid);
      hide Aligned, BoardOf, Shape, PurgedUpTo, Left;
      var i := 0;
      while i < len
        invariant i <= len == next == |b| && Shape(Now()) && Aligned(Now())
        invariant BoardOf(Now()) == PurgedUpTo(b, cid, i)
      {
        PurgedNext(b, cid, i);
        DeleteStatsEntry(i + 1, cid);
        Length();
        i := i + 1;
      }
      PurgedAll(b, cid);
    }

    /** The event thread counts one frame (EvtAccumulateEventStatistics). Frames carry registered ids. */
    method Accumulate(eid: u16, cid: u64, bytes: nat, create: bool)
      requires Valid() && eid != 0
      modifies this`totals, this`clients, this`frames
      ensures Valid() && Board() == Apply(old(Board()), EventSpec.Count(eid, cid, bytes, create))
    {
      hide Valid, Board, IoOf, IndexIn, BoardOf, InfoAt, Shape, Aligned, Inv;
      Opened();
      Length();
      if eid > len {
        return;
      }
      ghost var b := Board();
      ApplyInv(b, EventSpec.Count(eid, cid, bytes, create));
      AddTotal(eid, bytes);
      Length();
      var k := FindClient(eid - 1, cid);
      EntryOf(Now(), eid - 1, cid);
      if k == |clients[eid - 1]| {
        if create {
          MakeStatsEntry(eid, cid);
        }
      } else {
        AddFrames(eid, k, bytes);
      }
      Length();
      assert BoardOf(Now()) == b[eid - 1 := Counted(b[eid - 1], cid, bytes, create)];
      Closed();
    }

    method AddTotal(eid: u16, bytes: nat)
      requires Shape(Now()) && 1 <= eid <= next
      modifies this`totals
      ensures Shape(Now())
      ensures var e := BoardOf(old(Now()))[eid - 1];
              BoardOf(Now()) == BoardOf(old(Now()))[eid - 1 := e.(total := e.total + bytes)]
    {
      hide IoOf, IndexIn, Registered, NoRepeats;
      var i := eid - 1;
      ghost var t := Now();
      assert BoardOf(t)[i] == InfoAt(t, i);
      totals := totals[i := totals[i] + bytes];
      Updated(t, i, subs[eid], totals[i], clients[i], frames[i]);
      SameTables(t, Now(), i);
    }

    method AddFrames(eid: u16, k: nat, bytes: nat)
      requires Shape(Now()) && 1 <= eid <= next && Aligned(Now()) && k < |clients[eid - 1]|
      modifies this`frames
      ensures Shape(Now())
      ensures var e, c := BoardOf(old(Now()))[eid - 1], clients[eid - 1][k];
              c in e.io && BoardOf(Now()) == BoardOf(old(Now()))[eid - 1 := e.(io := e.io[c := e.io[c] + bytes])]
    {
      hide IoOf, IndexIn, Registered, NoRepeats;
      var i := eid - 1;
      ghost var t := Now();
      assert BoardOf(t)[i] == InfoAt(t, i);
      IoUpdate(clients[i], frames[i], k, frames[i][k] + bytes);
      IoAt(clients[i], frames[i], k);
      var counts: seq<nat> := frames[i][k := frames[i][k] + bytes];
      Updated(t, i, subs[eid], totals[i], clients[i], counts);
      frames := frames[i := counts];
      SameTables(t, Now(), i);
    }

    /** The once-a-second pass of clientStatisticsThread: a snapshot, then EvtResetStatistics for each event.
        The loop counts in 16 bits. With 65535 events every id is passed, the count returns to 0, and the
        next write is at index 65535 of vectors of 65535: the pass has not ended, and the model stops. */
    method Tick() returns (ghost snapshot: Board, ended: bool)
      requires Valid()
      modifies this`totals, this`frames
      ensures Valid() && snapshot == old(Board()) && Board() == Apply(old(Board()), EventSpec.Tick)
      ensures ended <==> |Board()| <= 65534
    {
      hide Valid, Board, BoardOf, Shape, Aligned, Inv, Cleared, ClearedUpTo, EventSpec.Apply;
      Opened();
      Length();
      snapshot := Board();
      ApplyInv(snapshot, EventSpec.Tick);
      ClearedEnds(snapshot);
      var i: u16 := 1;
      ended := true;
      ghost var done := 0;
      while i <= len && ended
        invariant len == next == |snapshot| && Shape(Now())
        invariant done <= len && i == (if done == U16 - 1 then 0 else done + 1)
        invariant ended || done == U16 - 1
        invariant Aligned(Now()) && BoardOf(Now()) == ClearedUpTo(snapshot, done)
        decreases len - done, ended
      {
        if i == 0 {
          ended := false;
        } else {
          ClearedNext(snapshot, done);
          ResetStatistics(i);
          Length();
          i := (i + 1) % U16;
          done := done + 1;
        }
      }
      Closed();
    }

    /** EvtResetStatistics */
    method ResetStatistics(eid: u16)
      requires Shape(Now()) && 1 <= eid <= next
      modifies this`totals, this`frames
      ensures Shape(Now())
      ensures BoardOf(Now()) == BoardOf(old(Now()))[eid - 1 := Cleared(BoardOf(old(Now()))[eid - 1])]
    {
      hide IoOf, Registered, NoRepeats;
      var i := eid - 1;
      ghost var t := Now();
      assert BoardOf(t)[i] == InfoAt(t, i);
      IoCleared(clients[i], frames[i]);
      assert Cleared(InfoAt(t, i)).io == IoOf(clients[i], seq(|frames[i]|, _ => 0));
      Updated(t, i, subs[i + 1], 0, clients[i], seq(|frames[i]|, _ => 0));
      totals := totals[i := 0];
      frames := frames[i := seq(|frames[i]|, _ => 0)];
      SameTables(t, Now(), i);
    }

    /** EvtEmit (the server's emit): who gets the event. An unknown event, or one that nobody subscribed
        to, goes to nobody. */
    method Emit(name: Key) returns (recipients: set<u64>)
      requires Valid()
      ensures recipients == if IdOf(Board(), name) == 0 then {} else Board()[IdOf(Board(), name) - 1].subscribers
    {
      hide Aligned, Registered, IdOf, Inv, BoardOf;
      var eid := GetId(name);
      if eid == 0 {
        return {};
      }
      SubsAt(Now(), eid);
      return subs[eid];
    }
  }

  /** What leaving its subscription makes of an event; without one, nothing changes yet. */
  function WithoutSubscription(e: Info, cid: u64): Info {
    if cid in e.subscribers then Left(e, cid) else e
  }

  /** On the way from b to the board without cid: the events in todo are still as in b. */
  ghost predicate PartlyLeft(b: Board, c: Board, cid: u64, todo: set<u16>) {
    && |b| == |c|
    && forall i :: 0 <= i < |b| ==> c[i] == if InTodo(todo, i) then b[i] else WithoutSubscription(b[i], cid)
  }

  predicate InTodo(todo: set<u16>, i: nat) {
    i + 1 < U16 && (i + 1) as u16 in todo
  }

  lemma SubsKeys(t: Tables)
    requires Aligned(t)
    ensures forall i :: 0 <= i < t.next ==> InTodo(t.subs.Keys, i)
    ensures forall e :: e in t.subs.Keys ==> 1 <= e <= t.next
  {
  }

  lemma LeftOne(b: Board, c: Board, d: Board, cid: u64, todo: set<u16>, eid: u16, ok: bool)
    requires Inv(b) && PartlyLeft(b, c, cid, todo) && eid in todo && 1 <= eid <= |b|
    requires ok <==> cid != 0 && cid in c[eid - 1].subscribers
    requires d == if ok then c[eid - 1 := Left(c[eid - 1], cid)] else c
    ensures PartlyLeft(b, d, cid, todo - {eid})
  {
    assert InTodo(todo, eid - 1) && Sound(b[eid - 1]);
    forall i | 0 <= i < |b|
      ensures InTodo(todo - {eid}, i) <==> InTodo(todo, i) && i != eid - 1
    {
    }
  }

  /** Without the subscriptions of cid, and without its entries in the first n events. */
  ghost function PurgedUpTo(b: Board, cid: u64, n: nat): Board {
    seq(|b|, i requires 0 <= i < |b| => if i < n then Left(b[i], cid) else WithoutSubscription(b[i], cid))
  }

  lemma PurgedNone(b: Board, c: Board, cid: u64)
    requires PartlyLeft(b, c, cid, {})
    ensures |b| == |c| && c == PurgedUpTo(b, cid, 0)
  {
    assert forall i :: !InTodo({}, i);
  }

  lemma PurgedNext(b: Board, cid: u64, n: nat)
    requires n < |b|
    ensures var e := PurgedUpTo(b, cid, n)[n];
            PurgedUpTo(b, cid, n)[n := e.(io := e.io - {cid})] == PurgedUpTo(b, cid, n + 1)
  {
    PurgedEntry(b[n], cid);
    hide Left, WithoutSubscription;
  }

  lemma PurgedAll(b: Board, cid: u64)
    ensures forall j :: 0 <= j < |b| ==> PurgedUpTo(b, cid, |b|)[j] == Left(b[j], cid)
  {
  }

  lemma PurgedEntry(e: Info, cid: u64)
    ensures var m := WithoutSubscription(e, cid);
            m.(io := m.io - {cid}) == Left(e, cid)
  {
    var m := WithoutSubscription(e, cid);
    if cid in e.subscribers {
      assert m.io - {cid} == e.io - {cid};
    } else {
      assert e.subscribers - {cid} == e.subscribers;
    }
  }

  /** Assigning the vectors of one event, as an update of the whole tables. */
  lemma SameTables(t: Tables, u: Tables, i: nat)
    requires Aligned(t) && i < t.next
    requires u == t.(totals := u.totals, frames := u.frames)
    requires |u.totals| == |t.totals| && u.totals == t.totals[i := u.totals[i]]
    requires |u.frames| == |t.frames| && u.frames == t.frames[i := u.frames[i]]
    ensures u == t.(subs := t.subs[i + 1 := t.subs[i + 1]], totals := t.totals[i := u.totals[i]],
                    clients := t.clients[i := t.clients[i]], frames := t.frames[i := u.frames[i]])
  {
  }

  /** The board after the first n events have been reset. */
  ghost function ClearedUpTo(b: Board, n: nat): Board {
    seq(|b|, i requires 0 <= i < |b| => if i < n then Cleared(b[i]) else b[i])
  }

  lemma ClearedNext(b: Board, n: nat)
    requires n < |b|
    ensures |ClearedUpTo(b, n)| == |b|
    ensures ClearedUpTo(b, n)[n := Cleared(ClearedUpTo(b, n)[n])] == ClearedUpTo(b, n + 1)
  {
  }

  lemma ClearedEnds(b: Board)
    ensures ClearedUpTo(b, 0) == b && ClearedUpTo(b, |b|) == EventSpec.Apply(b, EventSpec.Tick)
  {
  }

  // ----- The limit of the 16-bit loops -----

  /** Distinct names of three characters. */
  function NumberedName(k: nat): Key
    requires k < 1_000_000
  {
    [1 + k % 100, 1 + k / 100 % 100, 1 + k / 10000]
  }

  lemma NamesDiffer(j: nat, k: nat)
    requires j < k < 1_000_000
    ensures NumberedName(j) != NumberedName(k)
  {
    assert j / 100 / 100 == j / 10000 && k / 100 / 100 == k / 10000;
    assert NumberedName(j)[0] == 1 + j % 100 && NumberedName(j)[1] == 1 + j / 100 % 100 && NumberedName(j)[2] == 1 + j / 10000;
    assert NumberedName(k)[0] == 1 + k % 100 && NumberedName(k)[1] == 1 + k / 100 % 100 && NumberedName(k)[2] == 1 + k / 10000;
  }

  ghost predicate Numbered(b: Board) {
    forall i :: 0 <= i < |b| ==> i < 1_000_000 && b[i].name == NumberedName(i)
  }

  lemma NextIsNew(b: Board, k: nat)
    requires Numbered(b) && k == |b| < 1_000_000
    ensures IdOf(b, NumberedName(k)) == 0
    ensures Numbered(b + [Info(NumberedName(k), {}, 0, map[])])
  {
    hide NumberedName, IdOf;
    if IdOf(b, NumberedName(k)) > 0 { NamesDiffer(IdOf(b, NumberedName(k)) - 1, k); }
  }

  /** 65535 events can be registered, and then the statistics pass does not end. */
  method TickAtTheLimit() returns (t: EventTables, ended: bool)
    ensures t.Valid() && |t.Board()| == 65535 && !ended
  {
    t := new EventTables();
    var k := 0;
    while k < 65535
      invariant k <= 65535 && fresh(t) && t.Valid() && |t.Board()| == k == t.next && Numbered(t.Board())
    {
      NextIsNew(t.Board(), k);
      hide EventTables.Valid, EventTables.Board, Numbered, NumberedName, IdOf;
      var ok := t.Register(NumberedName(k));
      t.NextIsLength();
      k := k + 1;
    }
    ghost var snapshot;
    snapshot, ended := t.Tick();
    SameLengthTick(snapshot);
  }

  lemma SameLengthTick(b: Board)
    ensures |EventSpec.Apply(b, EventSpec.Tick)| == |b|
  {
  }

  // ----- Whole runs -----

  /** One operation on the tables. */
  method Perform(t: EventTables, op: Op)
    requires t.Valid() && (op.Count? ==> op.eid != 0)
    requires op.Register? ==> IdOf(t.Board(), op.name) > 0 || t.next < U16 - 1
    modifies t
    ensures t.Valid() && t.Board() == EventSpec.Apply(old(t.Board()), op)
  {
    hide EventTables.Valid, EventTables.Board, EventSpec.Apply, IdOf;
    match op {
      case Register(name) => var ok := t.Register(name);
      case Subscribe(name, cid) => var ok := t.Subscribe(name, cid);
      case Unsubscribe(name, cid) => var ok := t.Unsubscribe(name, cid);
      case Disconnect(cid) => t.Disconnect(cid);
      case Count(eid, cid, bytes, create) => t.Accumulate(eid, cid, bytes, create);
      case Tick => var snapshot, ended := t.Tick();
    }
  }

  /** After any run with at most 65535 events, an emitted event goes to exactly the clients whose accepted
      subscription comes after their last unsubscription and their last disconnect. */
  method EmitAfter(ops: seq<Op>, name: Key) returns (recipients: set<u64>)
    requires forall op :: op in ops ==> op.Count? ==> op.eid != 0
    requires |Run([], ops)| < U16
    ensures forall cid: u64 :: cid in recipients <==> exists i :: StillSubscribed(ops, name, cid, i)
  {
    hide EventTables.Valid, EventTables.Board, Run, IdOf, StillSubscribed, EventSpec.Apply;
    var t := new EventTables();
    var n := 0;
    RunStart();
    assert ops[..0] == [];
    while n < |ops|
      invariant n <= |ops| && t.Valid() && fresh(t) && t.Board() == Run([], ops[..n])
    {
      t.NextIsLength();
      RunGrows(ops, n + 1);
      RunNext(ops, n);
      assert ops[n] in ops;
      if ops[n].Register? { RegisterNeedsRoom(Run([], ops[..n]), ops[n]); }
      Perform(t, ops[n]);
      n := n + 1;
    }
    assert ops[..n] == ops;
    recipients := t.Emit(name);
    RecipientsExactly(ops, name, recipients);
  }

  lemma RecipientsExactly(ops: seq<Op>, name: Key, recipients: set<u64>)
    requires var b := Run([], ops);
             recipients == if IdOf(b, name) == 0 then {} else b[IdOf(b, name) - 1].subscribers
    ensures forall cid: u64 :: cid in recipients <==> exists i :: StillSubscribed(ops, name, cid, i)
  {
    hide Run, IdOf, StillSubscribed;
    forall cid: u64
      ensures cid in recipients <==> exists i :: StillSubscribed(ops, name, cid, i)
    {
      ReceivesExactly(ops, name, cid);
    }
  }

  lemma RunStart()
    ensures Run([], []) == []
  {
  }

  lemma RunNext(ops: seq<Op>, n: nat)
    requires n < |ops|
    ensures Run([], ops[..n + 1]) == EventSpec.Apply(Run([], ops[..n]), ops[n])
  {
    assert ops[..n + 1][..n] == ops[..n];
  }

  lemma RegisterNeedsRoom(b: Board, op: Op)
    requires op.Register?
    ensures IdOf(b, op.name) > 0 || |EventSpec.Apply(b, op)| == |b| + 1
  {
  }
}
