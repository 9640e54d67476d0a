/** RPC frames end to end (network/rpc.h, network/rpc.cpp): what a client sends as calls, cut into
    arbitrary chunks by the network, the server's dispatcher receives as those calls. */
module Wire {
  import opened Collections
  import opened Bytes
  import opened Marshal
  import Stream

  /** RPCMessageHeader: client, procedure padded to 8 bytes, message id, payload size padded to 8 bytes. */
  const CALL_HEADER: nat := 32
  const CALL_FORMAT: Stream.Format := Stream.Format(CALL_HEADER, 24)

  /** RPCReturnValue: status and payload size. */
  const REPLY_FORMAT: Stream.Format := Stream.Format(8, 4)

  /** A call with its arguments, and which of them are passed by name rather than as temporaries. */
  datatype Call = Call(client: u64, procedureid: u16, msgid: u64, sig: Signature, args: seq<Arg>, named: seq<bool>)

  predicate Proper(c: Call) {
    Conforms(c.sig, c.args) && |c.named| == |c.args|
  }

  /** The payload size as the header carries it, in 32 bits. */
  function Announced(c: Call): u32
    requires Proper(c)
  {
    VargSize(c.args, c.named) % U32
  }

  /** No more is announced than was packed. */
  predicate Sendable(c: Call) {
    Proper(c) && Announced(c) <= |Packed(c.args)|
  }

  /** The frame of a call: the header, and as many bytes of the packed arguments as it announces. */
  function Frame(c: Call): (m: seq<byte>)
    requires Sendable(c)
    ensures |m| == CALL_HEADER + Announced(c)
  {
    E64(c.client) + E16(c.procedureid) + Zeros(6) + E64(c.msgid) + E32(Announced(c)) + Zeros(4)
    + Packed(c.args)[..Announced(c)]
  }

  /** RPCClientThread::call: announces the size, packs, and sends header and arguments in one buffer. None
      where more is announced than was packed, and the copy would read past the packed arguments. */
  method Send(c: Call) returns (buffer: Option<seq<byte>>)
    requires Proper(c)
    ensures buffer == if Announced(c) <= |Packed(c.args)| then Some(Frame(c)) else None
  {
    var payloadsize := VargSize(c.args, c.named) % U32;
    var header := E64(c.client) + E16(c.procedureid) + Zeros(6) + E64(c.msgid) + E32(payloadsize) + Zeros(4);
    var params := Pack(c.args);
    if payloadsize > |params| {
      return None;
    }
    buffer := Some(header + params[..payloadsize]);
  }

  lemma FrameParts(c: Call)
    requires Sendable(c)
    ensures var m := Frame(c);
            && Stream.IsFrame(CALL_FORMAT, m)
            && D64(m[..8]) == c.client && D16(m[8..10]) == c.procedureid && D64(m[16..24]) == c.msgid
            && m[CALL_HEADER..] == Packed(c.args)[..Announced(c)]
  {
    hide Packed, E64, E32, E16, Announced;
    var m := Frame(c);
    D64E64(c.client);
    D64E64(c.msgid);
    D16E16(c.procedureid);
    D32E32(Announced(c));
    assert m[..8] == E64(c.client);
    assert m[8..10] == E16(c.procedureid);
    assert m[16..24] == E64(c.msgid);
    assert m[24..28] == E32(Announced(c));
  }

  /** What the server's generated dispatcher makes of a frame for a procedure of a known signature. */
  ghost predicate Delivers(m: seq<byte>, c: Call) {
    && CALL_HEADER <= |m| && |c.sig| == |c.args|
    && D64(m[..8]) == c.client && D16(m[8..10]) == c.procedureid && D64(m[16..24]) == c.msgid
    && var os := Offsets(Decls(c.sig), m[CALL_HEADER..]);
       && os.Some?
       && forall i :: 0 <= i < |c.sig| ==> Fetch(Accesses(c.sig)[i], os.value, m[CALL_HEADER..]) == Some(c.args[i])
  }

  /** The call goes out, and the dispatcher recovers it from its frame. */
  ghost predicate Arrives(c: Call) {
    Sendable(c) && Delivers(Frame(c), c)
  }

  /** What is announced is what was packed. */
  predicate FullyAnnounced(c: Call) {
    Proper(c) && Announced(c) == |Packed(c.args)|
  }

  /** A call arrives exactly when it is fully announced. */
  lemma ArrivesAsAnnounced(c: Call)
    requires Proper(c)
    ensures Arrives(c) <==> FullyAnnounced(c)
  {
    hide Announced, Fetch, Offsets;
    if Sendable(c) {
      FrameParts(c);
      if Announced(c) == |Packed(c.args)| {
        assert Packed(c.args)[..Announced(c)] == Packed(c.args);
        DispatcherInvertsPacking(c.sig, c.args);
      } else {
        CutLosesLast(c.sig, c.args, Announced(c));
      }
    }
  }

  /** In sizes: exactly when the packed arguments are fewer than 2^32 bytes and the generic arguments passed by
      name take 24 packed bytes on average. (Of 2^16 arguments and more, the announced size may wrap.) */
  lemma DeliversExactly(c: Call)
    requires Proper(c)
    ensures var b, n := NamedBytes(c.args, c.named), GENERIC_OBJECT * NamedCount(c.args, c.named);
            && (Arrives(c) <==> |Packed(c.args)| < U32 && (n - b) % U32 == 0)
            && (|c.args| < U16 ==> (Arrives(c) <==> |Packed(c.args)| < U32 && b == n))
  {
    ArrivesAsAnnounced(c);
    AnnouncedSize(c.args, c.named);
    hide Arrives, Packed, VargSize, NamedBytes, NamedCount;
    var b, n, p := NamedBytes(c.args, c.named), GENERIC_OBJECT * NamedCount(c.args, c.named), |Packed(c.args)|;
    SameRemainder(p, p + n - b);
    if p < U32 && |c.args| < U16 {
      assert n < U32 && b <= p;
      SmallMultiple(n - b);
    }
  }

  lemma SameRemainder(p: nat, v: nat)
    ensures v % U32 == p <==> p < U32 && (v - p) % U32 == 0
  {
  }

  lemma SmallMultiple(d: int)
    requires d < U32 && -d < U32
    ensures d % U32 == 0 <==> d == 0
  {
  }

  /** A call without generic arguments passed by name arrives exactly when its arguments take fewer than 2^32
      bytes. */
  lemma TemporariesArrive(c: Call)
    requires Proper(c) && NamedCount(c.args, c.named) == 0
    ensures Arrives(c) <==> |Packed(c.args)| < U32
  {
    DeliversExactly(c);
    NoneNamed(c.args, c.named);
  }

  lemma {:induction false} NoneNamed(args: seq<Arg>, named: seq<bool>)
    requires |named| == |args| && NamedCount(args, named) == 0
    ensures NamedBytes(args, named) == 0
  {
    if args != [] { NoneNamed(args[1..], named[1..]); }
  }

  /** RdbProxyValue::writeEntry: the key as a temporary of 512 bytes, the value by name. */
  function WriteEntry(client: u64, procedureid: u16, msgid: u64, key: seq<byte>, value: seq<byte>): Call {
    Call(client, procedureid, msgid, [Fixed(512), Generic], [FixedArg(key), GenericArg(value)], [false, true])
  }

  lemma WriteEntrySizes(client: u64, procedureid: u16, msgid: u64, key: seq<byte>, value: seq<byte>)
    requires |key| == 512 && |value| < U64
    ensures var c := WriteEntry(client, procedureid, msgid, key, value);
            Proper(c) && Announced(c) == 536 && |Packed(c.args)| == 520 + |value|
  {
    var c := WriteEntry(client, procedureid, msgid, key, value);
    assert c.args[1..] == [GenericArg(value)] && c.args[1..][1..] == [];
    assert c.named[1..] == [true];
    assert Packed(c.args[1..][1..]) == [] && Packed(c.args[1..]) == PackOne(GenericArg(value)) + [];
    assert VargSize(c.args[1..], c.named[1..]) == 24;
  }

  /** A value written through the proxy arrives exactly when it has 16 bytes. A shorter one makes the client
      read past what it packed; of a longer one the end is lost. */
  lemma WriteEntryExactly(client: u64, procedureid: u16, msgid: u64, key: seq<byte>, value: seq<byte>)
    requires |key| == 512 && |value| < U64
    ensures var c := WriteEntry(client, procedureid, msgid, key, value);
            && (Sendable(c) <==> |value| >= 16)
            && (Arrives(c) <==> |value| == 16)
  {
    WriteEntrySizes(client, procedureid, msgid, key, value);
    ArrivesAsAnnounced(WriteEntry(client, procedureid, msgid, key, value));
    hide Packed, Announced, Conforms;
  }

  /** 100 bytes: 620 are packed, 536 announced and sent, and the value is not recovered. */
  lemma WriteEntryOf100(client: u64, procedureid: u16, msgid: u64)
    ensures var c := WriteEntry(client, procedureid, msgid, Zeros(512), Zeros(100));
            && Sendable(c) && |Packed(c.args)| == 620 && |Frame(c)| == CALL_HEADER + 536
            && !Delivers(Frame(c), c)
  {
    WriteEntrySizes(client, procedureid, msgid, Zeros(512), Zeros(100));
    WriteEntryExactly(client, procedureid, msgid, Zeros(512), Zeros(100));
    hide Packed, Announced, Conforms, Delivers, Frame;
  }

  /** 4 bytes: 524 are packed and 536 announced. */
  lemma WriteEntryOf4(client: u64, procedureid: u16, msgid: u64)
    ensures var c := WriteEntry(client, procedureid, msgid, Zeros(512), Zeros(4));
            Proper(c) && |Packed(c.args)| == 524 && Announced(c) == 536 && !Sendable(c)
  {
    WriteEntrySizes(client, procedureid, msgid, Zeros(512), Zeros(4));
    hide Packed, Announced, Conforms;
  }

  // ----- Sequences of calls -----

  function Frames(cs: seq<Call>): (ms: seq<seq<byte>>)
    requires forall c :: c in cs ==> Sendable(c)
    ensures |ms| == |cs| && forall i :: 0 <= i < |cs| ==> cs[i] in cs && ms[i] == Frame(cs[i])
  {
    seq(|cs|, i requires 0 <= i < |cs| => assert cs[i] in cs; Frame(cs[i]))
  }

  lemma AllFrames(cs: seq<Call>)
    requires forall c :: c in cs ==> Sendable(c)
    ensures forall m :: m in Frames(cs) ==> Stream.IsFrame(CALL_FORMAT, m)
  {
    hide Frame, Stream.IsFrame, Sendable;
    var ms := Frames(cs);
    forall m | m in ms
      ensures Stream.IsFrame(CALL_FORMAT, m)
    {
      var i :| 0 <= i < |ms| && ms[i] == m;
      FrameParts(cs[i]);
    }
  }

  /** However the network cuts and delays the bytes of the calls a client sends, the frames the server has
      fetched so far are those of the first calls, and each delivers its header and all its arguments exactly
      if what it announces is what was packed; and when all bytes have arrived and no whole frame is buffered,
      every call has been fetched. */
  lemma CallsArrive(cs: seq<Call>, chunks: seq<seq<byte>>, capacity: nat, acts: seq<Stream.Action>)
    requires forall c :: c in cs ==> Sendable(c)
    requires Stream.Flatten(chunks) == Stream.Flatten(Frames(cs))
    ensures var s := Stream.Run(CALL_FORMAT, chunks, capacity, acts);
            && |s.fetched| <= |cs|
            && (forall i :: 0 <= i < |s.fetched| ==>
                  && cs[i] in cs && s.fetched[i] == Frame(cs[i])
                  && (Delivers(s.fetched[i], cs[i]) <==> FullyAnnounced(cs[i])))
            && (s.pushed == |chunks| && !Stream.Ready(CALL_FORMAT, s.held) ==> |s.fetched| == |cs| && s.held == [])
  {
    hide Frame, Delivers, Stream.IsFrame, Sendable, Stream.Flatten, Stream.Ready, FullyAnnounced;
    var ms := Frames(cs);
    AllFrames(cs);
    Stream.Reassembly(CALL_FORMAT, chunks, capacity, ms, acts);
    var s := Stream.Run(CALL_FORMAT, chunks, capacity, acts);
    forall i | 0 <= i < |s.fetched|
      ensures cs[i] in cs && s.fetched[i] == Frame(cs[i])
      ensures Delivers(s.fetched[i], cs[i]) <==> FullyAnnounced(cs[i])
    {
      assert s.fetched[i] == ms[i];
      SentArrives(cs[i]);
    }
  }

  lemma SentArrives(c: Call)
    requires Sendable(c)
    ensures Delivers(Frame(c), c) <==> FullyAnnounced(c)
  {
    hide Delivers, Frame, FullyAnnounced;
    ArrivesAsAnnounced(c);
  }

  /** A call whose frame is longer than the stream never arrives, nor does any call after it. */
  lemma LongCallBlocks(cs: seq<Call>, chunks: seq<seq<byte>>, capacity: nat, acts: seq<Stream.Action>, i: nat)
    requires (forall c :: c in cs ==> Sendable(c)) && Stream.Flatten(chunks) == Stream.Flatten(Frames(cs))
    requires i < |cs| && cs[i] in cs && CALL_HEADER + Announced(cs[i]) > capacity
    ensures |Stream.Run(CALL_FORMAT, chunks, capacity, acts).fetched| <= i
  {
    hide Frame, Sendable, Stream.Flatten, Stream.Ready, Announced, Delivers;
    CallsArrive(cs, chunks, capacity, acts);
    Stream.FetchedFit(CALL_FORMAT, chunks, capacity, acts);
  }

  /** If every frame with every chunk exceeds the stream by at most one byte, every run can be continued until
      every call has been fetched. */
  lemma CallsComplete(cs: seq<Call>, chunks: seq<seq<byte>>, capacity: nat, acts: seq<Stream.Action>)
    returns (more: seq<Stream.Action>)
    requires (forall c :: c in cs ==> Sendable(c)) && Stream.Flatten(chunks) == Stream.Flatten(Frames(cs))
    requires forall k :: k in chunks ==> |k| <= capacity
    requires forall c, k :: c in cs && k in chunks ==> Sendable(c) && CALL_HEADER + Announced(c) + |k| <= capacity + 1
    ensures Stream.Run(CALL_FORMAT, chunks, capacity, acts + more) == Stream.Link(|chunks|, Frames(cs), [])
  {
    hide Frame, Sendable, Stream.Flatten, Announced, Stream.IsFrame, Stream.Run;
    AllFrames(cs);
    var ms := Frames(cs);
    forall m, k | m in ms && k in chunks
      ensures |m| + |k| <= capacity + 1
    {
      var i :| 0 <= i < |ms| && ms[i] == m;
    }
    more := Stream.Completes(CALL_FORMAT, chunks, capacity, ms, acts);
  }

  // ----- Replies -----

  function ReplyFrame(status: u32, payload: seq<byte>): seq<byte>
    requires |payload| < U32
  {
    E32(status) + E32(|payload|) + payload
  }

  /** A reply frame is one message of the reply stream, and its payload is read back by the caller of a
      procedure of the same return type. */
  lemma ReplyArrives(status: u32, p: Param, a: Arg)
    requires Fits(p, a) && |Reply(Some(a))| < U32
    ensures var m := ReplyFrame(status, Reply(Some(a)));
            && Stream.IsFrame(REPLY_FORMAT, m) && D32(m[..4]) == status
            && m[8..] == Reply(Some(a)) && ReadReply(p, m[8..]) == Some(a)
  {
    var r := Reply(Some(a));
    var m := ReplyFrame(status, r);
    D32E32(status);
    D32E32(|r|);
    assert m[..4] == E32(status);
    assert m[4..8] == E32(|r|);
    assert m[8..] == r;
    ReplyRoundTrip(p, a);
  }
}
