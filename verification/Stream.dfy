/** Reassembly of framed messages from a byte stream (SysByteStream, mxsystem.cpp). */
module Stream {
  import opened Bytes

  /** Where a frame says how long it is: a 32-bit payload size inside a header of fixed size. */
  datatype Format = Format(headerSize: nat, sizeAt: nat) {
    predicate Valid() { sizeAt + 4 <= headerSize }
  }

  /** The length of the frame at the front of c, by its header. */
  function FrameSize(f: Format, c: seq<byte>): (n: nat)
    requires f.Valid() && f.headerSize <= |c|
    ensures n >= f.headerSize
  {
    D32(c[f.sizeAt..f.sizeAt + 4]) + f.headerSize
  }

  predicate Ready(f: Format, c: seq<byte>)
    requires f.Valid()
  {
    f.headerSize <= |c| && FrameSize(f, c) <= |c|
  }

  predicate IsFrame(f: Format, m: seq<byte>)
    requires f.Valid()
  {
    f.headerSize <= |m| && |m| == FrameSize(f, m)
  }

  /** The stream between a receiving thread, which pushes chunks as they arrive, and a reader, which
      fetches whole frames. Where the C++ method would wait, the model's method says so and does nothing. */
  class ByteStream {
    var buffer: array<byte>
    var bufferOffset: nat
    const format: Format

    ghost predicate Valid()
      reads this, buffer
    {
      format.Valid() && bufferOffset <= buffer.Length
    }

    ghost function Contents(): seq<byte>
      reads this, buffer
      requires Valid()
    {
      buffer[..bufferOffset]
    }

    constructor (size: nat, format: Format)
      requires format.Valid()
      ensures Valid() && fresh(buffer) && buffer.Length == size && this.format == format && Contents() == []
    {
      buffer := new byte[size];
      bufferOffset := 0;
      this.format := format;
    }

    method Push(data: seq<byte>) returns (ok: bool)
      requires Valid()
      modifies this`bufferOffset, buffer
      ensures Valid() && (ok <==> |old(Contents())| + |data| <= buffer.Length)
      ensures Contents() == old(Contents()) + (if ok then data else [])
    {
      if bufferOffset + |data| > buffer.Length {
        return false;
      }
      ghost var was := buffer[..];
      Memcpy(buffer, bufferOffset, data);
      assert buffer[..bufferOffset] == was[..bufferOffset];
      bufferOffset := bufferOffset + |data|;
      return true;
    }

    /** Readers fetch into a block as large as the stream. */
    method Fetch(dest: array<byte>) returns (ok: bool, payloadsize: nat)
      requires Valid() && dest != buffer && buffer.Length <= dest.Length
      modifies this`bufferOffset, buffer, dest
      ensures Valid() && (ok <==> Ready(format, old(Contents())))
      ensures !ok ==> Contents() == old(Contents()) && dest[..] == old(dest[..])
      ensures ok ==> payloadsize == FrameSize(format, old(Contents()))
                     && dest[..payloadsize] == old(Contents())[..payloadsize]
                     && Contents() == old(Contents())[payloadsize..]
    {
      if bufferOffset < format.headerSize {
        return false, 0;
      }
      ghost var c := Contents();
      assert c[format.sizeAt..format.sizeAt + 4] == buffer[format.sizeAt..format.sizeAt + 4];
      payloadsize := D32(buffer[format.sizeAt..format.sizeAt + 4]) + format.headerSize;
      if bufferOffset < payloadsize {
        return false, 0;
      }
      Memcpy(dest, 0, buffer[..payloadsize]);
      assert dest[..payloadsize] == buffer[..payloadsize] == c[..payloadsize];
      bufferOffset := bufferOffset - payloadsize;
      if bufferOffset > 0 {
        var rest := buffer[payloadsize..payloadsize + bufferOffset];
        assert rest == c[payloadsize..];
        Memcpy(buffer, 0, rest);
        assert buffer[..bufferOffset] == rest;
      }
      return true, payloadsize;
    }
  }

  // ----- Whole runs -----

  function Flatten(ss: seq<seq<byte>>): seq<byte> {
    if ss == [] then [] else ss[0] + Flatten(ss[1..])
  }

  lemma {:induction false} FlattenSplit(a: seq<seq<byte>>, b: seq<seq<byte>>)
    ensures Flatten(a + b) == Flatten(a) + Flatten(b)
  {
    if a == [] {
      assert a + b == b;
    } else {
      FlattenSplit(a[1..], b);
      assert (a + b)[1..] == a[1..] + b;
    }
  }

  lemma FlattenOne(x: seq<byte>)
    ensures Flatten([x]) == x
  {
    var one: seq<seq<byte>> := [x];
    assert one[1..] == [];
  }

  lemma FlattenNext(ss: seq<seq<byte>>, i: nat)
    requires i < |ss|
    ensures Flatten(ss[..i + 1]) == Flatten(ss[..i]) + ss[i]
    ensures Flatten(ss[i..]) == ss[i] + Flatten(ss[i + 1..])
  {
    assert ss[..i + 1] == ss[..i] + [ss[i]];
    FlattenSplit(ss[..i], [ss[i]]);
    FlattenOne(ss[i]);
    assert ss[i..][1..] == ss[i + 1..];
  }

  /** What a connection has done: the chunks that arrived and were pushed, the frames fetched, and what
      the buffer holds. */
  datatype Link = Link(pushed: nat, fetched: seq<seq<byte>>, held: seq<byte>)

  datatype Action = DoPush | DoFetch

  predicate CanPush(chunks: seq<seq<byte>>, capacity: nat, s: Link) {
    s.pushed < |chunks| && |s.held| + |chunks[s.pushed]| <= capacity
  }

  /** One step of a connection whose chunks arrive in order; a blocked step changes nothing. */
  function Step(f: Format, chunks: seq<seq<byte>>, capacity: nat, s: Link, a: Action): Link
    requires f.Valid()
  {
    match a
    case DoPush =>
      if CanPush(chunks, capacity, s) then s.(pushed := s.pushed + 1, held := s.held + chunks[s.pushed]) else s
    case DoFetch =>
      if Ready(f, s.held) then
        var n := FrameSize(f, s.held);
        s.(fetched := s.fetched + [s.held[..n]], held := s.held[n..])
      else s
  }

  function Run(f: Format, chunks: seq<seq<byte>>, capacity: nat, acts: seq<Action>): Link
    requires f.Valid()
  {
    if acts == [] then Link(0, [], [])
    else Step(f, chunks, capacity, Run(f, chunks, capacity, acts[..|acts| - 1]), acts[|acts| - 1])
  }

  lemma RunOne(f: Format, chunks: seq<seq<byte>>, capacity: nat, a: Action)
    requires f.Valid()
    ensures Run(f, chunks, capacity, [a]) == Step(f, chunks, capacity, Link(0, [], []), a)
  {
    var one: seq<Action> := [a];
    assert one[..|one| - 1] == [];
    assert Run(f, chunks, capacity, one[..|one| - 1]) == Link(0, [], []);
  }

  /** No byte is lost, invented or reordered, whatever the bytes mean. */
  ghost predicate Conserved(chunks: seq<seq<byte>>, s: Link) {
    s.pushed <= |chunks| && Flatten(s.fetched) + s.held == Flatten(chunks[..s.pushed])
  }

  /** The frames fetched so far are the first ones sent. */
  ghost predicate InOrder(frames: seq<seq<byte>>, s: Link) {
    |s.fetched| <= |frames| && s.fetched == frames[..|s.fetched|]
  }

  lemma {:induction false} RunConserves(f: Format, chunks: seq<seq<byte>>, capacity: nat, acts: seq<Action>)
    requires f.Valid()
    ensures Conserved(chunks, Run(f, chunks, capacity, acts))
    ensures |Run(f, chunks, capacity, acts).held| <= capacity
  {
    if acts != [] {
      var a := acts[|acts| - 1];
      RunConserves(f, chunks, capacity, acts[..|acts| - 1]);
      StepConserves(f, chunks, capacity, Run(f, chunks, capacity, acts[..|acts| - 1]), a);
    }
  }

  lemma StepConserves(f: Format, chunks: seq<seq<byte>>, capacity: nat, s: Link, a: Action)
    requires f.Valid() && Conserved(chunks, s) && |s.held| <= capacity
    ensures Conserved(chunks, Step(f, chunks, capacity, s, a))
    ensures |Step(f, chunks, capacity, s, a).held| <= capacity
  {
    hide Flatten, FrameSize;
    if a.DoPush? && CanPush(chunks, capacity, s) {
      FlattenNext(chunks, s.pushed);
      var c := chunks[s.pushed];
      assert Flatten(s.fetched) + (s.held + c) == Flatten(s.fetched) + s.held + c;
    } else if a.DoFetch? && Ready(f, s.held) {
      var n := FrameSize(f, s.held);
      FetchConserves(s.fetched, s.held, n);
    }
  }

  lemma FetchConserves(fetched: seq<seq<byte>>, held: seq<byte>, n: nat)
    requires n <= |held|
    ensures Flatten(fetched + [held[..n]]) + held[n..] == Flatten(fetched) + held
  {
    FlattenSplit(fetched, [held[..n]]);
    FlattenOne(held[..n]);
    assert held == held[..n] + held[n..];
  }

  /** What is left of the frames when some have been fetched. */
  lemma Remainder(frames: seq<seq<byte>>, chunks: seq<seq<byte>>, s: Link)
    requires Flatten(chunks) == Flatten(frames) && Conserved(chunks, s) && InOrder(frames, s)
    ensures s.held + Flatten(chunks[s.pushed..]) == Flatten(frames[|s.fetched|..])
  {
    hide Flatten;
    var k, n := s.pushed, |s.fetched|;
    FlattenSplit(chunks[..k], chunks[k..]);
    assert chunks == chunks[..k] + chunks[k..];
    FlattenSplit(frames[..n], frames[n..]);
    assert frames == frames[..n] + frames[n..];
    Cancel(Flatten(s.fetched), s.held, Flatten(chunks[k..]), Flatten(frames[n..]));
  }

  lemma Cancel(a: seq<byte>, h: seq<byte>, c: seq<byte>, r: seq<byte>)
    requires (a + h) + c == a + r
    ensures h + c == r
  {
    assert (a + h) + c == a + (h + c);
    assert (a + (h + c))[|a|..] == h + c;
    assert (a + r)[|a|..] == r;
  }

  /** A buffer that begins like a sequence of frames, and holds a header, begins with the first frame. */
  lemma FrontFrame(f: Format, held: seq<byte>, more: seq<byte>, frames: seq<seq<byte>>)
    requires f.Valid() && f.headerSize <= |held|
    requires (forall m :: m in frames ==> IsFrame(f, m)) && held + more == Flatten(frames)
    ensures frames != [] && FrameSize(f, held) == |frames[0]|
    ensures Ready(f, held) <==> |frames[0]| <= |held|
    ensures Ready(f, held) ==> held[..FrameSize(f, held)] == frames[0]
  {
    FlattenFront(frames);
    var m, rest := frames[0], Flatten(frames[1..]);
    assert m in frames;
    hide Flatten;
    SameSlice(held, more, m, rest, f.sizeAt, f.sizeAt + 4);
    if |m| <= |held| {
      SameSlice(held, more, m, rest, 0, |m|);
      assert held[0..|m|] == held[..|m|] && m[0..|m|] == m;
    }
  }

  lemma FlattenFront(frames: seq<seq<byte>>)
    requires |Flatten(frames)| > 0
    ensures frames != [] && Flatten(frames) == frames[0] + Flatten(frames[1..])
  {
  }

  /** Two splittings of the same bytes agree where their fronts overlap. */
  lemma SameSlice(a: seq<byte>, b: seq<byte>, c: seq<byte>, d: seq<byte>, i: nat, j: nat)
    requires a + b == c + d && i <= j <= |a| && j <= |c|
    ensures a[i..j] == c[i..j]
  {
    FrontSlice(a, b, i, j);
    FrontSlice(c, d, i, j);
  }

  lemma FrontSlice(a: seq<byte>, b: seq<byte>, i: nat, j: nat)
    requires i <= j <= |a|
    ensures (a + b)[i..j] == a[i..j]
  {
    var ab := a + b;
    forall k | 0 <= k < j - i
      ensures ab[i..j][k] == a[i..j][k]
    {
      assert ab[i..j][k] == ab[i + k] && a[i..j][k] == a[i + k];
    }
  }

  lemma StepInOrder(f: Format, chunks: seq<seq<byte>>, capacity: nat, frames: seq<seq<byte>>, s: Link, a: Action)
    requires f.Valid() && Conserved(chunks, s) && InOrder(frames, s)
    requires (forall m :: m in frames ==> IsFrame(f, m)) && Flatten(chunks) == Flatten(frames)
    ensures InOrder(frames, Step(f, chunks, capacity, s, a))
  {
    if a.DoFetch? && Ready(f, s.held) {
      var n := |s.fetched|;
      Remainder(frames, chunks, s);
      FrontFrame(f, s.held, Flatten(chunks[s.pushed..]), frames[n..]);
      assert frames[..n + 1] == frames[..n] + [frames[n]];
    }
  }

  /** However a sequence of frames was cut into chunks, and however pushes and fetches interleave, the
      frames fetched are the frames sent, in order; once everything has arrived and nothing is ready, all
      of them have been fetched and nothing is left over. */
  lemma {:induction false} Reassembly(f: Format, chunks: seq<seq<byte>>, capacity: nat, frames: seq<seq<byte>>, acts: seq<Action>)
    requires f.Valid() && f.headerSize > 0
    requires (forall m :: m in frames ==> IsFrame(f, m)) && Flatten(chunks) == Flatten(frames)
    ensures var s := Run(f, chunks, capacity, acts);
            && InOrder(frames, s)
            && (s.pushed == |chunks| && !Ready(f, s.held) ==> s.fetched == frames && s.held == [])
  {
    var s := Run(f, chunks, capacity, acts);
    if acts != [] {
      Reassembly(f, chunks, capacity, frames, acts[..|acts| - 1]);
      RunConserves(f, chunks, capacity, acts[..|acts| - 1]);
      StepInOrder(f, chunks, capacity, frames, Run(f, chunks, capacity, acts[..|acts| - 1]), acts[|acts| - 1]);
    }
    RunConserves(f, chunks, capacity, acts);
    if s.pushed == |chunks| && !Ready(f, s.held) {
      AllFetched(f, chunks, frames, s);
    }
  }

  lemma AllFetched(f: Format, chunks: seq<seq<byte>>, frames: seq<seq<byte>>, s: Link)
    requires f.Valid() && f.headerSize > 0 && Conserved(chunks, s) && InOrder(frames, s)
    requires (forall m :: m in frames ==> IsFrame(f, m)) && Flatten(chunks) == Flatten(frames)
    requires s.pushed == |chunks| && !Ready(f, s.held)
    ensures s.fetched == frames && s.held == []
  {
    var rest := frames[|s.fetched|..];
    Remainder(frames, chunks, s);
    assert chunks[s.pushed..] == [];
    assert s.held + [] == s.held;
    if rest != [] {
      assert rest[0] in frames;
      assert |Flatten(rest)| >= |rest[0]|;
      ShortHeld(f, s.held, [], rest);
    }
  }

  /** Both sides wait: the pusher for room, the fetcher for the rest of a frame. */
  predicate Deadlocked(f: Format, chunks: seq<seq<byte>>, capacity: nat, s: Link)
    requires f.Valid()
  {
    s.pushed < |chunks| && !CanPush(chunks, capacity, s) && !Ready(f, s.held)
  }

  /** If every frame with every chunk exceeds the capacity by at most one byte, no run ever deadlocks. */
  lemma NeverDeadlocked(f: Format, chunks: seq<seq<byte>>, capacity: nat, frames: seq<seq<byte>>, acts: seq<Action>)
    requires f.Valid() && f.headerSize > 0
    requires (forall m :: m in frames ==> IsFrame(f, m)) && Flatten(chunks) == Flatten(frames)
    requires forall c :: c in chunks ==> |c| <= capacity
    requires forall m, c :: m in frames && c in chunks ==> |m| + |c| <= capacity + 1
    ensures !Deadlocked(f, chunks, capacity, Run(f, chunks, capacity, acts))
  {
    var s := Run(f, chunks, capacity, acts);
    Reassembly(f, chunks, capacity, frames, acts);
    RunConserves(f, chunks, capacity, acts);
    if s.pushed < |chunks| && !Ready(f, s.held) {
      var rest := frames[|s.fetched|..];
      var c := chunks[s.pushed];
      assert c in chunks;
      Remainder(frames, chunks, s);
      if rest == [] {
        assert s.held == [];
      } else {
        assert rest[0] in frames;
        ShortHeld(f, s.held, Flatten(chunks[s.pushed..]), rest);
      }
    }
  }

  lemma RunMore(f: Format, chunks: seq<seq<byte>>, capacity: nat, acts: seq<Action>, a: Action)
    requires f.Valid()
    ensures Run(f, chunks, capacity, acts + [a]) == Step(f, chunks, capacity, Run(f, chunks, capacity, acts), a)
  {
    assert (acts + [a])[..|acts|] == acts;
  }

  /** No run fetches a frame longer than the capacity. */
  lemma {:induction false} FetchedFit(f: Format, chunks: seq<seq<byte>>, capacity: nat, acts: seq<Action>)
    requires f.Valid()
    ensures var s := Run(f, chunks, capacity, acts);
            forall i :: 0 <= i < |s.fetched| ==> |s.fetched[i]| <= capacity
  {
    if acts != [] {
      var init, a := acts[..|acts| - 1], acts[|acts| - 1];
      FetchedFit(f, chunks, capacity, init);
      RunConserves(f, chunks, capacity, init);
    }
  }

  /** Nothing is left to push, and no whole frame to fetch. */
  predicate Finished(f: Format, chunks: seq<seq<byte>>, s: Link)
    requires f.Valid()
  {
    s.pushed == |chunks| && !Ready(f, s.held)
  }

  /** A connection that is neither finished nor deadlocked can take a step forward. */
  lemma StepForward(f: Format, chunks: seq<seq<byte>>, capacity: nat, s: Link) returns (a: Action)
    requires f.Valid() && s.pushed <= |chunks| && !Finished(f, chunks, s) && !Deadlocked(f, chunks, capacity, s)
    ensures var t := Step(f, chunks, capacity, s, a);
            t.pushed + |t.fetched| == s.pushed + |s.fetched| + 1
  {
    a := if Ready(f, s.held) then DoFetch else DoPush;
  }

  /** If every frame with every chunk exceeds the capacity by at most one byte, every run can be continued until
      everything has been fetched. */
  lemma {:induction false} Completes(f: Format, chunks: seq<seq<byte>>, capacity: nat, frames: seq<seq<byte>>, acts: seq<Action>)
    returns (more: seq<Action>)
    requires f.Valid() && f.headerSize > 0
    requires (forall m :: m in frames ==> IsFrame(f, m)) && Flatten(chunks) == Flatten(frames)
    requires forall c :: c in chunks ==> |c| <= capacity
    requires forall m, c :: m in frames && c in chunks ==> |m| + |c| <= capacity + 1
    ensures Run(f, chunks, capacity, acts + more) == Link(|chunks|, frames, [])
    decreases var s := Run(f, chunks, capacity, acts); |chunks| + |frames| - s.pushed - |s.fetched|
  {
    hide IsFrame, Flatten, Step, Run, Finished, Deadlocked;
    var s := Run(f, chunks, capacity, acts);
    Bounded(f, chunks, capacity, frames, acts);
    NeverDeadlocked(f, chunks, capacity, frames, acts);
    if Finished(f, chunks, s) {
      more := [];
      assert acts + more == acts;
    } else {
      var a := StepForward(f, chunks, capacity, s);
      RunMore(f, chunks, capacity, acts, a);
      Bounded(f, chunks, capacity, frames, acts + [a]);
      var rest := Completes(f, chunks, capacity, frames, acts + [a]);
      more := [a] + rest;
      assert acts + more == acts + [a] + rest;
    }
  }

  lemma Bounded(f: Format, chunks: seq<seq<byte>>, capacity: nat, frames: seq<seq<byte>>, acts: seq<Action>)
    requires f.Valid() && f.headerSize > 0
    requires (forall m :: m in frames ==> IsFrame(f, m)) && Flatten(chunks) == Flatten(frames)
    ensures var s := Run(f, chunks, capacity, acts);
            && s.pushed <= |chunks| && |s.fetched| <= |frames|
            && (Finished(f, chunks, s) ==> s == Link(|chunks|, frames, []))
  {
    hide IsFrame, Flatten, Run, Ready;
    Reassembly(f, chunks, capacity, frames, acts);
    RunConserves(f, chunks, capacity, acts);
  }

  lemma ShortHeld(f: Format, held: seq<byte>, more: seq<byte>, frames: seq<seq<byte>>)
    requires f.Valid() && !Ready(f, held) && frames != []
    requires (forall m :: m in frames ==> IsFrame(f, m)) && held + more == Flatten(frames)
    ensures |held| < |frames[0]|
  {
    assert frames[0] in frames;
    if f.headerSize <= |held| {
      FrontFrame(f, held, more, frames);
    }
  }

  /** And one more byte is too many: any frame and any chunk size that exceed the capacity by two bytes
      deadlock, the frame arriving all but its last byte first. */
  lemma TightDeadlock(f: Format, m: seq<byte>, next: seq<byte>, capacity: nat)
    requires f.Valid() && IsFrame(f, m) && 2 <= |m| <= capacity + 1
    requires IsFrame(f, next) && next != [] && |m| + |next| > capacity + 1
    ensures var chunks := [m[..|m| - 1], [m[|m| - 1]] + next];
            && Flatten(chunks) == Flatten([m, next])
            && Deadlocked(f, chunks, capacity, Run(f, chunks, capacity, [DoPush]))
  {
    var a, b := m[..|m| - 1], [m[|m| - 1]] + next;
    var chunks := [a, b];
    FlattenSplit([a], [b]);
    FlattenSplit([m], [next]);
    FlattenOne(a);
    FlattenOne(b);
    FlattenOne(m);
    FlattenOne(next);
    assert chunks == [a] + [b] && [m, next] == [m] + [next];
    assert a + b == m + next;
    RunOne(f, chunks, capacity, DoPush);
    var s := Run(f, chunks, capacity, [DoPush]);
    assert s.held == a;
    if f.headerSize <= |a| {
      assert a[f.sizeAt..f.sizeAt + 4] == m[f.sizeAt..f.sizeAt + 4];
    }
  }
}
