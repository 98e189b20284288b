/** Received frames and the streams they belong to. */
module Frames {
  import opened Bytes
  import opened Routable

  const RX_BURST: nat := 32

  datatype RawPacket = RawPacket(memory: bytes, size: nat, nic: NicChecksum)

  /** A frame of `size` bytes at the head of its data room, which has room for any header and slack behind the frame. */
  type Packet = p: RawPacket | 64 <= |p.memory| && p.size + 4 <= |p.memory| && p.size < 0x8000_0000
    witness RawPacket(Zeros(64), 0, Unknown)

  /** A received buffer: its place in arrival order, and what it holds. */
  datatype Mbuf = Mbuf(id: nat, packet: Packet)

  /** What is dispatched by one key and handled by one stage. */
  datatype Stream = Stream(proto: Proto, key: u16)

  function StreamOf(m: Mbuf): (s: Stream)
  {
    var (proto, key) := ProtoType(m.packet.memory, m.packet.size);
    Stream(proto, key)
  }

  // ---------------------------------------------------------------- parts of a sequence

  /** The frames that satisfy `f`, in order. */
  function Only(ms: seq<Mbuf>, f: Mbuf -> bool): (r: seq<Mbuf>)
    ensures |r| <= |ms|
  {
    if ms == [] then []
    else Only(ms[..|ms| - 1], f) + if f(ms[|ms| - 1]) then [ms[|ms| - 1]] else []
  }

  function InStream(s: Stream): (f: Mbuf -> bool)
  {
    m => StreamOf(m) == s
  }

  function OfProto(p: Proto): (f: Mbuf -> bool)
  {
    m => StreamOf(m).proto == p
  }

  /** Those of `f` that were not dropped. */
  function Alive(f: Mbuf -> bool, dropped: set<Mbuf>): (g: Mbuf -> bool)
  {
    m => f(m) && m !in dropped
  }

  lemma OnlySnoc(ms: seq<Mbuf>, m: Mbuf, f: Mbuf -> bool)
    ensures Only(ms + [m], f) == Only(ms, f) + if f(m) then [m] else []
  {
    assert (ms + [m])[..|ms|] == ms;
  }

  lemma {:induction false} OnlyConcat(a: seq<Mbuf>, b: seq<Mbuf>, f: Mbuf -> bool)
    ensures Only(a + b, f) == Only(a, f) + Only(b, f)
  {
    if b == [] {
      assert a + b == a;
    } else {
      var init, m := b[..|b| - 1], b[|b| - 1];
      assert a + b == (a + init) + [m];
      OnlySnoc(a + init, m, f);
      OnlyConcat(a, init, f);
    }
  }

  lemma {:induction false} OnlyMembers(ms: seq<Mbuf>, f: Mbuf -> bool)
    ensures forall m :: m in Only(ms, f) <==> m in ms && f(m)
  {
    if ms != [] {
      OnlyMembers(ms[..|ms| - 1], f);
      assert ms == ms[..|ms| - 1] + [ms[|ms| - 1]];
    }
  }

  /** Only the values of `f` on the sequence matter. */
  lemma {:induction false} OnlySame(ms: seq<Mbuf>, f: Mbuf -> bool, g: Mbuf -> bool)
    requires forall m :: m in ms ==> f(m) == g(m)
    ensures Only(ms, f) == Only(ms, g)
  {
    if ms != [] {
      assert forall m :: m in ms[..|ms| - 1] ==> m in ms;
      assert ms[|ms| - 1] in ms;
      OnlySame(ms[..|ms| - 1], f, g);
    }
  }

  lemma {:induction false} OnlyNone(ms: seq<Mbuf>, f: Mbuf -> bool)
    requires forall m :: m in ms ==> !f(m)
    ensures Only(ms, f) == []
  {
    if ms != [] {
      assert forall m :: m in ms[..|ms| - 1] ==> m in ms;
      assert ms[|ms| - 1] in ms;
      OnlyNone(ms[..|ms| - 1], f);
    }
  }

  /** A narrower choice out of a wider one. */
  lemma {:induction false} OnlyOnly(ms: seq<Mbuf>, wide: Mbuf -> bool, f: Mbuf -> bool)
    requires forall m :: m in ms && f(m) ==> wide(m)
    ensures Only(Only(ms, wide), f) == Only(ms, f)
  {
    if ms != [] {
      var init, m := ms[..|ms| - 1], ms[|ms| - 1];
      assert forall x :: x in init ==> x in ms;
      assert m in ms;
      OnlyOnly(init, wide, f);
      if wide(m) {
        OnlySnoc(Only(init, wide), m, f);
      } else {
        assert Only(ms, wide) == Only(init, wide) && Only(ms, f) == Only(init, f);
      }
    }
  }

  lemma OnlyPrefix(a: seq<Mbuf>, b: seq<Mbuf>, f: Mbuf -> bool)
    requires a <= b
    ensures Only(a, f) <= Only(b, f)
  {
    assert b == a + b[|a|..];
    OnlyConcat(a, b[|a|..], f);
  }

  // ---------------------------------------------------------------- the order in which a batch is handled

  const STAGES: seq<Proto> := [Goose, Sv, RGoose, RSv, NonBus]

  /** What the given stages hold of a batch, stage after stage. */
  function Staged(batch: seq<Mbuf>, stages: seq<Proto>): (r: seq<Mbuf>)
  {
    if stages == [] then []
    else Staged(batch, stages[..|stages| - 1]) + Only(batch, OfProto(stages[|stages| - 1]))
  }

  /** The order of one pipeline run: stage after stage, and in arrival order within a stage. */
  function PipelineOrder(batch: seq<Mbuf>): (r: seq<Mbuf>)
  {
    Staged(batch, STAGES)
  }

  lemma PipelineStages(batch: seq<Mbuf>)
    ensures PipelineOrder(batch) ==
            Only(batch, OfProto(Goose)) + Only(batch, OfProto(Sv)) + Only(batch, OfProto(RGoose))
            + Only(batch, OfProto(RSv)) + Only(batch, OfProto(NonBus))
  {
    hide Only;
    StagedPush(batch, [], Goose);
    StagedPush(batch, [Goose], Sv);
    StagedPush(batch, [Goose, Sv], RGoose);
    StagedPush(batch, [Goose, Sv, RGoose], RSv);
    StagedPush(batch, [Goose, Sv, RGoose, RSv], NonBus);
    assert [] + [Goose] == [Goose] && [Goose] + [Sv] == [Goose, Sv] && [Goose, Sv] + [RGoose] == [Goose, Sv, RGoose];
    assert [Goose, Sv, RGoose] + [RSv] == [Goose, Sv, RGoose, RSv] && [Goose, Sv, RGoose, RSv] + [NonBus] == STAGES;
  }

  lemma StagedPush(batch: seq<Mbuf>, stages: seq<Proto>, p: Proto)
    ensures Staged(batch, stages + [p]) == Staged(batch, stages) + Only(batch, OfProto(p))
  {
    assert (stages + [p])[..|stages|] == stages;
  }

  /** Within one protocol the stages keep the order of the batch. */
  lemma {:induction false} StagedOnly(batch: seq<Mbuf>, stages: seq<Proto>, p: Proto, f: Mbuf -> bool)
    requires forall m :: m in batch && f(m) ==> StreamOf(m).proto == p
    requires forall i, j :: 0 <= i < j < |stages| ==> stages[i] != stages[j]
    ensures Only(Staged(batch, stages), f) == if p in stages then Only(batch, f) else []
  {
    hide Only, StreamOf;
    if stages == [] {
      OnlyNone([], f);
    } else {
      var init, last := stages[..|stages| - 1], stages[|stages| - 1];
      assert stages == init + [last];
      OnlyConcat(Staged(batch, init), Only(batch, OfProto(last)), f);
      StagedOnly(batch, init, p, f);
      StagePart(batch, last, p, f);
    }
  }

  lemma PipelineKeepsOrder(batch: seq<Mbuf>, p: Proto, f: Mbuf -> bool)
    requires forall m :: m in batch && f(m) ==> StreamOf(m).proto == p
    ensures Only(PipelineOrder(batch), f) == Only(batch, f)
  {
    hide StreamOf;
    StagedOnly(batch, STAGES, p, f);
  }

  lemma StagePart(batch: seq<Mbuf>, stage: Proto, p: Proto, f: Mbuf -> bool)
    requires forall m :: m in batch && f(m) ==> StreamOf(m).proto == p
    ensures Only(Only(batch, OfProto(stage)), f) == if stage == p then Only(batch, f) else []
  {
    hide StreamOf;
    if stage == p {
      OnlyOnly(batch, OfProto(stage), f);
    } else {
      OnlyMembers(batch, OfProto(stage));
      OnlyNone(Only(batch, OfProto(stage)), f);
    }
  }

  lemma {:induction false} StagedMembers(batch: seq<Mbuf>, stages: seq<Proto>)
    ensures forall m :: m in Staged(batch, stages) <==> m in batch && StreamOf(m).proto in stages
  {
    hide StreamOf;
    if stages != [] {
      var init, last := stages[..|stages| - 1], stages[|stages| - 1];
      assert stages == init + [last];
      StagedMembers(batch, init);
      OnlyMembers(batch, OfProto(last));
    }
  }

  /** Every frame of the batch is handled, and no other. */
  lemma PipelineMembers(batch: seq<Mbuf>)
    ensures forall m :: m in PipelineOrder(batch) <==> m in batch
  {
    hide StreamOf;
    StagedMembers(batch, STAGES);
  }

  /** The five stages partition the batch. */
  lemma {:induction false} PipelineSize(batch: seq<Mbuf>)
    ensures |Only(batch, OfProto(Goose))| + |Only(batch, OfProto(Sv))| + |Only(batch, OfProto(RGoose))|
            + |Only(batch, OfProto(RSv))| + |Only(batch, OfProto(NonBus))| == |batch|
  {
    hide StreamOf;
    if batch != [] {
      PipelineSize(batch[..|batch| - 1]);
    }
  }
}
