/** Slicing streams over TX workers, the flat burst plan, and the blocked schedule of one second. */
module TxSchedule {
  import opened Bytes

  // ---------------------------------------------------------------- slices

  /** ied_slice(): the half-open range of streams of worker `i`; the first workers take the remainder. */
  function Slice(num: nat, workers: nat, i: nat): (r: (nat, nat))
    requires workers > 0
    ensures r.0 <= r.1
  {
    var per, rem := num / workers, num % workers;
    MulMono(0, i, per);
    var lo := i * per + if i < rem then i else rem;
    (lo, lo + per + if i < rem then 1 else 0)
  }

  lemma SliceNext(num: nat, workers: nat, i: nat)
    requires workers > 0
    ensures Slice(num, workers, i).1 == Slice(num, workers, i + 1).0
  {
    assert (i + 1) * (num / workers) == i * (num / workers) + num / workers;
  }

  lemma {:induction false} SliceMonotone(num: nat, workers: nat, i: nat, j: nat)
    requires workers > 0 && i <= j
    ensures Slice(num, workers, i).0 <= Slice(num, workers, j).0
    decreases j - i
  {
    hide Slice;
    if i < j {
      SliceNext(num, workers, i);
      SliceMonotone(num, workers, i + 1, j);
    }
  }

  /** The slices start at 0, end at `num`, follow each other, and differ in size by at most one; the larger ones come first. */
  lemma SlicePartition(num: nat, workers: nat)
    requires workers > 0
    ensures Slice(num, workers, 0).0 == 0
    ensures Slice(num, workers, workers - 1).1 == num
    ensures forall i :: 0 <= i < workers ==> Slice(num, workers, i).1 == Slice(num, workers, i + 1).0
    ensures forall i :: 0 <= i < workers ==>
              num / workers <= Slice(num, workers, i).1 - Slice(num, workers, i).0 <= num / workers + 1
    ensures forall i :: 0 <= i && i + 1 < workers ==>
              Slice(num, workers, i).1 - Slice(num, workers, i).0 >= Slice(num, workers, i + 1).1 - Slice(num, workers, i + 1).0
  {
    forall i | 0 <= i < workers ensures Slice(num, workers, i).1 == Slice(num, workers, i + 1).0 {
      SliceNext(num, workers, i);
    }
    var per, rem := num / workers, num % workers;
    assert num == per * workers + rem;
    assert (workers - 1) * per == workers * per - per;
  }

  /** Every stream belongs to exactly one worker. */
  lemma SliceOwner(num: nat, workers: nat, stream: nat) returns (i: nat)
    requires workers > 0 && stream < num
    ensures i < workers && Slice(num, workers, i).0 <= stream < Slice(num, workers, i).1
    ensures forall j :: 0 <= j < workers && Slice(num, workers, j).0 <= stream < Slice(num, workers, j).1 ==> j == i
  {
    hide Slice;
    SlicePartition(num, workers);
    i := 0;
    while Slice(num, workers, i).1 <= stream
      invariant i < workers && Slice(num, workers, i).0 <= stream
      decreases workers - i
    {
      assert i + 1 < workers;
      i := i + 1;
    }
    forall j | 0 <= j < workers && Slice(num, workers, j).0 <= stream < Slice(num, workers, j).1 ensures j == i {
      if j < i {
        SliceMonotone(num, workers, j + 1, i);
      } else if i < j {
        SliceMonotone(num, workers, i + 1, j);
      }
    }
  }

  // ---------------------------------------------------------------- the flat plan

  /** from, from + 1, ... : `n` stream indices. */
  function Range(from: nat, n: nat): (r: seq<nat>)
    ensures |r| == n
    ensures forall k :: 0 <= k < n ==> r[k] == from + k
  {
    seq(n, k => from + k)
  }

  /** make_burst_plan(): all streams in order, `reps` times over. */
  function Plan(streams: nat, reps: nat): (p: seq<nat>)
  {
    if reps == 0 then [] else Plan(streams, reps - 1) + Range(0, streams)
  }

  method MakeBurstPlan(streams: nat, reps: nat) returns (plan: seq<nat>)
    ensures plan == Plan(streams, reps)
  {
    plan := [];
    for r := 0 to reps
      invariant plan == Plan(streams, r)
    {
      ghost var before := plan;
      for s := 0 to streams
        invariant plan == before + Range(0, s)
      {
        assert Range(0, s + 1) == Range(0, s) + [s];
        plan := plan + [s];
      }
    }
  }

  lemma {:induction false} PlanSize(streams: nat, reps: nat)
    ensures |Plan(streams, reps)| == reps * streams
  {
    if reps > 0 {
      PlanSize(streams, reps - 1);
      NextMultiple(reps - 1, streams);
    }
  }

  /** Place by place: the plan goes round the streams. */
  lemma {:induction false} PlanAt(streams: nat, reps: nat, k: nat)
    requires k < |Plan(streams, reps)|
    ensures |Plan(streams, reps)| == reps * streams && streams > 0 && Plan(streams, reps)[k] == k % streams
  {
    PlanSize(streams, reps);
    var before := |Plan(streams, reps - 1)|;
    if k < before {
      PlanAt(streams, reps - 1, k);
    } else {
      PlanSize(streams, reps - 1);
      ModExact(reps - 1, streams, k - before);
    }
  }

  lemma {:induction false} RangeCount(from: nat, n: nat, x: nat)
    ensures multiset(Range(from, n))[x] == if from <= x < from + n then 1 else 0
  {
    if n == 0 {
      assert Range(from, 0) == [];
    } else {
      RangeCount(from, n - 1, x);
      assert Range(from, n) == Range(from, n - 1) + [from + n - 1];
    }
  }

  /** Each of the streams is planned exactly `reps` times. */
  lemma {:induction false} PlanCount(streams: nat, reps: nat, x: nat)
    ensures multiset(Plan(streams, reps))[x] == if x < streams then reps else 0
  {
    if reps > 0 {
      PlanCount(streams, reps - 1, x);
      RangeCount(0, streams, x);
    }
  }

  /** Worker-local indices turned into global stream numbers, as the generator does. */
  function Globalise(plan: seq<nat>, base: nat): (r: seq<nat>)
    ensures |r| == |plan|
    ensures forall k :: 0 <= k < |plan| ==> r[k] == plan[k] + base
  {
    seq(|plan|, k requires 0 <= k < |plan| => plan[k] + base)
  }

  /** What the first `n` workers emit in one burst, in global stream numbers. */
  function Emitted(num: nat, workers: nat, reps: nat, n: nat): (r: seq<nat>)
    requires workers > 0
  {
    if n == 0 then [] else Emitted(num, workers, reps, n - 1) + EmittedBy(num, workers, reps, n - 1)
  }

  /** The burst of worker `i`, in global stream numbers. */
  function EmittedBy(num: nat, workers: nat, reps: nat, i: nat): (r: seq<nat>)
    requires workers > 0
  {
    var s := Slice(num, workers, i);
    Globalise(Plan(s.1 - s.0, reps), s.0)
  }

  lemma CountPush(init: seq<nat>, last: nat, all: seq<nat>, x: nat)
    requires |all| == |init| + 1 && all[..|init|] == init && all[|init|] == last
    ensures multiset(all)[x] == multiset(init)[x] + if x == last then 1 else 0
  {
    assert all == init + [last];
  }

  lemma CountConcat(a: seq<nat>, b: seq<nat>, x: nat)
    ensures multiset(a + b)[x] == multiset(a)[x] + multiset(b)[x]
  {
  }

  lemma {:induction false} GlobaliseCount(plan: seq<nat>, base: nat, x: nat)
    ensures multiset(Globalise(plan, base))[x] == if x >= base then multiset(plan)[x - base] else 0
  {
    if plan == [] {
      assert Globalise(plan, base) == [];
    } else {
      var init, last := plan[..|plan| - 1], plan[|plan| - 1];
      GlobaliseCount(init, base, x);
      CountPush(init, last, plan, if x >= base then x - base else 0);
      CountPush(Globalise(init, base), last + base, Globalise(plan, base), x);
    }
  }

  lemma EmittedByCount(num: nat, workers: nat, reps: nat, i: nat, x: nat)
    requires workers > 0
    ensures multiset(EmittedBy(num, workers, reps, i))[x] ==
            if Slice(num, workers, i).0 <= x < Slice(num, workers, i).1 then reps else 0
  {
    hide Plan, Slice;
    var s := Slice(num, workers, i);
    GlobaliseCount(Plan(s.1 - s.0, reps), s.0, x);
    PlanCount(s.1 - s.0, reps, if x >= s.0 then x - s.0 else 0);
  }

  function Occurrences(s: seq<nat>, x: nat): (n: nat)
  {
    multiset(s)[x]
  }

  lemma EmittedNext(num: nat, workers: nat, reps: nat, n: nat, x: nat)
    requires workers > 0
    ensures Occurrences(Emitted(num, workers, reps, n + 1), x) == Occurrences(Emitted(num, workers, reps, n), x)
            + if Slice(num, workers, n).0 <= x < Slice(num, workers, n + 1).0 then reps else 0
  {
    hide Slice, EmittedBy;
    SliceNext(num, workers, n);
    EmittedByCount(num, workers, reps, n, x);
    CountConcat(Emitted(num, workers, reps, n), EmittedBy(num, workers, reps, n), x);
  }

  lemma {:induction false} EmittedCount(num: nat, workers: nat, reps: nat, n: nat, x: nat)
    requires workers > 0
    ensures Occurrences(Emitted(num, workers, reps, n), x) == if x < Slice(num, workers, n).0 then reps else 0
  {
    hide Slice, EmittedBy, Occurrences;
    if n == 0 {
      SliceStart(num, workers);
      NoneIn(x);
    } else {
      EmittedCount(num, workers, reps, n - 1, x);
      SliceMonotone(num, workers, n - 1, n);
      EmittedNext(num, workers, reps, n - 1, x);
    }
  }

  lemma NoneIn(x: nat)
    ensures Occurrences([], x) == 0
  {
  }

  lemma SliceStart(num: nat, workers: nat)
    requires workers > 0
    ensures Slice(num, workers, 0).0 == 0
  {
  }

  /** All workers together emit every stream exactly `reps` times, and no other. */
  lemma WorkersEmitAll(num: nat, workers: nat, reps: nat, stream: nat)
    requires workers > 0
    ensures multiset(Emitted(num, workers, reps, workers))[stream] == if stream < num then reps else 0
  {
    SlicePartition(num, workers);
    EmittedCount(num, workers, reps, workers, stream);
  }

  // ---------------------------------------------------------------- the blocked schedule

  datatype Unit = Unit(offsetUs: nat, blocks: seq<seq<nat>>)

  function Flatten(blocks: seq<seq<nat>>): (r: seq<nat>)
  {
    if blocks == [] then [] else Flatten(blocks[..|blocks| - 1]) + blocks[|blocks| - 1]
  }

  function FlattenUnits(units: seq<Unit>): (r: seq<nat>)
  {
    if units == [] then [] else FlattenUnits(units[..|units| - 1]) + Flatten(units[|units| - 1].blocks)
  }

  method FillBlock(start: nat, size: nat) returns (packets: seq<nat>, iedIndex: nat)
    ensures packets == Range(start, size) && iedIndex == start + size
  {
    packets, iedIndex := [], start;
    for k := 0 to size
      invariant packets == Range(start, k) && iedIndex == start + k
    {
      assert Range(start, k + 1) == Range(start, k) + [start + k];
      packets := packets + [iedIndex];
      iedIndex := iedIndex + 1;
    }
  }

  lemma FlattenPush(blocks: seq<seq<nat>>, b: seq<nat>)
    ensures Flatten(blocks + [b]) == Flatten(blocks) + b
  {
    assert (blocks + [b])[..|blocks|] == blocks;
  }

  lemma RangeJoin(a: nat, b: nat)
    ensures Range(0, a) + Range(a, b) == Range(0, a + b)
  {
  }

  lemma FlattenNothing()
    ensures Flatten([]) == []
  {
  }

  lemma NextMultiple(j: nat, d: nat)
    ensures (j + 1) * d == j * d + d
  {
  }

  /** Every block but the last is a full bunch, and none is empty. */
  ghost predicate FullBunches(blocks: seq<seq<nat>>, bunch: nat)
  {
    && (forall b :: 0 <= b < |blocks| ==> 0 < |blocks[b]| <= bunch)
    && (forall b :: 0 <= b && b + 1 < |blocks| ==> |blocks[b]| == bunch)
  }

  /** The blocks of one unit: full bunches, then the rest. */
  method MakeBlocks(streams: nat, bunch: nat) returns (blocks: seq<seq<nat>>)
    requires bunch > 0
    ensures Flatten(blocks) == Range(0, streams)
    ensures FullBunches(blocks, bunch)
  {
    hide Flatten;
    var full, last := streams / bunch, streams % bunch;
    assert streams == full * bunch + last;
    blocks := [];
    var iedIndex := 0;
    assert Range(0, 0) == [] == Flatten([]) by { FlattenNothing(); }
    for j := 0 to full
      invariant iedIndex == j * bunch && Flatten(blocks) == Range(0, iedIndex)
      invariant forall b :: 0 <= b < |blocks| ==> |blocks[b]| == bunch
    {
      var packets, next := FillBlock(iedIndex, bunch);
      FlattenPush(blocks, packets);
      RangeJoin(iedIndex, bunch);
      NextMultiple(j, bunch);
      blocks := blocks + [packets];
      iedIndex := next;
    }
    if last > 0 {
      var packets, next := FillBlock(iedIndex, last);
      FlattenPush(blocks, packets);
      RangeJoin(iedIndex, last);
      blocks := blocks + [packets];
    }
  }

  /**
   GenerateTxUnits (bunch 32) and CreateTxUnits (bunch 64): read block by block, the schedule of a
   second is exactly the flat burst plan, unit by unit all streams; every block but the last of a unit is a full bunch.
   */
  method MakeTxUnits(streams: nat, pps: nat, bunch: nat) returns (units: seq<Unit>)
    requires bunch > 0
    ensures |units| == pps && FlattenUnits(units) == Plan(streams, pps)
    ensures forall i :: 0 <= i < pps ==> units[i].offsetUs == Offset(pps, i)
    ensures forall i :: 0 <= i < pps ==> FullBunches(units[i].blocks, bunch) && Flatten(units[i].blocks) == Range(0, streams)
  {
    units := [];
    for i := 0 to pps
      invariant |units| == i && FlattenUnits(units) == Plan(streams, i)
      invariant forall k :: 0 <= k < i ==> units[k].offsetUs == Offset(pps, k)
      invariant forall k :: 0 <= k < i ==> FullBunches(units[k].blocks, bunch) && Flatten(units[k].blocks) == Range(0, streams)
    {
      var blocks := MakeBlocks(streams, bunch);
      var unit := Unit(Offset(pps, i), blocks);
      assert (units + [unit])[..i] == units;
      units := units + [unit];
    }
  }

  /** Send time of unit `i` within the second, in microseconds: integer division first. */
  function Offset(pps: nat, i: nat): (us: nat)
    requires pps > 0
  {
    1_000_000 / pps * i
  }

  /**
   Send times stay within the second for every rate, and strictly increase exactly when there are at
   most a million units; above that all of them are zero.
   */
  lemma OffsetsIncrease(pps: nat)
    requires pps > 0
    ensures forall i :: 0 <= i < pps ==> Offset(pps, i) < 1_000_000
    ensures (forall i, j :: 0 <= i < j < pps ==> Offset(pps, i) < Offset(pps, j)) <==> pps <= 1_000_000
  {
    hide Offset;
    var d := Gap(pps);
    forall i | 0 <= i < pps ensures Offset(pps, i) < 1_000_000 {
      if d > 0 {
        MulMono(i + 1, pps, d);
      }
    }
    if pps <= 1_000_000 {
      assert d >= 1;
      forall i, j | 0 <= i < j < pps ensures Offset(pps, i) < Offset(pps, j) {
        MulMono(i + 1, j, d);
      }
    } else {
      assert d == 0 by {
        MulMono(1, d, pps);
      }
      assert Offset(pps, 0) == Offset(pps, 1) == 0;
    }
  }

  /** The distance between two units. */
  lemma Gap(pps: nat) returns (d: nat)
    requires pps > 0
    ensures d * pps <= 1_000_000 < (d + 1) * pps
    ensures forall i: nat :: Offset(pps, i) == i * d
  {
    d := 1_000_000 / pps;
    assert 1_000_000 == d * pps + 1_000_000 % pps;
  }

  /** Units are spaced evenly, as widely as fits into a second. */
  lemma OffsetSpacing(pps: nat) returns (gap: nat)
    requires pps > 0
    ensures gap * pps <= 1_000_000 < (gap + 1) * pps
    ensures Offset(pps, 0) == 0 && forall i: nat :: Offset(pps, i + 1) == Offset(pps, i) + gap
  {
    hide Offset;
    gap := Gap(pps);
    forall i: nat ensures Offset(pps, i + 1) == Offset(pps, i) + gap {
      NextMultiple(i, gap);
    }
  }
}
