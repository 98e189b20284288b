/**
 The burst loop of a TX worker against an adversarial NIC, pool and stop flag.

 The stop flag falls once and stays down; a run is described by how many reads of the flag still
 find it up, whether each bulk allocation succeeds, and how many buffers the NIC takes of each
 offer.  Every finite run is one such choice, and every such choice is a run.
 */
module TxBurst {
  import opened Bytes
  import opened TxSchedule
  import Gaps

  const BURST_SIZE: nat := 32

  /** A buffer on the wire: its allocation number, and the descriptor it was amended for. */
  datatype Sent<+T> = Sent(mbuf: nat, desc: T)

  /** `n` passes over the plan. */
  function Passes<T>(plan: seq<T>, n: nat): (r: seq<T>)
  {
    if n == 0 then [] else Passes(plan, n - 1) + plan
  }

  lemma {:induction false} PassesSize<T>(plan: seq<T>, n: nat)
    ensures |Passes(plan, n)| == n * |plan|
  {
    if n > 0 {
      PassesSize(plan, n - 1);
      NextMultiple(n - 1, |plan|);
    }
  }

  /** Place by place: round the plan. */
  lemma {:induction false} PassesAt<T>(plan: seq<T>, n: nat, k: nat)
    requires k < |Passes(plan, n)|
    ensures |Passes(plan, n)| == n * |plan| && plan != [] && Passes(plan, n)[k] == plan[k % |plan|]
  {
    PassesSize(plan, n);
    var before := |Passes(plan, n - 1)|;
    if k < before {
      PassesAt(plan, n - 1, k);
    } else {
      PassesSize(plan, n - 1);
      ModExact(n - 1, |plan|, k - before);
    }
  }

  function Mbufs<T>(wire: seq<Sent<T>>): (r: seq<nat>)
    ensures |r| == |wire| && forall i :: 0 <= i < |wire| ==> r[i] == wire[i].mbuf
  {
    seq(|wire|, i requires 0 <= i < |wire| => wire[i].mbuf)
  }

  function Descs<T>(wire: seq<Sent<T>>): (r: seq<T>)
    ensures |r| == |wire| && forall i :: 0 <= i < |wire| ==> r[i] == wire[i].desc
  {
    seq(|wire|, i requires 0 <= i < |wire| => wire[i].desc)
  }

  /** The part `from..` of staged buffers `first, first + 1, ...` with their descriptors. */
  function Offer<T>(plan: seq<T>, first: nat, from: nat, n: nat): (r: seq<Sent<T>>)
    requires from + n <= |plan|
    ensures |r| == n
  {
    seq(n, i requires 0 <= i < n => Sent(first + from + i, plan[from + i]))
  }

  /** What is staged by the allocation attempts `from..end`: a bulk for each that succeeded. */
  function Allocated(total: nat, allocOk: nat -> bool, from: nat, end: nat): (n: nat)
    requires from <= end
    ensures n <= total
    decreases end
  {
    if from == end then 0
    else
      var before := Allocated(total, allocOk, from, end - 1);
      var bulk := if BURST_SIZE < total - before then BURST_SIZE else total - before;
      before + if allocOk(end - 1) then bulk else 0
  }

  /** What the NIC took of the offers `from..end`, each of a bulk of what was left. */
  function Taken(total: nat, takes: nat -> nat, from: nat, end: nat): (n: nat)
    requires from <= end
    ensures n <= total
    decreases end
  {
    if from == end then 0
    else
      var before := Taken(total, takes, from, end - 1);
      var bulk := if BURST_SIZE < total - before then BURST_SIZE else total - before;
      before + if takes(end - 1) < bulk then takes(end - 1) else bulk
  }

  /**
   Staging: allocate and amend in bulks until the plan is staged or the flag falls.  Every attempt is one
   read of the flag, and there is none more than needed.
   */
  method Stage<T>(plan: seq<T>, up: nat, allocOk: nat -> bool, tries: nat)
    returns (up': nat, tries': nat, staged: nat)
    ensures staged <= |plan| && up' <= up
    ensures staged < |plan| ==> up' == 0
    ensures tries <= tries' && tries' - tries == up - up' && staged == Allocated(|plan|, allocOk, tries, tries')
    ensures forall i :: tries <= i < tries' ==> Allocated(|plan|, allocOk, tries, i) < |plan|
  {
    up', tries', staged := up, tries, 0;
    while staged < |plan| && up' > 0
      invariant staged <= |plan| && up' <= up
      invariant tries <= tries' && tries' - tries == up - up' && staged == Allocated(|plan|, allocOk, tries, tries')
      invariant forall i :: tries <= i < tries' ==> Allocated(|plan|, allocOk, tries, i) < |plan|
      decreases up'
    {
      up' := up' - 1;
      var num := if BURST_SIZE < |plan| - staged then BURST_SIZE else |plan| - staged;
      tries' := tries' + 1;
      if allocOk(tries' - 1) {
        staged := staged + num;
      }
    }
  }

  /**
   Firing: offer what is left until the NIC has taken everything or the flag falls.  Every offer is one read
   of the flag, what goes out is what the NIC took, and nothing is offered once all is taken.
   */
  method Fire<T>(plan: seq<T>, first: nat, up: nat, takes: nat -> nat, offers: nat)
    returns (up': nat, offers': nat, sent: nat, out: seq<Sent<T>>)
    ensures sent <= |plan| && up' <= up
    ensures sent < |plan| ==> up' == 0
    ensures out == Offer(plan, first, 0, sent)
    ensures offers <= offers' && offers' - offers == up - up' && sent == Taken(|plan|, takes, offers, offers')
    ensures forall i :: offers <= i < offers' ==> Taken(|plan|, takes, offers, i) < |plan|
  {
    up', offers', sent, out := up, offers, 0, [];
    while sent < |plan| && up' > 0
      invariant sent <= |plan| && up' <= up
      invariant out == Offer(plan, first, 0, sent)
      invariant offers <= offers' && offers' - offers == up - up' && sent == Taken(|plan|, takes, offers, offers')
      invariant forall i :: offers <= i < offers' ==> Taken(|plan|, takes, offers, i) < |plan|
      decreases up'
    {
      up' := up' - 1;
      var num := if BURST_SIZE < |plan| - sent then BURST_SIZE else |plan| - sent;
      var nb := if takes(offers') < num then takes(offers') else num;
      offers' := offers' + 1;
      assert Offer(plan, first, 0, sent) + Offer(plan, first, sent, nb) == Offer(plan, first, 0, sent + nb);
      out := out + Offer(plan, first, sent, nb);
      sent := sent + nb;
    }
  }

  function AtMost(total: nat, n: nat): (r: nat)
  {
    if n < total then n else total
  }

  /** How many of the attempts `from..end` succeeded. */
  function Successes(allocOk: nat -> bool, from: nat, end: nat): (n: nat)
    requires from <= end
    decreases end
  {
    if from == end then 0 else Successes(allocOk, from, end - 1) + if allocOk(end - 1) then 1 else 0
  }

  /** What the NIC would take of the offers `from..end`, were each a full one. */
  function Capacity(takes: nat -> nat, from: nat, end: nat): (n: nat)
    requires from <= end
    decreases end
  {
    if from == end then 0 else Capacity(takes, from, end - 1) + AtMost(32, takes(end - 1))
  }

  /**
   The smaller last bulk costs nothing: 32 buffers a success, and all the NIC would take of full offers, up to
   the length of the plan.
   */
  lemma {:induction false} BulksClosed(total: nat, allocOk: nat -> bool, takes: nat -> nat, from: nat, end: nat)
    requires from <= end
    ensures Allocated(total, allocOk, from, end) == AtMost(total, 32 * Successes(allocOk, from, end))
    ensures Taken(total, takes, from, end) == AtMost(total, Capacity(takes, from, end))
    decreases end
  {
    if from < end {
      BulksClosed(total, allocOk, takes, from, end - 1);
    }
  }

  /** Every allocation succeeds, and the NIC takes something of every offer. */
  ghost predicate Eager(allocOk: nat -> bool, takes: nat -> nat)
  {
    forall i: nat :: allocOk(i) && takes(i) > 0
  }

  /** Then every attempt and every offer makes progress. */
  lemma {:induction false} EagerProgress(total: nat, allocOk: nat -> bool, takes: nat -> nat, from: nat, end: nat)
    requires Eager(allocOk, takes) && from <= end
    ensures Allocated(total, allocOk, from, end) == total || Allocated(total, allocOk, from, end) >= end - from
    ensures Taken(total, takes, from, end) == total || Taken(total, takes, from, end) >= end - from
    decreases end
  {
    if from < end {
      EagerProgress(total, allocOk, takes, from, end - 1);
    }
  }

  /** So there are no more attempts, or offers, than frames. */
  lemma EagerEnds(total: nat, allocOk: nat -> bool, takes: nat -> nat, from: nat, end: nat)
    requires Eager(allocOk, takes) && from <= end
    ensures (forall i :: from <= i < end ==> Allocated(total, allocOk, from, i) < total) ==> end - from <= total
    ensures (forall i :: from <= i < end ==> Taken(total, takes, from, i) < total) ==> end - from <= total
  {
    if from < end {
      EagerProgress(total, allocOk, takes, from, end - 1);
    }
  }

  lemma WireGrows<T>(wire: seq<Sent<T>>, plan: seq<T>, first: nat, sent: nat)
    requires sent <= |plan| && Mbufs(wire) == Range(0, first)
    ensures Mbufs(wire + Offer(plan, first, 0, sent)) == Range(0, first + sent)
    ensures Descs(wire + Offer(plan, first, 0, sent)) == Descs(wire) + plan[..sent]
  {
    RangeJoin(0, first);
  }

  /** Reads of the flag that `k` bursts of an eager run need at most. */
  function Most(frames: nat, k: nat): (n: nat)
  {
    k * (2 * frames + 2)
  }

  lemma MostGrows(frames: nat, j: nat, k: nat)
    ensures j <= k ==> Most(frames, j) <= Most(frames, k)
    ensures Most(frames, k + 1) == Most(frames, k) + 2 * frames + 2
  {
    MulMono(j, k, 2 * frames + 2);
    NextMultiple(k, 2 * frames + 2);
  }

  /**
   The burst cycle.  On the wire, in order and without repeats, is a prefix of what was amended,
   which is the plan over and over; every completed burst is the whole plan; the packet counter is
   the number accepted; each allocated buffer was either taken by the NIC or freed, once; and no
   stream has a gap on the wire.  Every read of the flag that finds it up is a pass, an allocation attempt,
   a check before firing or an offer; and if allocations succeed and the NIC takes something of every offer,
   a burst needs no more than 2 * |plan| + 2 of them.  An empty plan is refused at the start.
   */
  method TxBurstCycle<T(==)>(plan: seq<T>, upReads: nat, allocOk: nat -> bool, takes: nat -> nat)
    returns (started: bool, wire: seq<Sent<T>>, freed: seq<nat>, amended: seq<T>, bursts: nat, txPktCnt: u64, spent: Reads)
    ensures started <==> plan != []
    ensures Mbufs(wire) + freed == Range(0, |amended|)
    ensures Descs(wire) <= amended
    ensures Passes(plan, bursts) <= Descs(wire)
    ensures amended <= Passes(plan, bursts + 1)
    ensures txPktCnt == |wire| % U64
    ensures forall i :: 0 <= i < |wire| ==> wire[i].mbuf < |amended|
    ensures forall s :: Gaps.LossRuns(WireNumbers(wire, amended, s)) == 0
    ensures started ==> Accounted(spent, upReads, bursts)
    ensures forall k: nat :: started && Eager(allocOk, takes) && upReads >= Most(|plan|, k) ==>
              bursts >= k && Passes(plan, k) <= Descs(wire)
  {
    hide Passes, Mbufs, Descs, Range, Eager, WireNumbers, Gaps.LossRuns, Most, Accounted;
    started, wire, freed, amended, bursts, txPktCnt, spent := plan != [], [], [], [], 0, 0, Reads(0, 0, 0, 0);
    NothingSent(plan);
    if started {
      var c;
      c, freed := BurstLoop(plan, upReads, allocOk, takes);
      wire, amended, bursts, txPktCnt, spent := c.wire, c.amended, c.bursts, c.txPktCnt, c.spent;
      if Eager(allocOk, takes) {
        EnoughBursts(plan, Descs(wire), bursts, upReads);
      }
    }
    WireInOrder(wire, freed, amended);
    forall s ensures Gaps.LossRuns(WireNumbers(wire, amended, s)) == 0 {
      WireHasNoGaps(wire, freed, amended, s);
    }
  }

  lemma EnoughBursts<T>(plan: seq<T>, sent: seq<T>, bursts: nat, upReads: nat)
    requires upReads < Most(|plan|, bursts + 1) && Passes(plan, bursts) <= sent
    ensures forall k: nat :: upReads >= Most(|plan|, k) ==> bursts >= k && Passes(plan, k) <= sent
  {
    hide Passes, Most;
    forall k: nat | upReads >= Most(|plan|, k) ensures bursts >= k && Passes(plan, k) <= sent {
      MostGrows(|plan|, bursts + 1, k);
      PassesGrow(plan, k, bursts);
    }
  }

  lemma {:induction false} PassesGrow<T>(plan: seq<T>, k: nat, n: nat)
    requires k <= n
    ensures Passes(plan, k) <= Passes(plan, n)
  {
    if k < n {
      PassesGrow(plan, k, n - 1);
    }
  }

  /** Reads of the flag that found it up, by what they led to. */
  datatype Reads = Reads(passes: nat, tries: nat, fired: nat, offers: nat)

  ghost predicate Accounted(r: Reads, upReads: nat, bursts: nat)
  {
    upReads == r.passes + r.tries + r.fired + r.offers && bursts <= r.fired <= r.passes <= bursts + 1
  }

  /** One pass of the cycle: stage, and fire unless the flag has fallen; what was staged and not sent is freed. */
  method OneBurst<T>(plan: seq<T>, first: nat, upReads: nat, allocOk: nat -> bool, tries: nat, takes: nat -> nat, offers: nat)
    returns (up: nat, tries': nat, offers': nat, fired: bool, staged: nat, sent: nat, out: seq<Sent<T>>)
    ensures up <= upReads && sent <= staged <= |plan| && out == Offer(plan, first, 0, sent)
    ensures sent < |plan| ==> up == 0
    ensures tries <= tries' && offers <= offers'
    ensures upReads - up == (tries' - tries) + (offers' - offers) + if fired then 1 else 0
    ensures staged == AtMost(|plan|, 32 * Successes(allocOk, tries, tries'))
    ensures sent == AtMost(|plan|, Capacity(takes, offers, offers'))
    ensures if fired then staged == |plan| else sent == up == 0
    ensures plan != [] && Eager(allocOk, takes) && upReads >= 2 * |plan| + 1 ==>
              fired && sent == |plan| && upReads - up <= 2 * |plan| + 1
  {
    hide Offer, Eager;
    offers', sent, out, fired := offers, 0, [], false;
    NoOffer(plan, first);
    up, tries', staged := Stage(plan, upReads, allocOk, tries);
    BulksClosed(|plan|, allocOk, takes, tries, tries');
    BulksClosed(|plan|, allocOk, takes, offers, offers);
    if Eager(allocOk, takes) {
      EagerEnds(|plan|, allocOk, takes, tries, tries');
    }
    if up == 0 {
      return;
    }
    up, fired := up - 1, true;
    up, offers', sent, out := Fire(plan, first, up, takes, offers);
    BulksClosed(|plan|, allocOk, takes, offers, offers');
    if Eager(allocOk, takes) {
      EagerEnds(|plan|, allocOk, takes, offers, offers');
      EagerProgress(|plan|, allocOk, takes, offers, offers');
    }
  }

  lemma NoOffer<T>(plan: seq<T>, first: nat)
    ensures Offer(plan, first, 0, 0) == []
  {
  }

  /** What the loop has done after some whole bursts. */
  ghost predicate WholeBursts<T>(plan: seq<T>, wire: seq<Sent<T>>, amended: seq<T>, bursts: nat)
  {
    Mbufs(wire) == Range(0, |amended|) && Descs(wire) == amended == Passes(plan, bursts)
  }

  lemma AnotherBurst<T>(plan: seq<T>, wire: seq<Sent<T>>, amended: seq<T>, bursts: nat)
    requires WholeBursts(plan, wire, amended, bursts)
    ensures WholeBursts(plan, wire + Offer(plan, |amended|, 0, |plan|), amended + plan, bursts + 1)
  {
    hide Offer, Mbufs, Descs, Range;
    WireGrows(wire, plan, |amended|, |plan|);
    assert plan[..|plan|] == plan;
  }

  /** The burst that the stop flag cut short. */
  lemma LastBurst<T>(plan: seq<T>, wire: seq<Sent<T>>, amended: seq<T>, bursts: nat, staged: nat, sent: nat)
    requires WholeBursts(plan, wire, amended, bursts) && sent <= staged <= |plan|
    ensures Finished(plan, wire + Offer(plan, |amended|, 0, sent), Range(|amended| + sent, staged - sent),
                     amended + plan[..staged], bursts)
  {
    hide Offer, Mbufs, Descs, Range;
    WireGrows(wire, plan, |amended|, sent);
    RangeJoin(|amended| + sent, staged - sent);
    assert plan[..sent] <= plan[..staged];
  }

  /** What a run of the loop leaves: whole bursts, and perhaps the part of one more that the stop flag cut short. */
  ghost predicate Finished<T>(plan: seq<T>, wire: seq<Sent<T>>, freed: seq<nat>, amended: seq<T>, bursts: nat)
  {
    && Mbufs(wire) + freed == Range(0, |amended|) && Descs(wire) <= amended
    && Passes(plan, bursts) <= Descs(wire) && amended <= Passes(plan, bursts + 1)
  }

  /** The variables of the loop. */
  datatype Cycle<+T> = Cycle(wire: seq<Sent<T>>, amended: seq<T>, bursts: nat, txPktCnt: u64, spent: Reads, up: nat)

  ghost predicate Going<T>(plan: seq<T>, c: Cycle<T>, upReads: nat, eager: bool)
  {
    && WholeBursts(plan, c.wire, c.amended, c.bursts) && c.txPktCnt == |c.wire| % U64 && c.up <= upReads
    && Running(c.spent, upReads - c.up, c.bursts) && (eager ==> upReads - c.up <= Most(|plan|, c.bursts))
  }

  ghost predicate Over<T>(plan: seq<T>, c: Cycle<T>, freed: seq<nat>, upReads: nat, eager: bool)
  {
    && Finished(plan, c.wire, freed, c.amended, c.bursts) && c.txPktCnt == |c.wire| % U64
    && Accounted(c.spent, upReads, c.bursts) && (eager ==> upReads < Most(|plan|, c.bursts + 1))
  }

  /** One pass of the loop: another whole burst, or the end. */
  method Pass<T>(plan: seq<T>, c: Cycle<T>, ghost upReads: nat, allocOk: nat -> bool, takes: nat -> nat)
    returns (d: Cycle<T>, stopped: bool, freed: seq<nat>)
    requires plan != [] && c.up > 0 && Going(plan, c, upReads, Eager(allocOk, takes))
    ensures d.up < c.up
    ensures if stopped then Over(plan, d, freed, upReads, Eager(allocOk, takes))
            else freed == [] && Going(plan, d, upReads, Eager(allocOk, takes))
  {
    hide Offer, Range, Mbufs, Descs, WholeBursts, Passes, Eager, Most, Successes, Capacity, AtMost, Accounted, Running, Finished;
    var up, tries, offers, fired, staged, sent, out :=
      OneBurst(plan, |c.amended|, c.up - 1, allocOk, c.spent.tries, takes, c.spent.offers);
    var spent := Reads(c.spent.passes + 1, tries, c.spent.fired + if fired then 1 else 0, offers);
    d := c.(wire := c.wire + out, amended := c.amended + plan[..staged], txPktCnt := (c.txPktCnt + sent) % U64, spent := spent, up := up);
    WrapAdd64(|c.wire|, sent);
    stopped, freed := sent < |plan|, [];
    if stopped {
      LastPass(|plan|, c.spent, spent, upReads, c.up, c.bursts, Eager(allocOk, takes));
      LastBurst(plan, c.wire, c.amended, c.bursts, staged, sent);
      freed := Range(|c.amended| + sent, staged - sent);
    } else {
      WholePass(|plan|, c.spent, spent, upReads, c.up, up, c.bursts, Eager(allocOk, takes));
      AnotherBurst(plan, c.wire, c.amended, c.bursts);
      assert plan[..staged] == plan;
      d := d.(bursts := c.bursts + 1);
    }
  }

  method BurstLoop<T>(plan: seq<T>, upReads: nat, allocOk: nat -> bool, takes: nat -> nat)
    returns (c: Cycle<T>, freed: seq<nat>)
    requires plan != []
    ensures Over(plan, c, freed, upReads, Eager(allocOk, takes))
  {
    c, freed := Cycle([], [], 0, 0, Reads(0, 0, 0, 0), upReads), [];
    NothingSent(plan);
    MostGrows(|plan|, 0, 0);
    hide WholeBursts, Eager, Most, Accounted, Running, Finished;
    StartAccount();
    while c.up > 0
      invariant freed == [] && Going(plan, c, upReads, Eager(allocOk, takes))
      decreases c.up
    {
      var stopped;
      c, stopped, freed := Pass(plan, c, upReads, allocOk, takes);
      if stopped {
        return;
      }
    }
    AllAccounted(c.spent, upReads, c.bursts, |plan|);
    BurstsDone(plan, c.wire, c.amended, c.bursts);
  }

  /** The account of `used` reads after whole bursts. */
  ghost predicate Running(r: Reads, used: nat, bursts: nat)
  {
    used == r.passes + r.tries + r.fired + r.offers && bursts == r.fired == r.passes
  }

  lemma WholePass(frames: nat, was: Reads, now: Reads, upReads: nat, before: nat, up: nat, bursts: nat,
                     eager: bool)
    requires up < before <= upReads
    requires Running(was, upReads - before, bursts) && (eager ==> upReads - before <= Most(frames, bursts))
    requires now.passes == was.passes + 1 && now.fired == was.fired + 1
    requires before - 1 - up == (now.tries - was.tries) + (now.offers - was.offers) + 1
    requires eager && before - 1 >= 2 * frames + 1 ==> before - 1 - up <= 2 * frames + 1
    ensures Running(now, upReads - up, bursts + 1) && (eager ==> upReads - up <= Most(frames, bursts + 1))
  {
    hide Most;
    MostGrows(frames, 0, bursts);
  }

  lemma LastPass(frames: nat, was: Reads, now: Reads, upReads: nat, before: nat, bursts: nat,
                    eager: bool)
    requires 0 < before <= upReads
    requires Running(was, upReads - before, bursts) && (eager ==> upReads - before <= Most(frames, bursts))
    requires now.passes == was.passes + 1 && was.fired <= now.fired <= was.fired + 1
    requires before - 1 == (now.tries - was.tries) + (now.offers - was.offers) + (now.fired - was.fired)
    requires eager ==> before - 1 < 2 * frames + 1
    ensures Accounted(now, upReads, bursts) && (eager ==> upReads < Most(frames, bursts + 1))
  {
    hide Most;
    MostGrows(frames, 0, bursts);
  }

  lemma StartAccount()
    ensures Running(Reads(0, 0, 0, 0), 0, 0)
  {
  }

  lemma AllAccounted(r: Reads, upReads: nat, bursts: nat, frames: nat)
    requires Running(r, upReads, bursts)
    ensures Accounted(r, upReads, bursts) && Most(frames, bursts) < Most(frames, bursts + 1)
  {
    MostGrows(frames, 0, bursts);
  }

  lemma NothingSent<T>(plan: seq<T>)
    ensures WholeBursts(plan, [], [], 0) && Finished(plan, [], [], [], 0)
  {
  }

  lemma BurstsDone<T>(plan: seq<T>, wire: seq<Sent<T>>, amended: seq<T>, bursts: nat)
    requires WholeBursts(plan, wire, amended, bursts)
    ensures Finished(plan, wire, [], amended, bursts)
  {
  }

  // ---------------------------------------------------------------- the burst cycle makes no gaps

  /** How often `s` occurs. */
  function Times<T(==)>(descs: seq<T>, s: T): (n: nat)
  {
    if descs == [] then 0 else Times(descs[..|descs| - 1], s) + if descs[|descs| - 1] == s then 1 else 0
  }

  lemma {:induction false} TimesIs<T>(descs: seq<T>, s: T)
    ensures Times(descs, s) == multiset(descs)[s]
  {
    if descs != [] {
      TimesIs(descs[..|descs| - 1], s);
      assert descs == descs[..|descs| - 1] + [descs[|descs| - 1]];
    }
  }

  /**
   Numbers, within stream `s`, of its frames on the wire.  A frame gets its number when it is amended,
   so a buffer carries the number of earlier amendments of its stream, whatever became of those.
   */
  function WireNumbers<T(==)>(wire: seq<Sent<T>>, amended: seq<T>, s: T): (r: seq<nat>)
    requires forall i :: 0 <= i < |wire| ==> wire[i].mbuf <= |amended|
  {
    if wire == [] then []
    else
      var last := wire[|wire| - 1];
      WireNumbers(wire[..|wire| - 1], amended, s)
      + if last.desc == s then [Times(amended[..last.mbuf], s)] else []
  }

  /** When buffers reach the wire in amendment order from the first on, each stream's numbers are 0, 1, 2 and so on. */
  lemma {:induction false} InOrderNumbers<T>(wire: seq<Sent<T>>, amended: seq<T>, s: T)
    requires |wire| <= |amended| && Descs(wire) == amended[..|wire|]
    requires forall i :: 0 <= i < |wire| ==> wire[i].mbuf == i
    ensures |WireNumbers(wire, amended, s)| == Times(amended[..|wire|], s)
    ensures forall k :: 0 <= k < |WireNumbers(wire, amended, s)| ==> WireNumbers(wire, amended, s)[k] == k
  {
    if wire != [] {
      var n := |wire| - 1;
      assert Descs(wire)[n] == amended[n] && Descs(wire)[..n] == Descs(wire[..n]);
      assert amended[..n + 1][..n] == amended[..n];
      InOrderNumbers(wire[..n], amended, s);
    }
  }

  lemma WireInOrder<T>(wire: seq<Sent<T>>, freed: seq<nat>, amended: seq<T>)
    requires Mbufs(wire) + freed == Range(0, |amended|)
    ensures |wire| <= |amended| && forall i :: 0 <= i < |wire| ==> wire[i].mbuf == i
  {
    assert |Mbufs(wire) + freed| == |amended|;
    forall i | 0 <= i < |wire| ensures wire[i].mbuf == i {
      assert (Mbufs(wire) + freed)[i] == wire[i].mbuf;
    }
  }

  /**
   The burst cycle's result carries no gap: what it puts on the wire and frees accounts for every
   amended buffer in order, so each stream's numbers run from the first one on without a break.
   */
  lemma WireHasNoGaps<T>(wire: seq<Sent<T>>, freed: seq<nat>, amended: seq<T>, s: T)
    requires Mbufs(wire) + freed == Range(0, |amended|) && Descs(wire) <= amended
    ensures forall i :: 0 <= i < |wire| ==> wire[i].mbuf == i < |amended|
    ensures |WireNumbers(wire, amended, s)| == Times(amended[..|wire|], s)
    ensures Gaps.LossRuns(WireNumbers(wire, amended, s)) == 0
  {
    WireInOrder(wire, freed, amended);
    InOrderNumbers(wire, amended, s);
    Gaps.LosslessIff(WireNumbers(wire, amended, s));
  }
}
