/**
 The paced TX cycle: unit after unit of the schedule, block after block, bulk after bulk.

 Unlike the burst cycle it frees what the NIC does not take at once and counts it as a send error.
 Every freed frame already has its sequence number, so it is a gap of the sender's own making; the
 error counter is proved to tell exactly that.
 */
module TxPaced {
  import opened Bytes
  import opened TxSchedule
  import opened TxBurst
  import Gaps

  /** What has gone through the port, and what is left of the oracles' answers. */
  datatype Port = Port(
    wire: seq<Sent<nat>>,
    freed: seq<nat>,
    amended: seq<nat>,
    txPktCnt: u64,
    errSendCnt: u64,
    up: nat,
    tries: nat,
    offers: nat)

  /** Buffers are numbered in the order they were amended; each went to the wire or was freed, once. */
  ghost predicate Sound(p: Port)
  {
    && |p.wire| + |p.freed| == |p.amended|
    && (forall i :: 0 <= i < |p.wire| ==> p.wire[i].mbuf < |p.amended| && p.wire[i].desc == p.amended[p.wire[i].mbuf])
    && (forall i, j :: 0 <= i < j < |p.wire| ==> p.wire[i].mbuf < p.wire[j].mbuf)
    && (forall i :: 0 <= i < |p.freed| ==> p.freed[i] < |p.amended|)
    && (forall i, j :: 0 <= i < j < |p.freed| ==> p.freed[i] < p.freed[j])
    && (forall m :: 0 <= m < |p.amended| ==> (m in p.freed <==> m !in Mbufs(p.wire)))
    && p.txPktCnt == |p.wire| % U64 && p.errSendCnt == |p.freed| % U64
  }

  /** One bulk: amended, offered once, and the rest freed. */
  function SendBulk(p: Port, bulk: seq<nat>, nb: nat): (r: Port)
    requires nb <= |bulk|
  {
    var first := |p.amended|;
    p.(wire := p.wire + Offer(bulk, first, 0, nb),
       freed := p.freed + Range(first + nb, |bulk| - nb),
       amended := p.amended + bulk,
       txPktCnt := (p.txPktCnt + nb) % U64,
       errSendCnt := (p.errSendCnt + |bulk| - nb) % U64,
       tries := p.tries + 1,
       offers := p.offers + 1)
  }

  lemma BulkSound(p: Port, bulk: seq<nat>, nb: nat)
    requires Sound(p) && nb <= |bulk|
    ensures Sound(SendBulk(p, bulk, nb))
    ensures SendBulk(p, bulk, nb).amended == p.amended + bulk && SendBulk(p, bulk, nb).up == p.up
  {
    var r, first := SendBulk(p, bulk, nb), |p.amended|;
    WrapAdd64(|p.wire|, nb);
    WrapAdd64(|p.freed|, |bulk| - nb);
    BulkFates(p, bulk, nb);
    BulkOrder(p, bulk, nb);
  }

  lemma BulkOrder(p: Port, bulk: seq<nat>, nb: nat)
    requires Sound(p) && nb <= |bulk|
    ensures var r := SendBulk(p, bulk, nb);
            && (forall i :: 0 <= i < |r.wire| ==> r.wire[i].mbuf < |r.amended| && r.wire[i].desc == r.amended[r.wire[i].mbuf])
            && (forall i, j :: 0 <= i < j < |r.wire| ==> r.wire[i].mbuf < r.wire[j].mbuf)
            && (forall i :: 0 <= i < |r.freed| ==> r.freed[i] < |r.amended|)
            && (forall i, j :: 0 <= i < j < |r.freed| ==> r.freed[i] < r.freed[j])
  {
    var r := SendBulk(p, bulk, nb);
    forall i | 0 <= i < |r.wire|
      ensures r.wire[i] == if i < |p.wire| then p.wire[i] else Sent(|p.amended| + (i - |p.wire|), bulk[i - |p.wire|])
    {
    }
  }

  lemma BulkFates(p: Port, bulk: seq<nat>, nb: nat)
    requires Sound(p) && nb <= |bulk|
    ensures var r := SendBulk(p, bulk, nb);
            forall m :: 0 <= m < |r.amended| ==> (m in r.freed <==> m !in Mbufs(r.wire))
  {
    var r, first := SendBulk(p, bulk, nb), |p.amended|;
    var more := Offer(bulk, first, 0, nb);
    assert Mbufs(r.wire) == Mbufs(p.wire) + Mbufs(more);
    assert Mbufs(more) == Range(first, nb);
    forall m | 0 <= m < |r.amended| ensures m in r.freed <==> m !in Mbufs(r.wire) {
      RangeHolds(first, nb, m);
      RangeHolds(first + nb, |bulk| - nb, m);
    }
  }

  lemma RangeHolds(from: nat, n: nat, m: nat)
    ensures m in Range(from, n) <==> from <= m < from + n
  {
    if from <= m < from + n {
      assert Range(from, n)[m - from] == m;
    }
  }

  /** Every allocation that was asked for succeeded. */
  ghost predicate NeverFails(allocOk: nat -> bool)
  {
    forall i: nat :: allocOk(i)
  }

  /** The sum of the sizes of the bulks offered. */
  ghost function Total(sizes: seq<nat>): (n: nat)
  {
    if sizes == [] then 0 else Total(sizes[..|sizes| - 1]) + sizes[|sizes| - 1]
  }

  /** The number of buffer `j` of the i-th bulk. */
  ghost function Place(sizes: seq<nat>, i: nat, j: nat): (m: nat)
    requires i <= |sizes|
  {
    Total(sizes[..i]) + j
  }

  /**
   What the NIC did decides each buffer's fate: of the i-th bulk offered, the first takes(i) buffers went to the
   wire and the others were freed.
   */
  ghost predicate ByTakes(p: Port, sizes: seq<nat>, takes: nat -> nat)
  {
    && p.offers == |sizes| && |p.amended| == Total(sizes) && (forall i :: 0 <= i < |sizes| ==> 0 < sizes[i] <= 32)
    && forall i, j: nat :: 0 <= i < |sizes| && j < sizes[i] ==> (Place(sizes, i, j) in p.freed <==> j >= takes(i))
  }

  lemma {:induction false} TotalGrows(sizes: seq<nat>, i: nat)
    requires i < |sizes|
    ensures Total(sizes[..i]) + sizes[i] <= Total(sizes)
    decreases |sizes|
  {
    var n := |sizes| - 1;
    if i < n {
      assert sizes[..n][..i] == sizes[..i];
      TotalGrows(sizes[..n], i);
    }
  }

  lemma TotalPush(sizes: seq<nat>, n: nat)
    ensures Total(sizes + [n]) == Total(sizes) + n
  {
    assert (sizes + [n])[..|sizes|] == sizes;
  }

  lemma {:induction false} TotalJoin(a: seq<nat>, b: seq<nat>)
    ensures Total(a + b) == Total(a) + Total(b)
  {
    if b == [] {
      assert a + b == a;
    } else {
      assert a + b == (a + b[..|b| - 1]) + [b[|b| - 1]];
      TotalPush(a + b[..|b| - 1], b[|b| - 1]);
      TotalJoin(a, b[..|b| - 1]);
    }
  }

  lemma BulkByTakes(p: Port, bulk: seq<nat>, sizes: seq<nat>, takes: nat -> nat)
    requires Sound(p) && ByTakes(p, sizes, takes) && 0 < |bulk| <= 32
    ensures ByTakes(SendBulk(p, bulk, AtMost(|bulk|, takes(p.offers))), sizes + [|bulk|], takes)
  {
    hide Total;
    var nb := AtMost(|bulk|, takes(p.offers));
    var r, all, n := SendBulk(p, bulk, nb), sizes + [|bulk|], |sizes|;
    TotalPush(sizes, |bulk|);
    forall i, j: nat | 0 <= i < |all| && j < all[i] ensures Place(all, i, j) in r.freed <==> j >= takes(i) {
      assert i < n ==> all[..i] == sizes[..i] && Place(sizes, i, j) == Place(all, i, j);
      if i < n {
        TotalGrows(sizes, i);
      } else {
        assert all[..n] == sizes;
      }
      RangeHolds(|p.amended| + nb, |bulk| - nb, Place(all, i, j));
    }
  }

  /** Bulks of 32, except that the last one of a block may be smaller. */
  ghost predicate FullBulks(sizes: seq<nat>, whole: bool)
  {
    forall i :: 0 <= i < |sizes| && !(whole && i == |sizes| - 1) ==> sizes[i] == 32
  }

  /** Answers used up: an allocation that succeeds makes one offer, one that fails costs a read of the flag or gives up. */
  ghost predicate Spent(before: Port, after: Port, allocOk: nat -> bool, givenUp: nat)
  {
    && before.tries <= after.tries && before.offers <= after.offers && after.up <= before.up
    && Successes(allocOk, before.tries, after.tries) == after.offers - before.offers
    && after.tries - before.tries == (after.offers - before.offers) + (before.up - after.up) + givenUp
  }

  lemma {:induction false} SuccessesJoin(allocOk: nat -> bool, a: nat, b: nat, c: nat)
    requires a <= b <= c
    ensures Successes(allocOk, a, c) == Successes(allocOk, a, b) + Successes(allocOk, b, c)
    decreases c
  {
    if b < c {
      SuccessesJoin(allocOk, a, b, c - 1);
    }
  }

  lemma SpentJoin(p: Port, q: Port, r: Port, allocOk: nat -> bool, m: nat, n: nat)
    requires Spent(p, q, allocOk, m) && Spent(q, r, allocOk, n)
    ensures Spent(p, r, allocOk, m + n)
  {
    hide Successes;
    SuccessesJoin(allocOk, p.tries, q.tries, r.tries);
  }

  /** Without failures there is nothing to retry. */
  lemma {:induction false} NoRetries(allocOk: nat -> bool, from: nat, end: nat)
    requires from <= end && NeverFails(allocOk)
    ensures Successes(allocOk, from, end) == end - from
    decreases end
  {
    if from < end {
      NoRetries(allocOk, from, end - 1);
    }
  }

  /** One block: allocation is retried until it succeeds, or is given up when the flag is down. */
  method SendBlock(block: seq<nat>, allocOk: nat -> bool, takes: nat -> nat, port: Port, ghost sizes: seq<nat>)
    returns (p: Port, sendNum: nat, ghost more: seq<nat>)
    requires Sound(port) && ByTakes(port, sizes, takes)
    ensures Sound(p) && sendNum <= |block| && p.amended == port.amended + block[..sendNum]
    ensures p.up <= port.up && (sendNum < |block| ==> p.up == 0 && !NeverFails(allocOk))
    ensures ByTakes(p, sizes + more, takes) && Total(more) == sendNum && FullBulks(more, sendNum == |block|)
    ensures Spent(port, p, allocOk, if sendNum < |block| then 1 else 0)
  {
    hide Sound, SendBulk, NeverFails, ByTakes, FullBulks, Total, Spent, AtMost;
    p, sendNum, more := port, 0, [];
    NoBulks(port, sizes, allocOk);
    while sendNum < |block|
      invariant Sound(p) && sendNum <= |block| && p.up <= port.up
      invariant p.amended == port.amended + block[..sendNum]
      invariant ByTakes(p, sizes + more, takes) && Total(more) == sendNum && FullBulks(more, sendNum == |block|)
      invariant Spent(port, p, allocOk, 0)
      decreases p.up, |block| - sendNum
    {
      ghost var q := p;
      var num := if |block| - sendNum >= BURST_SIZE then BURST_SIZE else |block| - sendNum;
      if allocOk(p.tries) {
        var nb := AtMost(num, takes(p.offers));
        var bulk := block[sendNum..sendNum + num];
        AtMostIs(num, takes(p.offers));
        BulkSound(p, bulk, nb);
        BulkByTakes(p, bulk, sizes + more, takes);
        p := SendBulk(p, bulk, nb);
        OneMore(q, p, bulk, nb, allocOk, sizes, more, sendNum + num == |block|);
        SpentJoin(port, q, p, allocOk, 0, 0);
        assert block[..sendNum] + bulk == block[..sendNum + num];
        more := more + [num];
        sendNum := sendNum + num;
      } else {
        FailedTry(p, allocOk, sizes + more, takes);
        p := p.(tries := p.tries + 1);
        if p.up == 0 {
          SpentJoin(port, q, p, allocOk, 0, 1);
          return;
        }
        FlagRead(p, sizes + more, takes);
        p := p.(up := p.up - 1);
        Retried(q, allocOk);
        SpentJoin(port, q, p, allocOk, 0, 0);
      }
    }
  }

  lemma AtMostIs(total: nat, n: nat)
    ensures AtMost(total, n) <= total && AtMost(total, n) <= n && (AtMost(total, n) == total || AtMost(total, n) == n)
  {
  }

  lemma NoBulks(p: Port, sizes: seq<nat>, allocOk: nat -> bool)
    ensures sizes + [] == sizes && Total([]) == 0 && FullBulks([], true) && FullBulks([], false) && Spent(p, p, allocOk, 0)
  {
  }

  lemma OneMore(q: Port, p: Port, bulk: seq<nat>, nb: nat, allocOk: nat -> bool, sizes: seq<nat>, more: seq<nat>, whole: bool)
    requires nb <= |bulk| && p == SendBulk(q, bulk, nb) && allocOk(q.tries) && FullBulks(more, false)
    requires whole || |bulk| == 32
    ensures Spent(q, p, allocOk, 0) && p.up == q.up && p.amended == q.amended + bulk
    ensures sizes + more + [|bulk|] == sizes + (more + [|bulk|]) && Total(more + [|bulk|]) == Total(more) + |bulk|
    ensures FullBulks(more + [|bulk|], whole)
  {
    TotalPush(more, |bulk|);
    assert Successes(allocOk, q.tries, q.tries) == 0;
  }

  lemma Retried(q: Port, allocOk: nat -> bool)
    requires !allocOk(q.tries) && q.up > 0
    ensures Spent(q, q.(tries := q.tries + 1, up := q.up - 1), allocOk, 0)
  {
    assert Successes(allocOk, q.tries, q.tries) == 0;
  }

  lemma FailedTry(p: Port, allocOk: nat -> bool, sizes: seq<nat>, takes: nat -> nat)
    requires Sound(p) && ByTakes(p, sizes, takes) && !allocOk(p.tries)
    ensures Sound(p.(tries := p.tries + 1)) && ByTakes(p.(tries := p.tries + 1), sizes, takes) && !NeverFails(allocOk)
    ensures Spent(p, p.(tries := p.tries + 1), allocOk, 1)
  {
    assert Successes(allocOk, p.tries, p.tries) == 0;
  }

  lemma NothingSent(up: nat, allocOk: nat -> bool, takes: nat -> nat)
    ensures var p := Port([], [], [], 0, 0, up, 0, 0); Sound(p) && ByTakes(p, [], takes) && Spent(p, p, allocOk, 0)
  {
  }

  lemma FlagRead(p: Port, sizes: seq<nat>, takes: nat -> nat)
    requires Sound(p) && ByTakes(p, sizes, takes) && p.up > 0
    ensures Sound(p.(up := p.up - 1)) && ByTakes(p.(up := p.up - 1), sizes, takes)
  {
  }

  /** `cuts` says how much of each block was amended. */
  ghost predicate AreCuts(blocks: seq<seq<nat>>, cuts: seq<nat>)
  {
    |cuts| == |blocks| && forall b :: 0 <= b < |blocks| ==> cuts[b] <= |blocks[b]|
  }

  /** The amended prefixes of the blocks, one after another. */
  ghost function Cut(blocks: seq<seq<nat>>, cuts: seq<nat>): (r: seq<nat>)
    requires AreCuts(blocks, cuts)
  {
    if blocks == [] then []
    else
      var b := |blocks| - 1;
      Cut(blocks[..b], cuts[..b]) + blocks[b][..cuts[b]]
  }

  ghost predicate Whole(blocks: seq<seq<nat>>, cuts: seq<nat>)
    requires AreCuts(blocks, cuts)
  {
    forall b :: 0 <= b < |blocks| ==> cuts[b] == |blocks[b]|
  }

  /** How many blocks were given up. */
  ghost function Short(blocks: seq<seq<nat>>, cuts: seq<nat>): (n: nat)
    requires AreCuts(blocks, cuts)
    ensures Whole(blocks, cuts) <==> n == 0
    decreases |blocks|
  {
    if blocks == [] then 0
    else
      var b := |blocks| - 1;
      Short(blocks[..b], cuts[..b]) + if cuts[b] < |blocks[b]| then 1 else 0
  }

  lemma CutPush(blocks: seq<seq<nat>>, cuts: seq<nat>, block: seq<nat>, cut: nat)
    requires AreCuts(blocks, cuts) && cut <= |block|
    ensures AreCuts(blocks + [block], cuts + [cut])
    ensures Cut(blocks + [block], cuts + [cut]) == Cut(blocks, cuts) + block[..cut]
    ensures Short(blocks + [block], cuts + [cut]) == Short(blocks, cuts) + if cut < |block| then 1 else 0
  {
    var bs, cs := blocks + [block], cuts + [cut];
    assert bs[..|blocks|] == blocks && cs[..|blocks|] == cuts;
    assert forall b :: 0 <= b < |blocks| ==> bs[b] == blocks[b] && cs[b] == cuts[b];
    assert bs[|blocks|] == block && cs[|blocks|] == cut;
  }

  lemma {:induction false} WholeIsFlat(blocks: seq<seq<nat>>, cuts: seq<nat>)
    requires AreCuts(blocks, cuts) && Whole(blocks, cuts)
    ensures Cut(blocks, cuts) == Flatten(blocks)
    decreases |blocks|
  {
    if blocks != [] {
      var b := |blocks| - 1;
      WholeIsFlat(blocks[..b], cuts[..b]);
      assert blocks == blocks[..b] + [blocks[b]];
      FlattenPush(blocks[..b], blocks[b]);
    }
  }

  /** All blocks of one unit, in order: a prefix of each, and each whole unless an allocation failed with the flag down. */
  method SendUnit(unit: Unit, allocOk: nat -> bool, takes: nat -> nat, port: Port, ghost sizes: seq<nat>)
    returns (p: Port, ghost cuts: seq<nat>, ghost more: seq<nat>)
    requires Sound(port) && ByTakes(port, sizes, takes)
    ensures Sound(p) && ByTakes(p, sizes + more, takes)
    ensures AreCuts(unit.blocks, cuts) && p.amended == port.amended + Cut(unit.blocks, cuts)
    ensures p.up > 0 || NeverFails(allocOk) ==> Whole(unit.blocks, cuts)
    ensures Spent(port, p, allocOk, Short(unit.blocks, cuts))
  {
    hide Sound, NeverFails, AreCuts, Cut, ByTakes, Spent, Short, Total, FullBulks, Whole;
    p, cuts, more := port, [], [];
    NothingCut();
    NoBulks(port, sizes, allocOk);
    assert unit.blocks[..0] == [];
    for b := 0 to |unit.blocks|
      invariant Sound(p) && p.up <= port.up && ByTakes(p, sizes + more, takes)
      invariant AreCuts(unit.blocks[..b], cuts) && p.amended == port.amended + Cut(unit.blocks[..b], cuts)
      invariant p.up > 0 || NeverFails(allocOk) ==> Whole(unit.blocks[..b], cuts)
      invariant Spent(port, p, allocOk, Short(unit.blocks[..b], cuts))
    {
      assert unit.blocks[..b + 1] == unit.blocks[..b] + [unit.blocks[b]];
      ghost var q := p;
      var sendNum;
      ghost var chunk;
      p, sendNum, chunk := SendBlock(unit.blocks[b], allocOk, takes, p, sizes + more);
      assert sizes + more + chunk == sizes + (more + chunk);
      CutPush(unit.blocks[..b], cuts, unit.blocks[b], sendNum);
      SpentJoin(port, q, p, allocOk, Short(unit.blocks[..b], cuts), if sendNum < |unit.blocks[b]| then 1 else 0);
      cuts, more := cuts + [sendNum], more + chunk;
    }
    assert unit.blocks[..|unit.blocks|] == unit.blocks;
  }

  lemma NothingCut()
    ensures AreCuts([], []) && Cut([], []) == [] && Whole([], []) && Short([], []) == 0
  {
  }

  /** The first `n` units of the schedule, which starts over after its last unit. */
  function Scheduled(units: seq<Unit>, n: nat): (r: seq<nat>)
    requires units != []
  {
    if n == 0 then [] else Scheduled(units, n - 1) + Flatten(units[(n - 1) % |units|].blocks)
  }

  /** One round is the schedule of a second. */
  lemma {:induction false} ScheduledRound(units: seq<Unit>, n: nat)
    requires units != [] && n <= |units|
    ensures Scheduled(units, n) == FlattenUnits(units[..n])
  {
    hide Flatten;
    if n > 0 {
      ScheduledRound(units, n - 1);
      assert units[..n][..n - 1] == units[..n - 1];
      ModExact(0, |units|, n - 1);
    }
  }

  lemma ScheduledNext(units: seq<Unit>, n: nat, i: nat)
    requires i < |units| && i == n % |units|
    ensures Scheduled(units, n + 1) == Scheduled(units, n) + Flatten(units[i].blocks)
  {
  }

  lemma ScheduledNone(units: seq<Unit>)
    requires units != []
    ensures Scheduled(units, 0) == []
  {
  }

  /** And the next round is the same again. */
  lemma {:induction false} ScheduledAgain(units: seq<Unit>, n: nat)
    requires units != []
    ensures Scheduled(units, |units| + n) == Scheduled(units, |units|) + Scheduled(units, n)
  {
    hide Flatten, Scheduled;
    var d := |units|;
    if n == 0 {
      ScheduledNone(units);
    } else {
      var i := (n - 1) % d;
      ScheduledAgain(units, n - 1);
      SameUnit(n - 1, d);
      ScheduledNext(units, d + (n - 1), i);
      ScheduledNext(units, n - 1, i);
      assert d + n == d + (n - 1) + 1;
    }
  }

  lemma SameUnit(k: nat, d: nat)
    requires d > 0
    ensures (d + k) % d == k % d
  {
    ModExact(k / d + 1, d, k % d);
    assert d + k == (k / d + 1) * d + k % d;
  }

  /** All units begun but the last are amended whole; of the last one, `cuts` of each block. */
  ghost predicate Followed(units: seq<Unit>, begun: nat, cuts: seq<nat>, amended: seq<nat>)
    requires units != []
  {
    if begun == 0 then amended == []
    else
      var blocks := units[(begun - 1) % |units|].blocks;
      AreCuts(blocks, cuts) && amended == Scheduled(units, begun - 1) + Cut(blocks, cuts)
  }

  /** Blocks of the last unit begun that were given up; earlier units have none. */
  ghost function GivenUp(units: seq<Unit>, begun: nat, cuts: seq<nat>): (n: nat)
    requires units != [] && (begun > 0 ==> AreCuts(units[(begun - 1) % |units|].blocks, cuts))
  {
    if begun == 0 then 0 else Short(units[(begun - 1) % |units|].blocks, cuts)
  }

  /**
   The paced cycle, for any NIC, pool and falling stop flag: all units but the last one begun were
   amended whole and in order, of the last one a prefix of each block, and it whole too if no
   allocation failed; of every bulk offered the NIC's share went to the wire and the rest was freed, and
   the two counters say how many.  Every read of the flag that found it up began a unit or came after a
   failed allocation; so without failures there are as many units as reads.
   */
  method TxPacedCycle(units: seq<Unit>, upReads: nat, allocOk: nat -> bool, takes: nat -> nat)
    returns (p: Port, begun: nat, ghost cuts: seq<nat>, ghost sizes: seq<nat>)
    requires units != []
    ensures Sound(p) && ByTakes(p, sizes, takes) && p.up == 0
    ensures Followed(units, begun, cuts, p.amended)
    ensures NeverFails(allocOk) ==> p.amended == Scheduled(units, begun) && begun == upReads
    ensures begun <= upReads && Successes(allocOk, 0, p.tries) == p.offers
    ensures p.tries == p.offers + (upReads - begun) + GivenUp(units, begun, cuts)
  {
    hide NeverFails, Sound, Flatten, Cut, AreCuts, Whole, ByTakes, Spent, Short, Total, Successes;
    p, begun, cuts, sizes := Port([], [], [], 0, 0, upReads, 0, 0), 0, [], [];
    ghost var start := p;
    NothingSent(upReads, allocOk, takes);
    var txUnitIdx := 0;
    while p.up > 0
      invariant Sound(p) && ByTakes(p, sizes, takes) && txUnitIdx == begun % |units|
      invariant Followed(units, begun, cuts, p.amended)
      invariant p.up > 0 || NeverFails(allocOk) ==> p.amended == Scheduled(units, begun) && GivenUp(units, begun, cuts) == 0
      invariant begun + p.up <= upReads
      invariant Spent(start, p.(up := p.up + begun), allocOk, GivenUp(units, begun, cuts))
      decreases p.up
    {
      FlagRead(p, sizes, takes);
      ghost var q := p;
      p := p.(up := p.up - 1);
      ghost var more;
      p, cuts, more := SendUnit(units[txUnitIdx], allocOk, takes, p, sizes);
      ghost var short := Short(units[txUnitIdx].blocks, cuts);
      SpentUnit(start, q, p, begun, allocOk, short);
      if p.up > 0 || NeverFails(allocOk) {
        WholeIsFlat(units[txUnitIdx].blocks, cuts);
      }
      NextIndex(begun, |units|);
      txUnitIdx := (txUnitIdx + 1) % |units|;
      begun, sizes := begun + 1, sizes + more;
    }
    SpentAll(start, p, begun, allocOk, GivenUp(units, begun, cuts));
  }

  /** A unit is begun on one read of the flag. */
  lemma SpentUnit(start: Port, q: Port, p: Port, begun: nat, allocOk: nat -> bool, short: nat)
    requires q.up > 0 && Spent(start, q.(up := q.up + begun), allocOk, 0) && Spent(q.(up := q.up - 1), p, allocOk, short)
    ensures p.up < q.up && Spent(start, p.(up := p.up + begun + 1), allocOk, short)
  {
    hide Successes;
    SuccessesJoin(allocOk, start.tries, q.tries, p.tries);
  }

  lemma SpentAll(start: Port, p: Port, begun: nat, allocOk: nat -> bool, givenUp: nat)
    requires start.tries == start.offers == p.up == 0 && Spent(start, p.(up := begun), allocOk, givenUp)
    ensures begun <= start.up && Successes(allocOk, 0, p.tries) == p.offers
    ensures p.tries == p.offers + (start.up - begun) + givenUp
    ensures NeverFails(allocOk) ==> begun == start.up
  {
    if NeverFails(allocOk) {
      NoRetries(allocOk, 0, p.tries);
    }
  }

  // ---------------------------------------------------------------- what a send error costs

  /** Numbers, within stream `s`, of its frames among the first `n` amended that are on the wire. */
  function WireRun(p: Port, s: nat, n: nat): (r: seq<nat>)
    requires n <= |p.amended|
  {
    if n == 0 then []
    else
      var init := WireRun(p, s, n - 1);
      if p.amended[n - 1] == s && (n - 1) !in p.freed then init + [Times(p.amended[..n - 1], s)] else init
  }

  /** A frame of stream `s` was freed after it had got a number below `n`. */
  ghost predicate FreedBelow(p: Port, s: nat, n: nat)
    requires n <= |p.amended|
  {
    exists m :: 0 <= m < n && p.amended[m] == s && m in p.freed
  }

  lemma {:induction false} RunLength(p: Port, s: nat, n: nat)
    requires n <= |p.amended|
    ensures |WireRun(p, s, n)| <= Times(p.amended[..n], s)
    ensures |WireRun(p, s, n)| == Times(p.amended[..n], s) <==> !FreedBelow(p, s, n)
    ensures forall k :: 0 <= k < |WireRun(p, s, n)| ==> WireRun(p, s, n)[k] < Times(p.amended[..n], s)
  {
    if n > 0 {
      RunLength(p, s, n - 1);
      assert p.amended[..n][..n - 1] == p.amended[..n - 1];
      assert FreedBelow(p, s, n) <==> FreedBelow(p, s, n - 1) || (p.amended[n - 1] == s && n - 1 in p.freed);
    }
  }

  /** On the wire each stream's numbers only grow. */
  lemma {:induction false} RunInOrder(p: Port, s: nat, n: nat)
    requires n <= |p.amended|
    ensures Gaps.InOrder(WireRun(p, s, n))
  {
    if n > 0 {
      RunInOrder(p, s, n - 1);
      RunLength(p, s, n - 1);
    }
  }

  /** Some frame of the stream is on the wire after a freed one. */
  ghost predicate SelfMadeGap(p: Port, s: nat, n: nat)
    requires n <= |p.amended|
  {
    exists m :: 0 <= m < n && p.amended[m] == s && m !in p.freed && FreedBelow(p, s, m)
  }

  /**
   The wire shows a gap in a stream if and only if one of its frames was freed before another one
   was sent.
   */
  lemma {:induction false} GapIffFreed(p: Port, s: nat, n: nat)
    requires n <= |p.amended|
    ensures Gaps.LossRuns(WireRun(p, s, n)) == 0 <==> !SelfMadeGap(p, s, n)
  {
    hide FreedBelow, Gaps.LossRuns;
    if n == 0 {
      Gaps.LosslessIff([]);
    } else {
      GapIffFreed(p, s, n - 1);
      assert SelfMadeGap(p, s, n) <==>
             SelfMadeGap(p, s, n - 1) || (p.amended[n - 1] == s && n - 1 !in p.freed && FreedBelow(p, s, n - 1));
      var init := WireRun(p, s, n - 1);
      if p.amended[n - 1] == s && n - 1 !in p.freed {
        RunLength(p, s, n - 1);
        PushRun(init, Times(p.amended[..n - 1], s));
      }
    }
  }

  lemma PushRun(run: seq<nat>, x: nat)
    ensures Gaps.LossRuns(run + [x]) == 0 <==> Gaps.LossRuns(run) == 0 && x == |run|
  {
    Gaps.LosslessIff(run);
    Gaps.LosslessIff(run + [x]);
    assert forall k :: 0 <= k < |run| ==> (run + [x])[k] == run[k];
    assert (run + [x])[|run|] == x;
  }

  /** Counting along the amendments gives the numbers along the wire: `j` buffers on the wire are among the first `n`. */
  lemma {:induction false} RunIsWire(p: Port, s: nat, n: nat, j: nat)
    requires Sound(p) && n <= |p.amended| && j <= |p.wire|
    requires forall i :: 0 <= i < |p.wire| ==> (i < j <==> p.wire[i].mbuf < n)
    ensures WireNumbers(p.wire[..j], p.amended, s) == WireRun(p, s, n)
    decreases n
  {
    hide Sound, Times, Mbufs;
    WireInOrder(p);
    if n > 0 {
      if j > 0 && p.wire[j - 1].mbuf == n - 1 {
        RunIsWire(p, s, n - 1, j - 1);
        assert p.wire[..j][..j - 1] == p.wire[..j - 1];
      } else {
        OffWire(p, n - 1, j);
        RunIsWire(p, s, n - 1, j);
      }
    }
  }

  lemma WireInOrder(p: Port)
    requires Sound(p)
    ensures forall i, j :: 0 <= i < j < |p.wire| ==> p.wire[i].mbuf < p.wire[j].mbuf
    ensures forall i :: 0 <= i < |p.wire| ==> p.wire[i].mbuf < |p.amended| && p.wire[i].mbuf !in p.freed
                                              && p.wire[i].desc == p.amended[p.wire[i].mbuf]
  {
    forall i | 0 <= i < |p.wire| ensures p.wire[i].mbuf !in p.freed {
      assert Mbufs(p.wire)[i] == p.wire[i].mbuf;
    }
  }

  lemma OffWire(p: Port, m: nat, j: nat)
    requires Sound(p) && m < |p.amended| && j <= |p.wire|
    requires forall i :: 0 <= i < |p.wire| ==> (i < j <==> p.wire[i].mbuf < m + 1)
    requires j > 0 ==> p.wire[j - 1].mbuf != m
    ensures m in p.freed && forall i :: 0 <= i < |p.wire| ==> (i < j <==> p.wire[i].mbuf < m)
  {
    assert m !in Mbufs(p.wire) by {
      if i :| 0 <= i < |p.wire| && p.wire[i].mbuf == m {
        assert false;
      }
    }
  }

  /**
   What the receiver sees of a stream: in-order numbers, with a gap if and only if one of its frames
   was freed before another one was sent.
   */
  lemma WireGaps(p: Port, s: nat)
    requires Sound(p)
    ensures Gaps.InOrder(WireNumbers(p.wire, p.amended, s))
    ensures Gaps.LossRuns(WireNumbers(p.wire, p.amended, s)) == 0 <==> !SelfMadeGap(p, s, |p.amended|)
  {
    RunIsWire(p, s, |p.amended|, |p.wire|);
    assert p.wire[..|p.wire|] == p.wire;
    RunInOrder(p, s, |p.amended|);
    GapIffFreed(p, s, |p.amended|);
  }

  /** The gate: with a send error count of zero (below 2^64 errors) no stream has a gap of the sender's making. */
  lemma NoErrorsNoGaps(p: Port, s: nat)
    requires Sound(p) && p.errSendCnt == 0 && |p.freed| < U64
    ensures Descs(p.wire) == p.amended
    ensures Gaps.LossRuns(WireNumbers(p.wire, p.amended, s)) == 0
  {
    assert p.freed == [];
    WireGaps(p, s);
    forall i | 0 <= i < |p.wire| ensures p.wire[i].mbuf == i {
      FullWire(p, i);
    }
  }

  lemma {:induction false} FullWire(p: Port, i: nat)
    requires Sound(p) && i < |p.wire|
    ensures i <= p.wire[i].mbuf <= |p.amended| - |p.wire| + i
    decreases i
  {
    FullWireLow(p, i);
    FullWireHigh(p, i);
  }

  lemma {:induction false} FullWireLow(p: Port, i: nat)
    requires Sound(p) && i < |p.wire|
    ensures i <= p.wire[i].mbuf
  {
    if i > 0 {
      FullWireLow(p, i - 1);
    }
  }

  lemma {:induction false} FullWireHigh(p: Port, i: nat)
    requires Sound(p) && i < |p.wire|
    ensures p.wire[i].mbuf <= |p.amended| - |p.wire| + i
    decreases |p.wire| - i
  {
    if i + 1 < |p.wire| {
      FullWireHigh(p, i + 1);
    }
  }
}
