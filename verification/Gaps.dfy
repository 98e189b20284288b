/**
 Sequence-gap tracking: what the receiver's counters mean over whole lossy runs.

 A run is the list of frames of one stream that were delivered, by their index in the order they
 were sent; losses are the indices that are missing.  Counters are 32 bits wide and wrap.
 */
module Gaps {
  import opened Bytes

  /** Delivered in order and without duplicates. */
  ghost predicate InOrder(run: seq<nat>)
  {
    forall i, j :: 0 <= i < j < |run| ==> run[i] < run[j]
  }

  /** Index delivered before position `k`; -1 before the first one. */
  function Prev(run: seq<nat>, k: nat): (p: int)
    requires k <= |run|
  {
    if k == 0 then -1 else run[k - 1]
  }

  /** A loss run ends at position `k`: frames are missing directly before it. */
  predicate LossBefore(run: seq<nat>, k: nat)
    requires k < |run|
  {
    run[k] != Prev(run, k) + 1
  }

  /** Number of loss runs. */
  function LossRuns(run: seq<nat>): (n: nat)
    ensures n <= |run|
  {
    if run == [] then 0
    else LossRuns(run[..|run| - 1]) + if LossBefore(run, |run| - 1) then 1 else 0
  }

  /** Nothing was lost up to the last delivered frame. */
  lemma {:induction false} LosslessIff(run: seq<nat>)
    ensures LossRuns(run) == 0 <==> forall k :: 0 <= k < |run| ==> run[k] == k
  {
    if run != [] {
      var init := run[..|run| - 1];
      LosslessIff(init);
      assert forall k :: 0 <= k < |init| ==> init[k] == run[k];
      if LossRuns(run) == 0 {
        assert forall k :: 0 <= k < |init| ==> init[k] == k;
      }
      if forall k :: 0 <= k < |run| ==> run[k] == k {
        assert forall k :: 0 <= k < |init| ==> init[k] == k;
      }
    }
  }

  // ---------------------------------------------------------------- GOOSE

  /** Frame number n carries n + 1 in stNum and in the SPDU number: both count from zero before each send. */
  function Carried(n: nat): (v: u32)
  {
    (n + 1) % U32
  }

  /** What one frame tells its source; only routable frames carry a session number. */
  datatype GooseUpdate = GooseUpdate(spdu: Option<u32>, stNum: u32, sqNum: u32)

  /** The fields of a source. */
  datatype GooseView = GooseView(stNum: u32, sqNum: u32, errSeqCnt: u32, spduNumber: u32, errSpduCnt: u32)

  const FRESH_GOOSE: GooseView := GooseView(0, 0, 0, 0, 0)

  class GooseSource {
    var stNum: u32
    var sqNum: u32
    var errSeqCnt: u32
    var spduNumber: u32
    var errSpduCnt: u32

    ghost function View(): GooseView
      reads this
    {
      GooseView(stNum, sqNum, errSeqCnt, spduNumber, errSpduCnt)
    }

    constructor ()
      ensures View() == FRESH_GOOSE
    {
      stNum, sqNum, errSeqCnt, spduNumber, errSpduCnt := 0, 0, 0, 0, 0;
    }

    /** Zero means "not seen yet". */
    method ProcessSessionState(number: u32)
      modifies this`spduNumber, this`errSpduCnt
      ensures spduNumber == number
      ensures errSpduCnt == (old(errSpduCnt) + SpduError(old(spduNumber), number)) % U32
    {
      if spduNumber != 0 && number != (spduNumber + 1) % U32 {
        errSpduCnt := (errSpduCnt + 1) % U32;
      }
      spduNumber := number;
    }

    method ProcessState(st: u32, sq: u32)
      modifies this`stNum, this`sqNum, this`errSeqCnt
      ensures stNum == st && sqNum == sq
      ensures errSeqCnt == (old(errSeqCnt) + StError(old(stNum), st)) % U32
    {
      if stNum != st {
        if st != (stNum + 1) % U32 {
          errSeqCnt := (errSeqCnt + 1) % U32;
        }
      }
      stNum := st;
      sqNum := sq;
    }
  }

  /** A source after one frame: the session state first, then the state. */
  function FeedGoose(v: GooseView, u: GooseUpdate): (r: GooseView)
  {
    var v' := match u.spdu
              case None => v
              case Some(n) => v.(spduNumber := n, errSpduCnt := (v.errSpduCnt + SpduError(v.spduNumber, n)) % U32);
    v'.(stNum := u.stNum, sqNum := u.sqNum, errSeqCnt := (v.errSeqCnt + StError(v.stNum, u.stNum)) % U32)
  }

  function FeedGooseAll(v: GooseView, us: seq<GooseUpdate>): (r: GooseView)
  {
    if us == [] then v else FeedGoose(FeedGooseAll(v, us[..|us| - 1]), us[|us| - 1])
  }

  /** The updates that the frames of a run make. */
  ghost predicate GooseCarry(us: seq<GooseUpdate>, run: seq<nat>, routable: bool)
  {
    && |us| == |run|
    && forall k :: 0 <= k < |us| ==>
                     us[k].stNum == Carried(run[k]) && us[k].spdu == if routable then Some(Carried(run[k])) else None
  }

  /** Feeding a fresh source the frames of a run leaves its error counts, wrapped. */
  lemma {:induction false} GooseFed(us: seq<GooseUpdate>, run: seq<nat>, routable: bool)
    requires GooseCarry(us, run, routable)
    ensures var v := FeedGooseAll(FRESH_GOOSE, us);
            && v.stNum == Held(run, |run|) && (routable ==> v.spduNumber == Held(run, |run|))
            && v.errSeqCnt == StErrors(run) % U32
            && v.errSpduCnt == if routable then SpduErrors(run) % U32 else 0
  {
    hide StError, SpduError, Carried;
    if us != [] {
      var k := |us| - 1;
      GooseFed(us[..k], run[..k], routable);
      WrapAdd(StErrors(run[..k]), StError(Held(run, k), Carried(run[k])));
      WrapAdd(SpduErrors(run[..k]), SpduError(Held(run, k), Carried(run[k])));
      assert Held(run[..k], k) == Held(run, k);
    }
  }

  function StError(last: u32, now: u32): (e: nat)
  {
    if last != now && now != (last + 1) % U32 then 1 else 0
  }

  function SpduError(last: u32, now: u32): (e: nat)
  {
    if last != 0 && now != (last + 1) % U32 then 1 else 0
  }

  /** Value the source holds before position `k`. */
  function Held(run: seq<nat>, k: nat): (v: u32)
    requires k <= |run|
  {
    if k == 0 then 0 else Carried(run[k - 1])
  }

  function StErrors(run: seq<nat>): (n: nat)
  {
    if run == [] then 0
    else
      var k := |run| - 1;
      StErrors(run[..k]) + StError(Held(run, k), Carried(run[k]))
  }

  function SpduErrors(run: seq<nat>): (n: nat)
    ensures n <= |run|
  {
    if run == [] then 0
    else
      var k := |run| - 1;
      SpduErrors(run[..k]) + SpduError(Held(run, k), Carried(run[k]))
  }

  lemma GooseErrorsStep(run: seq<nat>, k: nat)
    requires k < |run|
    ensures StErrors(run[..k + 1]) == StErrors(run[..k]) + StError(Held(run, k), Carried(run[k]))
    ensures SpduErrors(run[..k + 1]) == SpduErrors(run[..k]) + SpduError(Held(run, k), Carried(run[k]))
  {
    assert run[..k + 1][..k] == run[..k];
    assert Held(run[..k + 1], k) == Held(run, k);
  }

  /** A fresh source fed a whole run; only the routable stage also hands over the session state. */
  method ReceiveGoose(run: seq<nat>, routable: bool) returns (src: GooseSource)
    ensures fresh(src)
    ensures src.errSeqCnt == StErrors(run) % U32
    ensures src.errSpduCnt == if routable then SpduErrors(run) % U32 else 0
  {
    hide StError, SpduError, StErrors, SpduErrors, Carried;
    src := new GooseSource();
    assert run[..0] == [];
    NoErrors();
    for k := 0 to |run|
      invariant fresh(src)
      invariant src.stNum == Held(run, k) && (routable ==> src.spduNumber == Held(run, k))
      invariant src.errSeqCnt == StErrors(run[..k]) % U32
      invariant src.errSpduCnt == if routable then SpduErrors(run[..k]) % U32 else 0
    {
      GooseErrorsStep(run, k);
      WrapAdd(StErrors(run[..k]), StError(Held(run, k), Carried(run[k])));
      WrapAdd(SpduErrors(run[..k]), SpduError(Held(run, k), Carried(run[k])));
      if routable {
        src.ProcessSessionState(Carried(run[k]));
      }
      src.ProcessState(Carried(run[k]), 0);
    }
    assert run[..|run|] == run;
  }

  lemma NoErrors()
    ensures StErrors([]) == 0 && SpduErrors([]) == 0
  {
  }

  /** Number of frames missing before position `k`. */
  function Missing(run: seq<nat>, k: nat): (n: int)
    requires k < |run|
  {
    run[k] - Prev(run, k) - 1
  }

  /** A loss run that the wrapped counter can tell from none: not 0 and not 2^32 - 1 modulo 2^32 frames long. */
  predicate Visible(run: seq<nat>, k: nat)
    requires k < |run|
  {
    Missing(run, k) % U32 != 0 && Missing(run, k) % U32 != U32 - 1
  }

  function VisibleRuns(run: seq<nat>): (n: nat)
  {
    if run == [] then 0
    else VisibleRuns(run[..|run| - 1]) + if Visible(run, |run| - 1) then 1 else 0
  }

  lemma StErrorAt(run: seq<nat>, k: nat)
    requires k < |run| && Missing(run, k) >= 0
    ensures StError(Held(run, k), Carried(run[k])) == if Visible(run, k) then 1 else 0
  {
    var p, m := Prev(run, k), Missing(run, k);
    assert Held(run, k) == (p + 1) % U32;
    WrapDistance(p + 1, m + 1);
  }

  /** Equality and succession of wrapped counters, in terms of the distance between them. */
  lemma WrapDistance(a: nat, d: nat)
    ensures (a + d) % U32 == a % U32 <==> d % U32 == 0
    ensures (a + d) % U32 == (a % U32 + 1) % U32 <==> d % U32 == 1
    ensures d > 0 ==> (d % U32 == 0 <==> (d - 1) % U32 == U32 - 1)
    ensures d > 0 ==> (d % U32 == 1 <==> (d - 1) % U32 == 0)
  {
  }

  lemma OrderedInit(run: seq<nat>)
    requires InOrder(run) && run != []
    ensures InOrder(run[..|run| - 1]) && Missing(run, |run| - 1) >= 0
    ensures forall k :: 0 <= k < |run| - 1 ==>
              Missing(run[..|run| - 1], k) == Missing(run, k) && Prev(run[..|run| - 1], k) == Prev(run, k)
  {
  }

  /**
   stNum tracking, exactly, for every in-order duplicate-free run of any length: the error count is
   the number of visible loss runs.
   */
  lemma {:induction false} GooseCountsVisible(run: seq<nat>)
    requires InOrder(run)
    ensures StErrors(run) == VisibleRuns(run) <= LossRuns(run)
    ensures StErrors(run) == LossRuns(run) <==> forall k :: 0 <= k < |run| && LossBefore(run, k) ==> Visible(run, k)
  {
    hide StError, Carried, Held, Visible;
    if run != [] {
      var k := |run| - 1;
      var init := run[..k];
      OrderedInit(run);
      GooseCountsVisible(init);
      StErrorAt(run, k);
      VisibleMeansLoss(run, k);
      assert forall j :: 0 <= j < k ==> (LossBefore(init, j) <==> LossBefore(run, j)) && (Visible(init, j) <==> Visible(run, j)) by {
        forall j | 0 <= j < k ensures (LossBefore(init, j) <==> LossBefore(run, j)) && (Visible(init, j) <==> Visible(run, j)) {
          VisibleInit(run, j);
        }
      }
    }
  }

  lemma VisibleMeansLoss(run: seq<nat>, k: nat)
    requires k < |run|
    ensures Visible(run, k) ==> LossBefore(run, k)
  {
  }

  lemma VisibleInit(run: seq<nat>, j: nat)
    requires j < |run| - 1
    ensures LossBefore(run[..|run| - 1], j) <==> LossBefore(run, j)
    ensures Visible(run[..|run| - 1], j) <==> Visible(run, j)
  {
  }

  /** The exception is real: 2^32 - 1 frames lost in one run leave stNum where it was, and are reported as none. */
  lemma GooseMissesFullCycle()
    ensures var run := [0, U32];
            InOrder(run) && LossRuns(run) == 1 && StErrors(run) == 0 && SpduErrors(run) == 1
  {
    var run: seq<nat> := [0, U32];
    assert run[..1] == [0] && [0][..0] == [];
    assert Carried(0) == 1 && Carried(U32) == 1;
    assert StErrors([0]) == 0 && SpduErrors([0]) == 0 && LossRuns([0]) == 0;
  }

  /** Every loss run is shorter than 2^32 - 1 frames. */
  ghost predicate ShortLosses(run: seq<nat>)
  {
    forall k :: 0 <= k < |run| ==> Missing(run, k) < U32 - 1
  }

  lemma ShortInit(run: seq<nat>)
    requires ShortLosses(run) && run != []
    ensures ShortLosses(run[..|run| - 1])
  {
    var init := run[..|run| - 1];
    assert forall k :: 0 <= k < |init| ==> Missing(init, k) == Missing(run, k);
  }

  /** For loss runs shorter than 2^32 - 1 frames stNum tracking is exact, and SPDU tracking never exceeds it. */
  lemma {:induction false} GooseExact(run: seq<nat>)
    requires InOrder(run) && ShortLosses(run)
    ensures StErrors(run) == LossRuns(run)
    ensures SpduErrors(run) <= LossRuns(run)
  {
    hide StError, Carried;
    if run != [] {
      var k := |run| - 1;
      OrderedInit(run);
      ShortInit(run);
      GooseExact(run[..k]);
      StErrorAt(run, k);
      SpduErrorAt(run, k);
    }
  }

  lemma SpduErrorAt(run: seq<nat>, k: nat)
    requires k < |run| && Missing(run, k) >= 0
    ensures SpduError(Held(run, k), Carried(run[k])) == if SpduVisible(run, k) then 1 else 0
    ensures !LossBefore(run, k) ==> SpduError(Held(run, k), Carried(run[k])) == 0
    ensures LossBefore(run, k) && 0 < k && run[k] + 1 < U32 ==> SpduError(Held(run, k), Carried(run[k])) == 1
    ensures k == 0 ==> SpduError(Held(run, k), Carried(run[k])) == 0
  {
    if k > 0 {
      var p, m := run[k - 1], Missing(run, k);
      Wrap32(p + 1);
      WrapDistance(p + 1, m + 1);
    }
  }

  /**
   A loss run that SPDU tracking can tell from none: not before the first frame, not after the number
   zero (which reads as "not seen yet"), and not a whole number of cycles long.
   */
  predicate SpduVisible(run: seq<nat>, k: nat)
    requires k < |run|
  {
    k > 0 && Carried(run[k - 1]) != 0 && Missing(run, k) % U32 != 0
  }

  function SpduVisibleRuns(run: seq<nat>): (n: nat)
  {
    if run == [] then 0
    else SpduVisibleRuns(run[..|run| - 1]) + if SpduVisible(run, |run| - 1) then 1 else 0
  }

  /** SPDU tracking, exactly, for every in-order run of any length. */
  lemma {:induction false} SpduCountsVisible(run: seq<nat>)
    requires InOrder(run)
    ensures SpduErrors(run) == SpduVisibleRuns(run) <= LossRuns(run)
    ensures SpduErrors(run) == LossRuns(run) <==>
            forall k :: 0 <= k < |run| && LossBefore(run, k) ==> SpduVisible(run, k)
  {
    hide SpduError, Carried, Held;
    if run != [] {
      var k := |run| - 1;
      var init := run[..k];
      OrderedInit(run);
      SpduCountsVisible(init);
      SpduErrorAt(run, k);
      assert forall j :: 0 <= j < k ==>
               (LossBefore(init, j) <==> LossBefore(run, j)) && (SpduVisible(init, j) <==> SpduVisible(run, j));
    }
  }

  // ---------------------------------------------------------------- SV

  /** What one SV frame tells its source: the passport's ASDU count, and the first sample number. */
  datatype SvUpdate = SvUpdate(spdu: Option<u32>, num: u16, smpCnt: u16)

  datatype SvView = SvView(smpCnt: u32, errSmpCnt: u32, spduNumber: u32, errSpduCnt: u32)

  const FRESH_SV: SvView := SvView(0, 0, 0, 0)

  class SvSource {
    var smpCnt: u32
    var errSmpCnt: u32
    var spduNumber: u32
    var errSpduCnt: u32

    ghost function View(): SvView
      reads this
    {
      SvView(smpCnt, errSmpCnt, spduNumber, errSpduCnt)
    }

    constructor ()
      ensures View() == FRESH_SV
    {
      smpCnt, errSmpCnt, spduNumber, errSpduCnt := 0, 0, 0, 0;
    }

    method ProcessSessionState(number: u32)
      modifies this`spduNumber, this`errSpduCnt
      ensures spduNumber == number
      ensures errSpduCnt == (old(errSpduCnt) + SpduError(old(spduNumber), number)) % U32
    {
      if spduNumber != 0 && number != (spduNumber + 1) % U32 {
        errSpduCnt := (errSpduCnt + 1) % U32;
      }
      spduNumber := number;
    }

    /** `num` is the passport's ASDU count; a sample number of zero is never an error. */
    method ProcessState(num: u16, cnt: u16)
      modifies this`smpCnt, this`errSmpCnt
      ensures smpCnt == cnt
      ensures errSmpCnt == (old(errSmpCnt) + SmpError(old(smpCnt), cnt, num)) % U32
    {
      if cnt != (smpCnt + num) % U32 && cnt != 0 {
        errSmpCnt := (errSmpCnt + 1) % U32;
      }
      smpCnt := cnt;
    }
  }

  function FeedSv(v: SvView, u: SvUpdate): (r: SvView)
  {
    var v' := match u.spdu
              case None => v
              case Some(n) => v.(spduNumber := n, errSpduCnt := (v.errSpduCnt + SpduError(v.spduNumber, n)) % U32);
    v'.(smpCnt := u.smpCnt, errSmpCnt := (v.errSmpCnt + SmpError(v.smpCnt, u.smpCnt, u.num)) % U32)
  }

  function FeedSvAll(v: SvView, us: seq<SvUpdate>): (r: SvView)
  {
    if us == [] then v else FeedSv(FeedSvAll(v, us[..|us| - 1]), us[|us| - 1])
  }

  /** The updates that the frames of an SV run make. */
  ghost predicate SvCarry(p: SvProfile, us: seq<SvUpdate>, run: seq<nat>, routable: bool)
    requires IsProfile(p)
  {
    && |us| == |run|
    && forall k :: 0 <= k < |us| ==>
                     && us[k].smpCnt == Sample(p, run[k]) && us[k].num == p.num
                     && us[k].spdu == if routable then Some(Carried(run[k])) else None
  }

  lemma {:induction false} SvFed(p: SvProfile, us: seq<SvUpdate>, run: seq<nat>, routable: bool)
    requires IsProfile(p) && SvCarry(p, us, run, routable)
    ensures var v := FeedSvAll(FRESH_SV, us);
            && v.smpCnt == HeldSample(p, run, |run|) && (routable ==> v.spduNumber == Held(run, |run|))
            && v.errSmpCnt == SmpErrors(p, run) % U32
            && v.errSpduCnt == if routable then SpduErrors(run) % U32 else 0
  {
    hide SmpError, SpduError, Carried, Sample, IsProfile;
    if us != [] {
      var k := |us| - 1;
      SvFed(p, us[..k], run[..k], routable);
      WrapAdd(SmpErrors(p, run[..k]), SmpErrorOf(p, run, k));
      WrapAdd(SpduErrors(run[..k]), SpduError(Held(run, k), Carried(run[k])));
      assert Held(run[..k], k) == Held(run, k) && HeldSample(p, run[..k], k) == HeldSample(p, run, k);
    }
  }

  function SmpError(last: u32, now: u16, num: u16): (e: nat)
  {
    if now != (last + num) % U32 && now != 0 then 1 else 0
  }

  /** Sent with `num` samples a frame, `period` frames a second: 1 and 4000, or 8 and 1600. */
  datatype SvProfile = SvProfile(num: nat, period: nat)

  ghost predicate IsProfile(p: SvProfile)
  {
    p.num > 0 && p.period > 0 && p.num * p.period < U16
  }

  /** Place of frame n within its second. */
  function Phase(p: SvProfile, n: nat): (r: nat)
    requires IsProfile(p)
    ensures r < p.period
  {
    n % p.period
  }

  lemma PhaseZero(p: SvProfile)
    requires IsProfile(p)
    ensures Phase(p, 0) == 0
  {
    DivExact(0, p.period, 0);
  }

  /** smpCnt of frame n: its place in the second, in samples. */
  function Sample(p: SvProfile, n: nat): (c: u16)
    requires IsProfile(p)
  {
    SampleInRange(p, n);
    Phase(p, n) * p.num
  }

  lemma SampleInRange(p: SvProfile, n: nat)
    requires IsProfile(p)
    ensures 0 <= Phase(p, n) * p.num <= p.num * p.period - p.num
  {
    var r := Phase(p, n);
    assert r <= p.period - 1;
    MulMono(r, p.period - 1, p.num);
  }

  function HeldSample(p: SvProfile, run: seq<nat>, k: nat): (c: u16)
    requires IsProfile(p) && k <= |run|
  {
    if k == 0 then 0 else Sample(p, run[k - 1])
  }

  function SmpErrors(p: SvProfile, run: seq<nat>): (n: nat)
    requires IsProfile(p)
  {
    if run == [] then 0
    else
      var k := |run| - 1;
      SmpErrors(p, run[..k]) + SmpErrorOf(p, run, k)
  }

  function SmpErrorOf(p: SvProfile, run: seq<nat>, k: nat): (e: nat)
    requires IsProfile(p) && k < |run|
  {
    NumFits(p);
    SmpError(HeldSample(p, run, k), Sample(p, run[k]), p.num)
  }

  lemma NumFits(p: SvProfile)
    requires IsProfile(p)
    ensures p.num < U16
  {
    MulMono(1, p.period, p.num);
  }

  lemma SmpErrorsStep(p: SvProfile, run: seq<nat>, k: nat)
    requires IsProfile(p) && k < |run|
    ensures SmpErrors(p, run[..k + 1]) == SmpErrors(p, run[..k]) + SmpErrorOf(p, run, k)
  {
    hide SmpError, Sample;
    assert run[..k + 1][..k] == run[..k];
    assert HeldSample(p, run[..k + 1], k) == HeldSample(p, run, k);
  }

  /** A fresh source fed a whole run of an SV stream; only the routable stage hands over the session state. */
  method ReceiveSv(p: SvProfile, run: seq<nat>, routable: bool) returns (src: SvSource)
    requires IsProfile(p)
    ensures fresh(src)
    ensures src.errSmpCnt == SmpErrors(p, run) % U32
    ensures src.errSpduCnt == if routable then SpduErrors(run) % U32 else 0
  {
    hide SmpError, SpduError, SmpErrors, SpduErrors, Carried, Sample, IsProfile;
    src := new SvSource();
    assert run[..0] == [];
    NoErrors();
    NoSmpErrors(p);
    NumFits(p);
    for k := 0 to |run|
      invariant fresh(src)
      invariant src.smpCnt == HeldSample(p, run, k) && (routable ==> src.spduNumber == Held(run, k))
      invariant src.errSmpCnt == SmpErrors(p, run[..k]) % U32
      invariant src.errSpduCnt == if routable then SpduErrors(run[..k]) % U32 else 0
    {
      GooseErrorsStep(run, k);
      SmpErrorsStep(p, run, k);
      WrapAdd(SmpErrors(p, run[..k]), SmpErrorOf(p, run, k));
      WrapAdd(SpduErrors(run[..k]), SpduError(Held(run, k), Carried(run[k])));
      if routable {
        src.ProcessSessionState(Carried(run[k]));
      }
      src.ProcessState(p.num, Sample(p, run[k]));
    }
    assert run[..|run|] == run;
  }

  lemma NoSmpErrors(p: SvProfile)
    requires IsProfile(p)
    ensures SmpErrors(p, []) == 0
  {
  }

  /** Equal multiples of the ASDU count, next multiple, and zero, in terms of the multipliers. */
  lemma SampleCompare(num: nat, a: nat, b: nat)
    requires num > 0
    ensures b * num == a * num + num <==> b == a + 1
    ensures b * num == 0 <==> b == 0
  {
    MulMono(a + 1, b, num);
    MulMono(b, a + 1, num);
    MulMono(a + 2, b, num);
    MulMono(b, a, num);
    MulMono(1, b, num);
  }

  lemma SmpErrorAt(p: SvProfile, run: seq<nat>, k: nat)
    requires IsProfile(p) && k < |run|
    ensures var now, last := Phase(p, run[k]), if k == 0 then 0 else Phase(p, run[k - 1]);
            SmpErrorOf(p, run, k) == if now != 0 && now != last + 1 then 1 else 0
  {
    hide Phase;
    var now, last := Phase(p, run[k]), if k == 0 then 0 else Phase(p, run[k - 1]);
    SampleCompare(p.num, last, now);
    SampleInRange(p, run[k]);
    if k > 0 {
      SampleInRange(p, run[k - 1]);
    }
    NumFits(p);
  }

  /** Phases of two frames that are `m` losses apart, `m` less than a period. */
  lemma PhaseDistance(p: SvProfile, a: nat, m: nat)
    requires IsProfile(p) && m < p.period
    ensures var r := Phase(p, a) + 1 + m;
            Phase(p, a + 1 + m) == if r < p.period then r else r - p.period
  {
    var d := p.period;
    var q, r := a / d, a % d;
    assert a == q * d + r;
    if r + 1 + m < d {
      DivExact(q, d, r + 1 + m);
    } else {
      assert a + 1 + m == (q + 1) * d + (r + 1 + m - d);
      DivExact(q + 1, d, r + 1 + m - d);
    }
  }

  lemma WholePeriods(x: nat, q: nat, d: nat)
    requires d > 0
    ensures (x + q * d) % d == x % d
  {
    var q0, r := x / d, x % d;
    assert x == q0 * d + r;
    assert x + q * d == (q0 + q) * d + r by { assert (q0 + q) * d == q0 * d + q * d; }
    ModExact(q0 + q, d, r);
  }

  /** The next phase follows exactly when a whole number of seconds is missing. */
  lemma PhaseFollows(p: SvProfile, a: nat, m: nat)
    requires IsProfile(p) && Phase(p, a + 1 + m) != 0
    ensures Phase(p, a + 1 + m) == Phase(p, a) + 1 <==> m % p.period == 0
  {
    var d := p.period;
    var q, rest := m / d, m % d;
    assert m == q * d + rest;
    WholePeriods(a + 1 + rest, q, d);
    assert Phase(p, a + 1 + m) == Phase(p, a + 1 + rest) by { assert a + 1 + m == a + 1 + rest + q * d; }
    PhaseDistance(p, a, rest);
  }

  /**
   A loss run that the sample counter can tell from none: the next frame does not start a second, and
   the loss is not a whole number of seconds long.  A fresh source expects the second frame of a
   second, or its first.
   */
  predicate SvVisible(p: SvProfile, run: seq<nat>, k: nat)
    requires IsProfile(p) && k < |run|
  {
    Phase(p, run[k]) != 0 && if k == 0 then Phase(p, run[0]) != 1 else Missing(run, k) % p.period != 0
  }

  function SvVisibleRuns(p: SvProfile, run: seq<nat>): (n: nat)
    requires IsProfile(p)
  {
    if run == [] then 0
    else SvVisibleRuns(p, run[..|run| - 1]) + if SvVisible(p, run, |run| - 1) then 1 else 0
  }

  lemma SvErrorAt(p: SvProfile, run: seq<nat>, k: nat)
    requires IsProfile(p) && k < |run| && Missing(run, k) >= 0
    ensures SmpErrorOf(p, run, k) == if SvVisible(p, run, k) then 1 else 0
  {
    hide SmpErrorOf, Phase;
    SmpErrorAt(p, run, k);
    if k > 0 && Phase(p, run[k]) != 0 {
      PhaseFollows(p, run[k - 1], Missing(run, k));
    }
  }

  lemma SvVisibleMeansLoss(p: SvProfile, run: seq<nat>, k: nat)
    requires IsProfile(p) && k < |run|
    ensures SvVisible(p, run, k) ==> LossBefore(run, k)
  {
    PhaseZero(p);
    ModExact(0, p.period, 0);
  }

  lemma SvVisibleInit(p: SvProfile, run: seq<nat>, j: nat)
    requires IsProfile(p) && j < |run| - 1
    ensures LossBefore(run[..|run| - 1], j) <==> LossBefore(run, j)
    ensures SvVisible(p, run[..|run| - 1], j) <==> SvVisible(p, run, j)
  {
  }

  /** Every loss run is one that the sample counter sees. */
  ghost predicate AllSeen(p: SvProfile, run: seq<nat>)
    requires IsProfile(p)
  {
    forall k :: 0 <= k < |run| && LossBefore(run, k) ==> SvVisible(p, run, k)
  }

  lemma AllSeenInit(p: SvProfile, run: seq<nat>)
    requires IsProfile(p) && run != []
    ensures AllSeen(p, run) <==>
            AllSeen(p, run[..|run| - 1]) && (LossBefore(run, |run| - 1) ==> SvVisible(p, run, |run| - 1))
  {
    hide SvVisible, LossBefore, IsProfile;
    var init := run[..|run| - 1];
    forall j | 0 <= j < |init|
      ensures (LossBefore(init, j) ==> SvVisible(p, init, j)) <==> (LossBefore(run, j) ==> SvVisible(p, run, j))
    {
      SvVisibleInit(p, run, j);
    }
    if AllSeen(p, init) && (LossBefore(run, |init|) ==> SvVisible(p, run, |init|)) {
      forall k | 0 <= k < |run| && LossBefore(run, k) ensures SvVisible(p, run, k) {
        if k < |init| {
          assert LossBefore(init, k) ==> SvVisible(p, init, k);
        }
      }
    }
  }

  /**
   SV sample tracking, exactly, for every in-order duplicate-free run of any length and with any loss:
   the error count is the number of visible loss runs, and all of them are counted if and only if each
   is visible.
   */
  lemma {:induction false} SvCountsVisible(p: SvProfile, run: seq<nat>)
    requires IsProfile(p) && InOrder(run)
    ensures SmpErrors(p, run) == SvVisibleRuns(p, run) <= LossRuns(run)
    ensures SmpErrors(p, run) == LossRuns(run) <==> AllSeen(p, run)
  {
    hide SmpErrorOf, IsProfile, SvVisible, InOrder, AllSeen, LossBefore;
    if run != [] {
      var k := |run| - 1;
      OrderedInit(run);
      SvCountsVisible(p, run[..k]);
      SvErrorAt(p, run, k);
      SvVisibleMeansLoss(p, run, k);
      AllSeenInit(p, run);
    } else {
      assert AllSeen(p, run) by { NothingToSee(p); }
    }
  }

  lemma NothingToSee(p: SvProfile)
    requires IsProfile(p)
    ensures AllSeen(p, [])
  {
  }

  lemma {:induction false} NoneSvVisible(p: SvProfile, run: seq<nat>)
    requires IsProfile(p)
    ensures SvVisibleRuns(p, run) == 0 <==> forall k :: 0 <= k < |run| ==> !SvVisible(p, run, k)
  {
    hide IsProfile, SvVisible;
    if run != [] {
      var init := run[..|run| - 1];
      NoneSvVisible(p, init);
      forall j | 0 <= j < |init| ensures SvVisible(p, init, j) <==> SvVisible(p, run, j) {
        SvVisibleInit(p, run, j);
      }
    }
  }

  ghost predicate ShorterThanPeriod(p: SvProfile, run: seq<nat>)
  {
    forall k :: 0 <= k < |run| ==> Missing(run, k) < p.period
  }

  /**
   In particular, when the first frame arrives and each loss run is shorter than a second, all loss
   runs are counted if and only if none reaches up to a second boundary.
   */
  lemma SvCountsInside(p: SvProfile, run: seq<nat>)
    requires IsProfile(p) && InOrder(run) && ShorterThanPeriod(p, run) && (run != [] ==> run[0] == 0)
    ensures SmpErrors(p, run) == LossRuns(run) <==>
            forall k :: 0 <= k < |run| && LossBefore(run, k) ==> Phase(p, run[k]) != 0
  {
    hide SmpErrors, LossRuns, IsProfile, Phase;
    SvCountsVisible(p, run);
    forall k | 0 <= k < |run| && LossBefore(run, k) ensures SvVisible(p, run, k) <==> Phase(p, run[k]) != 0 {
      assert 0 < k && 0 < Missing(run, k) < p.period;
      ModExact(0, p.period, Missing(run, k));
    }
  }

  /** L2 SV can miss a loss: 3999 frames lost up to the next second are reported as none. */
  lemma SvMissesBoundaryLoss()
    ensures var p, run := SvProfile(1, 4000), [0, 4000];
            IsProfile(p) && InOrder(run) && LossRuns(run) == 1 && SmpErrors(p, run) == 0
  {
    var p, run := SvProfile(1, 4000), [0, 4000];
    assert run[..1] == [0] && [0][..0] == [];
    assert LossRuns([0]) == 0;
    SmpErrorAt(p, run, 1);
    SmpErrorAt(p, [0], 0);
  }

  /** SPDU tracking below 2^32 frames misses only a loss before the first delivered frame. */
  lemma {:induction false} SpduExact(run: seq<nat>)
    requires InOrder(run) && forall k :: 0 <= k < |run| ==> run[k] + 1 < U32
    ensures SpduErrors(run) == LossRuns(run) - if run != [] && run[0] != 0 then 1 else 0
  {
    hide SpduError, Carried;
    if run != [] {
      var k := |run| - 1;
      OrderedInit(run);
      SpduExact(run[..k]);
      SpduErrorAt(run, k);
    }
  }

  /** L2 SV misses a loss of a whole second in mid-second; the loss of the first frame alone R-SV misses too. */
  lemma SvMissesWholeSecond()
    ensures var p := SvProfile(1, 4000);
            && IsProfile(p) && InOrder([0, 1, 4002]) && LossRuns([0, 1, 4002]) == 1 && SmpErrors(p, [0, 1, 4002]) == 0
            && InOrder([1]) && LossRuns([1]) == 1 && SmpErrors(p, [1]) == 0 && SpduErrors([1]) == 0
  {
    var p, run := SvProfile(1, 4000), [0, 1, 4002];
    assert run[..2] == [0, 1] && [0, 1][..1] == [0] && [0][..0] == [] && [1][..0] == [];
    assert LossRuns([0]) == 0 && LossRuns([0, 1]) == 0;
    SmpErrorAt(p, run, 2);
    SmpErrorAt(p, [0, 1], 1);
    SmpErrorAt(p, [0], 0);
    SmpErrorAt(p, [1], 0);
  }

  /**
   R-SV below 2^32 frames, with losses of any length: the larger of the two counts is the number of
   loss runs if and only if the first frame arrived or the sample counter sees every loss; otherwise
   it is one less.
   */
  lemma RsvExact(p: SvProfile, run: seq<nat>)
    requires IsProfile(p) && InOrder(run) && forall k :: 0 <= k < |run| ==> run[k] + 1 < U32
    ensures Max(SmpErrors(p, run), SpduErrors(run)) == LossRuns(run) - FirstLossUnseen(p, run)
    ensures Max(SmpErrors(p, run), SpduErrors(run)) == LossRuns(run) <==>
            run == [] || run[0] == 0 || AllSeen(p, run)
  {
    SvCountsVisible(p, run);
    SpduExact(run);
  }

  /** One when the loss of the first frames is all that tells a run from the reported one. */
  ghost function FirstLossUnseen(p: SvProfile, run: seq<nat>): (n: nat)
    requires IsProfile(p)
  {
    if run == [] || run[0] == 0 || AllSeen(p, run) then 0 else 1
  }

  /** Counting loss runs one by one is counting the positions at which one ends. */
  lemma {:induction false} LossRunsAre(run: seq<nat>)
    ensures LossRuns(run) == |set k | 0 <= k < |run| && LossBefore(run, k)|
  {
    hide LossBefore;
    if run != [] {
      var n := |run| - 1;
      LossRunsAre(run[..n]);
      forall k | 0 <= k < n ensures LossBefore(run[..n], k) <==> LossBefore(run, k) {
        VisibleInit(run, k);
      }
      assert (set k | 0 <= k < |run| && LossBefore(run, k))
          == (set k | 0 <= k < n && LossBefore(run[..n], k)) + if LossBefore(run, n) then {n} else {};
    }
  }

  /** So are the counts of the loss runs that each counter can see. */
  lemma {:induction false} VisibleRunsAre(run: seq<nat>)
    ensures VisibleRuns(run) == |set k | 0 <= k < |run| && Visible(run, k)|
  {
    hide Visible;
    if run != [] {
      var n := |run| - 1;
      VisibleRunsAre(run[..n]);
      forall k | 0 <= k < n ensures Visible(run[..n], k) <==> Visible(run, k) {
        VisibleInit(run, k);
      }
      assert (set k | 0 <= k < |run| && Visible(run, k))
          == (set k | 0 <= k < n && Visible(run[..n], k)) + if Visible(run, n) then {n} else {};
    }
  }

  lemma {:induction false} SpduVisibleRunsAre(run: seq<nat>)
    ensures SpduVisibleRuns(run) == |set k | 0 <= k < |run| && SpduVisible(run, k)|
  {
    hide SpduVisible;
    if run != [] {
      var n := |run| - 1;
      SpduVisibleRunsAre(run[..n]);
      forall k | 0 <= k < n ensures SpduVisible(run[..n], k) <==> SpduVisible(run, k) {
        SpduVisibleInit(run, k);
      }
      assert (set k | 0 <= k < |run| && SpduVisible(run, k))
          == (set k | 0 <= k < n && SpduVisible(run[..n], k)) + if SpduVisible(run, n) then {n} else {};
    }
  }

  lemma SpduVisibleInit(run: seq<nat>, j: nat)
    requires j < |run| - 1
    ensures SpduVisible(run[..|run| - 1], j) <==> SpduVisible(run, j)
  {
  }

  lemma {:induction false} SvVisibleRunsAre(p: SvProfile, run: seq<nat>)
    requires IsProfile(p)
    ensures SvVisibleRuns(p, run) == |set k | 0 <= k < |run| && SvVisible(p, run, k)|
  {
    hide SvVisible, IsProfile;
    if run != [] {
      var n := |run| - 1;
      SvVisibleRunsAre(p, run[..n]);
      forall k | 0 <= k < n ensures SvVisible(p, run[..n], k) <==> SvVisible(p, run, k) {
        SvVisibleInit(p, run, k);
      }
      assert (set k | 0 <= k < |run| && SvVisible(p, run, k))
          == (set k | 0 <= k < n && SvVisible(p, run[..n], k)) + if SvVisible(p, run, n) then {n} else {};
    }
  }

  // ---------------------------------------------------------------- what one source reports

  function Max(a: nat, b: nat): (m: nat)
  {
    if a >= b then a else b
  }

  /** What the receiver reports for one GOOSE stream: one lost frame can move both counters, so the larger one is taken. */
  function GooseReport(run: seq<nat>, routable: bool): (n: nat)
  {
    Max(VisibleRuns(run), if routable then SpduVisibleRuns(run) else 0)
  }

  function SvReport(p: SvProfile, run: seq<nat>, routable: bool): (n: nat)
    requires IsProfile(p)
  {
    Max(SvVisibleRuns(p, run), if routable then SpduVisibleRuns(run) else 0)
  }

  /** A run whose loss runs the 32-bit counters can count without wrapping. */
  ghost predicate Countable(run: seq<nat>)
  {
    InOrder(run) && LossRuns(run) < U32
  }

  /** A loss run that leaves a trace in one of the counters. */
  predicate GooseTold(run: seq<nat>, k: nat, routable: bool)
    requires k < |run|
  {
    Visible(run, k) || (routable && SpduVisible(run, k))
  }

  predicate SvTold(p: SvProfile, run: seq<nat>, k: nat, routable: bool)
    requires IsProfile(p) && k < |run|
  {
    SvVisible(p, run, k) || (routable && SpduVisible(run, k))
  }

  lemma {:induction false} NoneVisible(run: seq<nat>)
    ensures VisibleRuns(run) == 0 <==> forall k :: 0 <= k < |run| ==> !Visible(run, k)
    ensures SpduVisibleRuns(run) == 0 <==> forall k :: 0 <= k < |run| ==> !SpduVisible(run, k)
  {
    hide Carried;
    if run != [] {
      var init := run[..|run| - 1];
      NoneVisible(init);
      forall j | 0 <= j < |init|
        ensures Visible(init, j) <==> Visible(run, j)
        ensures SpduVisible(init, j) <==> SpduVisible(run, j)
      {
      }
    }
  }

  /**
   The report of one GOOSE stream, for every in-order run: never more than the loss runs, zero if and only
   if no loss run left a trace, and exactly the loss runs when each is shorter than 2^32 - 1 frames.
   */
  lemma GooseReportMeans(run: seq<nat>, routable: bool)
    requires InOrder(run)
    ensures GooseReport(run, routable) <= LossRuns(run)
    ensures GooseReport(run, routable) == 0 <==> forall k :: 0 <= k < |run| ==> !GooseTold(run, k, routable)
    ensures ShortLosses(run) ==> GooseReport(run, routable) == LossRuns(run)
  {
    hide Visible, SpduVisible, InOrder, ShortLosses, GooseTold, LossBefore, StErrors, SpduErrors;
    GooseCountsVisible(run);
    SpduCountsVisible(run);
    GooseReportZero(run, routable);
    if ShortLosses(run) {
      GooseExact(run);
    }
  }

  lemma GooseReportZero(run: seq<nat>, routable: bool)
    ensures GooseReport(run, routable) == 0 <==> forall k :: 0 <= k < |run| ==> !GooseTold(run, k, routable)
  {
    hide Visible, SpduVisible, VisibleRuns, SpduVisibleRuns;
    NoneVisible(run);
    if forall k :: 0 <= k < |run| ==> !GooseTold(run, k, routable) {
      forall k | 0 <= k < |run| ensures !Visible(run, k) && (routable ==> !SpduVisible(run, k)) {
        assert !GooseTold(run, k, routable);
      }
    }
  }

  /** No number of the session header has wrapped, and the first frame arrived. */
  ghost predicate SessionSees(run: seq<nat>)
  {
    (run != [] ==> run[0] == 0) && forall k :: 0 <= k < |run| ==> run[k] + 1 < U32
  }

  /**
   The report of one SV stream of any profile, for every in-order run with losses of any length: never more
   than the loss runs, zero if and only if no loss run left a trace, and exactly the loss runs of a routable
   stream below 2^32 frames whose first frame arrived.
   */
  lemma SvReportMeans(p: SvProfile, run: seq<nat>, routable: bool)
    requires IsProfile(p) && InOrder(run)
    ensures SvReport(p, run, routable) <= LossRuns(run)
    ensures SvReport(p, run, routable) == 0 <==> forall k :: 0 <= k < |run| ==> !SvTold(p, run, k, routable)
    ensures routable && SessionSees(run) ==> SvReport(p, run, routable) == LossRuns(run)
  {
    hide SvVisible, SpduVisible, InOrder, IsProfile, SvTold, LossBefore, SmpErrors, SpduErrors, AllSeen;
    SvCountsVisible(p, run);
    SpduCountsVisible(run);
    SvReportZero(p, run, routable);
    if routable && SessionSees(run) {
      SpduExact(run);
    }
  }

  lemma SvReportZero(p: SvProfile, run: seq<nat>, routable: bool)
    requires IsProfile(p)
    ensures SvReport(p, run, routable) == 0 <==> forall k :: 0 <= k < |run| ==> !SvTold(p, run, k, routable)
  {
    hide SvVisible, SpduVisible, SvVisibleRuns, SpduVisibleRuns, IsProfile;
    NoneVisible(run);
    NoneSvVisible(p, run);
    if forall k :: 0 <= k < |run| ==> !SvTold(p, run, k, routable) {
      forall k | 0 <= k < |run| ensures !SvVisible(p, run, k) && (routable ==> !SpduVisible(run, k)) {
        assert !SvTold(p, run, k, routable);
      }
    }
  }

  lemma Unwrapped(n: nat)
    requires n < U32
    ensures n % U32 == n
  {
  }

  /** What the counters of a GOOSE source mean after the frames of any in-order run. */
  lemma GooseSourceMeans(us: seq<GooseUpdate>, run: seq<nat>, routable: bool)
    requires InOrder(run) && GooseCarry(us, run, routable)
    ensures var v := FeedGooseAll(FRESH_GOOSE, us);
            && v.errSeqCnt == VisibleRuns(run) % U32
            && v.errSpduCnt == (if routable then SpduVisibleRuns(run) % U32 else 0)
            && (Countable(run) ==> GooseGap(v) == GooseReport(run, routable))
  {
    hide VisibleRuns, SpduVisibleRuns, StErrors, SpduErrors, GooseCarry, FeedGooseAll, LossRuns;
    GooseFed(us, run, routable);
    GooseCountsVisible(run);
    SpduCountsVisible(run);
    if Countable(run) {
      Unwrapped(VisibleRuns(run));
      Unwrapped(SpduVisibleRuns(run));
    }
  }

  /** What the counters of an SV source mean after the frames of any in-order run. */
  lemma SvSourceMeans(p: SvProfile, us: seq<SvUpdate>, run: seq<nat>, routable: bool)
    requires IsProfile(p) && InOrder(run) && SvCarry(p, us, run, routable)
    ensures var v := FeedSvAll(FRESH_SV, us);
            && v.errSmpCnt == SvVisibleRuns(p, run) % U32
            && v.errSpduCnt == (if routable then SpduVisibleRuns(run) % U32 else 0)
            && (Countable(run) ==> SvGap(v) == SvReport(p, run, routable))
  {
    hide IsProfile, SvVisibleRuns, SpduVisibleRuns, SmpErrors, SpduErrors, SvCarry, FeedSvAll, LossRuns,
         HeldSample, Held, AllSeen, SpduVisible, LossBefore;
    SvFed(p, us, run, routable);
    SvCountsVisible(p, run);
    SpduCountsVisible(run);
    if Countable(run) {
      Unwrapped(SvVisibleRuns(p, run));
      Unwrapped(SpduVisibleRuns(run));
    }
  }

  // ---------------------------------------------------------------- the verdict

  function GooseGap(v: GooseView): (n: u32)
  {
    Max(v.errSeqCnt, v.errSpduCnt)
  }

  function SvGap(v: SvView): (n: u32)
  {
    Max(v.errSmpCnt, v.errSpduCnt)
  }

  /** The fields of the sources, one by one. */
  ghost function GooseViews(sources: seq<GooseSource>): (r: seq<GooseView>)
    reads sources
    ensures |r| == |sources| && forall e :: 0 <= e < |r| ==> r[e] == sources[e].View()
  {
    seq(|sources|, e requires 0 <= e < |sources| reads sources => sources[e].View())
  }

  ghost function SvViews(sources: seq<SvSource>): (r: seq<SvView>)
    reads sources
    ensures |r| == |sources| && forall e :: 0 <= e < |r| ==> r[e] == sources[e].View()
  {
    seq(|sources|, e requires 0 <= e < |sources| reads sources => sources[e].View())
  }

  function Sum(xs: seq<nat>): (n: nat)
  {
    if xs == [] then 0 else Sum(xs[..|xs| - 1]) + xs[|xs| - 1]
  }

  /** Every number is added once, wherever it stands. */
  lemma {:induction false} SumIs(a: seq<nat>, x: nat, b: seq<nat>)
    ensures Sum([]) == 0 && Sum(a + [x] + b) == Sum(a + b) + x
    decreases |b|
  {
    if b == [] {
      assert a + [x] + b == a + [x] && a + b == a && (a + [x])[..|a|] == a;
    } else {
      var n := |b| - 1;
      assert (a + [x] + b)[..|a| + 1 + n] == a + [x] + b[..n] && (a + b)[..|a| + n] == a + b[..n];
      SumIs(a, x, b[..n]);
    }
  }

  lemma {:induction false} SumMeans(xs: seq<nat>)
    ensures Sum(xs) == 0 <==> forall i :: 0 <= i < |xs| ==> xs[i] == 0
    ensures (forall i :: 0 <= i < |xs| ==> xs[i] < U32) ==> Sum(xs) <= |xs| * U32
  {
    if xs != [] {
      var init := xs[..|xs| - 1];
      SumMeans(init);
      assert forall i :: 0 <= i < |init| ==> init[i] == xs[i];
      assert forall i :: 0 <= i < |xs| - 1 ==> xs[i] == init[i];
    }
  }

  function GooseGaps(vs: seq<GooseView>): (xs: seq<nat>)
    ensures |xs| == |vs| && forall i :: 0 <= i < |vs| ==> xs[i] == GooseGap(vs[i])
  {
    seq<nat>(|vs|, i requires 0 <= i < |vs| => GooseGap(vs[i]))
  }

  function SvGaps(vs: seq<SvView>): (xs: seq<nat>)
    ensures |xs| == |vs| && forall i :: 0 <= i < |vs| ==> xs[i] == SvGap(vs[i])
  {
    seq<nat>(|vs|, i requires 0 <= i < |vs| => SvGap(vs[i]))
  }

  lemma SumStep(xs: seq<nat>, i: nat)
    requires i < |xs|
    ensures Sum(xs[..i + 1]) == Sum(xs[..i]) + xs[i]
  {
    assert xs[..i + 1][..i] == xs[..i];
  }

  /** CountGaps(): over both tables, the sum of the larger counter of each source. */
  method CountGaps(gooseMap: seq<GooseSource>, svMap: seq<SvSource>) returns (goose: u64, sv: u64)
    ensures goose == Sum(GooseGaps(GooseViews(gooseMap))) % U64
    ensures sv == Sum(SvGaps(SvViews(svMap))) % U64
  {
    hide Sum, GooseViews, SvViews;
    goose, sv := 0, 0;
    ghost var xs, ys := GooseGaps(GooseViews(gooseMap)), SvGaps(SvViews(svMap));
    assert xs[..0] == [] == ys[..0] && Sum([]) == 0 by { SumMeans([]); }
    for i := 0 to |gooseMap|
      invariant goose == Sum(xs[..i]) % U64
    {
      SumStep(xs, i);
      WrapAdd64(Sum(xs[..i]), xs[i]);
      goose := (goose + Max(gooseMap[i].errSeqCnt, gooseMap[i].errSpduCnt)) % U64;
    }
    for i := 0 to |svMap|
      invariant sv == Sum(ys[..i]) % U64
    {
      SumStep(ys, i);
      WrapAdd64(Sum(ys[..i]), ys[i]);
      sv := (sv + Max(svMap[i].errSmpCnt, svMap[i].errSpduCnt)) % U64;
    }
    assert xs[..|xs|] == xs && ys[..|ys|] == ys;
  }

  /** What one stream delivered, and by which transport: L2 and routable streams may stand side by side in a table. */
  datatype GooseStream = GooseStream(routable: bool, run: seq<nat>)

  /** An SV stream also has its profile: one-ASDU and eight-ASDU streams may stand side by side. */
  datatype SvStream = SvStream(profile: SvProfile, routable: bool, run: seq<nat>)

  ghost predicate CountableGoose(streams: seq<GooseStream>)
  {
    forall i :: 0 <= i < |streams| ==> Countable(streams[i].run)
  }

  ghost predicate CountableSv(streams: seq<SvStream>)
  {
    forall i :: 0 <= i < |streams| ==> IsProfile(streams[i].profile) && Countable(streams[i].run)
  }

  function GooseReports(streams: seq<GooseStream>): (xs: seq<nat>)
    ensures |xs| == |streams| && forall i :: 0 <= i < |streams| ==> xs[i] == GooseReport(streams[i].run, streams[i].routable)
  {
    seq<nat>(|streams|, i requires 0 <= i < |streams| => GooseReport(streams[i].run, streams[i].routable))
  }

  ghost function SvReports(streams: seq<SvStream>): (xs: seq<nat>)
    requires CountableSv(streams)
    ensures |xs| == |streams|
    ensures forall i :: 0 <= i < |streams| ==> xs[i] == SvReport(streams[i].profile, streams[i].run, streams[i].routable)
  {
    seq<nat>(|streams|, i requires 0 <= i < |streams| && CountableSv(streams) =>
      SvReport(streams[i].profile, streams[i].run, streams[i].routable))
  }

  function GooseLosses(streams: seq<GooseStream>): (xs: seq<nat>)
    ensures |xs| == |streams| && forall i :: 0 <= i < |streams| ==> xs[i] == LossRuns(streams[i].run)
  {
    seq<nat>(|streams|, i requires 0 <= i < |streams| => LossRuns(streams[i].run))
  }

  function SvLosses(streams: seq<SvStream>): (xs: seq<nat>)
    ensures |xs| == |streams| && forall i :: 0 <= i < |streams| ==> xs[i] == LossRuns(streams[i].run)
  {
    seq<nat>(|streams|, i requires 0 <= i < |streams| => LossRuns(streams[i].run))
  }

  /**
   What a gap count over a whole GOOSE table means: it is the sum of what the streams report; it is zero if and
   only if no loss run of any stream left a trace; when every loss run is shorter than 2^32 - 1 frames it is
   the loss runs of all streams together, and zero means that every stream is complete up to its last frame.
   */
  ghost predicate GooseVerdict(streams: seq<GooseStream>, gaps: nat)
  {
    && gaps == Sum(GooseReports(streams))
    && (gaps == 0 <==> forall i, k :: 0 <= i < |streams| && 0 <= k < |streams[i].run| ==>
                                        !GooseTold(streams[i].run, k, streams[i].routable))
    && ((forall i :: 0 <= i < |streams| ==> ShortLosses(streams[i].run)) ==>
          && gaps == Sum(GooseLosses(streams))
          && (gaps == 0 <==> forall i, k :: 0 <= i < |streams| && 0 <= k < |streams[i].run| ==> streams[i].run[k] == k))
  }

  /**
   The same for a table of SV streams of any profiles and transports, with losses of any length; for routable
   streams below 2^32 frames whose first frame arrived it is the loss runs of all streams together.
   */
  ghost predicate SvVerdict(streams: seq<SvStream>, gaps: nat)
    requires CountableSv(streams)
  {
    && gaps == Sum(SvReports(streams))
    && (gaps == 0 <==> forall i, k :: 0 <= i < |streams| && 0 <= k < |streams[i].run| ==>
                                        !SvTold(streams[i].profile, streams[i].run, k, streams[i].routable))
    && ((forall i :: 0 <= i < |streams| ==> streams[i].routable && SessionSees(streams[i].run)) ==>
          && gaps == Sum(SvLosses(streams))
          && (gaps == 0 <==> forall i, k :: 0 <= i < |streams| && 0 <= k < |streams[i].run| ==> streams[i].run[k] == k))
  }

  lemma GooseTotalMeans(streams: seq<GooseStream>)
    requires CountableGoose(streams)
    ensures Sum(GooseReports(streams)) <= |streams| * U32 && GooseVerdict(streams, Sum(GooseReports(streams)))
  {
    hide Sum, GooseReport, GooseTold, ShortLosses, InOrder, LossRuns;
    SumMeans(GooseReports(streams));
    forall i | 0 <= i < |streams|
      ensures GooseReports(streams)[i] < U32
      ensures GooseReports(streams)[i] == 0 <==>
              forall k :: 0 <= k < |streams[i].run| ==> !GooseTold(streams[i].run, k, streams[i].routable)
      ensures ShortLosses(streams[i].run) ==> GooseReports(streams)[i] == GooseLosses(streams)[i]
      ensures GooseLosses(streams)[i] == 0 <==> forall k :: 0 <= k < |streams[i].run| ==> streams[i].run[k] == k
    {
      GooseReportMeans(streams[i].run, streams[i].routable);
      LosslessIff(streams[i].run);
    }
    if forall i :: 0 <= i < |streams| ==> ShortLosses(streams[i].run) {
      assert GooseReports(streams) == GooseLosses(streams);
    }
  }

  lemma SvTotalMeans(streams: seq<SvStream>)
    requires CountableSv(streams)
    ensures Sum(SvReports(streams)) <= |streams| * U32 && SvVerdict(streams, Sum(SvReports(streams)))
  {
    hide Sum, SvReport, SvTold, SessionSees, InOrder, LossRuns, IsProfile;
    SumMeans(SvReports(streams));
    forall i | 0 <= i < |streams|
      ensures SvReports(streams)[i] < U32
      ensures SvReports(streams)[i] == 0 <==>
              forall k :: 0 <= k < |streams[i].run| ==> !SvTold(streams[i].profile, streams[i].run, k, streams[i].routable)
      ensures streams[i].routable && SessionSees(streams[i].run) ==> SvReports(streams)[i] == SvLosses(streams)[i]
      ensures SvLosses(streams)[i] == 0 <==> forall k :: 0 <= k < |streams[i].run| ==> streams[i].run[k] == k
    {
      SvReportMeans(streams[i].profile, streams[i].run, streams[i].routable);
      LosslessIff(streams[i].run);
    }
    if forall i :: 0 <= i < |streams| ==> streams[i].routable && SessionSees(streams[i].run) {
      assert SvReports(streams) == SvLosses(streams);
    }
  }

  /** Sources of all streams after their runs. */
  method ReceiveAllGoose(streams: seq<GooseStream>) returns (sources: seq<GooseSource>)
    requires CountableGoose(streams)
    ensures GooseGaps(GooseViews(sources)) == GooseReports(streams)
  {
    hide InOrder, StErrors, SpduErrors, LossRuns, GooseReport, VisibleRuns, SpduVisibleRuns, GooseViews;
    sources := [];
    for i := 0 to |streams|
      invariant |sources| == i && forall s :: s in sources ==> fresh(s)
      invariant forall j :: 0 <= j < i ==> GooseGap(sources[j].View()) == GooseReport(streams[j].run, streams[j].routable)
    {
      var src := ReceiveGoose(streams[i].run, streams[i].routable);
      GooseSourceGaps(streams[i].run, streams[i].routable);
      sources := sources + [src];
    }
  }

  lemma GooseSourceGaps(run: seq<nat>, routable: bool)
    requires Countable(run)
    ensures Max(StErrors(run) % U32, if routable then SpduErrors(run) % U32 else 0) == GooseReport(run, routable)
  {
    GooseCountsVisible(run);
    SpduCountsVisible(run);
    Unwrapped(StErrors(run));
    Unwrapped(SpduErrors(run));
  }

  lemma SvSourceGaps(p: SvProfile, run: seq<nat>, routable: bool)
    requires IsProfile(p) && Countable(run)
    ensures Max(SmpErrors(p, run) % U32, if routable then SpduErrors(run) % U32 else 0) == SvReport(p, run, routable)
  {
    SvCountsVisible(p, run);
    SpduCountsVisible(run);
    Unwrapped(SmpErrors(p, run));
    Unwrapped(SpduErrors(run));
  }

  method ReceiveAllSv(streams: seq<SvStream>) returns (sources: seq<SvSource>)
    requires CountableSv(streams)
    ensures SvGaps(SvViews(sources)) == SvReports(streams)
  {
    hide InOrder, SmpErrors, SpduErrors, LossRuns, SvReport, SvVisibleRuns, SpduVisibleRuns, SvViews, IsProfile;
    sources := [];
    for i := 0 to |streams|
      invariant |sources| == i && forall s :: s in sources ==> fresh(s)
      invariant forall j :: 0 <= j < i ==>
                  SvGap(sources[j].View()) == SvReport(streams[j].profile, streams[j].run, streams[j].routable)
    {
      var src := ReceiveSv(streams[i].profile, streams[i].run, streams[i].routable);
      SvSourceGaps(streams[i].profile, streams[i].run, streams[i].routable);
      sources := sources + [src];
    }
  }

  /** The verdict over both tables, with any mix of transports and profiles and losses of any length. */
  method Verdict(gooses: seq<GooseStream>, svs: seq<SvStream>) returns (goose: u64, sv: u64)
    requires |gooses| <= U16 && CountableGoose(gooses) && |svs| <= U16 && CountableSv(svs)
    ensures GooseVerdict(gooses, goose) && SvVerdict(svs, sv)
  {
    hide Sum, GooseVerdict, SvVerdict, CountableGoose, CountableSv;
    var gooseMap := ReceiveAllGoose(gooses);
    var svMap := ReceiveAllSv(svs);
    goose, sv := CountGaps(gooseMap, svMap);
    GooseTotalMeans(gooses);
    SvTotalMeans(svs);
  }
}
