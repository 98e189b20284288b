/** One run of the receive pipeline: router, four protocol stages and the IP stage over one batch. */
module Pipeline {
  import opened Bytes
  import opened Frames
  import opened Gaps
  import opened Judging
  import opened Routable
  import RSession
  import AppIdContainer

  // ---------------------------------------------------------------- counters

  /** The four ways a protocol stage can count a frame; Other for frames of other stages. */
  datatype Kind = Match | Stranger | Fault | Forgery | Other

  function KindOf<U>(o: Outcome<U>): (k: Kind)
    ensures (k.Match? <==> o.Known?) && (k.Stranger? <==> o.Unlisted?) && (k.Fault? <==> o.Broken?)
    ensures (k.Forgery? <==> o.Forged?) && (k.Other? <==> o.Wild? || o.Elsewhere?)
  {
    match o
    case Known(_, _) => Match
    case Unlisted => Stranger
    case Broken => Fault
    case Forged => Forgery
    case _ => Other
  }

  function GooseOf(app: App, k: Kind): (f: Mbuf -> bool)
  {
    m => KindOf(GooseOutcome(app, m)) == k
  }

  function SvOf(app: App, k: Kind): (f: Mbuf -> bool)
  {
    m => KindOf(SvOutcome(app, m)) == k
  }

  /** How many of `ms` satisfy `f`. */
  function Tally(ms: seq<Mbuf>, f: Mbuf -> bool): (n: nat)
  {
    |Only(ms, f)|
  }

  lemma TallySnoc(ms: seq<Mbuf>, m: Mbuf, f: Mbuf -> bool)
    ensures Tally(ms + [m], f) == Tally(ms, f) + if f(m) then 1 else 0
  {
    OnlySnoc(ms, m, f);
  }

  /** The application's eight per-frame counters. */
  datatype Counters = Counters(rxGoose: nat, rxSv: nat, errGoose: nat, errSv: nat,
                               unknownGoose: nat, unknownSv: nat, errAuth: nat, toKernel: nat)
  {
    function Total(): (n: nat)
    {
      rxGoose + rxSv + errGoose + errSv + unknownGoose + unknownSv + errAuth + toKernel
    }
  }

  function CountGoose(c: Counters, k: Kind): (r: Counters)
  {
    match k
    case Match => c.(rxGoose := c.rxGoose + 1)
    case Stranger => c.(unknownGoose := c.unknownGoose + 1)
    case Fault => c.(errGoose := c.errGoose + 1)
    case Forgery => c.(errAuth := c.errAuth + 1)
    case Other => c
  }

  function CountSv(c: Counters, k: Kind): (r: Counters)
  {
    match k
    case Match => c.(rxSv := c.rxSv + 1)
    case Stranger => c.(unknownSv := c.unknownSv + 1)
    case Fault => c.(errSv := c.errSv + 1)
    case Forgery => c.(errAuth := c.errAuth + 1)
    case Other => c
  }

  /** Counters after `ms` were handled as GOOSE. */
  function AfterGoose(c: Counters, app: App, ms: seq<Mbuf>): (r: Counters)
  {
    c.(rxGoose := c.rxGoose + Tally(ms, GooseOf(app, Match)), unknownGoose := c.unknownGoose + Tally(ms, GooseOf(app, Stranger)),
       errGoose := c.errGoose + Tally(ms, GooseOf(app, Fault)), errAuth := c.errAuth + Tally(ms, GooseOf(app, Forgery)))
  }

  function AfterSv(c: Counters, app: App, ms: seq<Mbuf>): (r: Counters)
  {
    c.(rxSv := c.rxSv + Tally(ms, SvOf(app, Match)), unknownSv := c.unknownSv + Tally(ms, SvOf(app, Stranger)),
       errSv := c.errSv + Tally(ms, SvOf(app, Fault)), errAuth := c.errAuth + Tally(ms, SvOf(app, Forgery)))
  }

  lemma GooseStep(c: Counters, app: App, ms: seq<Mbuf>, m: Mbuf)
    ensures AfterGoose(c, app, ms + [m]) == CountGoose(AfterGoose(c, app, ms), KindOf(GooseOutcome(app, m)))
  {
    hide GooseOutcome, Tally, KindOf;
    TallySnoc(ms, m, GooseOf(app, Match));
    TallySnoc(ms, m, GooseOf(app, Stranger));
    TallySnoc(ms, m, GooseOf(app, Fault));
    TallySnoc(ms, m, GooseOf(app, Forgery));
  }

  lemma SvStep(c: Counters, app: App, ms: seq<Mbuf>, m: Mbuf)
    ensures AfterSv(c, app, ms + [m]) == CountSv(AfterSv(c, app, ms), KindOf(SvOutcome(app, m)))
  {
    hide SvOutcome, Tally, KindOf;
    TallySnoc(ms, m, SvOf(app, Match));
    TallySnoc(ms, m, SvOf(app, Stranger));
    TallySnoc(ms, m, SvOf(app, Fault));
    TallySnoc(ms, m, SvOf(app, Forgery));
  }

  lemma NoneCounted(c: Counters, app: App)
    ensures AfterGoose(c, app, []) == c && AfterSv(c, app, []) == c
  {
  }

  lemma GooseUpdatesSnoc(app: App, ms: seq<Mbuf>, m: Mbuf, entry: nat)
    ensures var o := GooseOutcome(app, m);
            GooseUpdates(app, ms + [m], entry) ==
            GooseUpdates(app, ms, entry) + if o.Known? && o.entry == entry then [o.update] else []
  {
    hide GooseOutcome;
    assert (ms + [m])[..|ms|] == ms;
  }

  lemma SvUpdatesSnoc(app: App, ms: seq<Mbuf>, m: Mbuf, entry: nat)
    ensures var o := SvOutcome(app, m);
            SvUpdates(app, ms + [m], entry) ==
            SvUpdates(app, ms, entry) + if o.Known? && o.entry == entry then [o.update] else []
  {
    hide SvOutcome;
    assert (ms + [m])[..|ms|] == ms;
  }

  // ---------------------------------------------------------------- sources

  /** What a stage does with the source of a known stream. */
  method UpdateGoose(src: GooseSource, u: GooseUpdate)
    modifies src
    ensures src.View() == FeedGoose(old(src.View()), u)
  {
    if u.spdu.Some? {
      src.ProcessSessionState(u.spdu.value);
    }
    src.ProcessState(u.stNum, u.sqNum);
  }

  method UpdateSv(src: SvSource, u: SvUpdate)
    modifies src
    ensures src.View() == FeedSv(old(src.View()), u)
  {
    if u.spdu.Some? {
      src.ProcessSessionState(u.spdu.value);
    }
    src.ProcessState(u.num, u.smpCnt);
  }

  /** The sources of all entries after one frame. */
  function FeedGooseEntry(vs: seq<GooseView>, o: Outcome<GooseUpdate>): (r: seq<GooseView>)
    ensures |r| == |vs|
  {
    if o.Known? && o.entry < |vs| then vs[o.entry := FeedGoose(vs[o.entry], o.update)] else vs
  }

  /** The sources of all entries after `ms`: each has been fed its own frames, in order. */
  function FeedGooses(vs: seq<GooseView>, app: App, ms: seq<Mbuf>): (r: seq<GooseView>)
    ensures |r| == |vs| && forall e :: 0 <= e < |vs| ==> r[e] == FeedGooseAll(vs[e], GooseUpdates(app, ms, e))
  {
    seq(|vs|, e requires 0 <= e < |vs| => FeedGooseAll(vs[e], GooseUpdates(app, ms, e)))
  }

  lemma FeedGoosesSnoc(vs: seq<GooseView>, app: App, ms: seq<Mbuf>, m: Mbuf)
    ensures FeedGooses(vs, app, ms + [m]) == FeedGooseEntry(FeedGooses(vs, app, ms), GooseOutcome(app, m))
  {
    hide GooseOutcome, GooseUpdates, FeedGoose;
    var o := GooseOutcome(app, m);
    forall e | 0 <= e < |vs|
      ensures FeedGooseAll(vs[e], GooseUpdates(app, ms + [m], e)) ==
              if o.Known? && o.entry == e then FeedGoose(FeedGooseAll(vs[e], GooseUpdates(app, ms, e)), o.update)
              else FeedGooseAll(vs[e], GooseUpdates(app, ms, e))
    {
      var us := GooseUpdates(app, ms, e);
      GooseUpdatesSnoc(app, ms, m, e);
      if o.Known? && o.entry == e {
        assert (us + [o.update])[..|us|] == us;
      } else {
        assert us + [] == us;
      }
    }
  }

  lemma FeedGoosesNone(vs: seq<GooseView>, app: App)
    ensures FeedGooses(vs, app, []) == vs
  {
    hide GooseOutcome;
  }

  /** The sources of all entries after one frame. */
  function FeedSvEntry(vs: seq<SvView>, o: Outcome<SvUpdate>): (r: seq<SvView>)
    ensures |r| == |vs|
  {
    if o.Known? && o.entry < |vs| then vs[o.entry := FeedSv(vs[o.entry], o.update)] else vs
  }

  /** The sources of all entries after `ms`: each has been fed its own frames, in order. */
  function FeedSvs(vs: seq<SvView>, app: App, ms: seq<Mbuf>): (r: seq<SvView>)
    ensures |r| == |vs| && forall e :: 0 <= e < |vs| ==> r[e] == FeedSvAll(vs[e], SvUpdates(app, ms, e))
  {
    seq(|vs|, e requires 0 <= e < |vs| => FeedSvAll(vs[e], SvUpdates(app, ms, e)))
  }

  lemma FeedSvsSnoc(vs: seq<SvView>, app: App, ms: seq<Mbuf>, m: Mbuf)
    ensures FeedSvs(vs, app, ms + [m]) == FeedSvEntry(FeedSvs(vs, app, ms), SvOutcome(app, m))
  {
    hide SvOutcome, SvUpdates, FeedSv;
    var o := SvOutcome(app, m);
    forall e | 0 <= e < |vs|
      ensures FeedSvAll(vs[e], SvUpdates(app, ms + [m], e)) ==
              if o.Known? && o.entry == e then FeedSv(FeedSvAll(vs[e], SvUpdates(app, ms, e)), o.update)
              else FeedSvAll(vs[e], SvUpdates(app, ms, e))
    {
      var us := SvUpdates(app, ms, e);
      SvUpdatesSnoc(app, ms, m, e);
      if o.Known? && o.entry == e {
        assert (us + [o.update])[..|us|] == us;
      } else {
        assert us + [] == us;
      }
    }
  }

  lemma FeedSvsNone(vs: seq<SvView>, app: App)
    ensures FeedSvs(vs, app, []) == vs
  {
    hide SvOutcome;
  }

  // ---------------------------------------------------------------- the matrix

  /** The data matrix of one worker: the START array, what each stage holds, and the application it serves. */
  class Matrix {
    const start: array<Mbuf>
    const gooses: AppIdContainer.Container<GooseId, GooseSource?>
    const svs: AppIdContainer.Container<SvId, SvSource?>
    const mode: RSession.Mode
    const crypto: Backend
    var num: nat
    var stage: map<Proto, seq<Mbuf>>
    var counters: Counters
    /** Frames in the order they were handled. */
    ghost var handled: seq<Mbuf>
    /** The sources that the table entries point to. */
    ghost const gs: seq<GooseSource>
    ghost const ss: seq<SvSource>

    ghost predicate Valid()
      reads this
    {
      && start.Length == RX_BURST && num <= RX_BURST
      && forall p: Proto :: p in stage && |stage[p]| <= RX_BURST
    }

    /** The tables agree with a scan, and every entry has its own source. */
    ghost predicate Wired()
      reads gooses, gooses.register, svs, svs.register
    {
      && gooses.Valid() && gooses.appid == GooseKey() && svs.Valid() && svs.appid == SvKey()
      && |gs| == |gooses.values| && (forall e :: 0 <= e < |gs| ==> gooses.values[e].1 == gs[e])
      && |ss| == |svs.values| && (forall e :: 0 <= e < |ss| ==> svs.values[e].1 == ss[e])
      && (forall e, f :: 0 <= e < f < |gs| ==> gs[e] != gs[f])
      && (forall e, f :: 0 <= e < f < |ss| ==> ss[e] != ss[f])
    }

    ghost predicate Idle()
      reads this
    {
      forall p: Proto :: p in stage && stage[p] == []
    }

    ghost function TheApp(): (app: App)
      reads gooses, svs
    {
      App(gooses.values, svs.values, mode, crypto)
    }

    constructor (gooses: AppIdContainer.Container<GooseId, GooseSource?>, svs: AppIdContainer.Container<SvId, SvSource?>,
                 mode: RSession.Mode, crypto: Backend, ghost gs: seq<GooseSource>, ghost ss: seq<SvSource>)
      ensures Valid() && Idle() && num == 0 && fresh(start)
      ensures this.gooses == gooses && this.svs == svs && this.mode == mode && this.crypto == crypto
      ensures this.gs == gs && this.ss == ss
      ensures counters == Counters(0, 0, 0, 0, 0, 0, 0, 0) && handled == []
    {
      start := new Mbuf[RX_BURST](_ => Mbuf(0, RawPacket(Zeros(64), 0, Unknown)));
      this.gooses, this.svs, this.mode, this.crypto := gooses, svs, mode, crypto;
      this.gs, this.ss := gs, ss;
      num := 0;
      stage := map[NonBus := [], Sv := [], Goose := [], RGoose := [], RSv := []];
      counters := Counters(0, 0, 0, 0, 0, 0, 0, 0);
      handled := [];
      new;
      forall p: Proto ensures p in stage && stage[p] == [] {
        match p
        case NonBus => case Sv => case Goose => case RGoose => case RSv =>
      }
    }

    /** PutBuffer has no bound of its own: the caller must leave room. */
    method PutBuffer(p: Proto, m: Mbuf)
      requires Valid() && |stage[p]| < RX_BURST
      modifies this`stage
      ensures Valid() && stage == old(stage)[p := old(stage)[p] + [m]]
    {
      stage := stage[p := stage[p] + [m]];
    }

    /** RouterStage: each buffer goes to its protocol's stage, in order, and no stage overflows. */
    method Route()
      requires Valid() && Idle()
      modifies this`stage, this`num
      ensures Valid() && num == 0
      ensures forall p: Proto :: stage[p] == Only(old(start[..num]), OfProto(p))
    {
      hide RSession.Lawful, StreamOf;
      ghost var batch := start[..num];
      for i := 0 to num
        invariant Valid() && num == |batch|
        invariant forall p: Proto :: stage[p] == Only(batch[..i], OfProto(p))
      {
        assert batch[..i + 1] == batch[..i] + [batch[i]] && start[i] == batch[i];
        forall p: Proto ensures Only(batch[..i + 1], OfProto(p)) == Only(batch[..i], OfProto(p))
                                                                    + if StreamOf(batch[i]).proto == p then [batch[i]] else [] {
          OnlySnoc(batch[..i], batch[i], OfProto(p));
        }
        PutBuffer(StreamOf(start[i]).proto, start[i]);
      }
      assert batch[..|batch|] == batch;
      num := 0;
    }

    /** Envelope check and parser of the stage that holds this frame. */
    method TakeGooseFrame(m: Mbuf) returns (r: Reading<GooseId, GooseUpdate>)
      requires StreamOf(m).proto == Goose || StreamOf(m).proto == RGoose
      requires InDomain(TheApp(), m)
      ensures !r.Undefined?
      ensures GooseOutcome(TheApp(), m) == Judge(gooses.values, GooseKey(), r, StreamOf(m).proto == RGoose)
    {
      hide RSession.Lawful, StreamOf, ReadGoose, ReadRGoose, GooseInDomain, RGooseInDomain;
      if StreamOf(m).proto == Goose {
        r := TakeGoose(m.packet);
      } else {
        r := TakeRGoose(m.packet, mode, crypto);
      }
    }

    method TakeSvFrame(m: Mbuf) returns (r: Reading<SvId, SvUpdate>)
      requires StreamOf(m).proto == Sv || StreamOf(m).proto == RSv
      ensures !r.Undefined?
      ensures SvOutcome(TheApp(), m) == Judge(svs.values, SvKey(), r, StreamOf(m).proto == RSv)
    {
      hide RSession.Lawful, StreamOf, ReadSv, ReadRSv;
      if StreamOf(m).proto == Sv {
        r := TakeSv(m.packet);
      } else {
        r := TakeRSv(m.packet, mode, crypto);
      }
    }

    /** Only the source of this entry moves. */
    method UpdateGooseEntry(e: nat, u: GooseUpdate)
      requires Wired() && e < |gooses.values|
      modifies gs
      ensures Wired() && GooseViews(gs) == old(GooseViews(gs))[e := FeedGoose(old(GooseViews(gs))[e], u)]
      ensures SvViews(ss) == old(SvViews(ss))
    {
      hide RSession.Lawful, FeedGoose;
      UpdateGoose(gooses.values[e].1, u);
    }

    method FindGoose(id: GooseId) returns (found: Option<nat>)
      requires Wired()
      ensures found == AppIdContainer.Scan(gooses.values, GooseKey(), id)
    {
      found := gooses.Find(id);
    }

    /** One frame of a GOOSE or R-GOOSE stage: one counter moves, and only the source of a known stream. */
    method HandleGooseFrame(m: Mbuf)
      requires Wired() && (StreamOf(m).proto == Goose || StreamOf(m).proto == RGoose) && InDomain(TheApp(), m)
      modifies this`counters, gs
      ensures Wired() && counters == CountGoose(old(counters), KindOf(GooseOutcome(TheApp(), m)))
      ensures GooseViews(gs) == FeedGooseEntry(old(GooseViews(gs)), GooseOutcome(TheApp(), m))
      ensures SvViews(ss) == old(SvViews(ss))
    {
      hide RSession.Lawful, GooseOutcome, InDomain, FeedGoose, StreamOf, Wired, AppIdContainer.Scan, GooseViews, SvViews;
      var r := TakeGooseFrame(m);
      match r {
        case Read(id, u) =>
          var found := FindGoose(id);
          if found.Some? {
            UpdateGooseEntry(found.value, u);
            counters := counters.(rxGoose := counters.rxGoose + 1);
          } else {
            counters := counters.(unknownGoose := counters.unknownGoose + 1);
          }
        case Failed(code) =>
          if StreamOf(m).proto == RGoose && code == ERR_AUTH {
            counters := counters.(errAuth := counters.errAuth + 1);
          } else {
            counters := counters.(errGoose := counters.errGoose + 1);
          }
      }
    }

    /** Only the source of this entry moves. */
    method UpdateSvEntry(e: nat, u: SvUpdate)
      requires Wired() && e < |svs.values|
      modifies ss
      ensures Wired() && SvViews(ss) == old(SvViews(ss))[e := FeedSv(old(SvViews(ss))[e], u)]
      ensures GooseViews(gs) == old(GooseViews(gs))
    {
      hide RSession.Lawful, FeedSv;
      UpdateSv(svs.values[e].1, u);
    }

    method FindSv(id: SvId) returns (found: Option<nat>)
      requires Wired()
      ensures found == AppIdContainer.Scan(svs.values, SvKey(), id)
    {
      found := svs.Find(id);
    }

    method HandleSvFrame(m: Mbuf)
      requires Wired() && (StreamOf(m).proto == Sv || StreamOf(m).proto == RSv)
      modifies this`counters, ss
      ensures Wired() && counters == CountSv(old(counters), KindOf(SvOutcome(TheApp(), m)))
      ensures SvViews(ss) == FeedSvEntry(old(SvViews(ss)), SvOutcome(TheApp(), m))
      ensures GooseViews(gs) == old(GooseViews(gs))
    {
      hide RSession.Lawful, SvOutcome, InDomain, FeedSv, StreamOf, Wired, AppIdContainer.Scan, GooseViews, SvViews;
      var r := TakeSvFrame(m);
      match r {
        case Read(id, u) =>
          var found := FindSv(id);
          if found.Some? {
            UpdateSvEntry(found.value, u);
            counters := counters.(rxSv := counters.rxSv + 1);
          } else {
            counters := counters.(unknownSv := counters.unknownSv + 1);
          }
        case Failed(code) =>
          if StreamOf(m).proto == RSv && code == ERR_AUTH {
            counters := counters.(errAuth := counters.errAuth + 1);
          } else {
            counters := counters.(errSv := counters.errSv + 1);
          }
      }
    }

    /** The next frame of a stage, after those in `done`. */
    method HandleGooseNext(m: Mbuf, ghost done: seq<Mbuf>, ghost c: Counters, ghost vs: seq<GooseView>)
      requires Wired() && (StreamOf(m).proto == Goose || StreamOf(m).proto == RGoose) && InDomain(TheApp(), m)
      requires counters == AfterGoose(c, TheApp(), done) && GooseViews(gs) == FeedGooses(vs, TheApp(), done)
      modifies this`counters, gs
      ensures Wired() && TheApp() == old(TheApp()) && SvViews(ss) == old(SvViews(ss))
      ensures counters == AfterGoose(c, TheApp(), done + [m]) && GooseViews(gs) == FeedGooses(vs, TheApp(), done + [m])
    {
      hide RSession.Lawful, StreamOf, InDomain, GooseOutcome, AfterGoose, CountGoose, FeedGooses, FeedGooseEntry, KindOf, Wired, GooseViews, SvViews;
      HandleGooseFrame(m);
      GooseStep(c, TheApp(), done, m);
      FeedGoosesSnoc(vs, TheApp(), done, m);
    }

    /** The loop over the frames of one stage. */
    method GooseLoop(ms: seq<Mbuf>, p: Proto)
      requires Wired() && (p == Goose || p == RGoose) && Ready(TheApp(), ms, p)
      modifies this`counters, gs
      ensures Wired() && TheApp() == old(TheApp()) && SvViews(ss) == old(SvViews(ss))
      ensures counters == AfterGoose(old(counters), TheApp(), ms) && GooseViews(gs) == FeedGooses(old(GooseViews(gs)), TheApp(), ms)
    {
      hide RSession.Lawful, StreamOf, InDomain, GooseOutcome, AfterGoose, CountGoose, FeedGooses, FeedGooseEntry, KindOf, Wired, GooseViews, SvViews, TheApp;
      ghost var app := TheApp();
      NoneCounted(counters, app);
      FeedGoosesNone(GooseViews(gs), app);
      assert ms[..0] == [];
      for i := 0 to |ms|
        invariant Wired() && TheApp() == app && SvViews(ss) == old(SvViews(ss))
        invariant counters == AfterGoose(old(counters), app, ms[..i]) && GooseViews(gs) == FeedGooses(old(GooseViews(gs)), app, ms[..i])
      {
        assert ms[..i + 1] == ms[..i] + [ms[i]] && ms[i] in ms;
        HandleGooseNext(ms[i], ms[..i], old(counters), old(GooseViews(gs)));
      }
      assert ms[..|ms|] == ms;
    }

    /** GooseStage and RGooseStage. */
    method HandleGoose(p: Proto)
      requires Valid() && Wired() && (p == Goose || p == RGoose)
      requires Ready(TheApp(), stage[p], p)
      modifies this`stage, this`counters, this`handled, gs
      ensures Valid() && Wired() && stage == old(stage)[p := []]
      ensures handled == old(handled) + old(stage)[p]
      ensures counters == AfterGoose(old(counters), TheApp(), old(stage)[p])
      ensures GooseViews(gs) == FeedGooses(old(GooseViews(gs)), TheApp(), old(stage)[p])
      ensures SvViews(ss) == old(SvViews(ss)) && TheApp() == old(TheApp())
    {
      hide Ready, AfterGoose, FeedGooses, Wired, GooseViews, SvViews, TheApp;
      GooseLoop(stage[p], p);
      handled := handled + stage[p];
      stage := stage[p := []];
    }

    /** The next frame of a stage, after those in `done`. */
    method HandleSvNext(m: Mbuf, ghost done: seq<Mbuf>, ghost c: Counters, ghost vs: seq<SvView>)
      requires Wired() && (StreamOf(m).proto == Sv || StreamOf(m).proto == RSv)
      requires counters == AfterSv(c, TheApp(), done) && SvViews(ss) == FeedSvs(vs, TheApp(), done)
      modifies this`counters, ss
      ensures Wired() && TheApp() == old(TheApp()) && GooseViews(gs) == old(GooseViews(gs))
      ensures counters == AfterSv(c, TheApp(), done + [m]) && SvViews(ss) == FeedSvs(vs, TheApp(), done + [m])
    {
      hide RSession.Lawful, StreamOf, InDomain, SvOutcome, AfterSv, CountSv, FeedSvs, FeedSvEntry, KindOf, Wired, GooseViews, SvViews;
      HandleSvFrame(m);
      SvStep(c, TheApp(), done, m);
      FeedSvsSnoc(vs, TheApp(), done, m);
    }

    /** The loop over the frames of one stage. */
    method SvLoop(ms: seq<Mbuf>, p: Proto)
      requires Wired() && (p == Sv || p == RSv) && Ready(TheApp(), ms, p)
      modifies this`counters, ss
      ensures Wired() && TheApp() == old(TheApp()) && GooseViews(gs) == old(GooseViews(gs))
      ensures counters == AfterSv(old(counters), TheApp(), ms) && SvViews(ss) == FeedSvs(old(SvViews(ss)), TheApp(), ms)
    {
      hide RSession.Lawful, StreamOf, InDomain, SvOutcome, AfterSv, CountSv, FeedSvs, FeedSvEntry, KindOf, Wired, GooseViews, SvViews, TheApp;
      ghost var app := TheApp();
      NoneCounted(counters, app);
      FeedSvsNone(SvViews(ss), app);
      assert ms[..0] == [];
      for i := 0 to |ms|
        invariant Wired() && TheApp() == app && GooseViews(gs) == old(GooseViews(gs))
        invariant counters == AfterSv(old(counters), app, ms[..i]) && SvViews(ss) == FeedSvs(old(SvViews(ss)), app, ms[..i])
      {
        assert ms[..i + 1] == ms[..i] + [ms[i]] && ms[i] in ms;
        HandleSvNext(ms[i], ms[..i], old(counters), old(SvViews(ss)));
      }
      assert ms[..|ms|] == ms;
    }

    /** SampledValuesStage and RSampledValuesStage. */
    method HandleSv(p: Proto)
      requires Valid() && Wired() && (p == Sv || p == RSv)
      requires Ready(TheApp(), stage[p], p)
      modifies this`stage, this`counters, this`handled, ss
      ensures Valid() && Wired() && stage == old(stage)[p := []]
      ensures handled == old(handled) + old(stage)[p]
      ensures counters == AfterSv(old(counters), TheApp(), old(stage)[p])
      ensures SvViews(ss) == FeedSvs(old(SvViews(ss)), TheApp(), old(stage)[p])
      ensures GooseViews(gs) == old(GooseViews(gs)) && TheApp() == old(TheApp())
    {
      hide Ready, AfterSv, FeedSvs, Wired, GooseViews, SvViews, TheApp;
      SvLoop(stage[p], p);
      handled := handled + stage[p];
      stage := stage[p := []];
    }

    /** IPStage: everything else is only counted. */
    method PassToKernel()
      requires Valid()
      modifies this`stage, this`counters, this`handled
      ensures Valid() && stage == old(stage)[NonBus := []]
      ensures handled == old(handled) + old(stage)[NonBus]
      ensures counters == old(counters).(toKernel := old(counters).toKernel + |old(stage)[NonBus]|)
    {
      counters := counters.(toKernel := counters.toKernel + |stage[NonBus]|);
      handled := handled + stage[NonBus];
      stage := stage[NonBus := []];
    }

    /**
     FramePipeline::run on the batch in START.  Each frame is handled once, in arrival order within its
     stage, and moves the counter that its bytes and the stream tables call for; the eight counters
     together rise by the batch size; every source has been fed exactly its own frames, in the order
     they were handled; all stages are empty again; and the START array is untouched (it is not in the
     modifies clause), so freeing its first `num` entries frees exactly what was received.
     */
    method Run()
      requires Valid() && Wired() && Idle()
      requires forall i :: 0 <= i < num ==> InDomain(TheApp(), start[i])
      modifies this, gs, ss
      ensures Valid() && Wired() && Idle() && num == 0
      ensures var batch := old(start[..num]);
              && handled == old(handled) + PipelineOrder(batch)
              && Counted(old(counters), counters, TheApp(), batch)
              && counters.Total() == old(counters).Total() + |batch|
              && GooseViews(gs) == FeedGooses(old(GooseViews(gs)), TheApp(), PipelineOrder(batch))
              && SvViews(ss) == FeedSvs(old(SvViews(ss)), TheApp(), PipelineOrder(batch))
    {
      hide RSession.Lawful, StreamOf, InDomain, AfterGoose, AfterSv, FeedGooses, FeedSvs, Counted, Counters.Total, Wired, Only, PipelineOrder, Ready;
      ghost var batch, app, c, goose, sv := start[..num], TheApp(), counters, GooseViews(gs), SvViews(ss);
      Route();
      StagesReady(app, batch);
      RunStages();
      PipelineStages(batch);
      StagesCounted(c, app, batch);
      StagesFed(goose, sv, app, batch);
    }

    /** A GOOSE stage and the SV stage behind it. */
    method HandlePair(g: Proto, v: Proto)
      requires Valid() && Wired() && (g == Goose || g == RGoose) && (v == Sv || v == RSv)
      requires Ready(TheApp(), stage[g], g) && Ready(TheApp(), stage[v], v)
      modifies this`stage, this`counters, this`handled, gs, ss
      ensures Valid() && Wired() && stage == old(stage)[g := []][v := []] && TheApp() == old(TheApp())
      ensures handled == old(handled) + old(stage)[g] + old(stage)[v]
      ensures counters == AfterSv(AfterGoose(old(counters), TheApp(), old(stage)[g]), TheApp(), old(stage)[v])
      ensures GooseViews(gs) == FeedGooses(old(GooseViews(gs)), TheApp(), old(stage)[g])
      ensures SvViews(ss) == FeedSvs(old(SvViews(ss)), TheApp(), old(stage)[v])
    {
      hide RSession.Lawful, Ready, AfterGoose, AfterSv, FeedGooses, FeedSvs, Wired, GooseViews, SvViews, TheApp;
      HandleGoose(g);
      HandleSv(v);
    }

    /** The four protocol stages. */
    method RunBusStages()
      requires Valid() && Wired()
      requires Ready(TheApp(), stage[Goose], Goose) && Ready(TheApp(), stage[Sv], Sv)
      requires Ready(TheApp(), stage[RGoose], RGoose) && Ready(TheApp(), stage[RSv], RSv)
      modifies this`stage, this`counters, this`handled, gs, ss
      ensures Valid() && Wired() && TheApp() == old(TheApp())
      ensures stage == old(stage)[Goose := []][Sv := []][RGoose := []][RSv := []]
      ensures handled == old(handled) + old(stage)[Goose] + old(stage)[Sv] + old(stage)[RGoose] + old(stage)[RSv]
      ensures counters == AfterSv(AfterGoose(AfterSv(AfterGoose(old(counters), TheApp(), old(stage)[Goose]), TheApp(), old(stage)[Sv]),
                                             TheApp(), old(stage)[RGoose]), TheApp(), old(stage)[RSv])
      ensures GooseViews(gs) ==
              FeedGooses(FeedGooses(old(GooseViews(gs)), TheApp(), old(stage)[Goose]), TheApp(), old(stage)[RGoose])
      ensures SvViews(ss) == FeedSvs(FeedSvs(old(SvViews(ss)), TheApp(), old(stage)[Sv]), TheApp(), old(stage)[RSv])
    {
      hide RSession.Lawful, Ready, AfterGoose, AfterSv, FeedGooses, FeedSvs, Wired, GooseViews, SvViews, TheApp;
      ghost var was := stage;
      HandlePair(Goose, Sv);
      assert stage[RGoose] == was[RGoose] && stage[RSv] == was[RSv];
      HandlePair(RGoose, RSv);
    }

    /** The five stages behind the router. */
    method RunStages()
      requires Valid() && Wired()
      requires Ready(TheApp(), stage[Goose], Goose) && Ready(TheApp(), stage[Sv], Sv)
      requires Ready(TheApp(), stage[RGoose], RGoose) && Ready(TheApp(), stage[RSv], RSv)
      modifies this`stage, this`counters, this`handled, gs, ss
      ensures Valid() && Wired() && Idle() && TheApp() == old(TheApp())
      ensures handled == old(handled) + (old(stage)[Goose] + old(stage)[Sv] + old(stage)[RGoose] + old(stage)[RSv]
                                         + old(stage)[NonBus])
      ensures var bus := AfterSv(AfterGoose(AfterSv(AfterGoose(old(counters), TheApp(), old(stage)[Goose]), TheApp(), old(stage)[Sv]),
                                            TheApp(), old(stage)[RGoose]), TheApp(), old(stage)[RSv]);
              counters == bus.(toKernel := bus.toKernel + |old(stage)[NonBus]|)
      ensures GooseViews(gs) ==
              FeedGooses(FeedGooses(old(GooseViews(gs)), TheApp(), old(stage)[Goose]), TheApp(), old(stage)[RGoose])
      ensures SvViews(ss) == FeedSvs(FeedSvs(old(SvViews(ss)), TheApp(), old(stage)[Sv]), TheApp(), old(stage)[RSv])
    {
      hide RSession.Lawful, Ready, AfterGoose, AfterSv, FeedGooses, FeedSvs, Wired, GooseViews, SvViews, TheApp;
      ghost var was := stage;
      RunBusStages();
      assert stage[NonBus] == was[NonBus];
      PassToKernel();
      AllEmptied(was);
    }
  }

  lemma AllEmptied(stage: map<Proto, seq<Mbuf>>)
    ensures var r := stage[Goose := []][Sv := []][RGoose := []][RSv := []][NonBus := []];
            forall p: Proto :: p in r && r[p] == []
  {
    var r := stage[Goose := []][Sv := []][RGoose := []][RSv := []][NonBus := []];
    forall p: Proto ensures p in r && r[p] == [] {
      match p
      case NonBus => case Sv => case Goose => case RGoose => case RSv =>
    }
  }

  // ---------------------------------------------------------------- stage by stage, and over the whole batch

  /** Frames of one stage, all within its parser's domain. */
  ghost predicate Ready(app: App, ms: seq<Mbuf>, p: Proto)
  {
    forall m :: m in ms ==> StreamOf(m).proto == p && InDomain(app, m)
  }

  lemma StagesReady(app: App, batch: seq<Mbuf>)
    requires forall m :: m in batch ==> InDomain(app, m)
    ensures forall p: Proto :: Ready(app, Only(batch, OfProto(p)), p)
  {
    hide StreamOf, InDomain;
    InStages(batch);
  }

  lemma InStages(batch: seq<Mbuf>)
    ensures forall p: Proto, m :: m in Only(batch, OfProto(p)) ==> m in batch && StreamOf(m).proto == p
  {
    hide StreamOf;
    forall p: Proto ensures forall m :: m in Only(batch, OfProto(p)) ==> m in batch && StreamOf(m).proto == p {
      OnlyMembers(batch, OfProto(p));
    }
  }

  /** Which counter each frame of a batch moves. */
  ghost predicate Counted(c: Counters, r: Counters, app: App, batch: seq<Mbuf>)
  {
    && r.rxGoose == c.rxGoose + Tally(batch, GooseOf(app, Match))
    && r.unknownGoose == c.unknownGoose + Tally(batch, GooseOf(app, Stranger))
    && r.errGoose == c.errGoose + Tally(batch, GooseOf(app, Fault))
    && r.rxSv == c.rxSv + Tally(batch, SvOf(app, Match))
    && r.unknownSv == c.unknownSv + Tally(batch, SvOf(app, Stranger))
    && r.errSv == c.errSv + Tally(batch, SvOf(app, Fault))
    && r.errAuth == c.errAuth + Tally(batch, GooseOf(app, Forgery)) + Tally(batch, SvOf(app, Forgery))
    && r.toKernel == c.toKernel + Tally(batch, OfProto(NonBus))
  }

  /** Frames of two protocols, counted in their two stages or in the batch. */
  lemma {:induction false} TallyStages(batch: seq<Mbuf>, p: Proto, q: Proto, f: Mbuf -> bool)
    requires p != q && forall m :: f(m) ==> StreamOf(m).proto == p || StreamOf(m).proto == q
    ensures Tally(Only(batch, OfProto(p)), f) + Tally(Only(batch, OfProto(q)), f) == Tally(batch, f)
  {
    hide StreamOf;
    if batch != [] {
      var init, m := batch[..|batch| - 1], batch[|batch| - 1];
      assert batch == init + [m];
      TallyStages(init, p, q, f);
      OnlySnoc(init, m, OfProto(p));
      OnlySnoc(init, m, OfProto(q));
      TallySnoc(init, m, f);
      TallySnoc(Only(init, OfProto(p)), m, f);
      TallySnoc(Only(init, OfProto(q)), m, f);
      assert Only(init, OfProto(p)) + [] == Only(init, OfProto(p)) && Only(init, OfProto(q)) + [] == Only(init, OfProto(q));
    }
  }

  lemma OwnStages(app: App, k: Kind)
    requires k != Other
    ensures forall m :: GooseOf(app, k)(m) ==> StreamOf(m).proto == Goose || StreamOf(m).proto == RGoose
    ensures forall m :: SvOf(app, k)(m) ==> StreamOf(m).proto == Sv || StreamOf(m).proto == RSv
  {
    hide StreamOf, ReadGoose, ReadRGoose, ReadSv, ReadRSv;
  }

  lemma KindTotals(app: App, batch: seq<Mbuf>, k: Kind)
    requires k != Other
    ensures Tally(Only(batch, OfProto(Goose)), GooseOf(app, k)) + Tally(Only(batch, OfProto(RGoose)), GooseOf(app, k))
            == Tally(batch, GooseOf(app, k))
    ensures Tally(Only(batch, OfProto(Sv)), SvOf(app, k)) + Tally(Only(batch, OfProto(RSv)), SvOf(app, k))
            == Tally(batch, SvOf(app, k))
  {
    hide StreamOf, GooseOf, SvOf;
    OwnStages(app, k);
    TallyStages(batch, Goose, RGoose, GooseOf(app, k));
    TallyStages(batch, Sv, RSv, SvOf(app, k));
  }

  /** In its domain a frame is of exactly one kind, in exactly one stage. */
  lemma OneKind(app: App, m: Mbuf)
    requires InDomain(app, m)
    ensures var g, v := KindOf(GooseOutcome(app, m)), KindOf(SvOutcome(app, m));
            match StreamOf(m).proto
            case NonBus => g == Other && v == Other
            case Goose => g != Other && v == Other
            case RGoose => g != Other && v == Other
            case _ => g == Other && v != Other
  {
    hide StreamOf, Judge;
    DomainDefined(app, m);
  }

  lemma DomainDefined(app: App, m: Mbuf)
    requires InDomain(app, m)
    ensures StreamOf(m).proto == Goose ==> !ReadGoose(m.packet).Undefined?
    ensures StreamOf(m).proto == RGoose ==> !ReadRGoose(m.packet, app.mode, app.crypto).Undefined?
    ensures !ReadSv(m.packet).Undefined? && !ReadRSv(m.packet, app.mode, app.crypto).Undefined?
  {
    hide StreamOf;
  }

  /** Kinds and stages partition the batch. */
  lemma {:induction false} TallyAll(app: App, batch: seq<Mbuf>)
    requires forall m :: m in batch ==> InDomain(app, m)
    ensures Tally(batch, GooseOf(app, Match)) + Tally(batch, GooseOf(app, Stranger)) + Tally(batch, GooseOf(app, Fault))
            + Tally(batch, GooseOf(app, Forgery)) + Tally(batch, SvOf(app, Match)) + Tally(batch, SvOf(app, Stranger))
            + Tally(batch, SvOf(app, Fault)) + Tally(batch, SvOf(app, Forgery)) + Tally(batch, OfProto(NonBus)) == |batch|
  {
    hide StreamOf, InDomain, GooseOutcome, SvOutcome, KindOf, Tally;
    if batch != [] {
      var init, m := batch[..|batch| - 1], batch[|batch| - 1];
      assert batch == init + [m] && m in batch && forall x :: x in init ==> x in batch;
      TallyAll(app, init);
      OneKind(app, m);
      TallySnoc(init, m, GooseOf(app, Match));
      TallySnoc(init, m, GooseOf(app, Stranger));
      TallySnoc(init, m, GooseOf(app, Fault));
      TallySnoc(init, m, GooseOf(app, Forgery));
      TallySnoc(init, m, SvOf(app, Match));
      TallySnoc(init, m, SvOf(app, Stranger));
      TallySnoc(init, m, SvOf(app, Fault));
      TallySnoc(init, m, SvOf(app, Forgery));
      TallySnoc(init, m, OfProto(NonBus));
    } else {
      NothingTallied();
    }
  }

  lemma NothingTallied()
    ensures forall f :: Tally([], f) == 0
  {
  }

  /** The counters after all stages, one by one and in total. */
  lemma StagesCounted(c: Counters, app: App, batch: seq<Mbuf>)
    ensures var bus := AfterSv(AfterGoose(AfterSv(AfterGoose(c, app, Only(batch, OfProto(Goose))), app, Only(batch, OfProto(Sv))),
                                          app, Only(batch, OfProto(RGoose))), app, Only(batch, OfProto(RSv)));
            var r := bus.(toKernel := bus.toKernel + |Only(batch, OfProto(NonBus))|);
            && Counted(c, r, app, batch)
            && ((forall m :: m in batch ==> InDomain(app, m)) ==> r.Total() == c.Total() + |batch|)
  {
    hide Only, StreamOf, GooseOf, SvOf, OfProto, InDomain;
    KindTotals(app, batch, Match);
    KindTotals(app, batch, Stranger);
    KindTotals(app, batch, Fault);
    KindTotals(app, batch, Forgery);
    if forall m :: m in batch ==> InDomain(app, m) {
      TallyAll(app, batch);
    }
  }

  lemma {:induction false} FeedGoosesConcat(vs: seq<GooseView>, app: App, a: seq<Mbuf>, b: seq<Mbuf>)
    ensures FeedGooses(vs, app, a + b) == FeedGooses(FeedGooses(vs, app, a), app, b)
  {
    hide FeedGooses, GooseOutcome;
    if b == [] {
      assert a + b == a;
      FeedGoosesNone(FeedGooses(vs, app, a), app);
    } else {
      var init, m := b[..|b| - 1], b[|b| - 1];
      assert a + b == (a + init) + [m] && b == init + [m];
      FeedGoosesConcat(vs, app, a, init);
      FeedGoosesSnoc(vs, app, a + init, m);
      FeedGoosesSnoc(FeedGooses(vs, app, a), app, init, m);
    }
  }

  /** Frames of other protocols feed no source of this table. */
  lemma {:induction false} FeedGoosesForeign(vs: seq<GooseView>, app: App, ms: seq<Mbuf>)
    requires forall m :: m in ms ==> StreamOf(m).proto != Goose && StreamOf(m).proto != RGoose
    ensures FeedGooses(vs, app, ms) == vs
  {
    hide FeedGooses, StreamOf;
    if ms == [] {
      FeedGoosesNone(vs, app);
    } else {
      var init, m := ms[..|ms| - 1], ms[|ms| - 1];
      assert ms == init + [m] && m in ms && forall x :: x in init ==> x in ms;
      FeedGoosesForeign(vs, app, init);
      FeedGoosesSnoc(vs, app, init, m);
    }
  }

  lemma {:induction false} FeedSvsConcat(vs: seq<SvView>, app: App, a: seq<Mbuf>, b: seq<Mbuf>)
    ensures FeedSvs(vs, app, a + b) == FeedSvs(FeedSvs(vs, app, a), app, b)
  {
    hide FeedSvs, SvOutcome;
    if b == [] {
      assert a + b == a;
      FeedSvsNone(FeedSvs(vs, app, a), app);
    } else {
      var init, m := b[..|b| - 1], b[|b| - 1];
      assert a + b == (a + init) + [m] && b == init + [m];
      FeedSvsConcat(vs, app, a, init);
      FeedSvsSnoc(vs, app, a + init, m);
      FeedSvsSnoc(FeedSvs(vs, app, a), app, init, m);
    }
  }

  /** Frames of other protocols feed no source of this table. */
  lemma {:induction false} FeedSvsForeign(vs: seq<SvView>, app: App, ms: seq<Mbuf>)
    requires forall m :: m in ms ==> StreamOf(m).proto != Sv && StreamOf(m).proto != RSv
    ensures FeedSvs(vs, app, ms) == vs
  {
    hide FeedSvs, StreamOf;
    if ms == [] {
      FeedSvsNone(vs, app);
    } else {
      var init, m := ms[..|ms| - 1], ms[|ms| - 1];
      assert ms == init + [m] && m in ms && forall x :: x in init ==> x in ms;
      FeedSvsForeign(vs, app, init);
      FeedSvsSnoc(vs, app, init, m);
    }
  }

  /** The sources after all stages: fed in pipeline order. */
  lemma StagesFed(gs: seq<GooseView>, vs: seq<SvView>, app: App, batch: seq<Mbuf>)
    ensures FeedGooses(FeedGooses(gs, app, Only(batch, OfProto(Goose))), app, Only(batch, OfProto(RGoose))) ==
            FeedGooses(gs, app, PipelineOrder(batch))
    ensures FeedSvs(FeedSvs(vs, app, Only(batch, OfProto(Sv))), app, Only(batch, OfProto(RSv))) ==
            FeedSvs(vs, app, PipelineOrder(batch))
  {
    hide FeedGooses, FeedSvs, StreamOf, Only, OfProto, PipelineOrder;
    PipelineStages(batch);
    InStages(batch);
    var a, b, c, d, e := Only(batch, OfProto(Goose)), Only(batch, OfProto(Sv)), Only(batch, OfProto(RGoose)),
                         Only(batch, OfProto(RSv)), Only(batch, OfProto(NonBus));
    FeedGoosesConcat(gs, app, a + b + c + d, e);
    FeedGoosesConcat(gs, app, a + b + c, d);
    FeedGoosesConcat(gs, app, a + b, c);
    FeedGoosesConcat(gs, app, a, b);
    var fed := FeedGooses(gs, app, a);
    FeedGoosesForeign(fed, app, b);
    FeedGoosesForeign(FeedGooses(fed, app, c), app, d);
    FeedGoosesForeign(FeedGooses(fed, app, c), app, e);
    FeedSvsConcat(vs, app, a + b + c + d, e);
    FeedSvsConcat(vs, app, a + b + c, d);
    FeedSvsConcat(vs, app, a + b, c);
    FeedSvsConcat(vs, app, a, b);
    FeedSvsForeign(vs, app, a);
    var sampled := FeedSvs(vs, app, b);
    FeedSvsForeign(sampled, app, c);
    FeedSvsForeign(FeedSvs(sampled, app, d), app, e);
  }
}
