/**
 The headline verdict: the gap counts over both stream tables, after any interleaving of dispatcher,
 workers and pipelines, with any mix of transports and profiles in the tables.
 */
module TableVerdict {
  import opened Bytes
  import opened Frames
  import opened Judging
  import opened RxDispatch
  import opened Gaps
  import opened EndToEnd
  import Pipeline

  /** One table entry: the stream its frames come by, its transport, and the number that an arrival carries. */
  datatype Line = Line(home: Stream, routable: bool, number: nat -> nat)

  /** An SV entry also has its profile. */
  datatype SvLine = SvLine(profile: SvProfile, home: Stream, routable: bool, number: nat -> nat)

  /** Frames of the entry arrive at home, in order, and with the numbers its sender writes. */
  ghost predicate GooseLine(app: App, arrived: seq<Mbuf>, e: nat, l: Line)
  {
    && AtHome(arrived, GooseKnown(app, e), l.home)
    && NetworkKeepsOrder(arrived, GooseKnown(app, e), l.number)
    && GooseNumbered(app, arrived, e, l.number, l.routable)
  }

  ghost predicate IsSvLine(app: App, arrived: seq<Mbuf>, e: nat, l: SvLine)
  {
    && IsProfile(l.profile)
    && AtHome(arrived, SvKnown(app, e), l.home)
    && NetworkKeepsOrder(arrived, SvKnown(app, e), l.number)
    && SvNumbered(l.profile, app, arrived, e, l.number, l.routable)
  }

  ghost predicate GooseLines(app: App, arrived: seq<Mbuf>, lines: seq<Line>)
  {
    |lines| == |app.gooses| && forall e :: 0 <= e < |lines| ==> GooseLine(app, arrived, e, lines[e])
  }

  ghost predicate SvLines(app: App, arrived: seq<Mbuf>, lines: seq<SvLine>)
  {
    |lines| == |app.svs| && forall e :: 0 <= e < |lines| ==> IsSvLine(app, arrived, e, lines[e])
  }

  /** What was delivered to each entry. */
  ghost function GooseRuns(app: App, handled: seq<Mbuf>, lines: seq<Line>): (r: seq<GooseStream>)
    ensures |r| == |lines|
    ensures forall e :: 0 <= e < |lines| ==>
              r[e] == GooseStream(lines[e].routable, Numbers(Only(handled, GooseKnown(app, e)), lines[e].number))
  {
    seq(|lines|, e requires 0 <= e < |lines| =>
      GooseStream(lines[e].routable, Numbers(Only(handled, GooseKnown(app, e)), lines[e].number)))
  }

  ghost function SvRuns(app: App, handled: seq<Mbuf>, lines: seq<SvLine>): (r: seq<SvStream>)
    ensures |r| == |lines|
    ensures forall e :: 0 <= e < |lines| ==>
              r[e] == SvStream(lines[e].profile, lines[e].routable, Numbers(Only(handled, SvKnown(app, e)), lines[e].number))
  {
    seq(|lines|, e requires 0 <= e < |lines| =>
      SvStream(lines[e].profile, lines[e].routable, Numbers(Only(handled, SvKnown(app, e)), lines[e].number)))
  }

  /** The sources of all entries after all that was handled: fresh sources fed as the pipelines feed them. */
  function AllGoose(app: App, handled: seq<Mbuf>): (vs: seq<GooseView>)
    ensures |vs| == |app.gooses| && forall e :: 0 <= e < |vs| ==> vs[e] == GooseAfter(app, handled, e)
  {
    seq(|app.gooses|, e requires 0 <= e < |app.gooses| => GooseAfter(app, handled, e))
  }

  function AllSv(app: App, handled: seq<Mbuf>): (vs: seq<SvView>)
    ensures |vs| == |app.svs| && forall e :: 0 <= e < |vs| ==> vs[e] == SvAfter(app, handled, e)
  {
    seq(|app.svs|, e requires 0 <= e < |app.svs| => SvAfter(app, handled, e))
  }

  lemma AllAreFed(app: App, handled: seq<Mbuf>)
    ensures AllGoose(app, handled) == Pipeline.FeedGooses(seq(|app.gooses|, _ => FRESH_GOOSE), app, handled)
    ensures AllSv(app, handled) == Pipeline.FeedSvs(seq(|app.svs|, _ => FRESH_SV), app, handled)
  {
    hide GooseUpdates, SvUpdates, FeedGooseAll, FeedSvAll;
  }

  /** Entry by entry: the report is that of what was delivered. */
  lemma GooseEntry(app: App, s: State, e: nat, l: Line)
    requires Reachable(s) && GooseLine(app, s.arrived, e, l)
    ensures var run := Numbers(Only(s.handled, GooseKnown(app, e)), l.number);
            InOrder(run) && (Countable(run) ==> GooseGap(GooseAfter(app, s.handled, e)) == GooseReport(run, l.routable))
  {
    hide Run, AtHome, NetworkKeepsOrder, GooseNumbered, GooseKnown, Only, InOrder, Countable, GooseAfter, GooseReport,
         VisibleRuns, SpduVisibleRuns;
    var workers: nat, capacity: nat, steps :| workers > 0 && Run(Init(workers, capacity), steps) == Some(s);
    EveryLossIsCounted(app, workers, capacity, steps, e, l.home, l.number, l.routable);
  }

  lemma SvEntry(app: App, s: State, e: nat, l: SvLine)
    requires Reachable(s) && IsSvLine(app, s.arrived, e, l)
    ensures var run := Numbers(Only(s.handled, SvKnown(app, e)), l.number);
            InOrder(run) && (Countable(run) ==> SvGap(SvAfter(app, s.handled, e)) == SvReport(l.profile, run, l.routable))
  {
    hide Run, AtHome, NetworkKeepsOrder, SvNumbered, SvKnown, Only, InOrder, Countable, SvAfter, SvReport, SvVisibleRuns,
         SpduVisibleRuns, IsProfile;
    var workers: nat, capacity: nat, steps :| workers > 0 && Run(Init(workers, capacity), steps) == Some(s);
    EverySvLossIsCounted(l.profile, app, workers, capacity, steps, e, l.home, l.number, l.routable);
  }

  /** In every reachable state the gaps of a whole GOOSE table are what its streams report. */
  lemma GooseTableReports(app: App, s: State, lines: seq<Line>)
    requires Reachable(s) && GooseLines(app, s.arrived, lines) && CountableGoose(GooseRuns(app, s.handled, lines))
    ensures GooseGaps(AllGoose(app, s.handled)) == GooseReports(GooseRuns(app, s.handled, lines))
  {
    hide Reachable, GooseLine, GooseKnown, Only, InOrder, Countable, GooseAfter, GooseReport, GooseGap, AllGoose, GooseRuns;
    var runs, vs := GooseRuns(app, s.handled, lines), AllGoose(app, s.handled);
    forall e | 0 <= e < |lines| ensures GooseGap(vs[e]) == GooseReport(runs[e].run, runs[e].routable) {
      GooseEntry(app, s, e, lines[e]);
      assert Countable(runs[e].run);
    }
  }

  lemma SvTableReports(app: App, s: State, lines: seq<SvLine>)
    requires Reachable(s) && SvLines(app, s.arrived, lines) && CountableSv(SvRuns(app, s.handled, lines))
    ensures SvGaps(AllSv(app, s.handled)) == SvReports(SvRuns(app, s.handled, lines))
  {
    hide Reachable, IsSvLine, SvKnown, Only, InOrder, Countable, SvAfter, SvReport, SvGap, AllSv, SvRuns, IsProfile;
    var runs, vs := SvRuns(app, s.handled, lines), AllSv(app, s.handled);
    forall e | 0 <= e < |lines|
      ensures SvGap(vs[e]) == SvReport(runs[e].profile, runs[e].run, runs[e].routable)
    {
      assert IsSvLine(app, s.arrived, e, lines[e]);
      assert IsProfile(runs[e].profile) && Countable(runs[e].run);
      SvEntry(app, s, e, lines[e]);
    }
  }

  /**
   The verdict over whole tables.  In every reachable state, with any mix of L2 and routable entries and of SV
   profiles, losses of any length on the network and drops on the rings: the gap counts that CountGaps takes
   from the sources are the verdicts on what was delivered to the entries.
   */
  method CountTables(gooseMap: seq<GooseSource>, svMap: seq<SvSource>, ghost app: App, ghost s: State,
                     ghost lines: seq<Line>, ghost svLines: seq<SvLine>) returns (goose: u64, sv: u64)
    requires Reachable(s) && GooseLines(app, s.arrived, lines) && SvLines(app, s.arrived, svLines)
    requires CountableGoose(GooseRuns(app, s.handled, lines)) && CountableSv(SvRuns(app, s.handled, svLines))
    requires GooseViews(gooseMap) == AllGoose(app, s.handled) && SvViews(svMap) == AllSv(app, s.handled)
    requires |gooseMap| <= U16 && |svMap| <= U16
    ensures GooseVerdict(GooseRuns(app, s.handled, lines), goose)
    ensures SvVerdict(SvRuns(app, s.handled, svLines), sv)
  {
    hide Sum, Reachable, GooseLine, IsSvLine, GooseViews, SvViews, GooseRuns, SvRuns, AllGoose, AllSv, GooseVerdict, SvVerdict,
         CountableGoose, CountableSv;
    goose, sv := CountGaps(gooseMap, svMap);
    GooseTableReports(app, s, lines);
    SvTableReports(app, s, svLines);
    GooseTotalMeans(GooseRuns(app, s.handled, lines));
    SvTotalMeans(SvRuns(app, s.handled, svLines));
  }
}
