/** The routable GOOSE and SV generators: per-stream state, field stores, and frames over whole send histories. */
module RGenerators {
  import opened Bytes
  import opened RFrame
  import opened RSession
  import opened Writes
  import opened Amend

  // ---------------------------------------------------------------- R-GOOSE

  datatype GooseIed = GooseIed(sId: bytes, stNum: u32, sqNum: u32, timestamp: u64, spduNumber: u32)

  /** Offsets of the amended fields in the APDU. */
  datatype GooseOffsets = GooseOffsets(goid: nat, gocb: nat, ds: nat, ts: nat, st: nat, sq: nat, d1: nat)

  /** The timestamp is stored in host order. */
  function Le64(v: u64): (s: bytes)
    ensures |s| == 8
  {
    seq(8, i requires 0 <= i < 8 => v / Pow256(i) % 0x100)
  }

  function GooseWrites(o: GooseOffsets, ied: GooseIed): (ws: seq<Write>)
  {
    [Store(o.goid + 4, ied.sId), Store(o.gocb + 3, ied.sId), Store(o.ds + 3, ied.sId),
     Store(o.ts, Le64(ied.timestamp)), Store(o.st, Be32(ied.stNum)), Store(o.sq, Be32(ied.sqNum)),
     Store(o.d1, [if ied.stNum % 2 == 0 then 1 else 0])]
  }

  /** State change of one amendment; every counter wraps at its width. */
  function GooseStep(ied: GooseIed, delta: u32): (r: GooseIed)
  {
    ied.(spduNumber := (ied.spduNumber + 1) % U32, timestamp := (ied.timestamp + delta) % U64,
         stNum := (ied.stNum + 1) % U32)
  }

  function GooseSteps(ied: GooseIed, delta: u32, n: nat): (r: GooseIed)
  {
    if n == 0 then ied else GooseStep(GooseSteps(ied, delta, n - 1), delta)
  }

  /** The n-th frame of a stream that started from zero carries n in both counters, modulo 2^32. */
  lemma {:induction false} GooseCounters(ied: GooseIed, delta: u32, n: nat)
    ensures GooseSteps(ied, delta, n).stNum == (ied.stNum + n) % U32
    ensures GooseSteps(ied, delta, n).spduNumber == (ied.spduNumber + n) % U32
    ensures GooseSteps(ied, delta, n).sId == ied.sId && GooseSteps(ied, delta, n).sqNum == ied.sqNum
  {
    if n > 0 {
      GooseCounters(ied, delta, n - 1);
      Wrap32(ied.stNum + n - 1);
      Wrap32(ied.spduNumber + n - 1);
    }
  }

  /** One earlier amendment: which worker's generator, on which buffer of the pool, for which of its streams. */
  datatype Amendment = Amendment(gen: nat, buffer: nat, stream: nat)

  /** How often generator `g` amended its stream `idx`. */
  function Count(history: seq<Amendment>, g: nat, idx: nat): (n: nat)
  {
    if history == [] then 0
    else
      var last := history[|history| - 1];
      Count(history[..|history| - 1], g, idx) + if last.gen == g && last.stream == idx then 1 else 0
  }

  lemma CountStep(history: seq<Amendment>, k: nat, g: nat, idx: nat)
    requires k < |history|
    ensures Count(history[..k + 1], g, idx) ==
            Count(history[..k], g, idx) + if history[k].gen == g && history[k].stream == idx then 1 else 0
  {
    assert history[..k + 1][..k] == history[..k];
  }

  class RGooseGen {
    const layout: Layout
    const offsets: GooseOffsets
    const crypto: Crypto
    const tsDelta: u32
    const table: seq<DstFields>
    const plain: array<byte>
    var ieds: seq<GooseIed>

    /** Places that an amendment writes; only the sizes of the data matter. */
    ghost function Shape(): seq<Write>
    {
      GooseWrites(offsets, GooseIed(Zeros(8), 0, 0, 0, 0))
    }

    ghost predicate Valid()
      reads this, plain
    {
      && Fits(layout) && Lawful(crypto) && IsDstTable(layout, table)
      && InRange(Shape(), |layout.apdu|)
      && IsMaster(layout, Shape(), plain[..])
      && forall i :: 0 <= i < |ieds| ==> |ieds[i].sId| == 8
    }

    constructor (layout: Layout, offsets: GooseOffsets, crypto: Crypto, tsDelta: u32, ieds: seq<GooseIed>)
      requires Fits(layout) && Lawful(crypto)
      requires InRange(GooseWrites(offsets, GooseIed(Zeros(8), 0, 0, 0, 0)), |layout.apdu|)
      requires forall i :: 0 <= i < |ieds| ==> |ieds[i].sId| == 8
      ensures Valid() && fresh(plain)
      ensures this.layout == layout && this.offsets == offsets && this.crypto == crypto && this.tsDelta == tsDelta
      ensures this.ieds == ieds
    {
      var skeleton := MakeSkeleton(layout);
      var table := MakeDstTable(layout, skeleton[..]);
      var body := Elem(Base(layout)) + layout.apdu;
      var master := new byte[|body|](i requires 0 <= i < |body| => body[i]);
      this.layout, this.offsets, this.crypto, this.tsDelta := layout, offsets, crypto, tsDelta;
      this.table := table;
      this.plain := master;
      this.ieds := ieds;
      new;
      assert plain[..] == body;
      FreshIsRecycled(layout, Shape());
    }

    /**
     AmendPacket: steps the stream's state and fills the buffer with that stream's next frame, the
     same frame for every recycled buffer.
     */
    method AmendPacket(packet: array<byte>, idx: nat)
      requires Valid() && idx < |ieds| && packet != plain
      requires Recycled(layout, Shape(), packet[..])
      modifies this, plain, packet
      ensures Valid() && Recycled(layout, Shape(), packet[..])
      ensures ieds == old(ieds)[idx := GooseStep(old(ieds)[idx], tsDelta)]
      ensures InRange(GooseWrites(offsets, ieds[idx]), |layout.apdu|)
      ensures packet[..] == FreshFrame(layout, crypto, idx + layout.baseIdx, ieds[idx].spduNumber,
                                       GooseWrites(offsets, ieds[idx]))
    {
      hide Fits, Lawful, IsDstTable, IsMaster, Recycled, FreshFrame, Le64, Be32, Zeros;
      var ied := GooseStep(ieds[idx], tsDelta);
      var ws := GooseWrites(offsets, ied);
      assert SameShape(ws, Shape());
      assert InRange(ws, |layout.apdu|);
      ieds := ieds[idx := ied];
      AmendFrame(layout, crypto, table, packet, plain, idx + layout.baseIdx, ied.spduNumber, ws, Shape());
    }
  }

  /** The generators of one run: distinct objects with their own plaintext masters, alike but for the slice of streams. */
  ghost predicate GooseFleet(gens: seq<RGooseGen>)
    reads gens, set x | x in gens :: x.plain
  {
    && (forall i :: 0 <= i < |gens| ==> gens[i].Valid())
    && (forall i, j :: 0 <= i < j < |gens| ==> gens[i] != gens[j] && gens[i].plain != gens[j].plain)
    && (forall i, j :: 0 <= i < |gens| && 0 <= j < |gens| ==>
          SameButSlice(gens[i].layout, gens[j].layout) && gens[i].offsets == gens[j].offsets)
  }

  /** The shared pool: distinct buffers, none of them a plaintext master, each good for any of the generators. */
  ghost predicate GoosePool(gens: seq<RGooseGen>, packets: seq<array<byte>>)
    requires gens != [] && |gens[0].layout.cfg.srcMac| == 6
    reads packets
  {
    && (forall i, g :: 0 <= i < |packets| && 0 <= g < |gens| ==> packets[i] != gens[g].plain)
    && (forall i, j :: 0 <= i < j < |packets| ==> packets[i] != packets[j])
    && (forall i :: 0 <= i < |packets| ==> Recycled(gens[0].layout, gens[0].Shape(), packets[i][..]))
  }

  /** One amendment by one of the generators keeps the pool good for all of them. */
  method AmendPooled(gens: seq<RGooseGen>, packets: seq<array<byte>>, g: nat, b: nat, idx: nat)
    requires GooseFleet(gens) && g < |gens| && b < |packets| && idx < |gens[g].ieds|
    requires |gens[0].layout.cfg.srcMac| == 6 && GoosePool(gens, packets)
    modifies gens, (set x | x in gens :: x.plain), packets
    ensures GooseFleet(gens) && GoosePool(gens, packets)
    ensures gens[g].ieds == old(gens[g].ieds)[idx := GooseStep(old(gens[g].ieds)[idx], gens[g].tsDelta)]
    ensures forall i :: 0 <= i < |gens| && i != g ==> gens[i].ieds == old(gens[i].ieds)
    ensures InRange(GooseWrites(gens[g].offsets, gens[g].ieds[idx]), |gens[g].layout.apdu|)
    ensures packets[b][..] == FreshFrame(gens[g].layout, gens[g].crypto, idx + gens[g].layout.baseIdx,
                                         gens[g].ieds[idx].spduNumber, GooseWrites(gens[g].offsets, gens[g].ieds[idx]))
  {
    hide Recycled, Fits, Lawful, IsDstTable, IsMaster, FreshFrame, GooseWrites, InRange, GooseStep;
    RecycledByAll(gens[0].layout, gens[g].layout, gens[0].Shape(), packets[b][..]);
    assert gens[0].Shape() == gens[g].Shape();
    gens[g].AmendPacket(packets[b], idx);
    RecycledByAll(gens[0].layout, gens[g].layout, gens[0].Shape(), packets[b][..]);
  }

  /**
   Buffer-history independence.  One pool filled with one generator's skeleton, any number of workers
   each with its own generator, and any sequence of earlier amendments by any of them on any buffers:
   the next frame of stream `idx` of generator `g` on buffer `b` is the frame built from scratch for
   that stream's state, which itself depends only on how often that stream was amended before.
   */
  method AmendAfterHistory(gens: seq<RGooseGen>, packets: seq<array<byte>>, history: seq<Amendment>,
                           g: nat, b: nat, idx: nat)
    requires GooseFleet(gens) && g < |gens| && b < |packets| && idx < |gens[g].ieds|
    requires forall i, x :: 0 <= i < |packets| && 0 <= x < |gens| ==> packets[i] != gens[x].plain
    requires forall i, j :: 0 <= i < j < |packets| ==> packets[i] != packets[j]
    requires |gens[0].layout.cfg.srcMac| == 6
    requires forall i :: 0 <= i < |packets| ==> packets[i][..] == Skeleton(gens[0].layout)
    requires forall k :: 0 <= k < |history| ==>
               history[k].gen < |gens| && history[k].buffer < |packets| && history[k].stream < |gens[history[k].gen].ieds|
    modifies gens, (set x | x in gens :: x.plain), packets
    ensures GooseFleet(gens) && |gens[g].ieds| == |old(gens[g].ieds)|
    ensures gens[g].ieds[idx] == GooseSteps(old(gens[g].ieds)[idx], gens[g].tsDelta, Count(history, g, idx) + 1)
    ensures InRange(GooseWrites(gens[g].offsets, gens[g].ieds[idx]), |gens[g].layout.apdu|)
    ensures packets[b][..] == FreshFrame(gens[g].layout, gens[g].crypto, idx + gens[g].layout.baseIdx,
                                         gens[g].ieds[idx].spduNumber, GooseWrites(gens[g].offsets, gens[g].ieds[idx]))
  {
    hide GooseFleet, FreshFrame, GooseWrites, InRange, GooseStep, GoosePool, Stepped;
    FreshPool(gens, packets);
    Replay(gens, packets, history);
    SteppedAt(old(States(gens)), States(gens), history, Deltas(gens), g, idx);
    AmendPooled(gens, packets, g, b, idx);
  }

  lemma FreshPool(gens: seq<RGooseGen>, packets: seq<array<byte>>)
    requires GooseFleet(gens) && gens != [] && |gens[0].layout.cfg.srcMac| == 6
    requires forall i, x :: 0 <= i < |packets| && 0 <= x < |gens| ==> packets[i] != gens[x].plain
    requires forall i, j :: 0 <= i < j < |packets| ==> packets[i] != packets[j]
    requires forall i :: 0 <= i < |packets| ==> packets[i][..] == Skeleton(gens[0].layout)
    ensures GoosePool(gens, packets)
  {
    hide Recycled, Fits;
    assert gens[0].Valid();
    FreshIsRecycled(gens[0].layout, gens[0].Shape());
  }

  /** The earlier amendments, one after another. */
  method Replay(gens: seq<RGooseGen>, packets: seq<array<byte>>, history: seq<Amendment>)
    requires GooseFleet(gens) && gens != [] && |gens[0].layout.cfg.srcMac| == 6 && GoosePool(gens, packets)
    requires forall k :: 0 <= k < |history| ==>
               history[k].gen < |gens| && history[k].buffer < |packets| && history[k].stream < |gens[history[k].gen].ieds|
    modifies gens, (set x | x in gens :: x.plain), packets
    ensures GooseFleet(gens) && GoosePool(gens, packets)
    ensures Stepped(old(States(gens)), States(gens), history, Deltas(gens))
  {
    hide GooseFleet, GoosePool, FreshFrame, GooseWrites, InRange, GooseStep, Stepped;
    ghost var start := States(gens);
    NothingStepped(start, Deltas(gens));
    assert history[..0] == [];
    for k := 0 to |history|
      invariant GooseFleet(gens) && GoosePool(gens, packets)
      invariant Stepped(start, States(gens), history[..k], Deltas(gens))
    {
      ghost var was := States(gens);
      var last := history[k];
      SteppedSizes(start, was, history[..k], Deltas(gens));
      assert start[last.gen] == old(gens[last.gen].ieds);
      assert last.stream < |gens[last.gen].ieds|;
      AmendPooled(gens, packets, last.gen, last.buffer, last.stream);
      assert States(gens) ==
             was[last.gen := was[last.gen][last.stream := GooseStep(was[last.gen][last.stream], Deltas(gens)[last.gen])]];
      StepNext(start, was, history, k, Deltas(gens));
    }
    assert history[..|history|] == history;
  }

  // ---------------------------------------------------------------- stream states over a history

  ghost function States(gens: seq<RGooseGen>): (r: seq<seq<GooseIed>>)
    reads gens
    ensures |r| == |gens| && forall i :: 0 <= i < |gens| ==> r[i] == gens[i].ieds
  {
    seq(|gens|, i requires 0 <= i < |gens| reads gens => gens[i].ieds)
  }

  ghost function Deltas(gens: seq<RGooseGen>): (r: seq<u32>)
    ensures |r| == |gens| && forall i :: 0 <= i < |gens| ==> r[i] == gens[i].tsDelta
  {
    seq(|gens|, i requires 0 <= i < |gens| => gens[i].tsDelta)
  }

  /** Every stream's state is its first state stepped as often as it was amended. */
  ghost predicate Stepped(start: seq<seq<GooseIed>>, now: seq<seq<GooseIed>>, history: seq<Amendment>, deltas: seq<u32>)
  {
    && |now| == |start| == |deltas|
    && (forall i :: 0 <= i < |start| ==> |now[i]| == |start[i]|)
    && (forall i, s :: 0 <= i < |start| && 0 <= s < |start[i]| ==>
          now[i][s] == GooseSteps(start[i][s], deltas[i], Count(history, i, s)))
  }

  lemma NothingStepped(start: seq<seq<GooseIed>>, deltas: seq<u32>)
    requires |start| == |deltas|
    ensures Stepped(start, start, [], deltas)
  {
  }

  lemma SteppedSizes(start: seq<seq<GooseIed>>, now: seq<seq<GooseIed>>, history: seq<Amendment>, deltas: seq<u32>)
    requires Stepped(start, now, history, deltas)
    ensures |now| == |start| == |deltas| && forall i :: 0 <= i < |start| ==> |now[i]| == |start[i]|
  {
  }

  lemma SteppedAt(start: seq<seq<GooseIed>>, now: seq<seq<GooseIed>>, history: seq<Amendment>, deltas: seq<u32>,
                  g: nat, idx: nat)
    requires Stepped(start, now, history, deltas) && g < |start| && idx < |start[g]|
    ensures |now| == |start| == |deltas| && |now[g]| == |start[g]|
    ensures now[g][idx] == GooseSteps(start[g][idx], deltas[g], Count(history, g, idx))
    ensures GooseStep(now[g][idx], deltas[g]) == GooseSteps(start[g][idx], deltas[g], Count(history, g, idx) + 1)
  {
  }

  lemma StepNext(start: seq<seq<GooseIed>>, now: seq<seq<GooseIed>>, history: seq<Amendment>, k: nat, deltas: seq<u32>)
    requires k < |history| && Stepped(start, now, history[..k], deltas)
    requires history[k].gen < |start| && history[k].stream < |start[history[k].gen]|
    ensures var (g, s) := (history[k].gen, history[k].stream);
            && |now| == |start| == |deltas| && s < |now[g]|
            && Stepped(start, now[g := now[g][s := GooseStep(now[g][s], deltas[g])]], history[..k + 1], deltas)
  {
    hide GooseStep, Count;
    var (g, s) := (history[k].gen, history[k].stream);
    var next := now[g := now[g][s := GooseStep(now[g][s], deltas[g])]];
    forall i, x | 0 <= i < |start| && 0 <= x < |start[i]|
      ensures next[i][x] == GooseSteps(start[i][x], deltas[i], Count(history[..k + 1], i, x))
    {
      CountStep(history, k, i, x);
    }
  }

  // ---------------------------------------------------------------- R-SV

  datatype SvIed = SvIed(sId: bytes, smpCnt: u16, spduNumber: u32)

  /** Offsets of svID and smpCnt of one ASDU in the APDU. */
  datatype AsduOffsets = AsduOffsets(svid: nat, smpCnt: nat)

  /** The sample counter runs through one second. */
  function NextSample(cnt: u16, freq: nat): (r: u16)
  {
    if cnt + 1 < freq then (cnt + 1) % U16 else 0
  }

  function SampleAfter(cnt: u16, freq: nat, n: nat): (r: u16)
  {
    if n == 0 then cnt else NextSample(SampleAfter(cnt, freq, n - 1), freq)
  }

  /** Stores of the first `n` ASDUs: the k-th carries the k-th next sample number. */
  function SvWrites(offs: seq<AsduOffsets>, sId: bytes, cnt: u16, freq: nat, n: nat): (ws: seq<Write>)
    requires n <= |offs|
    ensures |ws| == 2 * n
  {
    if n == 0 then []
    else SvWrites(offs, sId, cnt, freq, n - 1)
         + [Store(offs[n - 1].svid + 4, sId), Store(offs[n - 1].smpCnt, Be16(SampleAfter(cnt, freq, n - 1)))]
  }

  function SvStep(ied: SvIed, freq: nat, asdus: nat): (r: SvIed)
  {
    ied.(spduNumber := (ied.spduNumber + 1) % U32, smpCnt := SampleAfter(ied.smpCnt, freq, asdus))
  }

  lemma {:induction false} SvShape(offs: seq<AsduOffsets>, a: bytes, x: u16, b: bytes, y: u16, freq: nat, n: nat)
    requires n <= |offs| && |a| == |b|
    ensures SameShape(SvWrites(offs, a, x, freq, n), SvWrites(offs, b, y, freq, n))
  {
    if n > 0 {
      SvShape(offs, a, x, b, y, freq, n - 1);
    }
  }

  /**
   A stream that started at sample 0 stands at the number of samples sent modulo the samples of
   one second.
   */
  lemma {:induction false} SampleClosed(freq: nat, n: nat)
    requires 0 < freq < U16
    ensures SampleAfter(0, freq, n) == n % freq
  {
    if n > 0 {
      hide NextSample;
      SampleClosed(freq, n - 1);
      NextSampleMod(n - 1, freq);
    }
  }

  lemma NextSampleMod(n: nat, freq: nat)
    requires 0 < freq < U16
    ensures NextSample(n % freq, freq) == (n + 1) % freq
  {
    ModNext(n, freq);
  }

  class RSvGen {
    const layout: Layout
    const offsets: seq<AsduOffsets>
    const asdus: nat
    const freq: nat
    const crypto: Crypto
    const table: seq<DstFields>
    const plain: array<byte>
    var ieds: seq<SvIed>

    ghost function Shape(): seq<Write>
      requires asdus <= |offsets|
    {
      SvWrites(offsets, Zeros(4), 0, freq, asdus)
    }

    ghost predicate Valid()
      reads this, plain
    {
      && Fits(layout) && Lawful(crypto) && IsDstTable(layout, table)
      && asdus <= |offsets| && InRange(Shape(), |layout.apdu|)
      && IsMaster(layout, Shape(), plain[..])
      && forall i :: 0 <= i < |ieds| ==> |ieds[i].sId| == 4
    }

    constructor (layout: Layout, offsets: seq<AsduOffsets>, asdus: nat, freq: nat, crypto: Crypto, ieds: seq<SvIed>)
      requires Fits(layout) && Lawful(crypto) && asdus <= |offsets|
      requires InRange(SvWrites(offsets, Zeros(4), 0, freq, asdus), |layout.apdu|)
      requires forall i :: 0 <= i < |ieds| ==> |ieds[i].sId| == 4
      ensures Valid() && fresh(plain)
      ensures this.layout == layout && this.offsets == offsets && this.asdus == asdus && this.freq == freq
      ensures this.crypto == crypto && this.ieds == ieds
    {
      var skeleton := MakeSkeleton(layout);
      var table := MakeDstTable(layout, skeleton[..]);
      var body := Elem(Base(layout)) + layout.apdu;
      var master := new byte[|body|](i requires 0 <= i < |body| => body[i]);
      this.layout, this.offsets, this.asdus, this.freq := layout, offsets, asdus, freq;
      this.crypto, this.table, this.plain, this.ieds := crypto, table, master, ieds;
      new;
      assert plain[..] == body;
      FreshIsRecycled(layout, Shape());
    }

    /**
     AmendPacketSV80 and AmendPacketSV256 (one or eight ASDUs): the buffer becomes the frame built
     from scratch for the stream's samples, and the sample counter moves on by the ASDUs sent.
     */
    method AmendPacket(packet: array<byte>, idx: nat)
      requires Valid() && idx < |ieds| && packet != plain
      requires Recycled(layout, Shape(), packet[..])
      modifies this, plain, packet
      ensures Valid() && Recycled(layout, Shape(), packet[..])
      ensures ieds == old(ieds)[idx := SvStep(old(ieds)[idx], freq, asdus)]
      ensures InRange(SvWrites(offsets, ieds[idx].sId, old(ieds)[idx].smpCnt, freq, asdus), |layout.apdu|)
      ensures packet[..] == FreshFrame(layout, crypto, idx + layout.baseIdx, ieds[idx].spduNumber,
                                       SvWrites(offsets, ieds[idx].sId, old(ieds)[idx].smpCnt, freq, asdus))
    {
      hide Fits, Lawful, IsDstTable, IsMaster, Recycled, FreshFrame, Be16, Zeros, NextSample;
      var ied := ieds[idx];
      var spdu := (ied.spduNumber + 1) % U32;
      var cnt := ied.smpCnt;
      var ws: seq<Write> := [];
      for i := 0 to asdus
        invariant cnt == SampleAfter(ied.smpCnt, freq, i)
        invariant ws == SvWrites(offsets, ied.sId, ied.smpCnt, freq, i)
      {
        ws := ws + [Store(offsets[i].svid + 4, ied.sId), Store(offsets[i].smpCnt, Be16(cnt))];
        cnt := NextSample(cnt, freq);
      }
      SvShape(offsets, ied.sId, ied.smpCnt, Zeros(4), 0, freq, asdus);
      assert InRange(ws, |layout.apdu|);
      ieds := ieds[idx := ied.(spduNumber := spdu, smpCnt := cnt)];
      AmendFrame(layout, crypto, table, packet, plain, idx + layout.baseIdx, spdu, ws, Shape());
    }
  }

  function SvSteps(ied: SvIed, freq: nat, asdus: nat, n: nat): (r: SvIed)
  {
    if n == 0 then ied else SvStep(SvSteps(ied, freq, asdus, n - 1), freq, asdus)
  }

  lemma {:induction false} SampleAfterAdd(cnt: u16, freq: nat, m: nat, n: nat)
    ensures SampleAfter(cnt, freq, m + n) == SampleAfter(SampleAfter(cnt, freq, m), freq, n)
  {
    if n > 0 {
      hide NextSample;
      SampleAfterAdd(cnt, freq, m, n - 1);
    }
  }

  /** A fresh stream after n frames: n session numbers used, and the sample counter n times the ASDU count further on. */
  lemma {:induction false} SvCounters(ied: SvIed, freq: nat, asdus: nat, n: nat)
    ensures SvSteps(ied, freq, asdus, n).sId == ied.sId
    ensures SvSteps(ied, freq, asdus, n).spduNumber == (ied.spduNumber + n) % U32
    ensures SvSteps(ied, freq, asdus, n).smpCnt == SampleAfter(ied.smpCnt, freq, n * asdus)
  {
    if n > 0 {
      SvCounters(ied, freq, asdus, n - 1);
      Wrap32(ied.spduNumber + n - 1);
      assert n * asdus == (n - 1) * asdus + asdus;
      SampleAfterAdd(ied.smpCnt, freq, (n - 1) * asdus, asdus);
    }
  }

  /** The SV generators of one run, alike but for the slice of streams. */
  ghost predicate SvFleet(gens: seq<RSvGen>)
    reads gens, set x | x in gens :: x.plain
  {
    && (forall i :: 0 <= i < |gens| ==> gens[i].Valid())
    && (forall i, j :: 0 <= i < j < |gens| ==> gens[i] != gens[j] && gens[i].plain != gens[j].plain)
    && (forall i, j :: 0 <= i < |gens| && 0 <= j < |gens| ==>
          && SameButSlice(gens[i].layout, gens[j].layout) && gens[i].offsets == gens[j].offsets
          && gens[i].asdus == gens[j].asdus && gens[i].freq == gens[j].freq)
  }

  ghost predicate SvPool(gens: seq<RSvGen>, packets: seq<array<byte>>)
    requires gens != [] && |gens[0].layout.cfg.srcMac| == 6 && gens[0].asdus <= |gens[0].offsets|
    reads packets
  {
    && (forall i, g :: 0 <= i < |packets| && 0 <= g < |gens| ==> packets[i] != gens[g].plain)
    && (forall i, j :: 0 <= i < j < |packets| ==> packets[i] != packets[j])
    && (forall i :: 0 <= i < |packets| ==> Recycled(gens[0].layout, gens[0].Shape(), packets[i][..]))
  }

  method AmendSvPooled(gens: seq<RSvGen>, packets: seq<array<byte>>, g: nat, b: nat, idx: nat)
    requires SvFleet(gens) && g < |gens| && b < |packets| && idx < |gens[g].ieds|
    requires |gens[0].layout.cfg.srcMac| == 6 && gens[0].asdus <= |gens[0].offsets| && SvPool(gens, packets)
    modifies gens, (set x | x in gens :: x.plain), packets
    ensures SvFleet(gens) && SvPool(gens, packets)
    ensures gens[g].ieds == old(gens[g].ieds)[idx := SvStep(old(gens[g].ieds)[idx], gens[g].freq, gens[g].asdus)]
    ensures forall i :: 0 <= i < |gens| && i != g ==> gens[i].ieds == old(gens[i].ieds)
    ensures gens[g].asdus <= |gens[g].offsets|
    ensures var was := old(gens[g].ieds)[idx];
            var ws := SvWrites(gens[g].offsets, was.sId, was.smpCnt, gens[g].freq, gens[g].asdus);
            && InRange(ws, |gens[g].layout.apdu|)
            && packets[b][..] == FreshFrame(gens[g].layout, gens[g].crypto, idx + gens[g].layout.baseIdx,
                                            gens[g].ieds[idx].spduNumber, ws)
  {
    hide Recycled, Fits, Lawful, IsDstTable, IsMaster, FreshFrame, SvWrites, InRange, SampleAfter;
    RecycledByAll(gens[0].layout, gens[g].layout, gens[0].Shape(), packets[b][..]);
    assert gens[0].Shape() == gens[g].Shape();
    gens[g].AmendPacket(packets[b], idx);
    RecycledByAll(gens[0].layout, gens[g].layout, gens[0].Shape(), packets[b][..]);
  }

  /** Buffer-history independence of the SV generators on their shared pool, for any earlier amendments by any of them. */
  method AmendSvAfterHistory(gens: seq<RSvGen>, packets: seq<array<byte>>, history: seq<Amendment>,
                             g: nat, b: nat, idx: nat)
    requires SvFleet(gens) && g < |gens| && b < |packets| && idx < |gens[g].ieds|
    requires forall i, x :: 0 <= i < |packets| && 0 <= x < |gens| ==> packets[i] != gens[x].plain
    requires forall i, j :: 0 <= i < j < |packets| ==> packets[i] != packets[j]
    requires |gens[0].layout.cfg.srcMac| == 6
    requires forall i :: 0 <= i < |packets| ==> packets[i][..] == Skeleton(gens[0].layout)
    requires forall k :: 0 <= k < |history| ==>
               history[k].gen < |gens| && history[k].buffer < |packets| && history[k].stream < |gens[history[k].gen].ieds|
    modifies gens, (set x | x in gens :: x.plain), packets
    ensures SvFleet(gens) && |gens[g].ieds| == |old(gens[g].ieds)| && gens[g].asdus <= |gens[g].offsets|
    ensures var before := SvSteps(old(gens[g].ieds)[idx], gens[g].freq, gens[g].asdus, Count(history, g, idx));
            var ws := SvWrites(gens[g].offsets, before.sId, before.smpCnt, gens[g].freq, gens[g].asdus);
            && gens[g].ieds[idx] == SvStep(before, gens[g].freq, gens[g].asdus)
            && InRange(ws, |gens[g].layout.apdu|)
            && packets[b][..] == FreshFrame(gens[g].layout, gens[g].crypto, idx + gens[g].layout.baseIdx,
                                            gens[g].ieds[idx].spduNumber, ws)
  {
    hide SvFleet, FreshFrame, SvWrites, InRange, SvStep, SvPool, SvStepped;
    FreshSvPool(gens, packets);
    ReplaySv(gens, packets, history);
    SvSteppedAt(old(SvStates(gens)), SvStates(gens), history, gens[0].freq, gens[0].asdus, g, idx);
    SvAlike(gens, g);
    AmendSvPooled(gens, packets, g, b, idx);
  }

  lemma SvAlike(gens: seq<RSvGen>, g: nat)
    requires SvFleet(gens) && g < |gens|
    ensures gens[g].freq == gens[0].freq && gens[g].asdus == gens[0].asdus <= |gens[g].offsets|
    ensures |gens[0].layout.cfg.srcMac| == 6 && gens[0].asdus <= |gens[0].offsets|
    ensures forall i :: 0 <= i < |gens[g].ieds| ==> |gens[g].ieds[i].sId| == 4
  {
    assert gens[g].Valid() && gens[0].Valid();
  }

  lemma FreshSvPool(gens: seq<RSvGen>, packets: seq<array<byte>>)
    requires SvFleet(gens) && gens != [] && |gens[0].layout.cfg.srcMac| == 6
    requires forall i, x :: 0 <= i < |packets| && 0 <= x < |gens| ==> packets[i] != gens[x].plain
    requires forall i, j :: 0 <= i < j < |packets| ==> packets[i] != packets[j]
    requires forall i :: 0 <= i < |packets| ==> packets[i][..] == Skeleton(gens[0].layout)
    ensures gens[0].asdus <= |gens[0].offsets| && SvPool(gens, packets)
  {
    hide Recycled, Fits;
    assert gens[0].Valid();
    FreshIsRecycled(gens[0].layout, gens[0].Shape());
  }

  method ReplaySv(gens: seq<RSvGen>, packets: seq<array<byte>>, history: seq<Amendment>)
    requires SvFleet(gens) && gens != [] && |gens[0].layout.cfg.srcMac| == 6
    requires gens[0].asdus <= |gens[0].offsets| && SvPool(gens, packets)
    requires forall k :: 0 <= k < |history| ==>
               history[k].gen < |gens| && history[k].buffer < |packets| && history[k].stream < |gens[history[k].gen].ieds|
    modifies gens, (set x | x in gens :: x.plain), packets
    ensures SvFleet(gens) && SvPool(gens, packets)
    ensures SvStepped(old(SvStates(gens)), SvStates(gens), history, gens[0].freq, gens[0].asdus)
  {
    hide SvFleet, SvPool, FreshFrame, SvWrites, InRange, SvStep, SvStepped;
    ghost var start := SvStates(gens);
    ghost var freq, asdus := gens[0].freq, gens[0].asdus;
    NothingSvStepped(start, freq, asdus);
    assert history[..0] == [];
    for k := 0 to |history|
      invariant SvFleet(gens) && SvPool(gens, packets)
      invariant SvStepped(start, SvStates(gens), history[..k], freq, asdus)
    {
      ghost var was := SvStates(gens);
      var last := history[k];
      SvSteppedSizes(start, was, history[..k], freq, asdus);
      assert start[last.gen] == old(gens[last.gen].ieds);
      assert last.stream < |gens[last.gen].ieds|;
      SvAlike(gens, last.gen);
      AmendSvPooled(gens, packets, last.gen, last.buffer, last.stream);
      assert SvStates(gens) ==
             was[last.gen := was[last.gen][last.stream := SvStep(was[last.gen][last.stream], freq, asdus)]];
      SvStepNext(start, was, history, k, freq, asdus);
    }
    assert history[..|history|] == history;
  }

  ghost function SvStates(gens: seq<RSvGen>): (r: seq<seq<SvIed>>)
    reads gens
    ensures |r| == |gens| && forall i :: 0 <= i < |gens| ==> r[i] == gens[i].ieds
  {
    seq(|gens|, i requires 0 <= i < |gens| reads gens => gens[i].ieds)
  }

  ghost predicate SvStepped(start: seq<seq<SvIed>>, now: seq<seq<SvIed>>, history: seq<Amendment>, freq: nat, asdus: nat)
  {
    && |now| == |start|
    && (forall i :: 0 <= i < |start| ==> |now[i]| == |start[i]|)
    && (forall i, s :: 0 <= i < |start| && 0 <= s < |start[i]| ==>
          now[i][s] == SvSteps(start[i][s], freq, asdus, Count(history, i, s)))
  }

  lemma NothingSvStepped(start: seq<seq<SvIed>>, freq: nat, asdus: nat)
    ensures SvStepped(start, start, [], freq, asdus)
  {
  }

  lemma SvSteppedSizes(start: seq<seq<SvIed>>, now: seq<seq<SvIed>>, history: seq<Amendment>, freq: nat, asdus: nat)
    requires SvStepped(start, now, history, freq, asdus)
    ensures |now| == |start| && forall i :: 0 <= i < |start| ==> |now[i]| == |start[i]|
  {
  }

  lemma SvSteppedAt(start: seq<seq<SvIed>>, now: seq<seq<SvIed>>, history: seq<Amendment>, freq: nat, asdus: nat,
                    g: nat, idx: nat)
    requires SvStepped(start, now, history, freq, asdus) && g < |start| && idx < |start[g]|
    ensures |now| == |start| && |now[g]| == |start[g]|
    ensures now[g][idx] == SvSteps(start[g][idx], freq, asdus, Count(history, g, idx))
  {
  }

  lemma SvStepNext(start: seq<seq<SvIed>>, now: seq<seq<SvIed>>, history: seq<Amendment>, k: nat, freq: nat, asdus: nat)
    requires k < |history| && SvStepped(start, now, history[..k], freq, asdus)
    requires history[k].gen < |start| && history[k].stream < |start[history[k].gen]|
    ensures var (g, s) := (history[k].gen, history[k].stream);
            && |now| == |start| && s < |now[g]|
            && SvStepped(start, now[g := now[g][s := SvStep(now[g][s], freq, asdus)]], history[..k + 1], freq, asdus)
  {
    hide SvStep, Count;
    var (g, s) := (history[k].gen, history[k].stream);
    var next := now[g := now[g][s := SvStep(now[g][s], freq, asdus)]];
    forall i, x | 0 <= i < |start| && 0 <= x < |start[i]|
      ensures next[i][x] == SvSteps(start[i][x], freq, asdus, Count(history[..k + 1], i, x))
    {
      CountStep(history, k, i, x);
    }
  }
}
