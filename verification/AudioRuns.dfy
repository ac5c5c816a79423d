/** Whole runs of the jitter buffer: one network thread that appends, shrinks and resizes,
    one playback thread that pops, and other buffers that share the process-wide clock. */
module AudioRuns {
  import opened Options
  import opened Audio

  /** A stretch of consecutive samples that left the front of the ring. */
  datatype Piece = Piece(len: nat, played: bool)

  /** An occupancy as it was recorded, with the rate in force at the time. */
  datatype Reading = Reading(having: nat, rate: nat)

  datatype World = World(
    buffer: Buffer,
    tms: int,
    pending: Option<nat>,      // the occupancy `append_pcm2` returned, not yet recorded
    appended: seq<Sample>,     // every sample ever handed to `append_pcm`
    output: seq<Sample>,       // every sample handed to the device, padding left out
    ledger: seq<Piece>,        // everything that left the ring, in order
    readings: seq<Reading>,    // the occupancies recorded since the last pass
    passes: seq<int>           // the times of the passes
  )

  /** `Append` and `Shrink` are the two locked halves of `append_pcm`, so `Play` can fall
      between them. `Elsewhere` is a pass decision taken by another buffer. */
  datatype Event =
    | Append(pcm: seq<Sample>)
    | Shrink(now: int)
    | Play(requested: nat)
    | Resize(sampleRate: nat, channels: nat)
    | Elsewhere(now: int)

  predicate Enabled(w: World, e: Event) {
    match e
    case Append(_) => w.pending.None?
    case Shrink(_) => w.pending.Some?
    case Resize(sampleRate, channels) => w.pending.None? && 0 < sampleRate * channels
    case Play(_) => true
    case Elsewhere(_) => true
  }

  function Start(): World {
    World(Default(), 0, None, [], [], [], [], [])
  }

  function Removed(w: World, n: nat, played: bool): seq<Piece> {
    w.ledger + [Piece(n, played)]
  }

  function PassesAfter(w: World, now: int): seq<int> {
    if PassDue(w.tms, now) then w.passes + [now] else w.passes
  }

  function Step(w: World, e: Event): World
    requires w.buffer.Valid() && Enabled(w, e)
  {
    var b := w.buffer;
    match e
    case Append(pcm) =>
      var b' := Audio.Append(b, pcm);
      w.(buffer := b', pending := Some(|b'.data|), appended := w.appended + pcm,
         ledger := Removed(w, |b.data| + |pcm| - |b'.data|, false))
    case Shrink(now) =>
      var b' := TryShrink(b, w.pending.value, w.tms, now);
      var readings := w.readings + [Reading(w.pending.value, b.rate)];
      w.(buffer := b', tms := NextTms(w.tms, now), pending := None,
         ledger := Removed(w, |b.data| - |b'.data|, false),
         readings := if PassDue(w.tms, now) then [] else readings,
         passes := PassesAfter(w, now))
    case Play(requested) =>
      var n := PlayedCount(b, requested);
      w.(buffer := Audio.Play(b, requested), output := w.output + b.data[..n],
         ledger := Removed(w, n, true))
    case Resize(sampleRate, channels) =>
      var b' := Audio.Resize(b, sampleRate, channels);
      w.(buffer := b', ledger := Removed(w, |b.data| - |b'.data|, false))
    case Elsewhere(now) =>
      w.(tms := NextTms(w.tms, now), passes := PassesAfter(w, now))
  }

  /** The world after a run, if every event was enabled when it happened. */
  ghost function Run(es: seq<Event>): (r: Option<World>)
    ensures r.Some? ==> r.value.buffer.Valid()
    decreases |es|
  {
    if es == [] then Some(Start())
    else
      var e := es[|es| - 1];
      match Run(es[..|es| - 1])
      case None => None
      case Some(v) =>
        if Enabled(v, e) then
          StepValid(v, e);
          Some(Step(v, e))
        else None
  }

  lemma StepValid(w: World, e: Event)
    requires w.buffer.Valid() && Enabled(w, e)
    ensures Step(w, e).buffer.Valid()
  {
    if e.Resize? {
      ResizeRecomputes(w.buffer, e.sampleRate, e.channels);
    }
  }

  ghost predicate Reaches(es: seq<Event>, w: World) {
    Run(es) == Some(w)
  }

  // --- the ledger tiles the history ---

  function Total(ledger: seq<Piece>): nat {
    if ledger == [] then 0 else Total(ledger[..|ledger| - 1]) + ledger[|ledger| - 1].len
  }

  function TotalOf(ledger: seq<Piece>, played: bool): nat {
    if ledger == [] then 0
    else
      var p := ledger[|ledger| - 1];
      TotalOf(ledger[..|ledger| - 1], played) + (if p.played == played then p.len else 0)
  }

  /** The history positions of the played samples, in playing order. */
  function PlayedPositions(ledger: seq<Piece>): (ps: seq<nat>)
    ensures forall i :: 0 <= i < |ps| ==> ps[i] < Total(ledger)
    ensures forall i, j :: 0 <= i < j < |ps| ==> ps[i] < ps[j]
    ensures |ps| == TotalOf(ledger, true)
  {
    if ledger == [] then []
    else
      var before, p := ledger[..|ledger| - 1], ledger[|ledger| - 1];
      var base := Total(before);
      PlayedPositions(before) + if p.played then seq(p.len, i => base + i) else []
  }

  lemma {:induction false} TotalsAdd(ledger: seq<Piece>)
    ensures Total(ledger) == TotalOf(ledger, true) + TotalOf(ledger, false)
  {
    if ledger != [] {
      TotalsAdd(ledger[..|ledger| - 1]);
    }
  }

  // --- the histogram counts the readings ---

  function Count(readings: seq<Reading>, bucket: nat): nat
    requires forall r <- readings :: 0 < r.rate
  {
    if readings == [] then 0
    else
      var r := readings[|readings| - 1];
      Count(readings[..|readings| - 1], bucket) + if Bucket(r.having, r.rate) == bucket then 1 else 0
  }

  lemma {:induction false} CountPositive(readings: seq<Reading>, k: nat)
    requires forall r <- readings :: 0 < r.rate
    requires k < |readings|
    ensures Count(readings, Bucket(readings[k].having, readings[k].rate)) > 0
  {
    if k < |readings| - 1 {
      CountPositive(readings[..|readings| - 1], k);
    }
  }

  function Sum(h: seq<nat>): nat {
    if h == [] then 0 else Sum(h[..|h| - 1]) + h[|h| - 1]
  }

  lemma {:induction false} SumBump(h: seq<nat>, i: nat)
    requires i < |h|
    ensures Sum(h[i := h[i] + 1]) == Sum(h) + 1
  {
    var n := |h| - 1;
    var h' := h[i := h[i] + 1];
    if i < n {
      assert h'[..n] == h[..n][i := h[i] + 1];
      SumBump(h[..n], i);
    } else {
      assert h'[..n] == h[..n];
    }
  }

  lemma {:induction false} SumEmpty(h: seq<nat>)
    requires forall i :: 0 <= i < |h| ==> h[i] == 0
    ensures Sum(h) == 0
  {
    if h != [] {
      SumEmpty(h[..|h| - 1]);
    }
  }

  // --- the invariant ---

  ghost predicate HistogramCounts(w: World) {
    && |w.buffer.hist| == BUCKETS
    && (forall r <- w.readings :: 0 < r.rate)
    && (forall i :: 0 <= i < BUCKETS ==> w.buffer.hist[i] == Count(w.readings, i))
    && Sum(w.buffer.hist) == |w.readings|
  }

  /** The ring is the unremoved suffix of the history; what the device got is the history
      at the played positions. */
  ghost predicate Fifo(w: World) {
    var k := Total(w.ledger);
    && k + |w.buffer.data| == |w.appended|
    && w.buffer.data == w.appended[k..]
    && Outputs(w.output, w.appended, PlayedPositions(w.ledger))
  }

  ghost predicate Outputs(output: seq<Sample>, history: seq<Sample>, positions: seq<nat>) {
    && |output| == |positions|
    && forall i :: 0 <= i < |positions| ==>
                     positions[i] < |history| && output[i] == history[positions[i]]
  }

  /** Passes are twelve seconds apart, a pass at the sentinel time 0 excepted. */
  ghost predicate PassesSpaced(w: World) {
    && (forall i :: 0 <= i < |w.passes| - 1 && w.passes[i] != 0 ==>
                      w.passes[i] + PASS_INTERVAL_MS <= w.passes[i + 1])
    && (w.passes != [] && w.passes[|w.passes| - 1] != 0 ==> w.tms == w.passes[|w.passes| - 1])
  }

  ghost predicate Inv(w: World) {
    && w.buffer.Valid()
    && HistogramCounts(w)
    && Fifo(w)
    && PassesSpaced(w)
  }

  lemma StartInv()
    ensures Inv(Start())
  {
    SumEmpty(EmptyHistogram());
  }

  lemma TotalSnoc(ledger: seq<Piece>, p: Piece)
    ensures Total(ledger + [p]) == Total(ledger) + p.len
    ensures PlayedPositions(ledger + [p])
         == PlayedPositions(ledger) + if p.played then seq(p.len, i => Total(ledger) + i) else []
  {
    assert (ledger + [p])[..|ledger|] == ledger;
  }

  /** Dropping `n` samples, then extending the history by `extra`, keeps the ring a suffix. */
  lemma DropKeepsFifo(w: World, extra: seq<Sample>, n: nat, w': World)
    requires Fifo(w) && n <= |w.buffer.data| + |extra|
    requires w'.appended == w.appended + extra && w'.output == w.output
    requires w'.buffer.data == (w.buffer.data + extra)[n..]
    requires w'.ledger == Removed(w, n, false)
    ensures Fifo(w')
  {
    TotalSnoc(w.ledger, Piece(n, false));
    var k := Total(w.ledger);
    assert w'.appended[k..] == w.buffer.data + extra;
    assert w'.appended[k + n..] == w'.appended[k..][n..];
    var ps := PlayedPositions(w.ledger);
    assert PlayedPositions(w'.ledger) == ps + [];
    assert Outputs(w'.output, w'.appended, ps);
  }

  lemma PlayKeepsFifo(w: World, requested: nat)
    requires w.buffer.Valid() && Fifo(w)
    ensures Fifo(Step(w, Play(requested)))
  {
    var n := PlayedCount(w.buffer, requested);
    var w' := Step(w, Play(requested));
    TotalSnoc(w.ledger, Piece(n, true));
    var k := Total(w.ledger);
    assert w.appended[k + n..] == w.appended[k..][n..];
    var ps, more := PlayedPositions(w.ledger), seq(n, i => k + i);
    assert PlayedPositions(w'.ledger) == ps + more;
    forall i | 0 <= i < |ps + more|
      ensures (ps + more)[i] < |w.appended| && w'.output[i] == w.appended[(ps + more)[i]]
    {
      if |ps| <= i {
        assert w'.output[i] == w.buffer.data[i - |ps|] == w.appended[k..][i - |ps|];
      }
    }
  }

  lemma RecordKeepsCounts(w: World, having: nat)
    requires w.buffer.Valid() && HistogramCounts(w)
    ensures HistogramCounts(w.(buffer := Record(w.buffer, having),
                               readings := w.readings + [Reading(having, w.buffer.rate)]))
  {
    var rs := w.readings + [Reading(having, w.buffer.rate)];
    assert rs[..|rs| - 1] == w.readings;
    SumBump(w.buffer.hist, Bucket(having, w.buffer.rate));
  }

  lemma ShrinkCounts(w: World, now: int)
    requires w.buffer.Valid() && HistogramCounts(w) && w.pending.Some?
    ensures HistogramCounts(Step(w, Shrink(now)))
  {
    RecordKeepsCounts(w, w.pending.value);
    SumEmpty(EmptyHistogram());
  }

  lemma ShrinkKeepsInv(w: World, now: int)
    requires Inv(w) && w.pending.Some?
    ensures Inv(Step(w, Shrink(now)))
  {
    ShrinkCounts(w, now);
    ShrinkKeepsFifo(w, now);
    PassesStaySpaced(w, Step(w, Shrink(now)), now);
  }

  lemma PassesStaySpaced(w: World, w': World, now: int)
    requires PassesSpaced(w) && w'.tms == NextTms(w.tms, now) && w'.passes == PassesAfter(w, now)
    ensures PassesSpaced(w')
  {
  }

  lemma ShrinkKeepsFifo(w: World, now: int)
    requires w.buffer.Valid() && Fifo(w) && w.pending.Some?
    ensures Fifo(Step(w, Shrink(now)))
  {
    var w' := Step(w, Shrink(now));
    var n := |w.buffer.data| - |w'.buffer.data|;
    assert w'.buffer.data == (w.buffer.data + [])[n..];
    DropKeepsFifo(w, [], n, w');
  }

  lemma AppendKeepsInv(w: World, pcm: seq<Sample>)
    requires Inv(w) && w.pending.None?
    ensures Inv(Step(w, Append(pcm)))
  {
    var w' := Step(w, Append(pcm));
    DropKeepsFifo(w, pcm, |w.buffer.data| + |pcm| - |w'.buffer.data|, w');
  }

  lemma ResizeKeepsInv(w: World, sampleRate: nat, channels: nat)
    requires Inv(w) && Enabled(w, Resize(sampleRate, channels))
    ensures Inv(Step(w, Resize(sampleRate, channels)))
  {
    var w' := Step(w, Resize(sampleRate, channels));
    ResizeRecomputes(w.buffer, sampleRate, channels);
    var n := |w.buffer.data| - |w'.buffer.data|;
    assert w'.buffer.data == (w.buffer.data + [])[n..];
    DropKeepsFifo(w, [], n, w');
  }

  lemma StepInv(w: World, e: Event)
    requires Inv(w) && Enabled(w, e)
    ensures Inv(Step(w, e))
  {
    match e {
      case Append(pcm) => AppendKeepsInv(w, pcm);
      case Shrink(now) => ShrinkKeepsInv(w, now);
      case Play(requested) => PlayKeepsFifo(w, requested);
      case Resize(sampleRate, channels) => ResizeKeepsInv(w, sampleRate, channels);
      case Elsewhere(now) => PassesStaySpaced(w, Step(w, e), now);
    }
  }

  lemma {:induction false} RunInv(es: seq<Event>, w: World)
    requires Reaches(es, w)
    ensures Inv(w)
    decreases |es|
  {
    if es == [] {
      StartInv();
    } else {
      var v := Run(es[..|es| - 1]).value;
      RunInv(es[..|es| - 1], v);
      StepInv(v, es[|es| - 1]);
    }
  }

  // --- what every run promises ---

  function Dropped(w: World, now: int): nat
    requires w.buffer.Valid() && w.pending.Some?
  {
    |w.buffer.data| - |TryShrink(w.buffer, w.pending.value, w.tms, now).data|
  }

  /** Safe drop. When a pass drops samples, every occupancy recorded since the previous pass
      (the current one included) was at least 200 ms, the drop is at most two thirds of it up
      to rounding - compared as durations, so that a resize in between does not matter - and
      more than twice the dropped amount stays in the ring. */
  lemma SafeDrop(es: seq<Event>, w: World, now: int, r: Reading)
    requires Reaches(es, w) && w.pending.Some?
    requires r in w.readings + [Reading(w.pending.value, w.buffer.rate)]
    ensures Dropped(w, now) > 0 ==>
              && PassDue(w.tms, now)
              && SafelyDropped(Dropped(w, now), r, w.buffer.rate)
              && |Step(w, Shrink(now)).buffer.data| > 2 * Dropped(w, now)
  {
    RunInv(es, w);
    if Dropped(w, now) > 0 {
      ReadingAboveEmpty(w, r);
      var b := Record(w.buffer, w.pending.value);
      assert Dropped(w, now) == Skip(b);
      DropBound(b.rate, LeadingEmpty(b.hist), WaterMark(b.hist), Skip(b), r);
    }
  }

  ghost predicate SafelyDropped(skip: nat, r: Reading, rate: nat) {
    && 0 < r.rate <= 5 * r.having
    && 3 * skip * r.rate <= 2 * r.having * rate + 3 * r.rate
    && (r.rate == rate ==> 3 * skip <= 2 * r.having + 3)
    && skip % 2 == 0
  }

  /** Every reading lies above the empty buckets at the start of the histogram. */
  lemma ReadingAboveEmpty(w: World, r: Reading)
    requires w.buffer.Valid() && HistogramCounts(w) && w.pending.Some?
    requires r in w.readings + [Reading(w.pending.value, w.buffer.rate)]
    ensures 0 < r.rate
    ensures LeadingEmpty(Record(w.buffer, w.pending.value).hist) <= Bucket(r.having, r.rate)
  {
    RecordKeepsCounts(w, w.pending.value);
    var rs := w.readings + [Reading(w.pending.value, w.buffer.rate)];
    var k :| 0 <= k < |rs| && rs[k] == r;
    CountPositive(rs, k);
  }

  lemma DropBound(rate: nat, z: nat, mark: nat, skip: nat, r: Reading)
    requires 0 < mark <= QUARTER * (z * 2 / 3)
    requires skip <= 3 * rate * mark / (BUCKETS * QUARTER) + 1 && skip % 2 == 0
    requires 0 < r.rate && z * r.rate <= r.having * 10
    ensures SafelyDropped(skip, r, rate)
  {
    AtLeastTwo(z, r.rate, r.having);
    DropArithmetic(rate, z, mark, skip, r.having, r.rate);
    SameRate(skip, r, rate);
  }

  lemma SameRate(skip: nat, r: Reading, rate: nat)
    requires 0 < r.rate && 3 * skip * r.rate <= 2 * r.having * rate + 3 * r.rate
    ensures r.rate == rate ==> 3 * skip <= 2 * r.having + 3
  {
    if r.rate == rate {
      DivideOut(3 * skip, 2 * r.having + 3, rate);
    }
  }

  lemma AtLeastTwo(z: nat, rate: nat, having: nat)
    requires 2 <= z && z * rate <= having * 10
    ensures rate <= 5 * having
  {
    assert 2 * rate <= z * rate;
  }

  lemma DivideOut(x: int, y: int, k: nat)
    requires 0 < k && x * k <= y * k
    ensures x <= y
  {
    assert (x - y) * k <= 0;
  }

  /** The readings since the last pass, with the one a shrink is about to record. */
  function Readings(w: World): seq<Reading>
    requires w.pending.Some?
  {
    w.readings + [Reading(w.pending.value, w.buffer.rate)]
  }

  /** The decision of a pass over whole runs: it is taken exactly when the clock has started and
      twelve seconds are over, and what it leaves follows from the number of readings that fell
      into each tenth of a second since the last pass. */
  lemma PassDecision(es: seq<Event>, w: World, now: int, counts: seq<nat>)
    requires Reaches(es, w) && w.pending.Some?
    requires |counts| == BUCKETS && forall r <- Readings(w) :: 0 < r.rate
    requires forall i :: 0 <= i < BUCKETS ==> counts[i] == Count(Readings(w), i)
    ensures var w' := Step(w, Shrink(now));
            if w.tms != 0 && w.tms + 12000 <= now then
              && Decided(counts, w.buffer.cap, w.buffer.data, w'.buffer.data)
              && w'.passes == w.passes + [now] && w'.tms == now && w'.readings == []
            else
              && w'.buffer.data == w.buffer.data
              && w'.passes == w.passes && w'.readings == Readings(w)
              && w'.tms == if w.tms == 0 then now else w.tms
  {
    RunInv(es, w);
    RecordKeepsCounts(w, w.pending.value);
    var b := Record(w.buffer, w.pending.value);
    PassDecides(b);
    assert b.hist == counts;
  }

  /** The callback plays whatever there is, up to what it was asked for, oldest first. */
  lemma PlaysWhatThereIs(es: seq<Event>, w: World, requested: nat)
    requires Reaches(es, w)
    ensures var n := if |w.buffer.data| < requested then |w.buffer.data| else requested;
            var w' := Step(w, Play(requested));
            && w'.output == w.output + w.buffer.data[..n]
            && w'.buffer.data == w.buffer.data[n..]
  {
  }

  /** An append keeps all of the old and new samples, or the last three seconds of them. */
  lemma AppendKeepsAllItCan(es: seq<Event>, w: World, pcm: seq<Sample>)
    requires Reaches(es, w) && w.pending.None?
    ensures var all, w' := w.buffer.data + pcm, Step(w, Append(pcm));
            && w'.buffer.data == (if |all| <= 3 * w.buffer.rate then all else all[|all| - 3 * w.buffer.rate..])
            && w'.pending == Some(|w'.buffer.data|)
  {
    RunInv(es, w);
  }

  /** FIFO and conservation over any interleaving, resizes included: the ring is the end of
      the history, what was played is the history at increasing positions (so in order and at
      most once), and played, dropped and buffered samples add up to the appended ones. */
  lemma FifoConservation(es: seq<Event>, w: World)
    requires Reaches(es, w)
    ensures |w.output| + TotalOf(w.ledger, false) + |w.buffer.data| == |w.appended|
    ensures w.buffer.data == w.appended[|w.appended| - |w.buffer.data|..]
    ensures var ps := PlayedPositions(w.ledger);
            && Outputs(w.output, w.appended, ps)
            && (forall i, j :: 0 <= i < j < |ps| ==> ps[i] < ps[j])
            && (forall i :: 0 <= i < |ps| ==> ps[i] < |w.appended| - |w.buffer.data|)
  {
    RunInv(es, w);
    TotalsAdd(w.ledger);
  }

  /** Between passes each bucket holds the number of readings that fell into it, so the
      bucket sum is the number of recorded appends; passes are at least twelve seconds apart
      under any clock that never reads the sentinel 0, even one that runs backwards. */
  lemma HistogramOfRun(es: seq<Event>, w: World)
    requires Reaches(es, w)
    ensures Sum(w.buffer.hist) == |w.readings|
    ensures forall r <- w.readings :: 0 < r.rate
    ensures forall i :: 0 <= i < BUCKETS ==> w.buffer.hist[i] == Count(w.readings, i)
    ensures 0 !in w.passes ==>
              forall i, j :: 0 <= i < j < |w.passes| ==>
                               w.passes[i] + PASS_INTERVAL_MS <= w.passes[j]
  {
    RunInv(es, w);
    if 0 !in w.passes {
      forall i, j | 0 <= i < j < |w.passes|
        ensures w.passes[i] + PASS_INTERVAL_MS <= w.passes[j]
      {
        PassesFarApart(w, i, j);
      }
    }
  }

  lemma {:induction false} PassesFarApart(w: World, i: nat, j: nat)
    requires PassesSpaced(w) && 0 !in w.passes
    requires i < j < |w.passes|
    ensures w.passes[i] + PASS_INTERVAL_MS <= w.passes[j]
    decreases j
  {
    assert w.passes[j - 1] in w.passes;
    if i < j - 1 {
      PassesFarApart(w, i, j - 1);
    }
  }

  // --- frame alignment ---

  /** Input, requests and stream configuration are in whole frames of `c` channels. */
  predicate FrameAligned(e: Event, c: nat)
    requires 0 < c
  {
    match e
    case Append(pcm) => |pcm| % c == 0
    case Play(requested) => requested % c == 0
    case Resize(_, channels) => channels == c
    case Shrink(_) => true
    case Elsewhere(_) => true
  }

  ghost predicate Aligned(w: World, c: nat)
    requires 0 < c
  {
    && w.buffer.cap % c == 0
    && |w.buffer.data| % c == 0
    && forall p <- w.ledger :: p.len % c == 0
  }

  lemma ResizeAligned(w: World, sampleRate: nat, c: nat)
    requires Inv(w) && (c == 1 || c == 2) && Aligned(w, c)
    requires Enabled(w, Resize(sampleRate, c))
    ensures Aligned(Step(w, Resize(sampleRate, c)), c)
  {
    ResizeRecomputes(w.buffer, sampleRate, c);
    var w' := Step(w, Resize(sampleRate, c));
    WholeCapacity(sampleRate, c);
    var n := |w.buffer.data| - |w'.buffer.data|;
    assert n == 0 || n == |w.buffer.data|;
    RemovalAligned(w, w', n, false, c);
  }

  lemma WholeCapacity(sampleRate: nat, c: nat)
    requires c == 1 || c == 2
    ensures Capacity(sampleRate, c) % c == 0
  {
    var cap := Capacity(sampleRate, c);
    if c == 1 {
      assert cap % 1 == 0;
    } else {
      assert cap == 3 * (sampleRate * 2) == 2 * (3 * sampleRate);
    }
  }

  lemma StepAligned(w: World, e: Event, c: nat)
    requires Inv(w) && Enabled(w, e)
    requires (c == 1 || c == 2) && Aligned(w, c) && FrameAligned(e, c)
    ensures Aligned(Step(w, e), c)
  {
    match e {
      case Resize(sampleRate, _) => ResizeAligned(w, sampleRate, c);
      case Shrink(now) => ShrinkAligned(w, now, c);
      case Append(pcm) => AppendAligned(w, pcm, c);
      case Play(requested) => PlayAligned(w, requested, c);
      case Elsewhere(_) =>
    }
  }

  lemma PlayAligned(w: World, requested: nat, c: nat)
    requires w.buffer.Valid() && (c == 1 || c == 2) && Aligned(w, c) && requested % c == 0
    ensures Aligned(Step(w, Play(requested)), c)
  {
    var n := PlayedCount(w.buffer, requested);
    assert n % c == 0;
    WholeFrames(|w.buffer.data|, 0, n, c);
    RemovalAligned(w, Step(w, Play(requested)), n, true, c);
  }

  lemma AppendAligned(w: World, pcm: seq<Sample>, c: nat)
    requires Inv(w) && Enabled(w, Append(pcm))
    requires (c == 1 || c == 2) && Aligned(w, c) && |pcm| % c == 0
    ensures Aligned(Step(w, Append(pcm)), c)
  {
    var w' := Step(w, Append(pcm));
    var total, kept := |w.buffer.data| + |pcm|, |w'.buffer.data|;
    assert kept == if total <= w.buffer.cap then total else w.buffer.cap;
    WholeFrames(|w.buffer.data|, |pcm|, w.buffer.cap, c);
    WholeFrames(|w.buffer.data|, |pcm|, total, c);
    RemovalAligned(w, w', total - kept, false, c);
  }

  lemma RemovalAligned(w: World, w': World, n: nat, played: bool, c: nat)
    requires 0 < c && Aligned(w, c) && n % c == 0
    requires w'.buffer.cap % c == 0 && |w'.buffer.data| % c == 0
    requires w'.ledger == Removed(w, n, played)
    ensures Aligned(w', c)
  {
  }

  lemma WholeFrames(x: nat, y: nat, cap: nat, c: nat)
    requires (c == 1 || c == 2) && x % c == 0 && y % c == 0 && cap % c == 0
    ensures (x + y) % c == 0 && (cap <= x + y ==> (x + y - cap) % c == 0)
  {
  }

  lemma ShrinkAligned(w: World, now: int, c: nat)
    requires Inv(w) && Enabled(w, Shrink(now))
    requires (c == 1 || c == 2) && Aligned(w, c)
    ensures Aligned(Step(w, Shrink(now)), c)
  {
    var n := Dropped(w, now);
    assert n == 0 || n == Skip(Record(w.buffer, w.pending.value));
    DropAligned(w, n, Step(w, Shrink(now)), c);
  }

  lemma DropAligned(w: World, n: nat, w': World, c: nat)
    requires (c == 1 || c == 2) && Aligned(w, c) && n % 2 == 0 && n <= |w.buffer.data|
    requires w'.buffer.cap == w.buffer.cap && |w'.buffer.data| == |w.buffer.data| - n
    requires w'.ledger == Removed(w, n, false)
    ensures Aligned(w', c)
  {
    assert n % c == 0;
  }

  /** In every run of mono or stereo frames, every removal from the front - played, dropped
      by a pass, or pushed out - is a whole number of frames. */
  lemma {:induction false} RunAligned(es: seq<Event>, w: World, c: nat)
    requires Reaches(es, w) && (c == 1 || c == 2)
    requires forall e <- es :: FrameAligned(e, c)
    ensures |w.buffer.data| % c == 0 && forall p <- w.ledger :: p.len % c == 0
    ensures Aligned(w, c)
    decreases |es|
  {
    if es != [] {
      var v := Run(es[..|es| - 1]).value;
      RunAligned(es[..|es| - 1], v, c);
      RunInv(es[..|es| - 1], v);
      StepAligned(v, es[|es| - 1], c);
    }
  }

  /** The channel count must stay the same: a resize from mono to stereo at half the rate
      keeps the ring, and with it an odd number of samples. It keeps the ring aligned to the
      new frames exactly when it reallocates or the buffered samples are whole frames. */
  lemma ResizeAlignmentCondition(b: Buffer, sampleRate: nat, channels: nat)
    requires b.Valid() && 0 < sampleRate && 0 < channels
    ensures |Audio.Resize(b, sampleRate, channels).data| % channels == 0
       <==> b.rate != sampleRate * channels || |b.data| % channels == 0
    ensures var mono := Audio.Append(Audio.Resize(Default(), 48000, 1), [1.0]);
            |mono.data| % 1 == 0 && |Audio.Resize(mono, 24000, 2).data| % 2 != 0
  {
    assert 0 < sampleRate * channels;
    ResizeRecomputes(b, sampleRate, channels);
    var mono := Audio.Append(Audio.Resize(Default(), 48000, 1), [1.0]);
    assert mono.data == [1.0];
  }
}
