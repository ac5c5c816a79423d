/** The jitter buffer of src/client.rs as a value: what each call of `AudioBuffer` and
    of the playback callback does to the ring, the rate and the occupancy histogram. */
module Audio {

  const AUDIO_BUFFER_MS := 3000
  const BUCKETS := 30
  const PASS_INTERVAL_MS := 12000
  // The divisor `N` of a pass: a quarter of the chosen water mark may be dropped.
  const QUARTER := 4

  type Sample = real

  datatype Buffer = Buffer(cap: nat, rate: nat, data: seq<Sample>, hist: seq<nat>) {
    /** The capacity is three seconds of samples; nothing else keeps the drop bound true. */
    ghost predicate Valid() {
      && 0 < rate
      && cap == 3 * rate
      && |data| <= cap
      && |hist| == BUCKETS
    }
  }

  function Capacity(sampleRate: nat, channels: nat): (cap: nat)
    ensures cap == 3 * (sampleRate * channels)
  {
    sampleRate * channels * AUDIO_BUFFER_MS / 1000
  }

  function EmptyHistogram(): (h: seq<nat>)
    ensures |h| == BUCKETS && forall i :: 0 <= i < BUCKETS ==> h[i] == 0
  {
    seq(BUCKETS, _ => 0)
  }

  /** `Default`: 48000 Hz, two channels. */
  function Default(): (b: Buffer)
    ensures b.Valid() && b.data == [] && b.rate == 96000
    ensures forall i :: 0 <= i < BUCKETS ==> b.hist[i] == 0
  {
    Buffer(Capacity(48000, 2), 48000 * 2, [], EmptyHistogram())
  }

  function Last(s: seq<Sample>, n: nat): (r: seq<Sample>)
    ensures |r| == if |s| <= n then |s| else n
  {
    if |s| <= n then s else s[|s| - n..]
  }

  function Resize(b: Buffer, sampleRate: nat, channels: nat): Buffer {
    var capacity := Capacity(sampleRate, channels);
    if capacity == b.cap then b
    else b.(cap := capacity, rate := sampleRate * channels, data := [])
  }

  function Append(b: Buffer, pcm: seq<Sample>): Buffer {
    b.(data := Last(b.data + pcm, b.cap))
  }

  function Bucket(having: nat, rate: nat): (i: nat)
    requires 0 < rate
    ensures i < BUCKETS
    ensures forall z: nat :: z <= i ==> z * rate <= having * 10
    ensures i < BUCKETS - 1 ==> having * 10 < (i + 1) * rate
  {
    var i := having * 10 / rate;
    BucketBound(having, rate);
    if i > BUCKETS - 1 then BUCKETS - 1 else i
  }

  lemma BucketBound(having: nat, rate: nat)
    requires 0 < rate
    ensures forall z: nat :: z <= having * 10 / rate ==> z * rate <= having * 10
    ensures having * 10 < (having * 10 / rate + 1) * rate
  {
  }

  function Record(b: Buffer, having: nat): Buffer
    requires b.Valid()
  {
    var i := Bucket(having, b.rate);
    b.(hist := b.hist[i := b.hist[i] + 1])
  }

  /** The number of leading empty buckets. */
  function LeadingEmpty(h: seq<nat>): (z: nat)
    ensures z <= |h|
    ensures forall i :: 0 <= i < z ==> h[i] == 0
    ensures z < |h| ==> h[z] != 0
  {
    if h == [] || h[0] != 0 then 0 else 1 + LeadingEmpty(h[1..])
  }

  ghost predicate IsMode(h: seq<nat>, m: nat) {
    if forall i :: 1 <= i < |h| ==> h[i] == 0 then m == 0
    else
      && 1 <= m < |h|
      && 0 < h[m]
      && (forall i :: 1 <= i < |h| ==> h[i] <= h[m])
      && (forall i :: 1 <= i < m ==> h[i] < h[m])
  }

  /** The least index of the maximum over the buckets from 1 on, 0 if those are empty. */
  function Mode(h: seq<nat>): (m: nat)
    ensures IsMode(h, m)
    ensures m == 0 || m < |h|
  {
    if |h| <= 1 then 0
    else
      var last := |h| - 1;
      var m := Mode(h[..last]);
      if h[last] > (if m == 0 then 0 else h[m]) then last else m
  }

  lemma ModeIsUnique(h: seq<nat>, m: nat)
    requires IsMode(h, m)
    ensures m == Mode(h)
  {
  }

  ghost predicate IsLeading(h: seq<nat>, z: nat) {
    z <= |h| && (forall i :: 0 <= i < z ==> h[i] == 0) && (z < |h| ==> h[z] != 0)
  }

  lemma LeadingIsUnique(h: seq<nat>, z: nat)
    requires IsLeading(h, z)
    ensures z == LeadingEmpty(h)
  {
  }

  function WaterMark(h: seq<nat>): (m: nat)
    ensures m <= QUARTER * (LeadingEmpty(h) * 2 / 3)
  {
    var zero := LeadingEmpty(h) * 2 / 3;
    var max := Mode(h);
    if max < 6 then 0
    else if max > zero * QUARTER then zero * QUARTER
    else max
  }

  /** Clearing the lowest bit of `n + 1`, the `(n + 1) & !1` of the source. */
  function RoundUpToEven(n: nat): (r: nat)
    ensures r % 2 == 0 && n <= r <= n + 1
  {
    (n + 1) / 2 * 2
  }

  /** The samples a water mark allows to drop: a quarter of its share of the capacity. */
  function DropSize(cap: nat, mark: nat): (skip: nat)
    ensures skip % 2 == 0
    ensures skip <= cap * mark / (BUCKETS * QUARTER) + 1
    ensures mark == 0 ==> skip == 0
  {
    RoundUpToEven(cap * mark / (BUCKETS * QUARTER))
  }

  /** How many samples a statistics pass drops from the front. */
  function Skip(b: Buffer): (skip: nat)
    ensures skip > 0 ==> |b.data| > 3 * skip && 0 < WaterMark(b.hist)
    ensures skip % 2 == 0
    ensures skip <= b.cap * WaterMark(b.hist) / (BUCKETS * QUARTER) + 1
  {
    var skip := DropSize(b.cap, WaterMark(b.hist));
    if |b.data| > skip * 3 && skip > 0 then skip else 0
  }

  function Pass(b: Buffer): Buffer {
    b.(data := b.data[Skip(b)..], hist := EmptyHistogram())
  }

  /** What a pass leaves of the samples, read off the counts: all of them if most readings fell
      below 600 ms; otherwise the mark is the smaller of the mode and four times two thirds of
      the leading empty buckets, and its quarter share of the capacity, rounded up to an even
      number, goes if more than three times as much is there. */
  ghost predicate Decided(h: seq<nat>, cap: nat, before: seq<Sample>, after: seq<Sample>) {
    forall m, z | IsMode(h, m) && IsLeading(h, z) ::
      if m < 6 then after == before
      else
        var w := if m <= 4 * (z * 2 / 3) then m else 4 * (z * 2 / 3);
        var q := cap * w / 120;
        var n := if q % 2 == 0 then q else q + 1;
        after == if 0 < n && 3 * n < |before| then before[n..] else before
  }

  lemma EvenAbove(q: nat)
    ensures RoundUpToEven(q) == if q % 2 == 0 then q else q + 1
  {
  }

  /** The decision of a pass, and the empty histogram it leaves. */
  lemma PassDecides(b: Buffer)
    requires |b.hist| == BUCKETS
    ensures Decided(b.hist, b.cap, b.data, Pass(b).data)
    ensures Pass(b).cap == b.cap && Pass(b).rate == b.rate
    ensures forall i :: 0 <= i < BUCKETS ==> Pass(b).hist[i] == 0
  {
    forall m, z | IsMode(b.hist, m) && IsLeading(b.hist, z) ensures m == Mode(b.hist) && z == LeadingEmpty(b.hist) {
      ModeIsUnique(b.hist, m);
      LeadingIsUnique(b.hist, z);
    }
    var q := b.cap * WaterMark(b.hist) / (BUCKETS * QUARTER);
    EvenAbove(q);
    assert b.data[0..] == b.data;
  }

  /** What the process-wide `tms` decides about a call of `try_shrink` at time `now`. */
  predicate PassDue(tms: int, now: int) {
    tms != 0 && tms + PASS_INTERVAL_MS <= now
  }

  function NextTms(tms: int, now: int): int {
    if tms == 0 || PassDue(tms, now) then now else tms
  }

  function TryShrink(b: Buffer, having: nat, tms: int, now: int): Buffer
    requires b.Valid()
  {
    if PassDue(tms, now) then Pass(Record(b, having)) else Record(b, having)
  }

  function PlayedCount(b: Buffer, requested: nat): (n: nat)
    ensures n <= |b.data| && n <= requested && (n == |b.data| || n == requested)
  {
    if |b.data| < requested then |b.data| else requested
  }

  function Play(b: Buffer, requested: nat): Buffer {
    b.(data := b.data[PlayedCount(b, requested)..])
  }

  /** Keeping the old ring when the capacity is unchanged loses nothing: the rate and
      the capacity are the ones that recomputing both would store. */
  lemma ResizeRecomputes(b: Buffer, sampleRate: nat, channels: nat)
    requires b.Valid() && 0 < sampleRate * channels
    ensures var r := Resize(b, sampleRate, channels);
            && r.Valid()
            && r.rate == sampleRate * channels
            && r.cap == Capacity(sampleRate, channels)
            && r.hist == b.hist
            && (r.data == if r.rate == b.rate then b.data else [])
  {
  }

  /** The arithmetic of a drop: a water mark below four times two thirds of the leading
      empty buckets takes at most two thirds of an occupancy recorded above them. */
  lemma DropArithmetic(rate: nat, z: nat, mark: nat, skip: nat, m: nat, r: nat)
    requires mark <= QUARTER * (z * 2 / 3)
    requires skip <= 3 * rate * mark / (BUCKETS * QUARTER) + 1
    requires z * r <= m * 10
    ensures 3 * skip * r <= 2 * m * rate + 3 * r
  {
    assert 3 * mark <= 8 * z;
    assert 15 * (skip - 1) <= rate * z by {
      assert 40 * (skip - 1) <= rate * mark;
      assert rate * (3 * mark) <= rate * (8 * z);
    }
    calc {
      15 * (skip - 1) * r;
    <= { Scale(15 * (skip - 1), rate * z, r); }
      rate * z * r;
    ==
      rate * (z * r);
    <= { Scale(z * r, m * 10, rate); }
      rate * (m * 10);
    }
  }

  lemma Scale(x: int, y: int, k: nat)
    requires x <= y
    ensures x * k <= y * k
  {
  }
}
