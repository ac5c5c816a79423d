/** `AudioBuffer` of src/client.rs in its own form: fields changed in place, the histogram
    scan over a fixed array, and the playback callback that fills the device's slice. */
module AudioBuffers {
  import opened Audio

  /** The process-wide `static mut tms`, shared by every buffer. */
  class PassClock {
    var tms: int

    constructor ()
      ensures tms == 0
    {
      tms := 0;
    }
  }

  class AudioBuffer {
    var cap: nat
    var rate: nat
    var ring: seq<Sample>
    const hist: array<nat>
    const clock: PassClock

    ghost function State(): Buffer
      reads this, hist
    {
      Buffer(cap, rate, ring, hist[..])
    }

    ghost predicate Valid()
      reads this, hist
    {
      State().Valid()
    }

    constructor (clock: PassClock)
      ensures Valid() && State() == Default() && this.clock == clock && fresh(hist)
    {
      cap, rate, ring := Capacity(48000, 2), 48000 * 2, [];
      hist := new nat[BUCKETS](_ => 0);
      this.clock := clock;
      new;
      assert hist[..] == EmptyHistogram();
    }

    method Resize(sampleRate: nat, channels: nat)
      requires Valid() && 0 < sampleRate * channels
      modifies this
      ensures Valid() && State() == Audio.Resize(old(State()), sampleRate, channels)
      ensures rate == sampleRate * channels && cap == Capacity(sampleRate, channels)
    {
      ResizeRecomputes(State(), sampleRate, channels);
      var capacity := Capacity(sampleRate, channels);
      if capacity != cap {
        ring := [];
        cap := capacity;
        rate := sampleRate * channels;
      }
    }

    /** `append_pcm2`: both branches leave the last `cap` samples of old and new. */
    method AppendPcm2(pcm: seq<Sample>) returns (having: nat)
      requires Valid()
      modifies this`ring
      ensures Valid() && State() == Audio.Append(old(State()), pcm)
      ensures var all := old(ring) + pcm;
              ring == if |all| <= cap then all else all[|all| - cap..]
      ensures having == |ring|
    {
      ghost var all := ring + pcm;
      if |pcm| > cap {
        ring := pcm[|pcm| - cap..];
        assert ring == all[|all| - cap..];
        return cap;
      }
      having := |ring| + |pcm|;
      if having > cap {
        ring := ring[having - cap..];
        assert ring + pcm == all[having - cap..];
      }
      ring := ring + pcm;
      having := |ring|;
    }

    method TryShrink(having: nat, now: int)
      requires Valid()
      modifies this`ring, hist, clock
      ensures Valid() && State() == Audio.TryShrink(old(State()), having, old(clock.tms), now)
      ensures clock.tms == NextTms(old(clock.tms), now)
      ensures var t := old(clock.tms);
              && clock.tms == (if t == 0 || t + 12000 <= now then now else t)
              && (t == 0 || now < t + 12000 ==>
                    && ring == old(ring)
                    && forall i :: 0 <= i < BUCKETS ==>
                         hist[i] == old(hist[i]) + if i == Bucket(having, rate) then 1 else 0)
    {
      var i := having * 10 / rate;
      if i > BUCKETS - 1 {
        i := BUCKETS - 1;
      }
      assert i == Bucket(having, rate);
      hist[i] := hist[i] + 1;
      ghost var b := Record(old(State()), having);
      assert hist[..] == b.hist;

      if clock.tms == 0 {
        clock.tms := now;
        return;
      } else if now < clock.tms + PASS_INTERVAL_MS {
        return;
      }
      clock.tms := now;
      RunPass();
    }

    /** The statistics pass: clears the histogram, then drops from the front. */
    method RunPass()
      requires Valid()
      modifies this`ring, hist
      ensures Valid() && State() == Pass(old(State()))
      ensures Decided(old(hist[..]), cap, old(ring), ring)
    {
      ghost var b := State();
      PassDecides(b);
      assert b.data[0..] == b.data;
      var zero, max := Scan(hist);
      assert hist[..] == EmptyHistogram();
      zero := zero * 2 / 3;
      if max < 6 {
        return;
      } else if max > zero * QUARTER {
        max := zero * QUARTER;
      }
      assert max == WaterMark(b.hist);
      var skip := DropSize(cap, max);
      if |ring| > skip * 3 && skip > 0 {
        ring := ring[skip..];
      }
    }

    method AppendPcm(pcm: seq<Sample>, now: int)
      requires Valid()
      modifies this`ring, hist, clock
      ensures Valid()
      ensures var b := Audio.Append(old(State()), pcm);
              State() == Audio.TryShrink(b, |b.data|, old(clock.tms), now)
      ensures clock.tms == NextTms(old(clock.tms), now)
    {
      var having := AppendPcm2(pcm);
      TryShrink(having, now);
    }

    /** The playback callback: pops what there is, pads the rest with silence. */
    method FillOutput(data: array<Sample>)
      requires Valid()
      modifies this`ring, data
      ensures Valid() && State() == Audio.Play(old(State()), data.Length)
      ensures var n := if old(|ring|) < data.Length then old(|ring|) else data.Length;
              && ring == old(ring)[n..]
              && data[..n] == old(ring)[..n]
              && forall k :: n <= k < data.Length ==> data[k] == 0.0
    {
      var n := data.Length;
      if |ring| < n {
        n := |ring|;
      }
      var elems := ring[..n];
      ring := ring[n..];
      for k := 0 to data.Length
        modifies data
        invariant forall j :: 0 <= j < k ==> data[j] == if j < n then elems[j] else 0.0
      {
        data[k] := if k < n then elems[k] else 0.0;
      }
    }
  }

  /** The histogram scan: it finds both water marks while clearing the buckets in place. */
  method Scan(hist: array<nat>) returns (zero: nat, max: nat)
    requires hist.Length == BUCKETS
    modifies hist
    ensures zero == LeadingEmpty(old(hist[..])) && max == Mode(old(hist[..]))
    ensures forall i :: 0 <= i < BUCKETS ==> hist[i] == 0
  {
    zero, max := 0, 0;
    ghost var h := hist[..];
    for i := 0 to BUCKETS
      invariant zero <= i && (forall j :: 0 <= j < zero ==> h[j] == 0) && (zero < i ==> h[zero] != 0)
      invariant max < BUCKETS && (max == 0 || max < i)
      invariant IsMode(h[..i], max)
      invariant forall j :: i <= j < BUCKETS ==> hist[j] == h[j]
      invariant forall j :: 0 <= j < i && j != max ==> hist[j] == 0
      invariant 0 < i ==> hist[max] == if max == 0 then 0 else h[max]
    {
      if hist[i] == 0 && zero == i {
        zero := zero + 1;
      }
      if hist[i] > hist[max] {
        hist[max] := 0;
        max := i;
      } else {
        hist[i] := 0;
      }
    }
    hist[max] := 0;
    assert h[..BUCKETS] == h;
    ModeIsUnique(h, max);
    LeadingIsUnique(h, zero);
  }
}
