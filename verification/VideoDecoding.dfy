/** The decoder failure counter of `VideoHandler` and the marking of unsupported formats in
    the video thread (src/client.rs). */
module VideoDecoding {
  import opened Options

  const MAX_DECODE_FAIL_COUNTER := 3
  const USIZE_MAX: nat := 0xFFFF_FFFF_FFFF_FFFF

  datatype Format = VP8 | VP9 | AV1 | H264 | H265 | Unknown

  /** A received frame; `decodes` is whether the decoder returns `Ok(true)` for it. */
  datatype VideoFrame = VideoFrame(format: Format, hasData: bool, decodes: bool)

  /** `valid` is what the decoder library says of a newly made decoder. */
  datatype Handler = Handler(format: Format, valid: bool, failCounter: nat, firstFrame: bool)

  function NewHandler(format: Format, valid: bool): Handler {
    Handler(format, valid, 0, true)
  }

  function Failed(h: Handler): nat {
    if h.failCounter < USIZE_MAX then
      if h.firstFrame && h.failCounter < MAX_DECODE_FAIL_COUNTER then MAX_DECODE_FAIL_COUNTER
      else h.failCounter + 1
    else h.failCounter
  }

  function Decoded(h: Handler, ok: bool): Handler {
    h.(failCounter := if ok then 0 else Failed(h), firstFrame := false)
  }

  function AfterFrame(h: Handler, vf: VideoFrame, valid: bool): Handler {
    var h' := if vf.format != h.format then NewHandler(vf.format, valid) else h;
    if vf.hasData then Decoded(h', vf.decodes) else h'
  }

  predicate Unsupported(h: Handler) {
    !h.valid || h.failCounter >= MAX_DECODE_FAIL_COUNTER
  }

  class VideoHandler {
    var format: Format
    var valid: bool
    var failCounter: nat
    var firstFrame: bool

    ghost function State(): Handler
      reads this
    {
      Handler(format, valid, failCounter, firstFrame)
    }

    constructor (format: Format, valid: bool)
      ensures State() == NewHandler(format, valid)
    {
      this.format, this.valid, failCounter, firstFrame := format, valid, 0, true;
    }

    method Reset(format: Format, valid: bool)
      modifies this
      ensures State() == NewHandler(format, valid)
    {
      this.format, this.valid := format, valid;
      failCounter := 0;
      firstFrame := true;
    }

    method HandleFrame(vf: VideoFrame, newValid: bool) returns (ok: bool)
      modifies this
      ensures State() == AfterFrame(old(State()), vf, newValid)
      ensures ok <==> vf.hasData && vf.decodes
    {
      if vf.format != format {
        Reset(vf.format, newValid);
      }
      if !vf.hasData {
        return false;
      }
      if vf.decodes {
        failCounter := 0;
      } else if failCounter < USIZE_MAX {
        if firstFrame && failCounter < MAX_DECODE_FAIL_COUNTER {
          failCounter := MAX_DECODE_FAIL_COUNTER;
        } else {
          failCounter := failCounter + 1;
        }
      }
      firstFrame := false;
      ok := vf.decodes;
    }
  }

  // --- the counter is a function of the history ---

  function TrailingFailures(outcomes: seq<bool>): (k: nat)
    ensures k <= |outcomes|
  {
    if outcomes == [] || outcomes[|outcomes| - 1] then 0
    else 1 + TrailingFailures(outcomes[..|outcomes| - 1])
  }

  function Saturated(n: nat): nat {
    if n < USIZE_MAX then n else USIZE_MAX
  }

  /** What the counter shows after the outcomes since the last reset: the trailing failures,
      or two more than the frames when all of them failed. */
  function Shown(outcomes: seq<bool>): nat {
    var n, k := |outcomes|, TrailingFailures(outcomes);
    if k < n || n == 0 then Saturated(k) else Saturated(n + 2)
  }

  ghost predicate Reflects(h: Handler, outcomes: seq<bool>) {
    h.failCounter == Shown(outcomes) && (h.firstFrame <==> outcomes == [])
  }

  lemma {:induction false} DecodedReflects(h: Handler, outcomes: seq<bool>, ok: bool)
    requires Reflects(h, outcomes)
    ensures Reflects(Decoded(h, ok), outcomes + [ok])
  {
  }

  /** The count condition, read off the history: the first frame and all since failed, or the
      last three or more did. */
  lemma {:induction false} CountCondition(h: Handler, outcomes: seq<bool>)
    requires Reflects(h, outcomes)
    ensures h.failCounter >= MAX_DECODE_FAIL_COUNTER
       <==> (outcomes != [] && true !in outcomes) || TrailingFailures(outcomes) >= 3
  {
    AllFailed(outcomes);
  }

  lemma {:induction false} AllFailed(outcomes: seq<bool>)
    ensures TrailingFailures(outcomes) == |outcomes| <==> true !in outcomes
  {
    if outcomes != [] {
      var n := |outcomes| - 1;
      AllFailed(outcomes[..n]);
      assert outcomes == outcomes[..n] + [outcomes[n]];
    }
  }

  // --- the video thread ---

  /** One display's thread. `outcomes` are those since the current decoder was made. The marked
      formats are one list for all displays, and `updates` counts the messages by which any of
      their threads told the peer about a change of the supported formats. */
  datatype Thread = Thread(handler: Option<Handler>, outcomes: seq<bool>, marked: seq<Format>, updates: nat)

  /** `Elsewhere` is another display's thread finding a format unsupported. */
  datatype Event = Received(vf: VideoFrame, valid: bool) | Reset(valid: bool) | Elsewhere(format: Format)

  /** Marking under the lock of the shared list. */
  function Marked(t: Thread, format: Format): Thread {
    if format in t.marked then t else t.(marked := t.marked + [format], updates := t.updates + 1)
  }

  function Current(t: Thread, vf: VideoFrame, valid: bool): Handler {
    if t.handler.Some? then t.handler.value else NewHandler(vf.format, valid)
  }

  function OutcomesAfter(t: Thread, vf: VideoFrame): seq<bool> {
    var kept := if t.handler.Some? && t.handler.value.format == vf.format then t.outcomes else [];
    if vf.hasData then kept + [vf.decodes] else kept
  }

  function Step(t: Thread, e: Event): Thread {
    match e
    case Reset(valid) =>
      if t.handler.Some? then t.(handler := Some(NewHandler(t.handler.value.format, valid)), outcomes := []) else t
    case Received(vf, valid) =>
      var h := AfterFrame(Current(t, vf, valid), vf, valid);
      var t' := t.(handler := Some(h), outcomes := OutcomesAfter(t, vf));
      if Unsupported(h) then Marked(t', h.format) else t'
    case Elsewhere(format) => Marked(t, format)
  }

  ghost predicate NoDuplicates(s: seq<Format>) {
    forall i, j :: 0 <= i < j < |s| ==> s[i] != s[j]
  }

  ghost predicate Inv(t: Thread, before: nat) {
    && (t.handler.Some? ==> Reflects(t.handler.value, t.outcomes))
    && NoDuplicates(t.marked)
    && t.updates + before == |t.marked|
  }

  lemma {:induction false} MarkedInv(t: Thread, format: Format, before: nat)
    requires Inv(t, before)
    ensures Inv(Marked(t, format), before)
  {
  }

  lemma {:induction false} FrameInv(t: Thread, vf: VideoFrame, valid: bool, before: nat)
    requires Inv(t, before)
    ensures Inv(t.(handler := Some(AfterFrame(Current(t, vf, valid), vf, valid)), outcomes := OutcomesAfter(t, vf)), before)
  {
    var h := Current(t, vf, valid);
    var kept := if t.handler.Some? && h.format == vf.format then t.outcomes else [];
    var h' := if vf.format != h.format then NewHandler(vf.format, valid) else h;
    assert Reflects(h', kept);
    if vf.hasData {
      DecodedReflects(h', kept, vf.decodes);
    }
  }

  lemma {:induction false} StepInv(t: Thread, e: Event, before: nat)
    requires Inv(t, before)
    ensures Inv(Step(t, e), before)
  {
    match e
    case Reset(_) =>
    case Elsewhere(format) => MarkedInv(t, format, before);
    case Received(vf, valid) =>
      var h := AfterFrame(Current(t, vf, valid), vf, valid);
      FrameInv(t, vf, valid, before);
      MarkedInv(t.(handler := Some(h), outcomes := OutcomesAfter(t, vf)), h.format, before);
  }

  function Run(t: Thread, es: seq<Event>): Thread {
    if es == [] then t else Step(Run(t, es[..|es| - 1]), es[|es| - 1])
  }

  lemma {:induction false} RunInv(t: Thread, es: seq<Event>, before: nat)
    requires Inv(t, before)
    ensures Inv(Run(t, es), before)
  {
    if es != [] {
      RunInv(t, es[..|es| - 1], before);
      StepInv(Run(t, es[..|es| - 1]), es[|es| - 1], before);
    }
  }

  datatype Made = Made(format: Format, valid: bool)

  /** The decoder made last: one is made for the first frame, for a frame of another format and
      at a reset, and the library says then whether it is valid. */
  function LastMade(es: seq<Event>): Option<Made> {
    if es == [] then None
    else
      var before := LastMade(es[..|es| - 1]);
      match es[|es| - 1]
      case Received(vf, valid) =>
        if before.Some? && before.value.format == vf.format then before else Some(Made(vf.format, valid))
      case Reset(valid) => if before.Some? then Some(Made(before.value.format, valid)) else None
      case Elsewhere(_) => before
  }

  lemma {:induction false} CurrentDecoder(marked: seq<Format>, es: seq<Event>)
    ensures var h, made := Run(Thread(None, [], marked, 0), es).handler, LastMade(es);
            && (h.Some? <==> made.Some?)
            && (h.Some? ==> h.value.format == made.value.format && h.value.valid == made.value.valid)
  {
    if es != [] {
      CurrentDecoder(marked, es[..|es| - 1]);
    }
  }

  /** Failure history. After every run of the thread from its start, with the other displays'
      threads marking formats in between, the counter shows the history since the last reset,
      the marked formats are distinct and one update was sent per format added; and the next
      frame marks its format exactly when it is not marked and its decoder is invalid, or all
      frames since the reset failed, or the last three did. */
  lemma {:induction false} FailureHistory(marked: seq<Format>, es: seq<Event>, vf: VideoFrame, valid: bool)
    requires NoDuplicates(marked)
    ensures var t := Run(Thread(None, [], marked, 0), es);
            var t' := Step(t, Received(vf, valid));
            var h, made := t'.handler.value, LastMade(es + [Received(vf, valid)]);
            && h.failCounter == Shown(t'.outcomes) && h.format == vf.format
            && made == Some(Made(h.format, h.valid))
            && NoDuplicates(t'.marked)
            && t'.updates + |marked| == |t'.marked|
            && (t'.marked != t.marked <==>
                  && vf.format !in t.marked
                  && (!made.value.valid || (t'.outcomes != [] && true !in t'.outcomes)
                      || TrailingFailures(t'.outcomes) >= 3))
  {
    var start := Thread(None, [], marked, 0);
    var t := Run(start, es);
    RunInv(start, es, |marked|);
    StepInv(t, Received(vf, valid), |marked|);
    var t' := Step(t, Received(vf, valid));
    CountCondition(t'.handler.value, t'.outcomes);
    var all := es + [Received(vf, valid)];
    assert all[..|all| - 1] == es;
    CurrentDecoder(marked, all);
  }
}
