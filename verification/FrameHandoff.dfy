/** The one-slot frame hand-off of src/flutter.rs: a decoder thread per display stores frames
    by swapping buffers, a `valid` flag guards the slot until the user interface took it. */
module FrameHandoff {

  type Display = nat
  type SessionId = nat
  type BufferId = nat
  type Frame = nat

  /** `RgbaData`, with the identity of its buffer instead of the bytes. */
  datatype Slot = Slot(buffer: BufferId, valid: bool)

  datatype Handler = Handler(displays: seq<Display>, hasStream: bool)

  datatype Stored = Stored(slots: map<Display, Slot>, raw: BufferId, stored: bool)

  /** The first locked part of `on_rgba_soft_render`: give up on a valid slot, otherwise swap
      the frame in. A missing slot is made with a new empty buffer. */
  function Store(slots: map<Display, Slot>, d: Display, raw: BufferId, spare: BufferId): Stored {
    if d in slots then
      if slots[d].valid then Stored(slots, raw, false)
      else Stored(slots[d := Slot(raw, true)], slots[d].buffer, true)
    else Stored(slots[d := Slot(raw, true)], spare, true)
  }

  /** The sessions told about a frame of display `d`. */
  function Recipients(handlers: map<SessionId, Handler>, d: Display, multi: bool): set<SessionId> {
    set s | s in handlers && Notified(handlers[s], d, multi)
  }

  predicate Notified(h: Handler, d: Display, multi: bool) {
    |h.displays| <= 1 && (multi ==> d in h.displays) && h.hasStream
  }

  /** With several sessions, those of this display alone; with one session, one of at most one
      display. Either way, one with a stream to tell. */
  predicate Listens(h: Handler, d: Display, several: bool) {
    h.hasStream && if several then h.displays == [d] else |h.displays| <= 1
  }

  lemma RecipientsListen(handlers: map<SessionId, Handler>, d: Display, multi: bool)
    ensures forall s :: s in Recipients(handlers, d, multi) <==> s in handlers && Listens(handlers[s], d, multi)
  {
    forall s | s in handlers ensures Notified(handlers[s], d, multi) <==> Listens(handlers[s], d, multi) {
      var ds := handlers[s].displays;
      if |ds| == 1 {
        assert ds == [ds[0]];
      }
    }
  }

  /** `next_rgba`, and the last locked part of `on_rgba_soft_render`. */
  function Invalidate(slots: map<Display, Slot>, d: Display): map<Display, Slot> {
    if d in slots then slots[d := slots[d].(valid := false)] else slots
  }

  /** The shared tables of `FlutterHandler`; each method is one lock acquisition. */
  class FlutterHandler {
    var slots: map<Display, Slot>
    var handlers: map<SessionId, Handler>
    var nextBuffer: BufferId

    constructor (firstFree: BufferId)
      ensures slots == map[] && handlers == map[] && nextBuffer == firstFree
    {
      slots, handlers, nextBuffer := map[], map[], firstFree;
    }

    method StoreFrame(d: Display, raw: BufferId) returns (raw': BufferId, stored: bool)
      modifies this`slots, this`nextBuffer
      ensures Stored(slots, raw', stored) == Store(old(slots), d, raw, old(nextBuffer))
      ensures nextBuffer == if d in old(slots) then old(nextBuffer) else old(nextBuffer) + 1
      ensures stored <==> !(d in old(slots) && old(slots)[d].valid)
      ensures if stored then slots == old(slots)[d := Slot(raw, true)] else slots == old(slots) && raw' == raw
      ensures stored ==> raw' == if d in old(slots) then old(slots)[d].buffer else old(nextBuffer)
    {
      if d in slots {
        if slots[d].valid {
          return raw, false;
        }
        raw' := slots[d].buffer;
        slots := slots[d := Slot(raw, true)];
      } else {
        raw' := nextBuffer;
        nextBuffer := nextBuffer + 1;
        slots := slots[d := Slot(raw, true)];
      }
      stored := true;
    }

    method NotifySessions(d: Display, multi: bool) returns (told: set<SessionId>)
      ensures told == Recipients(handlers, d, multi)
      ensures forall s :: s in told <==> s in handlers && Listens(handlers[s], d, multi)
    {
      RecipientsListen(handlers, d, multi);
      told := {};
      var left := handlers.Keys;
      while left != {}
        invariant left <= handlers.Keys
        invariant told == Recipients(handlers, d, multi) - left
        decreases left
      {
        var s :| s in left;
        left := left - {s};
        var h := handlers[s];
        if |h.displays| > 1 || (multi && d !in h.displays) {
          continue;
        }
        if h.hasStream {
          told := told + {s};
        }
      }
    }

    method NextRgba(d: Display)
      modifies this`slots
      ensures slots == Invalidate(old(slots), d)
      ensures slots.Keys == old(slots).Keys && (d in slots ==> slots[d] == Slot(old(slots)[d].buffer, false))
      ensures forall c <- slots :: c != d ==> slots[c] == old(slots)[c]
    {
      if d in slots {
        slots := slots[d := slots[d].(valid := false)];
      }
    }

    /** The whole producer call when nothing comes between its locked parts. */
    method OnRgbaSoftRender(d: Display, raw: BufferId) returns (raw': BufferId, told: set<SessionId>)
      modifies this`slots, this`nextBuffer
      ensures var busy := d in old(slots) && old(slots)[d].valid;
              var audience := Recipients(handlers, d, |handlers| > 1);
              && (busy ==> slots == old(slots) && raw' == raw && told == {})
              && (!busy ==>
                    && told == audience
                    && (forall s :: s in told <==> s in handlers && Listens(handlers[s], d, |handlers| > 1))
                    && slots == old(slots)[d := Slot(raw, told != {})]
                    && raw' == if d in old(slots) then old(slots)[d].buffer else old(nextBuffer))
    {
      var stored;
      raw', stored := StoreFrame(d, raw);
      if !stored {
        told := {};
        return;
      }
      var multi := |handlers| > 1;
      told := NotifySessions(d, multi);
      if told == {} {
        NextRgba(d);
      }
    }
  }

  // --- all interleavings ---

  /** Where the producer of a display stands in its call. */
  datatype Phase = Idle | Ready | Swapped | Counted(multi: bool) | Unsent

  /** `raw` is the producer's own buffer, `frame` the last frame decoded into it. */
  datatype Producer = Producer(raw: BufferId, phase: Phase, frame: Frame)

  datatype Announcement = Announcement(session: SessionId, display: Display, frame: Frame)

  /** `heap` holds the frame each buffer contains; `announced` the `Rgba` events sent, each
      with the frame its producer call had stored. */
  datatype World = World(
    heap: map<BufferId, Frame>,
    slots: map<Display, Slot>,
    producers: map<Display, Producer>,
    handlers: map<SessionId, Handler>,
    announced: set<Announcement>,
    nextBuffer: BufferId,
    nextFrame: Frame
  )

  datatype Event =
    | Decode(d: Display)                                // the decoder fills its own buffer
    | Swap(d: Display)                                  // first locked part
    | CountSessions(d: Display)                         // `is_multi_ui_session`
    | Notify(d: Display)                                // the loop over the sessions
    | Retract(d: Display)                               // last locked part
    | NextRgba(d: Display)                              // the interface took the frame
    | ClearCache                                        // `update_use_texture_render`
    | ChangeSessions(handlers: map<SessionId, Handler>)

  predicate ByProducer(e: Event) {
    e.Decode? || e.Swap? || e.CountSessions? || e.Notify? || e.Retract?
  }

  predicate Enabled(w: World, e: Event) {
    ByProducer(e) ==>
      && e.d in w.producers
      && match e
         case Decode(d) => w.producers[d].phase == Idle
         case Swap(d) => w.producers[d].phase == Ready
         case CountSessions(d) => w.producers[d].phase == Swapped
         case Notify(d) => w.producers[d].phase.Counted?
         case Retract(d) => w.producers[d].phase == Unsent
         case _ => true
  }

  function InPhase(w: World, d: Display, phase: Phase): map<Display, Producer>
    requires d in w.producers
  {
    w.producers[d := w.producers[d].(phase := phase)]
  }

  function Step(w: World, e: Event): World
    requires Enabled(w, e)
  {
    match e
    case Decode(d) =>
      var raw := w.producers[d].raw;
      w.(heap := w.heap[raw := w.nextFrame], nextFrame := w.nextFrame + 1,
         producers := w.producers[d := Producer(raw, Ready, w.nextFrame)])
    case Swap(d) =>
      var p := w.producers[d];
      var r := Store(w.slots, d, p.raw, w.nextBuffer);
      var grew := d !in w.slots;
      w.(slots := r.slots,
         producers := w.producers[d := p.(raw := r.raw, phase := if r.stored then Swapped else Idle)],
         heap := if grew then w.heap[w.nextBuffer := 0] else w.heap,
         nextBuffer := if grew then w.nextBuffer + 1 else w.nextBuffer)
    case CountSessions(d) => w.(producers := InPhase(w, d, Counted(|w.handlers| > 1)))
    case Notify(d) =>
      var p := w.producers[d];
      var told := Recipients(w.handlers, d, p.phase.multi);
      w.(announced := w.announced + set s | s in told :: Announcement(s, d, p.frame),
         producers := InPhase(w, d, if told == {} then Unsent else Idle))
    case Retract(d) => w.(slots := Invalidate(w.slots, d), producers := InPhase(w, d, Idle))
    case NextRgba(d) => w.(slots := Invalidate(w.slots, d))
    case ClearCache => w.(slots := map[])
    case ChangeSessions(handlers) => w.(handlers := handlers)
  }

  /** Idle producers with buffers of their own, empty tables. */
  ghost predicate Initial(w: World) {
    && w.slots == map[] && w.announced == {}
    && (forall d <- w.producers :: w.producers[d].phase == Idle)
    && RawsDistinct(w)
  }

  ghost predicate RawsDistinct(w: World) {
    && (forall d <- w.producers :: OwnedBuffer(w, w.producers[d].raw))
    && (forall c, d | c in w.producers && d in w.producers && c != d :: w.producers[c].raw != w.producers[d].raw)
  }

  ghost predicate OwnedBuffer(w: World, b: BufferId) {
    b < w.nextBuffer && b in w.heap
  }

  ghost predicate HeldDistinct(w: World) {
    && (forall d <- w.slots :: OwnedBuffer(w, w.slots[d].buffer))
    && (forall c, d | c in w.slots && d in w.slots && c != d :: w.slots[c].buffer != w.slots[d].buffer)
  }

  ghost predicate Apart(w: World) {
    forall c, d | c in w.producers && d in w.slots :: w.producers[c].raw != w.slots[d].buffer
  }

  ghost predicate SlotsDistinct(w: World) {
    w.slots.Keys <= w.producers.Keys && HeldDistinct(w) && Apart(w)
  }

  ghost predicate Announced(w: World, d: Display, f: Frame) {
    exists a <- w.announced :: a.display == d && a.frame == f
  }

  /** A producer in its call has not announced its frame; a valid slot holds that frame, or,
      between calls, a frame that was announced. */
  ghost predicate FramesTracked(w: World, d: Display)
    requires SlotsDistinct(w) && d in w.producers
  {
    var p := w.producers[d];
    && (p.phase != Idle ==> p.frame < w.nextFrame && !Announced(w, d, p.frame))
    && (p.phase == Ready ==> p.raw in w.heap && w.heap[p.raw] == p.frame)
    && (d in w.slots && w.slots[d].valid ==>
          if p.phase == Idle || p.phase == Ready then Announced(w, d, w.heap[w.slots[d].buffer])
          else w.heap[w.slots[d].buffer] == p.frame)
  }

  ghost predicate Inv(w: World) {
    && RawsDistinct(w)
    && SlotsDistinct(w)
    && (forall d <- w.producers :: FramesTracked(w, d))
    && (forall a <- w.announced :: a.frame < w.nextFrame)
  }

  // --- every step keeps the invariant ---

  lemma DecodeInv(w: World, d: Display)
    requires Inv(w) && Enabled(w, Decode(d))
    ensures Inv(Step(w, Decode(d)))
  {
    var w' := Step(w, Decode(d));
    forall c | c in w'.producers ensures FramesTracked(w', c) {
      assert FramesTracked(w, c);
    }
  }

  /** A display whose producer, slot and frames a step leaves alone stays tracked. */
  lemma TrackedKept(w: World, w': World, c: Display)
    requires SlotsDistinct(w) && SlotsDistinct(w') && RawsDistinct(w)
    requires c in w.producers && FramesTracked(w, c)
    requires c in w'.producers && w'.producers[c] == w.producers[c]
    requires c in w.slots <==> c in w'.slots
    requires c in w.slots ==> w'.slots[c] == w.slots[c] && w'.heap[w.slots[c].buffer] == w.heap[w.slots[c].buffer]
    requires w.producers[c].raw in w'.heap && w'.heap[w.producers[c].raw] == w.heap[w.producers[c].raw]
    requires w'.announced == w.announced && w.nextFrame <= w'.nextFrame
    ensures FramesTracked(w', c)
  {
  }

  /** The display's two buffers stayed, changed places, or the slot is new. */
  ghost predicate Exchanged(w: World, w': World, d: Display) {
    && d in w.producers && d in w'.slots
    && w'.producers.Keys == w.producers.Keys && w'.slots.Keys == w.slots.Keys + {d}
    && (forall c <- w.producers :: c != d ==> w'.producers[c] == w.producers[c])
    && (forall c <- w.slots :: c != d ==> w'.slots[c] == w.slots[c])
    && ((d in w.slots && w'.slots[d].buffer == w.slots[d].buffer && w'.producers[d].raw == w.producers[d].raw)
        || (w'.slots[d].buffer == w.producers[d].raw
            && w'.producers[d].raw == if d in w.slots then w.slots[d].buffer else w.nextBuffer))
  }

  lemma SwapExchanges(w: World, d: Display)
    requires RawsDistinct(w) && SlotsDistinct(w) && Enabled(w, Swap(d))
    ensures var w' := Step(w, Swap(d));
            && Exchanged(w, w', d)
            && (forall b :: OwnedBuffer(w, b) ==> OwnedBuffer(w', b) && w'.heap[b] == w.heap[b])
            && OwnedBuffer(w', w'.producers[d].raw)
  {
    assert OwnedBuffer(w, w.producers[d].raw);
  }

  lemma ExchangedRaws(w: World, w': World, d: Display)
    requires RawsDistinct(w) && SlotsDistinct(w) && Exchanged(w, w', d)
    requires forall b :: OwnedBuffer(w, b) ==> OwnedBuffer(w', b)
    requires OwnedBuffer(w', w'.producers[d].raw)
    ensures RawsDistinct(w')
  {
  }

  lemma ExchangedHeld(w: World, w': World, d: Display)
    requires RawsDistinct(w) && SlotsDistinct(w) && Exchanged(w, w', d)
    requires forall b :: OwnedBuffer(w, b) ==> OwnedBuffer(w', b)
    ensures HeldDistinct(w')
  {
  }

  lemma ExchangedApart(w: World, w': World, d: Display)
    requires RawsDistinct(w) && SlotsDistinct(w) && Exchanged(w, w', d)
    ensures Apart(w')
  {
  }

  lemma SwapDistinct(w: World, d: Display)
    requires RawsDistinct(w) && SlotsDistinct(w) && Enabled(w, Swap(d))
    ensures RawsDistinct(Step(w, Swap(d))) && SlotsDistinct(Step(w, Swap(d)))
  {
    var w' := Step(w, Swap(d));
    SwapExchanges(w, d);
    ExchangedRaws(w, w', d);
    ExchangedHeld(w, w', d);
    ExchangedApart(w, w', d);
  }

  lemma SwapInv(w: World, d: Display)
    requires Inv(w) && Enabled(w, Swap(d))
    ensures Inv(Step(w, Swap(d)))
  {
    var w' := Step(w, Swap(d));
    SwapExchanges(w, d);
    SwapDistinct(w, d);
    forall c | c in w'.producers ensures FramesTracked(w', c) {
      assert FramesTracked(w, c);
      if c != d {
        TrackedKept(w, w', c);
      }
    }
  }

  lemma NotifyInv(w: World, d: Display)
    requires Inv(w) && Enabled(w, Notify(d))
    ensures Inv(Step(w, Notify(d)))
  {
    var w' := Step(w, Notify(d));
    var p := w.producers[d];
    assert FramesTracked(w, d);
    var told := Recipients(w.handlers, d, p.phase.multi);
    if told != {} {
      var s :| s in told;
      assert Announcement(s, d, p.frame) in w'.announced;
      assert Announced(w', d, p.frame);
    }
    forall c | c in w'.producers ensures FramesTracked(w', c) {
      assert FramesTracked(w, c);
      forall f | Announced(w, c, f) ensures Announced(w', c, f) {
      }
    }
  }

  lemma InvalidateInv(w: World, d: Display, phase: Phase)
    requires Inv(w)
    requires d in w.producers ==> phase == w.producers[d].phase || phase == Idle
    ensures var w' := w.(slots := Invalidate(w.slots, d));
            && Inv(w')
            && (d in w.producers ==> Inv(w'.(producers := InPhase(w, d, phase))))
  {
    var w1 := w.(slots := Invalidate(w.slots, d));
    assert SlotsDistinct(w1);
    forall c | c in w1.producers ensures FramesTracked(w1, c) {
      assert FramesTracked(w, c);
      if c != d {
        TrackedKept(w, w1, c);
      }
    }
    if d in w.producers {
      PhaseInv(w1, d, phase);
    }
  }

  /** Leaving the call is allowed once the slot is not valid. */
  lemma PhaseInv(w: World, d: Display, phase: Phase)
    requires Inv(w) && d in w.producers
    requires phase == w.producers[d].phase
          || (phase == Idle && (d in w.slots ==> !w.slots[d].valid))
          || (phase.Counted? && w.producers[d].phase == Swapped)
    ensures Inv(w.(producers := InPhase(w, d, phase)))
  {
    var w' := w.(producers := InPhase(w, d, phase));
    assert SlotsDistinct(w');
    forall c | c in w'.producers ensures FramesTracked(w', c) {
      assert FramesTracked(w, c);
      if c != d {
        TrackedKept(w, w', c);
      }
    }
  }

  lemma ClearInv(w: World)
    requires Inv(w)
    ensures Inv(w.(slots := map[]))
  {
  }

  lemma SessionsInv(w: World, handlers: map<SessionId, Handler>)
    requires Inv(w)
    ensures Inv(w.(handlers := handlers))
  {
  }

  lemma StepInv(w: World, e: Event)
    requires Inv(w) && Enabled(w, e)
    ensures Inv(Step(w, e))
  {
    match e
    case Decode(d) => DecodeInv(w, d);
    case Swap(d) => SwapInv(w, d);
    case CountSessions(d) => PhaseInv(w, d, Counted(|w.handlers| > 1));
    case Notify(d) => NotifyInv(w, d);
    case Retract(d) => InvalidateInv(w, d, Idle);
    case NextRgba(d) => InvalidateInv(w, d, if d in w.producers then w.producers[d].phase else Idle);
    case ClearCache => ClearInv(w);
    case ChangeSessions(handlers) => SessionsInv(w, handlers);
  }

  // --- runs ---

  ghost predicate Run(w: World, es: seq<Event>, w': World)
    decreases |es|
  {
    if es == [] then w' == w
    else Enabled(w, es[0]) && Run(Step(w, es[0]), es[1..], w')
  }

  lemma {:induction false} RunInv(w: World, es: seq<Event>, w': World)
    requires Inv(w) && Run(w, es, w')
    ensures Inv(w')
    decreases |es|
  {
    if es != [] {
      StepInv(w, es[0]);
      RunInv(Step(w, es[0]), es[1..], w');
    }
  }

  /** Every frame the interface can see between producer calls was announced: in all runs a
      valid slot whose producer is not inside a call has had an event for that very frame. */
  lemma {:induction false} ValidMeansAnnounced(w: World, es: seq<Event>, w': World, d: Display)
    requires Initial(w) && Run(w, es, w')
    requires d in w'.slots && w'.slots[d].valid
    requires d in w'.producers && w'.producers[d].phase in {Idle, Ready}
    ensures w'.slots[d].buffer in w'.heap
    ensures Announced(w', d, w'.heap[w'.slots[d].buffer])
  {
    RunInv(w, es, w');
    assert FramesTracked(w', d);
  }

  /** In all runs no producer step changes what a valid slot holds, neither the buffer nor
      its contents; and the one that clears the flag retracts a frame nobody was told of. */
  lemma {:induction false} ValidSlotUntouched(w: World, es: seq<Event>, w': World, e: Event, d: Display)
    requires Initial(w) && Run(w, es, w') && Enabled(w', e) && ByProducer(e)
    requires d in w'.slots && w'.slots[d].valid
    ensures var s, after := w'.slots[d], Step(w', e);
            && s.buffer in w'.heap && s.buffer in after.heap
            && d in after.slots
            && after.slots[d].buffer == s.buffer
            && after.heap[s.buffer] == w'.heap[s.buffer]
            && (!after.slots[d].valid ==> e == Retract(d) && !Announced(w', d, w'.heap[s.buffer]))
  {
    RunInv(w, es, w');
    assert FramesTracked(w', d);
    assert FramesTracked(w', e.d);
  }

  /** The part of the protocol that stores: a frame decoded for a free slot is what the slot
      then holds, and a valid slot makes the producer give the frame up. */
  lemma {:induction false} FreeSlotFilled(w: World, es: seq<Event>, w': World, d: Display)
    requires Initial(w) && Run(w, es, w') && Enabled(w', Swap(d))
    ensures var after := Step(w', Swap(d));
            if d in w'.slots && w'.slots[d].valid then after.slots == w'.slots && after.producers[d].phase == Idle
            else
              && d in after.slots && after.slots[d].valid
              && after.slots[d].buffer in after.heap
              && after.heap[after.slots[d].buffer] == w'.producers[d].frame
              && after.producers[d].phase == Swapped
  {
    RunInv(w, es, w');
    assert FramesTracked(w', d);
  }

  /** Whether several sessions were counted is what the loop goes by. */
  lemma {:induction false} CountIsRemembered(w: World, d: Display)
    requires Enabled(w, CountSessions(d))
    ensures Step(w, CountSessions(d)).producers[d].phase == Counted(|w.handlers| > 1)
  {
  }

  /** One loop over the sessions: each session that listens gets one new announcement of the
      stored frame, nobody else any, and the frame is given up if there is none. */
  lemma {:induction false} ListenersTold(w: World, es: seq<Event>, w': World, d: Display)
    requires Initial(w) && Run(w, es, w') && Enabled(w', Notify(d))
    ensures var p, after := w'.producers[d], Step(w', Notify(d));
            && w'.announced <= after.announced
            && (forall s :: Announcement(s, d, p.frame) !in w'.announced)
            && (forall a :: a in after.announced - w'.announced <==>
                  && a.display == d && a.frame == p.frame
                  && a.session in w'.handlers && Listens(w'.handlers[a.session], d, p.phase.multi))
            && (after.producers[d].phase == Idle <==>
                  exists s :: s in w'.handlers && Listens(w'.handlers[s], d, p.phase.multi))
  {
    RunInv(w, es, w');
    var p, after := w'.producers[d], Step(w', Notify(d));
    assert FramesTracked(w', d);
    var told := Recipients(w'.handlers, d, p.phase.multi);
    RecipientsListen(w'.handlers, d, p.phase.multi);
    forall s ensures Announcement(s, d, p.frame) !in w'.announced {
      assert !Announced(w', d, p.frame);
    }
    if s :| s in w'.handlers && Listens(w'.handlers[s], d, p.phase.multi) {
      assert s in told;
    }
    if told != {} {
      var s :| s in told;
    }
  }

  /** `a` was made by a loop over the sessions while its session listened. */
  ghost predicate Told(v: World, e: Event, a: Announcement) {
    && e == Notify(a.display) && Enabled(v, e)
    && a.session in v.handlers
    && Listens(v.handlers[a.session], a.display, v.producers[a.display].phase.multi)
    && v.producers[a.display].frame == a.frame
  }

  /** In all runs every announcement went to a session that listened at that moment. */
  lemma {:induction false} AnnouncedToListeners(w: World, es: seq<Event>, w': World, a: Announcement)
    requires Run(w, es, w') && a in w'.announced && a !in w.announced
    ensures exists i, v :: 0 <= i < |es| && Run(w, es[..i], v) && Told(v, es[i], a)
    decreases |es|
  {
    var v := Step(w, es[0]);
    if a in v.announced {
      var d := es[0].d;
      RecipientsListen(w.handlers, d, w.producers[d].phase.multi);
      assert es[..0] == [] && Run(w, es[..0], w) && Told(w, es[0], a);
    } else {
      AnnouncedToListeners(v, es[1..], w', a);
      var i, u :| 0 <= i < |es[1..]| && Run(v, es[1..][..i], u) && Told(u, es[1..][i], a);
      assert es[..i + 1][0] == es[0] && es[..i + 1][1..] == es[1..][..i];
      assert Run(w, es[..i + 1], u) && Told(u, es[i + 1], a);
    }
  }

  // --- buffers ---

  ghost function Raws(w: World): set<BufferId> {
    set d | d in w.producers :: w.producers[d].raw
  }

  ghost function Held(slots: map<Display, Slot>): set<BufferId> {
    set d | d in slots :: slots[d].buffer
  }

  /** Swaps neither lose nor duplicate a buffer: the buffers of producers and slots are all
      different, and a step keeps their set, but for the new buffer of a new slot and the
      slots' buffers that clearing the cache frees. */
  lemma {:induction false} BuffersConserved(w: World, es: seq<Event>, w': World, e: Event)
    requires Initial(w) && Run(w, es, w') && Enabled(w', e)
    ensures Raws(w') !! Held(w'.slots)
    ensures forall c, d | c in w'.producers && d in w'.producers && c != d :: w'.producers[c].raw != w'.producers[d].raw
    ensures forall c, d | c in w'.slots && d in w'.slots && c != d :: w'.slots[c].buffer != w'.slots[d].buffer
    ensures var after := Step(w', e);
            Raws(after) + Held(after.slots)
            == if e.ClearCache? then Raws(w')
               else if e.Swap? && e.d !in w'.slots then Raws(w') + Held(w'.slots) + {w'.nextBuffer}
               else Raws(w') + Held(w'.slots)
    ensures w'.nextBuffer !in Raws(w') + Held(w'.slots)
  {
    RunInv(w, es, w');
    BuffersStep(w', e);
  }

  lemma {:induction false} BuffersStep(w: World, e: Event)
    requires Inv(w) && Enabled(w, e)
    ensures var after := Step(w, e);
            Raws(after) + Held(after.slots)
            == if e.ClearCache? then Raws(w)
               else if e.Swap? && e.d !in w.slots then Raws(w) + Held(w.slots) + {w.nextBuffer}
               else Raws(w) + Held(w.slots)
  {
    match e
    case Swap(d) => SwapConserves(w, d);
    case Retract(d) =>
      InvalidateKeeps(w.slots, d);
      PhaseKeepsRaws(w, Step(w, e), d);
    case NextRgba(d) => InvalidateKeeps(w.slots, d);
    case ClearCache => assert Held(map[]) == {};
    case ChangeSessions(_) =>
    case Decode(d) => PhaseKeepsRaws(w, Step(w, e), d);
    case CountSessions(d) => PhaseKeepsRaws(w, Step(w, e), d);
    case Notify(d) => PhaseKeepsRaws(w, Step(w, e), d);
  }

  lemma {:induction false} RawsKept(w: World, w': World)
    requires w'.producers.Keys == w.producers.Keys
    requires forall d <- w.producers :: w'.producers[d].raw == w.producers[d].raw
    ensures Raws(w') == Raws(w)
  {
  }

  lemma {:induction false} PhaseKeepsRaws(w: World, w': World, d: Display)
    requires d in w.producers && d in w'.producers && w'.producers[d].raw == w.producers[d].raw
    requires w'.producers == w.producers[d := w'.producers[d]]
    ensures Raws(w') == Raws(w)
  {
    RawsKept(w, w');
  }

  lemma {:induction false} InvalidateKeeps(slots: map<Display, Slot>, d: Display)
    ensures Held(Invalidate(slots, d)) == Held(slots)
  {
    var after := Invalidate(slots, d);
    assert after.Keys == slots.Keys;
    assert forall c <- slots :: after[c].buffer == slots[c].buffer;
  }

  lemma {:induction false} SwapConserves(w: World, d: Display)
    requires Inv(w) && Enabled(w, Swap(d))
    ensures var after := Step(w, Swap(d));
            Raws(after) + Held(after.slots)
            == Raws(w) + Held(w.slots) + (if d in w.slots then {} else {w.nextBuffer})
  {
    SwapExchanges(w, d);
    ExchangedKept(w, Step(w, Swap(d)), d);
    ExchangedFrom(w, Step(w, Swap(d)), d);
  }

  lemma {:induction false} ExchangedKept(w: World, after: World, d: Display)
    requires Exchanged(w, after, d)
    ensures Raws(w) + Held(w.slots) <= Raws(after) + Held(after.slots)
    ensures d !in w.slots ==> w.nextBuffer in Raws(after)
  {
  }

  lemma {:induction false} ExchangedFrom(w: World, after: World, d: Display)
    requires Exchanged(w, after, d)
    ensures Raws(after) + Held(after.slots)
         <= Raws(w) + Held(w.slots) + (if d in w.slots then {} else {w.nextBuffer})
  {
  }
}
