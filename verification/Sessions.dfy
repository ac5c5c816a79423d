/** The registry of peer sessions in src/flutter.rs, module `sessions`: each peer session is
    shared by the UI sessions registered in its handler table and closed with the last one. */
module Sessions {
  import opened Options

  type SessionId = nat

  /** A peer id and a connection type. */
  datatype PeerKey = PeerKey(peer: string, connType: nat)

  datatype Handler = Handler(displays: seq<nat>)

  /** `serial` tells one connection object from another. */
  datatype PeerSession = PeerSession(serial: nat, handlers: map<SessionId, Handler>)

  type Registry = map<PeerKey, PeerSession>

  predicate Has(r: Registry, k: PeerKey, id: SessionId) {
    k in r && id in r[k].handlers
  }

  ghost predicate Registered(r: Registry, id: SessionId) {
    exists k :: Has(r, k, id)
  }

  function WithHandler(s: PeerSession, id: SessionId, h: Handler): PeerSession {
    s.(handlers := s.handlers[id := h])
  }

  /** `insert_session`: an existing connection is kept, the new object then dropped. */
  function InsertSession(r: Registry, id: SessionId, k: PeerKey, serial: nat): Registry {
    var s := if k in r then r[k] else PeerSession(serial, map[]);
    r[k := WithHandler(s, id, Handler([]))]
  }

  /** `insert_peer_session_id`. */
  function InsertPeerSessionId(r: Registry, k: PeerKey, id: SessionId, displays: seq<nat>): Registry {
    if k in r then r[k := WithHandler(r[k], id, Handler(displays))] else r
  }

  /** Removal of `id` from the peer session at `k`, which goes with its last handler. */
  function RemoveAt(r: Registry, k: PeerKey, id: SessionId): Registry
    requires Has(r, k, id)
  {
    var left := r[k].handlers - {id};
    if left == map[] then r - {k} else r[k := r[k].(handlers := left)]
  }

  function ClosedAt(r: Registry, k: PeerKey, id: SessionId): Option<PeerSession>
    requires Has(r, k, id)
  {
    if r[k].handlers.Keys == {id} then Some(r[k].(handlers := map[])) else None
  }

  lemma OnlyKey(m: map<SessionId, Handler>, id: SessionId)
    requires id in m && m - {id} == map[]
    ensures m.Keys == {id}
  {
    forall x | x in m ensures x == id {
      assert x != id ==> x in m - {id};
    }
  }

  class SessionRegistry {
    var sessions: Registry

    constructor ()
      ensures sessions == map[]
    {
      sessions := map[];
    }

    /** `get_session_by_session_id`: the first match in the map's own order. */
    method Lookup(id: SessionId) returns (k: Option<PeerKey>)
      ensures k.Some? ==> Has(sessions, k.value, id)
      ensures k.None? ==> !Registered(sessions, id)
    {
      var left := sessions.Keys;
      while left != {}
        invariant left <= sessions.Keys
        invariant forall j :: Has(sessions, j, id) ==> j in left
        decreases left
      {
        var j :| j in left;
        if id in sessions[j].handlers {
          return Some(j);
        }
        left := left - {j};
      }
      k := None;
    }

    /** `session_add`: refused when the UI session id is in use. */
    method SessionAdd(id: SessionId, k: PeerKey, serial: nat) returns (ok: bool)
      modifies this
      ensures ok <==> !Registered(old(sessions), id)
      ensures sessions == if ok then InsertSession(old(sessions), id, k, serial) else old(sessions)
    {
      var found := Lookup(id);
      if found.Some? {
        return false;
      }
      var s := if k in sessions then sessions[k] else PeerSession(serial, map[]);
      sessions := sessions[k := s.(handlers := s.handlers[id := Handler([])])];
      ok := true;
    }

    /** `session_add_existed`: no check of the id. `cleared` is the display whose valid flag
        `next_rgba` then clears, in case it was shown before. */
    method SessionAddExisted(k: PeerKey, id: SessionId, displays: seq<nat>) returns (ok: bool, cleared: Option<nat>)
      modifies this
      ensures ok <==> k in old(sessions)
      ensures sessions == InsertPeerSessionId(old(sessions), k, id, displays)
      ensures cleared == if ok && |displays| == 1 then Some(displays[0]) else None
    {
      ok, cleared := k in sessions, None;
      if ok {
        sessions := sessions[k := WithHandler(sessions[k], id, Handler(displays))];
        if |displays| == 1 {
          cleared := Some(displays[0]);
        }
      }
    }

    /** `remove_session_by_session_id`, whose result `session_close` closes: the handler is
        taken from the first peer session found, the session itself when none is left. */
    method Remove(id: SessionId) returns (closed: Option<PeerSession>)
      modifies this
      ensures !Registered(old(sessions), id) ==> closed == None && sessions == old(sessions)
      ensures Registered(old(sessions), id) ==>
                exists k :: Has(old(sessions), k, id)
                            && sessions == RemoveAt(old(sessions), k, id)
                            && closed == ClosedAt(old(sessions), k, id)
    {
      var found := Lookup(id);
      if found.None? {
        return None;
      }
      var k := found.value;
      var handlers := sessions[k].handlers - {id};
      assert handlers.Keys == sessions[k].handlers.Keys - {id};
      if handlers == map[] {
        OnlyKey(sessions[k].handlers, id);
        closed := Some(sessions[k].(handlers := map[]));
        sessions := sessions - {k};
      } else {
        assert sessions[k].handlers.Keys != {id} by {
          var other :| other in handlers;
        }
        closed := None;
        sessions := sessions[k := sessions[k].(handlers := handlers)];
      }
    }
  }

  // --- the flat view ---

  /** The registry is the grouping of a plain map from UI sessions to peers: every handler
      is an entry of the map and no peer session is without handlers. */
  ghost predicate Represents(r: Registry, owner: map<SessionId, PeerKey>) {
    && (forall k, id :: Has(r, k, id) <==> id in owner && owner[id] == k)
    && (forall k <- r :: r[k].handlers != map[])
  }

  ghost predicate Unique(r: Registry) {
    forall j, k, id :: Has(r, j, id) && Has(r, k, id) ==> j == k
  }

  datatype Event =
    | Add(id: SessionId, key: PeerKey, serial: nat)
    | AddExisted(id: SessionId, key: PeerKey, displays: seq<nat>)
    | Close(id: SessionId, chosen: PeerKey)   // `chosen`: where the map order finds the id first

  predicate Possible(r: Registry, e: Event) {
    e.Close? ==> Has(r, e.chosen, e.id) || forall k <- r :: e.id !in r[k].handlers
  }

  ghost function Step(r: Registry, e: Event): Registry {
    match e
    case Add(id, k, serial) => if Registered(r, id) then r else InsertSession(r, id, k, serial)
    case AddExisted(id, k, displays) => InsertPeerSessionId(r, k, id, displays)
    case Close(id, k) => if Has(r, k, id) then RemoveAt(r, k, id) else r
  }

  ghost function Closed(r: Registry, e: Event): Option<PeerKey> {
    if e.Close? && Has(r, e.chosen, e.id) && ClosedAt(r, e.chosen, e.id).Some? then Some(e.chosen) else None
  }

  function FlatStep(owner: map<SessionId, PeerKey>, e: Event): map<SessionId, PeerKey> {
    match e
    case Add(id, k, _) => if id in owner then owner else owner[id := k]
    case AddExisted(id, k, _) => if k in owner.Values then owner[id := k] else owner
    case Close(id, _) => owner - {id}
  }

  /** The peer whose last UI session leaves, if any. */
  function FlatClosed(owner: map<SessionId, PeerKey>, e: Event): Option<PeerKey> {
    if e.Close? && e.id in owner && (forall other <- owner :: owner[other] == owner[e.id] ==> other == e.id)
    then Some(owner[e.id]) else None
  }

  /** The id of an added UI session is new, or already the same peer's. */
  predicate Fresh(owner: map<SessionId, PeerKey>, e: Event) {
    e.AddExisted? && e.id in owner ==> owner[e.id] == e.key
  }

  lemma PeersAreValues(r: Registry, owner: map<SessionId, PeerKey>, k: PeerKey)
    requires Represents(r, owner)
    ensures k in r <==> k in owner.Values
  {
    if k in r {
      var id :| id in r[k].handlers;
      assert Has(r, k, id);
      assert owner[id] in owner.Values;
    }
    if k in owner.Values {
      var id :| id in owner && owner[id] == k;
      assert Has(r, k, id);
    }
  }

  lemma InsertRepresents(r: Registry, owner: map<SessionId, PeerKey>, k: PeerKey, id: SessionId, s: PeerSession, h: Handler)
    requires Represents(r, owner)
    requires id in owner ==> owner[id] == k
    requires s.handlers == if k in r then r[k].handlers else map[]
    ensures Represents(r[k := WithHandler(s, id, h)], owner[id := k])
  {
    var r' := r[k := WithHandler(s, id, h)];
    assert forall j, x :: Has(r', j, x) <==> Has(r, j, x) || (j == k && x == id);
    assert id in r'[k].handlers;
  }

  lemma RemoveRepresents(r: Registry, owner: map<SessionId, PeerKey>, id: SessionId)
    requires Represents(r, owner) && id in owner
    ensures Has(r, owner[id], id)
    ensures Represents(RemoveAt(r, owner[id], id), owner - {id})
  {
    var k := owner[id];
    assert Has(r, k, id);
    var left := r[k].handlers - {id};
    var r' := RemoveAt(r, k, id);
    if left == map[] {
      OnlyKey(r[k].handlers, id);
    }
    forall j, x ensures Has(r', j, x) <==> Has(r, j, x) && x != id {
      if j == k {
        assert x in left <==> x in r[k].handlers && x != id;
      } else {
        assert Has(r', j, x) <==> Has(r, j, x);
        assert !Has(r, j, id);
      }
    }
  }

  lemma ClosesWithLast(r: Registry, owner: map<SessionId, PeerKey>, id: SessionId)
    requires Represents(r, owner) && id in owner
    ensures Has(r, owner[id], id)
    ensures ClosedAt(r, owner[id], id).Some?
       <==> forall other <- owner :: owner[other] == owner[id] ==> other == id
  {
    var k := owner[id];
    assert Has(r, k, id);
    if forall other <- owner :: owner[other] == k ==> other == id {
      forall x | x in r[k].handlers ensures x == id {
        assert Has(r, k, x);
      }
      assert r[k].handlers.Keys == {id};
    } else {
      var other :| other in owner && owner[other] == k && other != id;
      assert Has(r, k, other);
      assert other in r[k].handlers.Keys;
    }
  }

  /** One step of the registry is the same step of the flat map, and it closes a peer session
      exactly when the peer's last UI session leaves. */
  lemma StepRefines(r: Registry, owner: map<SessionId, PeerKey>, e: Event)
    requires Represents(r, owner) && Possible(r, e) && Fresh(owner, e)
    ensures Represents(Step(r, e), FlatStep(owner, e))
    ensures Closed(r, e) == FlatClosed(owner, e)
  {
    match e
    case Add(id, k, serial) =>
      assert Registered(r, id) <==> id in owner by {
        if id in owner {
          assert Has(r, owner[id], id);
        }
      }
      if id !in owner {
        InsertRepresents(r, owner, k, id, if k in r then r[k] else PeerSession(serial, map[]), Handler([]));
      }
    case AddExisted(id, k, displays) =>
      PeersAreValues(r, owner, k);
      if k in r {
        InsertRepresents(r, owner, k, id, r[k], Handler(displays));
      }
    case Close(id, k) =>
      if id in owner {
        assert Has(r, owner[id], id);
        RemoveRepresents(r, owner, id);
        ClosesWithLast(r, owner, id);
      } else {
        assert owner - {id} == owner;
      }
  }

  ghost function Run(r: Registry, es: seq<Event>): Registry
    decreases |es|
  {
    if es == [] then r else Run(Step(r, es[0]), es[1..])
  }

  function FlatRun(owner: map<SessionId, PeerKey>, es: seq<Event>): map<SessionId, PeerKey>
    decreases |es|
  {
    if es == [] then owner else FlatRun(FlatStep(owner, es[0]), es[1..])
  }

  /** Every event could happen and used a fresh id when it did. */
  ghost predicate Sequential(r: Registry, owner: map<SessionId, PeerKey>, es: seq<Event>)
    decreases |es|
  {
    es == [] || (Possible(r, es[0]) && Fresh(owner, es[0])
                 && Sequential(Step(r, es[0]), FlatStep(owner, es[0]), es[1..]))
  }

  lemma {:induction false} RunRefines(r: Registry, owner: map<SessionId, PeerKey>, es: seq<Event>)
    requires Represents(r, owner) && Sequential(r, owner, es)
    ensures Represents(Run(r, es), FlatRun(owner, es))
    decreases |es|
  {
    if es != [] {
      StepRefines(r, owner, es[0]);
      RunRefines(Step(r, es[0]), FlatStep(owner, es[0]), es[1..]);
    }
  }

  /** Reference counting in every sequential run with fresh ids: no registered peer session
      is without UI sessions, each UI session belongs to one peer session whatever order the
      map is searched in, and a peer session is closed exactly with its last UI session. */
  lemma {:induction false} ReferenceCounting(es: seq<Event>, e: Event)
    requires Sequential(map[], map[], es + [e])
    ensures var r, owner := Run(map[], es), FlatRun(map[], es);
            && (forall k <- r :: r[k].handlers != map[])
            && Unique(r)
            && Closed(r, e) == FlatClosed(owner, e)
  {
    SequentialPrefix(map[], map[], es, e);
    var r, owner := Run(map[], es), FlatRun(map[], es);
    RunRefines(map[], map[], es);
    StepRefines(r, owner, e);
  }

  lemma {:induction false} SequentialPrefix(r: Registry, owner: map<SessionId, PeerKey>, es: seq<Event>, e: Event)
    requires Sequential(r, owner, es + [e])
    ensures Sequential(r, owner, es)
    ensures Possible(Run(r, es), e) && Fresh(FlatRun(owner, es), e)
    decreases |es|
  {
    if es == [] {
      assert (es + [e])[0] == e;
    } else {
      assert (es + [e])[0] == es[0] && (es + [e])[1..] == es[1..] + [e];
      SequentialPrefix(Step(r, es[0]), FlatStep(owner, es[0]), es[1..], e);
    }
  }

  /** Freshness is needed, and only there: adding an id to a registered peer keeps ids unique
      exactly when no other peer session has it. */
  lemma AddExistedCondition(r: Registry, k: PeerKey, id: SessionId, displays: seq<nat>)
    requires Unique(r)
    ensures Unique(InsertPeerSessionId(r, k, id, displays))
       <==> k !in r || forall j :: Has(r, j, id) ==> j == k
  {
    var r' := InsertPeerSessionId(r, k, id, displays);
    if k in r {
      assert forall j, x :: Has(r', j, x) <==> Has(r, j, x) || (j == k && x == id);
      assert Has(r', k, id);
    }
  }

  // --- what a registered session carries ---

  /** The displays each UI session was last registered with, and the connection object each
      peer session was made with. */
  datatype Carried = Carried(shown: map<SessionId, seq<nat>>, serials: map<PeerKey, nat>)

  /** A UI session starts without displays, one added to an existing peer session with those it
      names; a connection object is taken only for a peer that has none. */
  function CarriedAfter(c: Carried, owner: map<SessionId, PeerKey>, e: Event): Carried {
    match e
    case Add(id, k, serial) =>
      if id in owner then c
      else Carried(c.shown[id := []], if k in owner.Values then c.serials else c.serials[k := serial])
    case AddExisted(id, k, displays) =>
      if k in owner.Values then c.(shown := c.shown[id := displays]) else c
    case Close(_, _) => c
  }

  ghost predicate Carries(r: Registry, c: Carried) {
    && (forall k, id :: Has(r, k, id) ==> id in c.shown && r[k].handlers[id].displays == c.shown[id])
    && (forall k <- r :: k in c.serials && r[k].serial == c.serials[k])
  }

  lemma StepCarries(r: Registry, owner: map<SessionId, PeerKey>, c: Carried, e: Event)
    requires Represents(r, owner) && Possible(r, e) && Fresh(owner, e) && Carries(r, c)
    ensures Carries(Step(r, e), CarriedAfter(c, owner, e))
  {
    var r', c' := Step(r, e), CarriedAfter(c, owner, e);
    match e
    case Add(id, k, serial) =>
      assert Registered(r, id) <==> id in owner by {
        if id in owner {
          assert Has(r, owner[id], id);
        }
      }
      PeersAreValues(r, owner, k);
      forall j, x | Has(r', j, x) ensures x in c'.shown && r'[j].handlers[x].displays == c'.shown[x] {
        if id in owner || x != id {
          assert Has(r, j, x);
        } else {
          assert j == k || Has(r, j, x);
        }
      }
    case AddExisted(id, k, displays) =>
      PeersAreValues(r, owner, k);
      forall j, x | Has(r', j, x) ensures x in c'.shown && r'[j].handlers[x].displays == c'.shown[x] {
        if !(j == k && x == id) {
          assert Has(r, j, x);
        }
        if x == id && k in r {
          assert j == k;
        }
      }
    case Close(id, k) =>
      forall j, x | Has(r', j, x) ensures x in c'.shown && r'[j].handlers[x].displays == c'.shown[x] {
        assert Has(r, j, x) && r'[j].handlers[x] == r[j].handlers[x];
      }
  }

  function CarriedRun(c: Carried, owner: map<SessionId, PeerKey>, es: seq<Event>): Carried
    decreases |es|
  {
    if es == [] then c else CarriedRun(CarriedAfter(c, owner, es[0]), FlatStep(owner, es[0]), es[1..])
  }

  lemma {:induction false} RunCarries(r: Registry, owner: map<SessionId, PeerKey>, c: Carried, es: seq<Event>)
    requires Represents(r, owner) && Sequential(r, owner, es) && Carries(r, c)
    ensures Carries(Run(r, es), CarriedRun(c, owner, es))
    decreases |es|
  {
    if es != [] {
      StepCarries(r, owner, c, es[0]);
      StepRefines(r, owner, es[0]);
      RunCarries(Step(r, es[0]), FlatStep(owner, es[0]), CarriedAfter(c, owner, es[0]), es[1..]);
    }
  }

  /** In every sequential run with fresh ids each UI session has the displays of its own last
      registration, and each peer session the connection object it was made with. */
  lemma {:induction false} SessionsCarry(es: seq<Event>)
    requires Sequential(map[], map[], es)
    ensures Carries(Run(map[], es), CarriedRun(Carried(map[], map[]), map[], es))
  {
    RunCarries(map[], map[], Carried(map[], map[]), es);
  }

  // --- ids that are not fresh ---

  /** Some way of closing `id` leaves it registered elsewhere. */
  ghost predicate Lingers(r: Registry, id: SessionId) {
    exists k :: Has(r, k, id) && Registered(RemoveAt(r, k, id), id)
  }

  /** Some way of closing `id` closes its peer session while `id` is still registered. */
  ghost predicate WronglyClosed(r: Registry, id: SessionId) {
    exists k :: Has(r, k, id) && ClosedAt(r, k, id).Some? && Registered(RemoveAt(r, k, id), id)
  }

  lemma LastLeaves(r: Registry, k: PeerKey, id: SessionId)
    requires Unique(r) && Has(r, k, id)
    ensures !Registered(RemoveAt(r, k, id), id)
  {
    forall j ensures !Has(RemoveAt(r, k, id), j, id) {
      assert Has(r, j, id) ==> j == k;
    }
  }

  lemma OtherStays(r: Registry, j: PeerKey, k: PeerKey, id: SessionId)
    requires Has(r, j, id) && Has(r, k, id) && j != k
    ensures Registered(RemoveAt(r, j, id), id)
  {
    assert Has(RemoveAt(r, j, id), k, id);
  }

  /** Without fresh ids, exactly. After any sequential run, add an id to an existing peer session
      and close it: it can stay registered exactly if the peer was registered and the id was
      another's, and a peer session is then closed too early exactly if it had been that one's
      only UI session. */
  lemma {:induction false} FreshnessNeeded(es: seq<Event>, id: SessionId, k: PeerKey, displays: seq<nat>)
    requires Sequential(map[], map[], es)
    ensures var r, owner := Run(map[], es), FlatRun(map[], es);
            var e := AddExisted(id, k, displays);
            && (Lingers(Step(r, e), id) <==> k in r && !Fresh(owner, e))
            && (WronglyClosed(Step(r, e), id) <==>
                  k in r && !Fresh(owner, e) && Has(r, owner[id], id) && r[owner[id]].handlers.Keys == {id})
  {
    var r, owner := Run(map[], es), FlatRun(map[], es);
    RunRefines(map[], map[], es);
    var e := AddExisted(id, k, displays);
    if k in r && !Fresh(owner, e) {
      StolenId(r, owner, id, k, displays);
    } else {
      if k in r {
        InsertRepresents(r, owner, k, id, r[k], Handler(displays));
      }
      forall j | Has(Step(r, e), j, id) ensures !Registered(RemoveAt(Step(r, e), j, id), id) {
        LastLeaves(Step(r, e), j, id);
      }
    }
  }

  lemma StolenId(r: Registry, owner: map<SessionId, PeerKey>, id: SessionId, k: PeerKey, displays: seq<nat>)
    requires Represents(r, owner) && k in r && id in owner && owner[id] != k
    ensures Has(r, owner[id], id)
    ensures Lingers(InsertPeerSessionId(r, k, id, displays), id)
    ensures WronglyClosed(InsertPeerSessionId(r, k, id, displays), id) <==> r[owner[id]].handlers.Keys == {id}
  {
    var j, r' := owner[id], InsertPeerSessionId(r, k, id, displays);
    assert Has(r, j, id);
    assert Has(r', j, id) && Has(r', k, id);
    forall x | Has(r', x, id) ensures x == j || x == k {
      if x != k {
        assert Has(r, x, id);
      }
    }
    OtherStays(r', j, k, id);
    OtherStays(r', k, j, id);
    var other :| other in r[k].handlers;
    assert Has(r, k, other) && other != id;
    assert other in r'[k].handlers.Keys;
  }

  /** The shortest such run: two peers, and the first one's UI session added to the second. */
  lemma SharedIdClosesEarly(a: PeerKey, b: PeerKey)
    requires a != b
    ensures var r := Run(map[], [Add(1, a, 10), Add(2, b, 20), AddExisted(1, b, [])]);
            Has(r, a, 1) && Closed(r, Close(1, a)) == Some(a) && Has(Step(r, Close(1, a)), b, 1)
  {
    var es := [Add(1, a, 10), Add(2, b, 20), AddExisted(1, b, [])];
    var r1 := Step(map[], es[0]);
    var r2 := Step(r1, es[1]);
    var r3 := Step(r2, es[2]);
    assert !Registered(map[], 1);
    assert r1 == map[a := PeerSession(10, map[1 := Handler([])])];
    assert !Registered(r1, 2);
    assert b !in r1 && b in r2;
    assert Has(r3, a, 1) && Has(r3, b, 1);
    assert es[1..] == [es[1], es[2]] && es[1..][1..] == [es[2]] && [es[2]][1..] == [];
    assert Run(r2, [es[2]]) == Run(r3, []);
    assert Run(r1, es[1..]) == Run(r2, [es[2]]);
    assert Run(map[], es) == r3;
  }
}
