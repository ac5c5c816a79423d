/** Merging of discovery responses into the stored LAN peers (src/lan.rs): the receive loop,
    and the closed form of its result. */
module LanPeers {
  import opened Options

  /** `is_same_peer` compares id and user name. */
  datatype Key = Key(id: string, username: string)

  datatype Peer = Peer(key: Key, hostname: string, platform: string, online: bool, ipMac: map<string, string>)

  // --- the receive loop ---

  function Offline(peers: seq<Peer>): (r: seq<Peer>)
    ensures |r| == |peers| && forall i :: 0 <= i < |peers| ==> r[i] == peers[i].(online := false)
  {
    seq(|peers|, i requires 0 <= i < |peers| => peers[i].(online := false))
  }

  /** The set of ids that have answered. */
  function Ids(rs: seq<Peer>): set<string> {
    set r | r in rs :: r.key.id
  }

  /** What is put at the front of the list for a response: a peer whose id has answered before
      in this round takes over the addresses of the entry it replaces, which win. */
  function Merged(r: Peer, replaced: Option<Peer>, answered: bool): Peer {
    if replaced.Some? && answered then r.(ipMac := r.ipMac + replaced.value.ipMac, online := true) else r
  }

  function Lookup(ps: seq<Peer>, k: Key): (r: Option<Peer>)
    ensures r.Some? ==> r.value in ps && r.value.key == k
    ensures r.None? ==> forall p <- ps :: p.key != k
  {
    if ps == [] then None else if ps[0].key == k then Some(ps[0]) else Lookup(ps[1..], k)
  }

  function RemoveFirst(ps: seq<Peer>, k: Key): seq<Peer> {
    if ps == [] then [] else if ps[0].key == k then ps[1..] else [ps[0]] + RemoveFirst(ps[1..], k)
  }

  function Insert(ps: seq<Peer>, r: Peer, answered: bool): seq<Peer> {
    [Merged(r, Lookup(ps, r.key), answered)] + RemoveFirst(ps, r.key)
  }

  /** The list after the responses `rs`. */
  function Received(stored: seq<Peer>, rs: seq<Peer>): seq<Peer> {
    if rs == [] then Offline(stored)
    else
      var before, r := rs[..|rs| - 1], rs[|rs| - 1];
      Insert(Received(stored, before), r, r.key.id in Ids(before))
  }

  ghost predicate NoDuplicates(ps: seq<Peer>) {
    forall i, j :: 0 <= i < j < |ps| ==> ps[i].key != ps[j].key
  }

  /** The loop of `handle_received_peers`: find, remove, insert at the front. */
  method HandleReceivedPeers(stored: seq<Peer>, rs: seq<Peer>) returns (peers: seq<Peer>)
    ensures peers == Received(stored, rs)
    ensures NoDuplicates(stored) ==> NoDuplicates(peers)
  {
    peers := Offline(stored);
    var responseSet: set<string> := {};
    for i := 0 to |rs|
      invariant responseSet == Ids(rs[..i])
      invariant peers == Received(stored, rs[..i])
    {
      var peer := rs[i];
      var inResponseSet := peer.key.id in responseSet;
      responseSet := responseSet + {peer.key.id};
      var before := peers;
      var pos := Position(peers, peer.key);
      if pos < |peers| {
        var peer1 := peers[pos];
        peers := peers[..pos] + peers[pos + 1..];
        if inResponseSet {
          peer := peer.(ipMac := peer.ipMac + peer1.ipMac, online := true);
        }
      }
      peers := [peer] + peers;
      RemovedAt(before, rs[i].key, pos);
      assert peers == Insert(before, rs[i], inResponseSet);
      ReceivedNext(stored, rs, i);
    }
    assert rs[..|rs|] == rs;
    if NoDuplicates(stored) {
      ReceivedDistinct(stored, rs);
    }
  }

  lemma {:induction false} ReceivedNext(stored: seq<Peer>, rs: seq<Peer>, i: nat)
    requires i < |rs|
    ensures Received(stored, rs[..i + 1]) == Insert(Received(stored, rs[..i]), rs[i], rs[i].key.id in Ids(rs[..i]))
    ensures Ids(rs[..i + 1]) == Ids(rs[..i]) + {rs[i].key.id}
  {
    var next := rs[..i + 1];
    assert next[..i] == rs[..i] && next[i] == rs[i];
    assert forall r <- next :: r in rs[..i] || r == rs[i];
    assert forall r <- rs[..i] :: r in next;
  }

  method Position(ps: seq<Peer>, k: Key) returns (pos: nat)
    ensures pos <= |ps|
    ensures pos < |ps| ==> ps[pos].key == k
    ensures forall i :: 0 <= i < pos ==> ps[i].key != k
  {
    pos := 0;
    while pos < |ps| && ps[pos].key != k
      invariant pos <= |ps|
      invariant forall i :: 0 <= i < pos ==> ps[i].key != k
    {
      pos := pos + 1;
    }
  }

  lemma {:induction false} SpliceAfterHead(ps: seq<Peer>, pos: nat)
    requires 0 < pos < |ps|
    ensures [ps[0]] + (ps[1..][..pos - 1] + ps[1..][pos..]) == ps[..pos] + ps[pos + 1..]
  {
    assert ps[1..][pos..] == ps[pos + 1..] && [ps[0]] + ps[1..][..pos - 1] == ps[..pos];
  }

  /** The search and the removal at the position it finds. */
  lemma {:induction false} RemovedAt(ps: seq<Peer>, k: Key, pos: nat)
    requires pos <= |ps|
    requires pos < |ps| ==> ps[pos].key == k
    requires forall i :: 0 <= i < pos ==> ps[i].key != k
    ensures pos < |ps| ==> Lookup(ps, k) == Some(ps[pos]) && RemoveFirst(ps, k) == ps[..pos] + ps[pos + 1..]
    ensures pos == |ps| ==> Lookup(ps, k) == None && RemoveFirst(ps, k) == ps
  {
    if pos > 0 {
      var rest := ps[1..];
      RemovedAt(rest, k, pos - 1);
      if pos < |ps| {
        SpliceAfterHead(ps, pos);
      } else {
        assert [ps[0]] + rest == ps;
      }
    } else if ps != [] {
      assert ps[..0] + ps[1..] == ps[1..];
    }
  }

  // --- lists without duplicates ---

  function Without(ps: seq<Peer>, k: Key): (r: seq<Peer>)
    ensures forall p <- r :: p in ps && p.key != k
  {
    if ps == [] then []
    else (if ps[0].key == k then [] else [ps[0]]) + Without(ps[1..], k)
  }

  lemma {:induction false} WithoutAbsent(ps: seq<Peer>, k: Key)
    requires forall i :: 0 <= i < |ps| ==> ps[i].key != k
    ensures Without(ps, k) == ps
  {
    if ps != [] {
      WithoutAbsent(ps[1..], k);
    }
  }

  lemma {:induction false} WithoutConcat(a: seq<Peer>, b: seq<Peer>, k: Key)
    ensures Without(a + b, k) == Without(a, k) + Without(b, k)
  {
    if a == [] {
      assert a + b == b;
    } else {
      assert (a + b)[1..] == a[1..] + b;
      WithoutConcat(a[1..], b, k);
    }
  }

  lemma {:induction false} LookupConcat(a: seq<Peer>, b: seq<Peer>, k: Key)
    ensures Lookup(a + b, k) == if Lookup(a, k).Some? then Lookup(a, k) else Lookup(b, k)
  {
    if a == [] {
      assert a + b == b;
    } else {
      assert (a + b)[1..] == a[1..] + b;
      LookupConcat(a[1..], b, k);
    }
  }

  /** Removing the first match removes all of them from a duplicate-free list. */
  lemma {:induction false} FirstIsOnly(ps: seq<Peer>, k: Key)
    requires NoDuplicates(ps)
    ensures RemoveFirst(ps, k) == Without(ps, k)
  {
    if ps != [] {
      if ps[0].key == k {
        WithoutAbsent(ps[1..], k);
        assert [] + Without(ps[1..], k) == Without(ps[1..], k);
      } else {
        FirstIsOnly(ps[1..], k);
      }
    }
  }

  lemma {:induction false} WithoutDistinct(ps: seq<Peer>, k: Key)
    requires NoDuplicates(ps)
    ensures NoDuplicates(Without(ps, k))
  {
    if ps != [] {
      WithoutDistinct(ps[1..], k);
      var rest := Without(ps[1..], k);
      forall i | 0 <= i < |rest| ensures rest[i].key != ps[0].key {
        assert rest[i] in ps[1..];
      }
    }
  }

  lemma {:induction false} InsertDistinct(ps: seq<Peer>, r: Peer, answered: bool)
    requires NoDuplicates(ps)
    ensures NoDuplicates(Insert(ps, r, answered))
  {
    FirstIsOnly(ps, r.key);
    WithoutDistinct(ps, r.key);
    var rest := Without(ps, r.key);
    forall i | 0 <= i < |rest| ensures rest[i].key != r.key {
      assert rest[i] in rest;
    }
  }

  // --- the closed form ---

  function WithoutKey(ks: seq<Key>, k: Key): (r: seq<Key>)
    ensures k !in r && forall x <- ks :: x == k || x in r
    ensures forall x <- r :: x in ks
  {
    if ks == [] then [] else (if ks[0] == k then [] else [ks[0]]) + WithoutKey(ks[1..], k)
  }

  /** The answered peers, the one that answered last first. */
  function MostRecentFirst(rs: seq<Peer>): (ks: seq<Key>)
    ensures forall k <- ks :: exists i :: 0 <= i < |rs| && rs[i].key == k
    ensures forall i :: 0 <= i < |rs| ==> rs[i].key in ks
  {
    if rs == [] then []
    else
      var before, k := rs[..|rs| - 1], rs[|rs| - 1].key;
      [k] + WithoutKey(MostRecentFirst(before), k)
  }

  /** The entry of an answered peer: its last response, with addresses collected. */
  function Entry(stored: seq<Peer>, rs: seq<Peer>, k: Key): Option<Peer> {
    if rs == [] then None
    else
      var before, r := rs[..|rs| - 1], rs[|rs| - 1];
      var previous := Entry(stored, before, k);
      if r.key != k then previous
      else Some(Merged(r, if previous.Some? then previous else Lookup(Offline(stored), k), r.key.id in Ids(before)))
  }

  function Entries(stored: seq<Peer>, rs: seq<Peer>, ks: seq<Key>): seq<Peer> {
    if ks == [] then []
    else
      match Entry(stored, rs, ks[0])
      case Some(p) => [p] + Entries(stored, rs, ks[1..])
      case None => Entries(stored, rs, ks[1..])
  }

  /** The stored peers that did not answer, in their order. */
  function Unanswered(ps: seq<Peer>, ks: seq<Key>): seq<Peer> {
    if ps == [] then []
    else (if ps[0].key in ks then [] else [ps[0]]) + Unanswered(ps[1..], ks)
  }

  lemma {:induction false} EntryOfAnswered(stored: seq<Peer>, rs: seq<Peer>, k: Key)
    ensures Entry(stored, rs, k).Some? <==> k in MostRecentFirst(rs)
    ensures Entry(stored, rs, k).Some? ==> Entry(stored, rs, k).value.key == k
  {
    if rs != [] {
      EntryOfAnswered(stored, rs[..|rs| - 1], k);
    }
  }

  lemma {:induction false} EntriesOf(stored: seq<Peer>, rs: seq<Peer>, ks: seq<Key>)
    requires forall k <- ks :: k in MostRecentFirst(rs)
    ensures |Entries(stored, rs, ks)| == |ks|
    ensures forall i :: 0 <= i < |ks| ==> Entry(stored, rs, ks[i]) == Some(Entries(stored, rs, ks)[i])
    ensures forall i :: 0 <= i < |ks| ==> Entries(stored, rs, ks)[i].key == ks[i]
  {
    if ks != [] {
      assert ks[0] in ks;
      EntryOfAnswered(stored, rs, ks[0]);
      EntriesOf(stored, rs, ks[1..]);
    }
  }

  /** Dropping a key from the keys drops its entry; the others do not see the response. */
  lemma {:induction false} EntriesWithout(stored: seq<Peer>, rs: seq<Peer>, ks: seq<Key>)
    requires rs != []
    ensures var before, k := rs[..|rs| - 1], rs[|rs| - 1].key;
            Without(Entries(stored, before, ks), k) == Entries(stored, rs, WithoutKey(ks, k))
  {
    var before, k := rs[..|rs| - 1], rs[|rs| - 1].key;
    if ks != [] {
      EntriesWithout(stored, rs, ks[1..]);
      EntryOfAnswered(stored, before, ks[0]);
      var rest := Entries(stored, before, ks[1..]);
      match Entry(stored, before, ks[0])
      case None =>
        EntriesCons(stored, rs, ks[0], WithoutKey(ks[1..], k));
      case Some(p) =>
        assert ([p] + rest)[1..] == rest;
        EntriesCons(stored, rs, ks[0], WithoutKey(ks[1..], k));
    }
  }

  lemma {:induction false} EntriesCons(stored: seq<Peer>, rs: seq<Peer>, k: Key, ks: seq<Key>)
    ensures Entries(stored, rs, [k] + ks)
         == (match Entry(stored, rs, k) case Some(p) => [p] case None => []) + Entries(stored, rs, ks)
    ensures Entries(stored, rs, [] + ks) == Entries(stored, rs, ks)
  {
    assert ([k] + ks)[1..] == ks;
    assert [] + ks == ks;
  }

  lemma {:induction false} UnansweredWithout(ps: seq<Peer>, ks: seq<Key>, k: Key)
    ensures Without(Unanswered(ps, ks), k) == Unanswered(ps, [k] + WithoutKey(ks, k))
  {
    if ps != [] {
      UnansweredWithout(ps[1..], ks, k);
      var p, rest := ps[0], Unanswered(ps[1..], ks);
      assert p.key in [k] + WithoutKey(ks, k) <==> p.key == k || p.key in ks;
      if p.key !in ks {
        assert ([p] + rest)[1..] == rest;
      } else {
        assert [] + rest == rest;
      }
    }
  }

  lemma {:induction false} LookupUnanswered(ps: seq<Peer>, ks: seq<Key>, k: Key)
    ensures Lookup(Unanswered(ps, ks), k) == if k in ks then None else Lookup(ps, k)
  {
    if ps != [] {
      LookupUnanswered(ps[1..], ks, k);
      var p, rest := ps[0], Unanswered(ps[1..], ks);
      if p.key !in ks {
        assert ([p] + rest)[1..] == rest;
      } else {
        assert [] + rest == rest;
      }
    }
  }

  lemma {:induction false} LookupEntries(stored: seq<Peer>, rs: seq<Peer>, ks: seq<Key>, k: Key)
    ensures Lookup(Entries(stored, rs, ks), k) == if k in ks then Entry(stored, rs, k) else None
  {
    if ks != [] {
      LookupEntries(stored, rs, ks[1..], k);
      EntryOfAnswered(stored, rs, ks[0]);
      match Entry(stored, rs, ks[0])
      case None =>
      case Some(p) => assert ([p] + Entries(stored, rs, ks[1..]))[1..] == Entries(stored, rs, ks[1..]);
    }
  }

  /** The closed form of the list after any responses: the answered peers by most recent
      response first, then the unanswered ones offline in their stored order. */
  lemma {:induction false} ClosedForm(stored: seq<Peer>, rs: seq<Peer>)
    requires NoDuplicates(stored)
    ensures var ks := MostRecentFirst(rs);
            Received(stored, rs) == Entries(stored, rs, ks) + Unanswered(Offline(stored), ks)
  {
    if rs == [] {
      AllUnanswered(Offline(stored));
    } else {
      var before, r := rs[..|rs| - 1], rs[|rs| - 1];
      var ks := MostRecentFirst(before);
      var a, b := Entries(stored, before, ks), Unanswered(Offline(stored), ks);
      ClosedForm(stored, before);
      ReceivedDistinct(stored, before);
      FirstIsOnly(a + b, r.key);
      LookupBoth(stored, before, r.key);
      WithoutBoth(stored, rs);
      EntriesCons(stored, rs, r.key, WithoutKey(ks, r.key));
      assert Entry(stored, rs, r.key) == Some(Merged(r, Lookup(a + b, r.key), r.key.id in Ids(before)));
      Regroup(Entry(stored, rs, r.key).value, Entries(stored, rs, WithoutKey(ks, r.key)),
              Unanswered(Offline(stored), MostRecentFirst(rs)));
    }
  }

  lemma {:induction false} Regroup(p: Peer, a: seq<Peer>, b: seq<Peer>)
    ensures [p] + (a + b) == [p] + a + b
  {
  }

  lemma {:induction false} LookupBoth(stored: seq<Peer>, rs: seq<Peer>, k: Key)
    ensures var ks, e := MostRecentFirst(rs), Entry(stored, rs, k);
            Lookup(Entries(stored, rs, ks) + Unanswered(Offline(stored), ks), k)
            == if e.Some? then e else Lookup(Offline(stored), k)
  {
    var ks := MostRecentFirst(rs);
    LookupConcat(Entries(stored, rs, ks), Unanswered(Offline(stored), ks), k);
    LookupEntries(stored, rs, ks, k);
    LookupUnanswered(Offline(stored), ks, k);
    EntryOfAnswered(stored, rs, k);
  }

  lemma {:induction false} WithoutBoth(stored: seq<Peer>, rs: seq<Peer>)
    requires rs != []
    ensures var before, k := rs[..|rs| - 1], rs[|rs| - 1].key;
            var ks := MostRecentFirst(before);
            Without(Entries(stored, before, ks) + Unanswered(Offline(stored), ks), k)
            == Entries(stored, rs, WithoutKey(ks, k)) + Unanswered(Offline(stored), MostRecentFirst(rs))
  {
    var before, k := rs[..|rs| - 1], rs[|rs| - 1].key;
    var ks := MostRecentFirst(before);
    WithoutConcat(Entries(stored, before, ks), Unanswered(Offline(stored), ks), k);
    EntriesWithout(stored, rs, ks);
    UnansweredWithout(Offline(stored), ks, k);
  }

  lemma {:induction false} AllUnanswered(ps: seq<Peer>)
    ensures Unanswered(ps, []) == ps
  {
    if ps != [] {
      AllUnanswered(ps[1..]);
    }
  }

  // --- what the closed form says ---

  lemma {:induction false} ReceivedDistinct(stored: seq<Peer>, rs: seq<Peer>)
    requires NoDuplicates(stored)
    ensures NoDuplicates(Received(stored, rs))
  {
    if rs != [] {
      var before, r := rs[..|rs| - 1], rs[|rs| - 1];
      ReceivedDistinct(stored, before);
      InsertDistinct(Received(stored, before), r, r.key.id in Ids(before));
    }
  }

  lemma {:induction false} EntryOnline(stored: seq<Peer>, rs: seq<Peer>, k: Key)
    requires forall i :: 0 <= i < |rs| ==> rs[i].online
    ensures Entry(stored, rs, k).Some? ==> Entry(stored, rs, k).value.online
  {
    if rs != [] {
      EntryOnline(stored, rs[..|rs| - 1], k);
    }
  }

  lemma {:induction false} UnansweredSpec(ps: seq<Peer>, ks: seq<Key>)
    requires forall i :: 0 <= i < |ps| ==> !ps[i].online
    ensures forall p <- Unanswered(ps, ks) :: p in ps && !p.online && p.key !in ks
    ensures forall p <- ps :: p.key in ks || p in Unanswered(ps, ks)
  {
    if ps != [] {
      UnansweredSpec(ps[1..], ks);
    }
  }

  /** The positions of the peers that did not answer, in order. */
  function UnansweredAt(ps: seq<Peer>, ks: seq<Key>): (at: seq<nat>)
    ensures forall n :: 0 <= n < |at| ==> at[n] < |ps|
    ensures forall m, n :: 0 <= m < n < |at| ==> at[m] < at[n]
  {
    if ps == [] then []
    else
      var n := |ps| - 1;
      UnansweredAt(ps[..n], ks) + if ps[n].key in ks then [] else [n]
  }

  lemma {:induction false} UnansweredAtAll(ps: seq<Peer>, ks: seq<Key>, i: nat)
    requires i < |ps|
    ensures i in UnansweredAt(ps, ks) <==> ps[i].key !in ks
  {
    var n := |ps| - 1;
    if i < n {
      UnansweredAtAll(ps[..n], ks, i);
    }
  }

  /** From `from` on, `qs` holds the peers of `ps` at the given positions, offline. */
  ghost predicate Remain(qs: seq<Peer>, from: nat, ps: seq<Peer>, at: seq<nat>) {
    && |qs| == from + |at|
    && forall n :: 0 <= n < |at| ==> at[n] < |ps| && qs[from + n] == ps[at[n]].(online := false)
  }

  lemma {:induction false} UnansweredConcat(a: seq<Peer>, b: seq<Peer>, ks: seq<Key>)
    ensures Unanswered(a + b, ks) == Unanswered(a, ks) + Unanswered(b, ks)
  {
    if a == [] {
      assert a + b == b;
    } else {
      assert (a + b)[1..] == a[1..] + b;
      UnansweredConcat(a[1..], b, ks);
    }
  }

  lemma {:induction false} UnansweredLast(ps: seq<Peer>, ks: seq<Key>)
    requires ps != []
    ensures var n := |ps| - 1;
            Unanswered(ps, ks) == Unanswered(ps[..n], ks) + if ps[n].key in ks then [] else [ps[n]]
  {
    var n := |ps| - 1;
    assert ps == ps[..n] + [ps[n]];
    UnansweredConcat(ps[..n], [ps[n]], ks);
    UnansweredOne(ps[n], ks);
  }

  lemma {:induction false} UnansweredOne(p: Peer, ks: seq<Key>)
    ensures Unanswered([p], ks) == if p.key in ks then [] else [p]
  {
  }

  lemma {:induction false} UnansweredInOrder(ps: seq<Peer>, ks: seq<Key>)
    ensures Remain(Unanswered(Offline(ps), ks), 0, ps, UnansweredAt(ps, ks))
  {
    if ps != [] {
      var n := |ps| - 1;
      UnansweredInOrder(ps[..n], ks);
      OfflineFront(ps);
      UnansweredLast(Offline(ps), ks);
      RemainMore(Unanswered(Offline(ps[..n]), ks), ps, UnansweredAt(ps[..n], ks));
    }
  }

  lemma {:induction false} OfflineFront(ps: seq<Peer>)
    requires ps != []
    ensures Offline(ps)[..|ps| - 1] == Offline(ps[..|ps| - 1])
  {
  }

  lemma {:induction false} RemainMore(qs: seq<Peer>, ps: seq<Peer>, at: seq<nat>)
    requires ps != [] && Remain(qs, 0, ps[..|ps| - 1], at)
    ensures Remain(qs, 0, ps, at)
    ensures Remain(qs + [Offline(ps)[|ps| - 1]], 0, ps, at + [|ps| - 1])
  {
  }

  /** What follows the answered peers: the stored ones that did not answer, offline, as they
      were otherwise, in their order. */
  lemma {:induction false} StoredRemain(stored: seq<Peer>, rs: seq<Peer>)
    requires NoDuplicates(stored)
    ensures var ks := MostRecentFirst(rs);
            Remain(Received(stored, rs), |ks|, stored, UnansweredAt(stored, ks))
  {
    var ks := MostRecentFirst(rs);
    ClosedForm(stored, rs);
    EntriesCount(stored, rs);
    UnansweredInOrder(stored, ks);
    RemainAfter(Entries(stored, rs, ks), Unanswered(Offline(stored), ks), stored, UnansweredAt(stored, ks));
  }

  lemma {:induction false} EntriesCount(stored: seq<Peer>, rs: seq<Peer>)
    ensures |Entries(stored, rs, MostRecentFirst(rs))| == |MostRecentFirst(rs)|
  {
    EntriesOf(stored, rs, MostRecentFirst(rs));
  }

  lemma {:induction false} RemainAfter(a: seq<Peer>, qs: seq<Peer>, ps: seq<Peer>, at: seq<nat>)
    requires Remain(qs, 0, ps, at)
    ensures Remain(a + qs, |a|, ps, at)
  {
  }

  /** The merged list: still duplicate-free; first the answered peers, all online, in the
      order of `MostRecentFirst`; then exactly the stored peers that did not answer, offline. */
  lemma {:induction false} MergedList(stored: seq<Peer>, rs: seq<Peer>)
    requires NoDuplicates(stored) && forall i :: 0 <= i < |rs| ==> rs[i].online
    ensures NoDuplicates(Received(stored, rs))
    ensures var ps, ks := Received(stored, rs), MostRecentFirst(rs);
            && |ks| <= |ps|
            && (forall i :: 0 <= i < |ks| ==> ps[i].key == ks[i] && ps[i].online)
            && ps[|ks|..] == Unanswered(Offline(stored), ks)
            && (forall p <- ps[|ks|..] :: p in Offline(stored) && p.key !in ks)
            && (forall p <- Offline(stored) :: p.key in ks || p in ps[|ks|..])
  {
    var ks := MostRecentFirst(rs);
    ReceivedDistinct(stored, rs);
    ClosedForm(stored, rs);
    EntriesOf(stored, rs, ks);
    UnansweredSpec(Offline(stored), ks);
    forall i | 0 <= i < |ks| ensures Entries(stored, rs, ks)[i].online {
      EntryOnline(stored, rs, ks[i]);
    }
    var a, b := Entries(stored, rs, ks), Unanswered(Offline(stored), ks);
    assert (a + b)[|ks|..] == b;
  }

  /** The index of a peer's last response. */
  function LastAnswer(rs: seq<Peer>, k: Key): int {
    if rs == [] then -1
    else if rs[|rs| - 1].key == k then |rs| - 1
    else LastAnswer(rs[..|rs| - 1], k)
  }

  ghost predicate Later(rs: seq<Peer>, k: Key, ks: seq<Key>) {
    forall j :: 0 <= j < |ks| ==> LastAnswer(rs, ks[j]) < LastAnswer(rs, k)
  }

  ghost predicate LatestFirst(rs: seq<Peer>, ks: seq<Key>) {
    forall i :: 0 <= i < |ks| ==> Later(rs, ks[i], ks[i + 1..])
  }

  lemma {:induction false} LatestFirstCons(rs: seq<Peer>, k: Key, ks: seq<Key>)
    requires Later(rs, k, ks) && LatestFirst(rs, ks)
    ensures LatestFirst(rs, [k] + ks)
  {
  }

  lemma {:induction false} LatestFirstTail(rs: seq<Peer>, ks: seq<Key>)
    requires LatestFirst(rs, ks) && ks != []
    ensures Later(rs, ks[0], ks[1..]) && LatestFirst(rs, ks[1..])
  {
  }

  lemma {:induction false} LaterWithout(rs: seq<Peer>, x: Key, ks: seq<Key>, k: Key)
    requires Later(rs, x, ks)
    ensures Later(rs, x, WithoutKey(ks, k))
  {
    var r := WithoutKey(ks, k);
    forall i | 0 <= i < |r| ensures LastAnswer(rs, r[i]) < LastAnswer(rs, x) {
      assert r[i] in ks;
    }
  }

  lemma {:induction false} LatestFirstWithout(rs: seq<Peer>, ks: seq<Key>, k: Key)
    requires LatestFirst(rs, ks)
    ensures LatestFirst(rs, WithoutKey(ks, k))
  {
    if ks != [] {
      LatestFirstTail(rs, ks);
      LatestFirstWithout(rs, ks[1..], k);
      LaterWithout(rs, ks[0], ks[1..], k);
      var rest := WithoutKey(ks[1..], k);
      if ks[0] == k {
        assert [] + rest == rest;
      } else {
        LatestFirstCons(rs, ks[0], rest);
      }
    }
  }

  /** A further response changes no other peer's last answer. */
  lemma {:induction false} LatestFirstExtend(rs: seq<Peer>, ks: seq<Key>)
    requires rs != [] && rs[|rs| - 1].key !in ks && LatestFirst(rs[..|rs| - 1], ks)
    ensures LatestFirst(rs, ks) && Later(rs, rs[|rs| - 1].key, ks)
  {
    var before := rs[..|rs| - 1];
    forall i | 0 <= i < |ks| ensures LastAnswer(rs, ks[i]) == LastAnswer(before, ks[i]) < |rs| - 1 {
      assert ks[i] in ks;
      LastAnswerBound(before, ks[i]);
    }
    forall i | 0 <= i < |ks| ensures Later(rs, ks[i], ks[i + 1..]) {
      assert Later(before, ks[i], ks[i + 1..]);
      var tail := ks[i + 1..];
      forall j | 0 <= j < |tail| ensures LastAnswer(rs, tail[j]) < LastAnswer(rs, ks[i]) {
        assert tail[j] == ks[i + 1 + j];
      }
    }
  }

  /** The order of the answered peers: strictly by last response, the latest first. */
  lemma {:induction false} MostRecentOrder(rs: seq<Peer>)
    ensures LatestFirst(rs, MostRecentFirst(rs))
  {
    if rs != [] {
      var before, k := rs[..|rs| - 1], rs[|rs| - 1].key;
      var rest := WithoutKey(MostRecentFirst(before), k);
      MostRecentOrder(before);
      LatestFirstWithout(before, MostRecentFirst(before), k);
      LatestFirstExtend(rs, rest);
      LatestFirstCons(rs, k, rest);
    }
  }

  lemma {:induction false} LastAnswerBound(rs: seq<Peer>, k: Key)
    ensures -1 <= LastAnswer(rs, k) < |rs|
  {
    if rs != [] {
      LastAnswerBound(rs[..|rs| - 1], k);
    }
  }

  // --- addresses ---

  /** The addresses a peer answered from, the earliest answer winning per IP. */
  function Collected(rs: seq<Peer>, k: Key): map<string, string> {
    if rs == [] then map[]
    else
      var rest := Collected(rs[..|rs| - 1], k);
      if rs[|rs| - 1].key == k then rs[|rs| - 1].ipMac + rest else rest
  }

  /** The index of a peer's first response, or the number of responses. */
  function FirstAnswer(rs: seq<Peer>, k: Key): (i: nat)
    ensures i <= |rs| && (i < |rs| ==> rs[i].key == k)
    ensures forall j :: 0 <= j < i ==> rs[j].key != k
  {
    if rs == [] || rs[0].key == k then 0 else 1 + FirstAnswer(rs[1..], k)
  }

  /** The addresses a stored peer keeps from the list: those of a peer whose id had answered,
      under another user name, before its own first response. */
  function Stale(stored: seq<Peer>, rs: seq<Peer>, k: Key): map<string, string> {
    if k.id in Ids(rs[..FirstAnswer(rs, k)]) && Lookup(stored, k).Some? then Lookup(stored, k).value.ipMac
    else map[]
  }

  lemma {:induction false} LookupOffline(stored: seq<Peer>, k: Key)
    ensures Lookup(stored, k).Some? <==> Lookup(Offline(stored), k).Some?
    ensures Lookup(stored, k).Some? ==> Lookup(Offline(stored), k).value.ipMac == Lookup(stored, k).value.ipMac
  {
    if stored != [] {
      assert Offline(stored)[1..] == Offline(stored[1..]);
      LookupOffline(stored[1..], k);
    }
  }

  lemma {:induction false} Unheard(stored: seq<Peer>, rs: seq<Peer>, k: Key)
    ensures Entry(stored, rs, k).None? <==> FirstAnswer(rs, k) == |rs|
    ensures Entry(stored, rs, k).None? ==> Collected(rs, k) == map[]
  {
    if rs != [] {
      Unheard(stored, rs[..|rs| - 1], k);
      FirstAnswerStays(rs, k);
    }
  }

  /** A further response changes a peer's first answer only if it is the first. */
  lemma {:induction false} FirstAnswerStays(rs: seq<Peer>, k: Key)
    requires rs != []
    ensures var n := |rs| - 1;
            var i := FirstAnswer(rs[..n], k);
            FirstAnswer(rs, k) == (if i < n || rs[n].key == k then i else |rs|)
            && (i < n ==> rs[..n][..i] == rs[..i])
  {
    var n := |rs| - 1;
    var i, j := FirstAnswer(rs[..n], k), FirstAnswer(rs, k);
    if i < n {
      assert rs[..n][i].key == k && !(i < j) && !(j < i);
    } else {
      assert forall x :: 0 <= x < n ==> rs[x] == rs[..n][x];
      assert !(j < n);
    }
  }

  lemma {:induction false} EntryIdAnswered(stored: seq<Peer>, rs: seq<Peer>, k: Key)
    requires Entry(stored, rs, k).Some?
    ensures k.id in Ids(rs)
  {
    EntryOfAnswered(stored, rs, k);
    var i :| 0 <= i < |rs| && rs[i].key == k;
    assert rs[i] in rs;
  }

  /** The addresses of an answered peer, in general: a stale address wins over an answered one
      for the same IP. */
  lemma {:induction false} EntryAddresses(stored: seq<Peer>, rs: seq<Peer>, k: Key)
    requires Entry(stored, rs, k).Some?
    ensures Entry(stored, rs, k).value.ipMac == Collected(rs, k) + Stale(stored, rs, k)
  {
    var n := |rs| - 1;
    var before, r := rs[..n], rs[n];
    if Entry(stored, before, k).Some? {
      EntryAddresses(stored, before, k);
      StaleStays(stored, rs, k);
      if r.key == k {
        EntryIdAnswered(stored, before, k);
        MergeRegroups(r.ipMac, Collected(before, k), Stale(stored, before, k));
      }
    } else {
      FirstEntry(stored, rs, k);
    }
  }

  lemma {:induction false} StaleStays(stored: seq<Peer>, rs: seq<Peer>, k: Key)
    requires rs != [] && Entry(stored, rs[..|rs| - 1], k).Some?
    ensures Stale(stored, rs, k) == Stale(stored, rs[..|rs| - 1], k)
  {
    Unheard(stored, rs[..|rs| - 1], k);
    FirstAnswerStays(rs, k);
  }

  lemma {:induction false} MergeRegroups(a: map<string, string>, b: map<string, string>, c: map<string, string>)
    ensures a + (b + c) == (a + b) + c
  {
  }

  lemma {:induction false} FirstEntry(stored: seq<Peer>, rs: seq<Peer>, k: Key)
    requires rs != [] && rs[|rs| - 1].key == k && Entry(stored, rs[..|rs| - 1], k).None?
    ensures Entry(stored, rs, k).value.ipMac == Collected(rs, k) + Stale(stored, rs, k)
  {
    Unheard(stored, rs[..|rs| - 1], k);
    FirstAnswerStays(rs, k);
    LookupOffline(stored, k);
    var r := rs[|rs| - 1];
    assert r.ipMac + map[] == r.ipMac;
  }

  /** Whether the entry of an answered peer is shown online: its last response says so, or it
      replaced an entry after its id had answered. */
  predicate ShownOnline(stored: seq<Peer>, rs: seq<Peer>, k: Key, i: nat)
    requires i < |rs|
  {
    rs[i].online || FirstAnswer(rs, k) < i || (k.id in Ids(rs[..i]) && Lookup(stored, k).Some?)
  }

  lemma {:induction false} EntryIsLastAnswer(stored: seq<Peer>, rs: seq<Peer>, k: Key)
    requires Entry(stored, rs, k).Some?
    ensures var i, e := LastAnswer(rs, k), Entry(stored, rs, k).value;
            && 0 <= i < |rs| && rs[i].key == k
            && e == rs[i].(ipMac := e.ipMac, online := ShownOnline(stored, rs, k, i))
  {
    var n := |rs| - 1;
    var before := rs[..n];
    FirstAnswerStays(rs, k);
    Unheard(stored, before, k);
    if rs[n].key != k {
      var i := LastAnswer(before, k);
      EntryIsLastAnswer(stored, before, k);
      assert before[..i] == rs[..i];
    } else {
      LookupOffline(stored, k);
      if Entry(stored, before, k).Some? {
        EntryIdAnswered(stored, before, k);
      }
    }
  }

  /** The record of every answered peer: that of its last response, not of the stored peer,
      with the addresses collected over its responses and any stale ones over them. */
  lemma {:induction false} ReceivedRecords(stored: seq<Peer>, rs: seq<Peer>, j: nat)
    requires NoDuplicates(stored) && j < |MostRecentFirst(rs)|
    ensures var ps, k := Received(stored, rs), MostRecentFirst(rs)[j];
            var i := LastAnswer(rs, k);
            && j < |ps| && 0 <= i < |rs| && rs[i].key == k
            && ps[j].key == k && ps[j].hostname == rs[i].hostname && ps[j].platform == rs[i].platform
            && ps[j].online == ShownOnline(stored, rs, k, i)
            && ps[j].ipMac == Collected(rs, k) + Stale(stored, rs, k)
  {
    var ks := MostRecentFirst(rs);
    ClosedForm(stored, rs);
    EntriesOf(stored, rs, ks);
    assert ks[j] in ks;
    EntryOfAnswered(stored, rs, ks[j]);
    EntryIsLastAnswer(stored, rs, ks[j]);
    EntryAddresses(stored, rs, ks[j]);
  }

  /** When every response is online the list shows the last response of each answered peer,
      with its addresses. */
  lemma {:induction false} LastResponsesShown(stored: seq<Peer>, rs: seq<Peer>, j: nat)
    requires NoDuplicates(stored) && j < |MostRecentFirst(rs)| && forall i :: 0 <= i < |rs| ==> rs[i].online
    ensures var ps := Received(stored, rs);
            && j < |ps| && 0 <= LastAnswer(rs, ps[j].key) < |rs|
            && ps[j] == rs[LastAnswer(rs, ps[j].key)].(ipMac := ps[j].ipMac)
  {
    ReceivedRecords(stored, rs, j);
  }

  /** Exactly when a peer ends up with the addresses it answered from and no others: its id had
      not answered before its first response, or it was not stored, or each of its stored
      addresses was also answered with the same value. The stored value stays where they
      differ. */
  lemma {:induction false} StaleCondition(stored: seq<Peer>, rs: seq<Peer>, j: nat)
    requires NoDuplicates(stored) && j < |MostRecentFirst(rs)|
    ensures j < |Received(stored, rs)|
    ensures var k, macs := MostRecentFirst(rs)[j], Received(stored, rs)[j].ipMac;
            var got, late := Collected(rs, k), k.id in Ids(rs[..FirstAnswer(rs, k)]);
            && (macs == got <==>
                  !late || Lookup(stored, k).None?
                  || forall ip <- Lookup(stored, k).value.ipMac ::
                       ip in got && got[ip] == Lookup(stored, k).value.ipMac[ip])
            && (late && Lookup(stored, k).Some? ==>
                  forall ip <- Lookup(stored, k).value.ipMac ::
                    ip in macs && macs[ip] == Lookup(stored, k).value.ipMac[ip])
  {
    var k := MostRecentFirst(rs)[j];
    ReceivedRecords(stored, rs, j);
    MergedUnchanged(Collected(rs, k), Stale(stored, rs, k));
  }

  lemma {:induction false} MergedUnchanged(a: map<string, string>, b: map<string, string>)
    ensures a + b == a <==> forall ip <- b :: ip in a && a[ip] == b[ip]
  {
    if a + b == a {
      assert forall ip <- b :: (a + b)[ip] == b[ip];
    }
  }

  /** Two users of one id: the second one's old address survives its new answer. */
  lemma {:induction false} StaleAddressSurvives(ann: Peer, bob: Peer, ip: string)
    requires ann.key.id == bob.key.id && ann.key != bob.key
    requires ip in bob.ipMac
    ensures var was := bob.(ipMac := map[ip := bob.ipMac[ip] + "?"]);
            var ps := Received([was], [ann, bob]);
            && |ps| > 0 && ps[0].key == bob.key
            && ip in ps[0].ipMac && ps[0].ipMac[ip] == was.ipMac[ip] != bob.ipMac[ip]
  {
    var was := bob.(ipMac := map[ip := bob.ipMac[ip] + "?"]);
    var rs := [ann, bob];
    assert rs[..1] == [ann] && FirstAnswer(rs, bob.key) == 1 && ann in rs[..1];
    assert MostRecentFirst(rs)[0] == bob.key;
    ReceivedRecords([was], rs, 0);
  }

  lemma {:induction false} CollectedFrom(rs: seq<Peer>, k: Key, ip: string)
    ensures ip in Collected(rs, k) <==> exists i :: 0 <= i < |rs| && rs[i].key == k && ip in rs[i].ipMac
  {
    if rs != [] {
      var n := |rs| - 1;
      var before := rs[..n];
      CollectedFrom(before, k, ip);
      if ip in Collected(before, k) {
        var i :| 0 <= i < |before| && before[i].key == k && ip in before[i].ipMac;
        assert rs[i].key == k && ip in rs[i].ipMac;
      }
      if i :| 0 <= i < |rs| && rs[i].key == k && ip in rs[i].ipMac {
        assert i == n || before[i] == rs[i];
      }
    }
  }

  lemma {:induction false} EarliestWins(rs: seq<Peer>, k: Key, ip: string, i: nat)
    requires i < |rs| && rs[i].key == k && ip in rs[i].ipMac
    requires forall j :: 0 <= j < i && rs[j].key == k ==> ip !in rs[j].ipMac
    ensures ip in Collected(rs, k) && Collected(rs, k)[ip] == rs[i].ipMac[ip]
  {
    var n := |rs| - 1;
    var before := rs[..n];
    if i < n {
      EarliestWins(before, k, ip, i);
    } else {
      CollectedFrom(before, k, ip);
    }
  }

  ghost predicate OnePeerPerId(rs: seq<Peer>) {
    forall i, j :: 0 <= i < j < |rs| && rs[i].key.id == rs[j].key.id ==> rs[i].key == rs[j].key
  }

  lemma {:induction false} NothingStale(stored: seq<Peer>, rs: seq<Peer>, k: Key)
    requires OnePeerPerId(rs) && FirstAnswer(rs, k) < |rs|
    ensures Stale(stored, rs, k) == map[]
  {
  }

  /** When each id belongs to one peer, a peer's addresses are exactly those it answered from
      in this round. */
  lemma {:induction false} FreshAddresses(stored: seq<Peer>, rs: seq<Peer>, j: nat)
    requires NoDuplicates(stored) && OnePeerPerId(rs) && j < |MostRecentFirst(rs)|
    ensures j < |Received(stored, rs)|
    ensures Received(stored, rs)[j].ipMac == Collected(rs, MostRecentFirst(rs)[j])
  {
    var k := MostRecentFirst(rs)[j];
    ReceivedRecords(stored, rs, j);
    Answered(rs, k);
    NothingStale(stored, rs, k);
  }

  lemma {:induction false} Answered(rs: seq<Peer>, k: Key)
    requires k in MostRecentFirst(rs)
    ensures FirstAnswer(rs, k) < |rs|
  {
    var i :| 0 <= i < |rs| && rs[i].key == k;
  }
}
