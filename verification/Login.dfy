/** Password selection and saving at login (src/client.rs): which password is tried, what is
    remembered about where it came from, and what ends up in the saved peer configuration. */
module Login {
  import opened Options
  import opened Octets

  datatype PasswordSource = PersonalAb(stored: Bytes) | SharedAb(text: Bytes) | Undefined

  /** SHA-256, uninterpreted. */
  type Sha = Bytes -> Bytes

  function Digest(sha: Sha, text: Bytes, salt: Bytes): Bytes {
    sha(text + salt)
  }

  predicate IsPersonalAb(s: PasswordSource, password: Bytes) {
    password != [] && s == PersonalAb(password)
  }

  predicate IsSharedAb(sha: Sha, s: PasswordSource, password: Bytes, salt: Bytes) {
    password != [] && s.SharedAb? && Digest(sha, s.text, salt) == password
  }

  /** The part of `LoginConfigHandler` that the password handlers use; `switchLogin` says
      whether a valid switch id is waiting, `saved` is the configured password. */
  datatype Handler = Handler(
    password: Bytes, source: PasswordSource, salt: Bytes, remember: bool,
    saved: Bytes, shared: Option<Bytes>, switchLogin: bool)

  /** What `handle_hash` finds outside the handler: the preset password, the personal
      address-book password and the built-in default, each empty when there is none. */
  datatype Hash = Hash(salt: Bytes, preset: Bytes, addressBook: Bytes, builtin: Bytes)

  datatype LoginError = PasswordEmpty | PasswordWrong | OtherError

  // --- the handlers as functions ---

  datatype Choice = Choice(password: Bytes, source: PasswordSource)

  function OrPreset(sha: Sha, c: Choice, h: Hash): Choice {
    if c.password == [] && h.preset != [] then Choice(Digest(sha, h.preset, h.salt), Undefined) else c
  }

  function OrShared(sha: Sha, c: Choice, shared: Option<Bytes>, h: Hash): Choice {
    if shared.Some? && shared.value != [] then Choice(Digest(sha, shared.value, h.salt), SharedAb(shared.value)) else c
  }

  function OrSaved(c: Choice, saved: Bytes): Choice {
    if c.password == [] && saved != [] then Choice(saved, Undefined) else c
  }

  function OrAddressBook(c: Choice, h: Hash): Choice {
    if c.password == [] && h.addressBook != [] then Choice(h.addressBook, PersonalAb(h.addressBook)) else c
  }

  function OrBuiltin(sha: Sha, c: Choice, h: Hash): Choice {
    if c.password == [] && h.builtin != [] then Choice(Digest(sha, h.builtin, h.salt), SharedAb(h.builtin)) else c
  }

  function Choose(sha: Sha, l: Handler, h: Hash): Choice {
    OrBuiltin(sha,
      OrAddressBook(
        OrSaved(
          OrShared(sha, OrPreset(sha, Choice(l.password, l.source), h), l.shared, h),
          l.saved),
        h),
      h)
  }

  function HandleHash(sha: Sha, l: Handler, h: Hash): Handler {
    if l.switchLogin then l.(salt := h.salt, switchLogin := false, source := Undefined)
    else
      var c := Choose(sha, l, h);
      l.(salt := h.salt, shared := None, password := c.password, source := c.source)
  }

  function HandleLoginError(l: Handler, e: LoginError): Handler {
    if e.OtherError? then l else l.(password := [])
  }

  function HandleLoginFromUi(sha: Sha, l: Handler, typed: Bytes, remember: bool): Handler {
    if typed == [] then
      var c := OrSaved(Choice(l.password, l.source), l.saved);
      l.(password := c.password, source := c.source)
    else
      l.(password := Digest(sha, typed, l.salt), source := Undefined, remember := remember)
  }

  function SavedAfter(sha: Sha, l: Handler): Bytes {
    if l.remember then
      if l.password != [] && l.password != l.saved && !IsSharedAb(sha, l.source, l.password, l.salt) then l.password
      else l.saved
    else if IsPersonalAb(l.source, l.password) then l.password
    else []
  }

  /** The password `handle_peer_info` offers to the personal address book, if any. */
  function Synced(sha: Sha, l: Handler): Option<Bytes> {
    var saved := SavedAfter(sha, l);
    if saved != [] && !IsSharedAb(sha, l.source, l.password, l.salt) && !IsPersonalAb(l.source, l.password)
    then Some(saved) else None
  }

  function HandlePeerInfo(sha: Sha, l: Handler): Handler {
    l.(saved := SavedAfter(sha, l))
  }

  // --- what the handlers decide, case by case ---

  /** The ladder of passwords after a hash message: a shared password before all others, then
      the session's own, the preset one, the saved one, the address book's, the built-in one;
      and the source recorded for each. A waiting switch login leaves the password alone and
      resets its source. */
  lemma PasswordOrder(sha: Sha, l: Handler, h: Hash)
    requires Holds32(sha)
    ensures var l' := HandleHash(sha, l, h);
            && l'.salt == h.salt && !l'.switchLogin && l'.remember == l.remember && l'.saved == l.saved
            && if l.switchLogin then l'.password == l.password && l'.source == Undefined && l'.shared == l.shared
               else
                 && l'.shared == None
                 && if l.shared.Some? && l.shared.value != [] then
                      l'.password == sha(l.shared.value + h.salt) && l'.source == SharedAb(l.shared.value)
                    else if l.password != [] then l'.password == l.password && l'.source == l.source
                    else if h.preset != [] then l'.password == sha(h.preset + h.salt) && l'.source == Undefined
                    else if l.saved != [] then l'.password == l.saved && l'.source == Undefined
                    else if h.addressBook != [] then
                      l'.password == h.addressBook && l'.source == PersonalAb(h.addressBook)
                    else if h.builtin != [] then
                      l'.password == sha(h.builtin + h.salt) && l'.source == SharedAb(h.builtin)
                    else l'.password == [] && l'.source == l.source
  {
  }

  /** A password typed into the login dialog is used and its source is the user; without one
      the session's own is, or the saved one. */
  lemma TypedPassword(sha: Sha, l: Handler, typed: Bytes, remember: bool)
    ensures var l' := HandleLoginFromUi(sha, l, typed, remember);
            && l'.salt == l.salt && l'.saved == l.saved && l'.shared == l.shared && l'.switchLogin == l.switchLogin
            && if typed != [] then
                 l'.password == sha(typed + l.salt) && l'.source == Undefined && l'.remember == remember
               else
                 && l'.remember == l.remember
                 && if l.password != [] || l.saved == [] then l'.password == l.password && l'.source == l.source
                    else l'.password == l.saved && l'.source == Undefined
  {
  }

  /** Whether the recorded source and the current salt identify the password as a shared one. */
  predicate KnownShared(sha: Sha, l: Handler) {
    l.password != [] && l.source.SharedAb? && sha(l.source.text + l.salt) == l.password
  }

  /** What peer-info saves and offers. To be remembered: a new password that is not known to be
      shared. Not to be remembered: only the address book's own. Offered: whatever is then
      saved, unless the session's is known to be shared or the address book's own. */
  lemma SavedAndOffered(sha: Sha, l: Handler)
    ensures var l', own := HandlePeerInfo(sha, l), l.password != [] && l.source == PersonalAb(l.password);
            && l' == l.(saved := l'.saved)
            && (l.remember ==> l'.saved == if l.password == [] || KnownShared(sha, l) then l.saved else l.password)
            && (!l.remember ==> l'.saved == if own then l.password else [])
            && Synced(sha, l) == if l'.saved == [] || KnownShared(sha, l) || own then None else Some(l'.saved)
  {
  }

  /** A wrong or missing password is forgotten, and nothing else. */
  lemma ErrorForgets(l: Handler, e: LoginError)
    ensures HandleLoginError(l, e) == l.(password := if e == OtherError then l.password else [])
  {
  }

  // --- the handlers in their own form ---

  class LoginConfigHandler {
    const sha: Sha
    var password: Bytes
    var source: PasswordSource
    var salt: Bytes
    var remember: bool
    var saved: Bytes
    var shared: Option<Bytes>
    var switchLogin: bool

    ghost function State(): Handler
      reads this
    {
      Handler(password, source, salt, remember, saved, shared, switchLogin)
    }

    /** `initialize`, with the password and source a reconnect token may carry. */
    constructor (sha: Sha, saved: Bytes, shared: Option<Bytes>, switchLogin: bool, token: Choice)
      ensures State() == Handler(token.password, token.source, [], saved != [], saved, shared, switchLogin)
      ensures this.sha == sha
    {
      this.sha := sha;
      password, source, salt := token.password, token.source, [];
      remember := saved != [];
      this.saved, this.shared, this.switchLogin := saved, shared, switchLogin;
    }

    method OnHash(h: Hash)
      modifies this
      ensures State() == HandleHash(sha, old(State()), h)
    {
      salt := h.salt;
      if switchLogin {
        switchLogin := false;
        source := Undefined;
        return;
      }
      var chosen := password;
      if chosen == [] && h.preset != [] {
        chosen := Digest(sha, h.preset, h.salt);
        source := Undefined;
      }
      var taken := shared;
      shared := None;
      if taken.Some? && taken.value != [] {
        chosen := Digest(sha, taken.value, h.salt);
        source := SharedAb(taken.value);
      }
      if chosen == [] {
        chosen := saved;
        if chosen != [] {
          source := Undefined;
        }
      }
      if chosen == [] && h.addressBook != [] {
        chosen := h.addressBook;
        source := PersonalAb(h.addressBook);
      }
      if chosen == [] && h.builtin != [] {
        chosen := Digest(sha, h.builtin, h.salt);
        source := SharedAb(h.builtin);
      }
      password := chosen;
    }

    method OnLoginError(e: LoginError)
      modifies this
      ensures State() == HandleLoginError(old(State()), e)
    {
      match e
      case PasswordEmpty => password := [];
      case PasswordWrong => password := [];
      case OtherError =>
    }

    method OnLoginFromUi(typed: Bytes, remember: bool)
      modifies this
      ensures State() == HandleLoginFromUi(sha, old(State()), typed, remember)
    {
      if typed == [] {
        var chosen := password;
        if chosen == [] {
          chosen := saved;
          if chosen != [] {
            source := Undefined;
          }
        }
        password := chosen;
      } else {
        source := Undefined;
        password := Digest(sha, typed, salt);
        this.remember := remember;
      }
    }

    method OnPeerInfo() returns (sync: Option<Bytes>)
      modifies this
      ensures State() == HandlePeerInfo(sha, old(State()))
      ensures sync == Synced(sha, old(State()))
    {
      var password0 := saved;
      if remember {
        if password != [] && password != password0 && !IsSharedAb(sha, source, password, salt) {
          saved := password;
        }
      } else if IsPersonalAb(source, password) {
        saved := password;
      } else if password0 != [] {
        saved := [];
      }
      sync := if saved != [] && !IsSharedAb(sha, source, password, salt) && !IsPersonalAb(source, password)
      then Some(saved) else None;
    }
  }

  // --- where the session password really came from ---

  /** `Shared` for a password derived from a shared or built-in one, with the salt it was
      derived with. */
  datatype Origin = Shared(text: Bytes, salt: Bytes) | Elsewhere

  /** A handler with the true origin of its session password and every address-book password
      it has been given. */
  datatype World = World(login: Handler, origin: Origin, addressBook: set<Bytes>)

  datatype Event =
    | HashReceived(hash: Hash)
    | Failed(error: LoginError)
    | FromUi(typed: Bytes, remember: bool)
    | PeerInfo

  function OriginAfterHash(w: World, h: Hash): Origin {
    var l := w.login;
    if l.switchLogin then w.origin
    else if l.shared.Some? && l.shared.value != [] then Shared(l.shared.value, h.salt)
    else if l.password != [] then w.origin
    else if h.preset != [] || l.saved != [] || h.addressBook != [] then Elsewhere
    else if h.builtin != [] then Shared(h.builtin, h.salt)
    else Elsewhere
  }

  function Step(sha: Sha, w: World, e: Event): World {
    match e
    case HashReceived(h) =>
      World(HandleHash(sha, w.login, h), OriginAfterHash(w, h), w.addressBook + {h.addressBook})
    case Failed(error) =>
      w.(login := HandleLoginError(w.login, error), origin := if error.OtherError? then w.origin else Elsewhere)
    case FromUi(typed, remember) =>
      w.(login := HandleLoginFromUi(sha, w.login, typed, remember),
         origin := if typed == [] && w.login.password != [] then w.origin else Elsewhere)
    case PeerInfo => w.(login := HandlePeerInfo(sha, w.login))
  }

  function Run(sha: Sha, w: World, es: seq<Event>): World {
    if es == [] then w else Step(sha, Run(sha, w, es[..|es| - 1]), es[|es| - 1])
  }

  ghost predicate Holds32(sha: Sha) {
    forall b: Bytes :: |sha(b)| == 32
  }

  predicate HoldsShared(w: World) {
    w.login.password != [] && w.origin.Shared?
  }

  /** `handle_peer_info` would store a password that a shared one gave. */
  predicate Leaks(sha: Sha, w: World) {
    HoldsShared(w) && SavedAfter(sha, w.login) != w.login.saved && SavedAfter(sha, w.login) == w.login.password
  }

  /** Where the origin is a shared password, the digest fits it; the source says so or was
      reset. A personal source is an address-book password. */
  ghost predicate Recorded(sha: Sha, w: World) {
    && (HoldsShared(w) ==>
          && w.login.password == Digest(sha, w.origin.text, w.origin.salt)
          && (w.login.source == SharedAb(w.origin.text) || w.login.source == Undefined))
    && (w.login.source.PersonalAb? ==> w.login.source.stored in w.addressBook)
  }

  lemma StepRecorded(sha: Sha, w: World, e: Event)
    requires Holds32(sha) && Recorded(sha, w)
    ensures Recorded(sha, Step(sha, w, e))
  {
  }

  lemma {:induction false} RunRecorded(sha: Sha, w: World, es: seq<Event>)
    requires Holds32(sha) && Recorded(sha, w)
    ensures Recorded(sha, Run(sha, w, es))
  {
    if es != [] {
      RunRecorded(sha, w, es[..|es| - 1]);
      StepRecorded(sha, Run(sha, w, es[..|es| - 1]), es[|es| - 1]);
    }
  }

  /** Exactly when a saved configuration receives a shared password, after any run and with any
      salts: remembering is on, it is not saved yet, and the record of its source was reset by
      a switch login or no longer fits because the salt is another one. */
  lemma {:induction false} LeakCondition(sha: Sha, w: World, es: seq<Event>)
    requires Holds32(sha) && Recorded(sha, w)
    ensures var v := Run(sha, w, es);
            HoldsShared(v) ==>
              (Leaks(sha, v) <==>
                 && v.login.remember
                 && v.login.password != v.login.saved
                 && (v.login.source == Undefined
                     || Digest(sha, v.origin.text, v.login.salt) != Digest(sha, v.origin.text, v.origin.salt)))
  {
    RunRecorded(sha, w, es);
  }

  /** `handle_peer_info` would offer a password that a shared one gave to the personal address
      book. */
  predicate Offers(sha: Sha, w: World) {
    HoldsShared(w) && Synced(sha, w.login) == Some(w.login.password)
  }

  /** Exactly when a shared password is offered to the personal address book: as for saving, but
      a password that is saved already is no protection. If it is not, nothing is offered. */
  lemma {:induction false} OfferCondition(sha: Sha, w: World, es: seq<Event>)
    requires Holds32(sha) && Recorded(sha, w)
    ensures var v := Run(sha, w, es);
            HoldsShared(v) ==>
              && (Offers(sha, v) <==>
                    && v.login.remember
                    && (v.login.source == Undefined
                        || Digest(sha, v.origin.text, v.login.salt) != Digest(sha, v.origin.text, v.origin.salt)))
              && (Offers(sha, v) || Synced(sha, v.login) == None)
  {
    RunRecorded(sha, w, es);
  }

  /** With remembering off, what peer-info saves is empty or an address-book password. */
  lemma {:induction false} ForgottenOrPersonal(sha: Sha, w: World, es: seq<Event>)
    requires Holds32(sha) && Recorded(sha, w)
    ensures var v := Run(sha, w, es);
            !v.login.remember ==>
              var saved := Step(sha, v, PeerInfo).login.saved;
              saved == [] || saved in v.addressBook
  {
    RunRecorded(sha, w, es);
  }

  // --- one salt ---

  ghost predicate OneSalt(es: seq<Event>, salt: Bytes) {
    forall i :: 0 <= i < |es| && es[i].HashReceived? ==> es[i].hash.salt == salt
  }

  /** A shared password that peer-info leaves alone even with its record reset: one that is not
      to be remembered or, if only saving matters, one that is saved already. */
  predicate Harmless(l: Handler, offers: bool) {
    !l.remember || (!offers && l.password == l.saved)
  }

  /** A start that one salt protects: no switch login waits that would reset the record of a
      shared password that is not harmless. */
  ghost predicate Protected(w: World, offers: bool) {
    w.login.switchLogin && HoldsShared(w) ==> Harmless(w.login, offers)
  }

  ghost predicate TokenFits(sha: Sha, w: World, salt: Bytes) {
    && Recorded(sha, w)
    && (HoldsShared(w) ==> w.login.source == SharedAb(w.origin.text) && w.origin.salt == salt)
  }

  /** What holds once the salt has been received. */
  ghost predicate Covered(sha: Sha, w: World, salt: Bytes, offers: bool) {
    && Recorded(sha, w)
    && w.login.salt == salt
    && !w.login.switchLogin
    && (HoldsShared(w) ==>
          && w.origin.salt == salt
          && (w.login.source == SharedAb(w.origin.text) || Harmless(w.login, offers)))
  }

  lemma FirstHashCovers(sha: Sha, w: World, h: Hash, offers: bool)
    requires Holds32(sha) && TokenFits(sha, w, h.salt) && Protected(w, offers)
    ensures Covered(sha, Step(sha, w, HashReceived(h)), h.salt, offers)
  {
  }

  lemma CoveredKept(sha: Sha, w: World, e: Event, salt: Bytes, offers: bool)
    requires Holds32(sha) && Covered(sha, w, salt, offers)
    requires e.HashReceived? ==> e.hash.salt == salt
    ensures Covered(sha, Step(sha, w, e), salt, offers)
  {
  }

  lemma {:induction false} RunCovered(sha: Sha, w: World, es: seq<Event>, salt: Bytes, offers: bool)
    requires Holds32(sha) && Covered(sha, w, salt, offers) && OneSalt(es, salt)
    ensures Covered(sha, Run(sha, w, es), salt, offers)
  {
    if es != [] {
      var n := |es| - 1;
      RunCovered(sha, w, es[..n], salt, offers);
      CoveredKept(sha, Run(sha, w, es[..n]), es[n], salt, offers);
    }
  }

  /** Provenance. With one salt, after the first hash message and any further events, peer-info
      saves no shared password - for every continuation exactly if the start is protected. */
  lemma {:induction false} Provenance(sha: Sha, w: World, h: Hash)
    requires Holds32(sha) && TokenFits(sha, w, h.salt)
    ensures (forall es :: OneSalt(es, h.salt) ==> !Leaks(sha, Run(sha, Step(sha, w, HashReceived(h)), es)))
       <==> Protected(w, false)
  {
    var first := Step(sha, w, HashReceived(h));
    if Protected(w, false) {
      FirstHashCovers(sha, w, h, false);
      forall es | OneSalt(es, h.salt) ensures !Leaks(sha, Run(sha, first, es)) {
        RunCovered(sha, first, es, h.salt, false);
      }
    } else {
      assert OneSalt([], h.salt) && Run(sha, first, []) == first;
      assert Leaks(sha, first);
    }
  }

  /** The same for what is offered to the personal address book, which needs the stronger
      protection: a switch login lets a saved shared password be offered. */
  lemma {:induction false} OfferProvenance(sha: Sha, w: World, h: Hash)
    requires Holds32(sha) && TokenFits(sha, w, h.salt)
    ensures (forall es :: OneSalt(es, h.salt) ==> !Offers(sha, Run(sha, Step(sha, w, HashReceived(h)), es)))
       <==> Protected(w, true)
  {
    var first := Step(sha, w, HashReceived(h));
    if Protected(w, true) {
      FirstHashCovers(sha, w, h, true);
      forall es | OneSalt(es, h.salt) ensures !Offers(sha, Run(sha, first, es)) {
        RunCovered(sha, first, es, h.salt, true);
      }
    } else {
      assert OneSalt([], h.salt) && Run(sha, first, []) == first;
      assert Offers(sha, first);
    }
  }

  /** The salt must stay the same: a shared password accepted under one salt is saved after a
      hash message with another, whenever the two digests differ. */
  lemma {:induction false} SaltChangeLeaks(sha: Sha, w: World, h1: Hash, h2: Hash)
    requires Holds32(sha)
    requires w.login.shared.Some? && w.login.shared.value != [] && !w.login.switchLogin && w.login.remember
    requires Digest(sha, w.login.shared.value, h1.salt) != w.login.saved
    requires Digest(sha, w.login.shared.value, h1.salt) != Digest(sha, w.login.shared.value, h2.salt)
    ensures Leaks(sha, Step(sha, Step(sha, w, HashReceived(h1)), HashReceived(h2)))
  {
  }
}
