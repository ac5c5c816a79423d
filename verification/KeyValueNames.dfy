/** The readable file-name format, `host=..,key=..,api=..,relay=..`: what the parser recovers
    from it, and the one way it can lose the end of a value. */
module KeyValueNames {
  import opened Options
  import opened Text
  import opened CustomServers
  import opened FileNames
  import opened FileNameRoundTrip

  datatype Field = Key | Host | Api | Relay

  function Name(f: Field): (r: string)
    ensures |r| >= 4 && End(r) == '=' && ',' !in r
  {
    match f
    case Key => "key="
    case Host => "host="
    case Api => "api="
    case Relay => "relay="
  }

  function Get(s: CustomServer, f: Field): string {
    match f
    case Key => s.key
    case Host => s.host
    case Api => s.api
    case Relay => s.relay
  }

  /** One part of the name: a field, its name spelled in any case, and its value. */
  datatype Entry = Entry(field: Field, spelling: string, value: string) {
    ghost predicate Valid() {
      Lower(spelling) == Name(field) && Ascii(value) && ',' !in value
    }

    function Part(): string {
      spelling + value
    }
  }

  /** The spellings a listing may use: the four names in any mixture of cases. */
  lemma {:induction false} Spellings(e: Entry)
    ensures e.Valid() <==>
            && Ascii(e.value) && ',' !in e.value
            && CaseVariant(e.spelling, match e.field case Key => "key=" case Host => "host=" case Api => "api=" case Relay => "relay=")
  {
    LowerIsCaseless(e.spelling, Name(e.field));
  }

  ghost predicate Listing(es: seq<Entry>) {
    && es != [] && es[0].field == Host
    && AllValid(es)
  }

  function Parts(es: seq<Entry>): (r: seq<string>)
    ensures |r| == |es| && forall i :: 0 <= i < |es| ==> r[i] == es[i].Part()
  {
    seq(|es|, i requires 0 <= i < |es| => es[i].Part())
  }

  function Render(es: seq<Entry>): string {
    Join(Parts(es), ",")
  }

  /** The value a listing gives a field: that of its last entry. */
  function ValueOf(es: seq<Entry>, f: Field): string {
    if es == [] then ""
    else if End(es).field == f then End(es).value
    else ValueOf(Front(es), f)
  }

  function Collect(es: seq<Entry>): CustomServer {
    CustomServer(ValueOf(es, Key), ValueOf(es, Host), ValueOf(es, Api), ValueOf(es, Relay))
  }

  lemma {:induction false} SpellingShape(e: Entry)
    requires e.Valid()
    ensures |e.spelling| == |Name(e.field)| && End(e.spelling) == '=' && ',' !in e.spelling
    ensures Lower(e.Part())[0] == Name(e.field)[0]
    ensures Lower(e.Part())[..|e.spelling|] == Name(e.field)
  {
  }

  lemma {:induction false} PartMatches(e: Entry, f: Field)
    requires e.Valid()
    ensures StartsWith(Lower(e.Part()), Name(f)) <==> e.field == f
    ensures e.field == f ==> e.Part()[|Name(f)|..] == e.value
  {
    SpellingShape(e);
    if StartsWith(Lower(e.Part()), Name(f)) {
      assert Lower(e.Part())[..|Name(f)|][0] == Name(f)[0];
    }
  }

  ghost predicate AllValid(es: seq<Entry>) {
    forall e <- es :: e.Valid()
  }

  lemma {:induction false} PartsGive(es: seq<Entry>, f: Field)
    requires AllValid(es)
    ensures LastValue(Parts(es), Name(f)) == ValueOf(es, f)
  {
    if es != [] {
      assert End(es) in es;
      FrontValid(es);
      PartsGive(Front(es), f);
      PartsGiveLast(es, f);
    }
  }

  lemma {:induction false} FrontValid(es: seq<Entry>)
    requires es != [] && AllValid(es)
    ensures AllValid(Front(es))
  {
  }

  lemma {:induction false} PartsGiveLast(es: seq<Entry>, f: Field)
    requires es != [] && End(es).Valid() && LastValue(Parts(Front(es)), Name(f)) == ValueOf(Front(es), f)
    ensures LastValue(Parts(es), Name(f)) == ValueOf(es, f)
  {
    PartMatches(End(es), f);
    PartsSnoc(es);
    LastPart(Parts(Front(es)), End(es).Part(), Name(f));
  }

  lemma {:induction false} PartsSnoc(es: seq<Entry>)
    requires es != []
    ensures Parts(es) == Parts(Front(es)) + [End(es).Part()]
  {
  }

  lemma {:induction false} LastPart(parts: seq<string>, p: string, key: string)
    ensures LastValue(parts + [p], key) == if StartsWith(Lower(p), key) then p[|key|..] else LastValue(parts, key)
  {
  }

  lemma {:induction false} EmptyPart(parts: seq<string>, f: Field)
    ensures LastValue(parts + [""], Name(f)) == LastValue(parts, Name(f))
  {
  }

  lemma {:induction false} PartsCollect(es: seq<Entry>)
    requires AllValid(es)
    ensures FromParts(Parts(es)) == Collect(es)
    ensures FromParts(Parts(es) + [""]) == Collect(es)
  {
    PartsGive(es, Key);
    PartsGive(es, Host);
    PartsGive(es, Api);
    PartsGive(es, Relay);
    EmptyPart(Parts(es), Key);
    EmptyPart(Parts(es), Host);
    EmptyPart(Parts(es), Api);
    EmptyPart(Parts(es), Relay);
  }

  lemma {:induction false} JoinSnoc(parts: seq<string>, last: string)
    requires parts != []
    ensures Join(parts + [last], ",") == Join(parts, ",") + "," + last
  {
    if |parts| == 1 {
      assert (parts + [last])[1..] == [last];
    } else {
      assert (parts + [last])[1..] == parts[1..] + [last];
      JoinSnoc(parts[1..], last);
      var h, t := parts[0] + ",", Join(parts[1..], ",");
      assert h + (t + "," + last) == h + t + "," + last;
    }
  }

  /** The comma list splits back into its parts, a trailing comma adding an empty one. */
  lemma {:induction false} RenderSplits(es: seq<Entry>, comma: string)
    requires Listing(es) && comma in ["", ","]
    ensures FromParts(Split(Render(es) + comma, ",")) == Collect(es)
  {
    var parts := Parts(es);
    forall p | p in parts ensures ',' !in p {
      var i :| 0 <= i < |es| && p == es[i].Part();
      assert es[i] in es;
      SpellingShape(es[i]);
    }
    PartsCollect(es);
    if comma == "" {
      assert Render(es) + comma == Render(es);
      SplitJoin(parts, ',');
    } else {
      JoinSnoc(parts, "");
      assert Render(es) + comma == Join(parts + [""], ",");
      SplitJoin(parts + [""], ',');
    }
  }

  lemma {:induction false} RenderEnd(es: seq<Entry>)
    requires es != []
    ensures EndsWith(Render(es), End(es).Part())
  {
    var parts := Parts(es);
    if |es| > 1 {
      assert parts == Parts(Front(es)) + [End(es).Part()];
      JoinSnoc(Parts(Front(es)), End(es).Part());
    }
  }

  lemma {:induction false} RenderStart(es: seq<Entry>)
    requires Listing(es)
    ensures StartsWith(Lower(Render(es)), "host=")
  {
    var e, r := es[0], Render(es);
    assert e in es;
    SpellingShape(e);
    assert Parts(es)[0] == e.Part();
    assert r[..|e.Part()|] == e.Part();
    assert Lower(r)[..5] == Lower(e.Part())[..5];
  }

  /** `host=` cannot overlap itself, so its first match is where the listing starts. */
  lemma {:induction false} HostKeyFound(prefix: string, rest: string)
    requires !Occurs(Lower(prefix), "host=") && StartsWith(Lower(rest), "host=")
    ensures Find(Lower(prefix + rest), "host=") == Some(|prefix|)
  {
    LowerConcat(prefix, rest);
    var low := Lower(prefix + rest);
    assert low[|prefix|..|prefix| + 5] == Lower(rest)[..5];
    forall i: nat | i < |prefix| ensures !OccursAt(low, "host=", i) {
      if OccursAt(low, "host=", i) {
        if i + 5 <= |prefix| {
          OccursInLeft(Lower(prefix), Lower(rest), "host=", i);
        } else {
          CharOfMatch(low, "host=", i, |prefix| - i);
          CharOfMatch(low, "host=", |prefix|, 0);
        }
      }
    }
    FoundAt(low, "host=", |prefix|);
  }

  lemma {:induction false} ListingParses(lib: Library, name: string, prefix: string, es: seq<Entry>, comma: string)
    requires Listing(es) && comma in ["", ","]
    requires !Occurs(Lower(prefix), "host=")
    requires StripExe(name) == prefix + (Render(es) + comma)
    ensures ParseName(lib, name) == Some(Collect(es))
  {
    var text := Render(es) + comma;
    RenderStart(es);
    LowerConcat(Render(es), comma);
    assert Lower(text)[..5] == Lower(Render(es))[..5];
    HostKeyFound(prefix, text);
    assert (prefix + text)[|prefix|..] == text;
    RenderSplits(es, comma);
  }

  // --- the ending ---

  predicate EndsInExe(s: string) {
    EndsWith(Lower(s), ".exe")
  }

  lemma {:induction false} NotInExe(low: string, k: nat)
    requires 1 <= k <= 4 && k <= |low| && low[|low| - k] in {',', '='}
    ensures !EndsWith(low, ".exe")
  {
  }

  lemma {:induction false} PartEnd(body: string, e: Entry)
    requires e.Valid() && EndsWith(body, e.Part())
    ensures EndsInExe(body) <==> EndsInExe(e.value)
  {
    var v, k := e.value, |e.value| + 1;
    SpellingShape(e);
    TailChars(body, e.Part(), k);
    EndsConcat(e.spelling, v);
    EndsTwice(body, e.Part(), v);
    LowerEnds(body, v);
    if |v| < 4 {
      NotInExe(Lower(body), k);
    } else if EndsInExe(body) {
      TailsNest(Lower(body), Lower(v), ".exe");
    } else if EndsInExe(v) {
      EndsTwice(Lower(body), Lower(v), ".exe");
    }
  }

  /** Only a last value can make the listing itself look like an executable's name. */
  lemma {:induction false} ListingEnd(prefix: string, es: seq<Entry>, comma: string)
    requires Listing(es) && comma in ["", ","]
    ensures EndsInExe(prefix + (Render(es) + comma)) <==> comma == "" && EndsInExe(End(es).value)
  {
    var body := prefix + (Render(es) + comma);
    if comma == "," {
      assert Lower(body)[|body| - 1] == ',';
      NotInExe(Lower(body), 1);
    } else {
      assert Render(es) + comma == Render(es);
      assert End(es) in es;
      RenderEnd(es);
      EndsConcat(prefix, Render(es));
      EndsTwice(body, Render(es), End(es).Part());
      PartEnd(body, End(es));
    }
  }

  lemma {:induction false} LowerEnds(x: string, tail: string)
    requires EndsWith(x, tail)
    ensures EndsWith(Lower(x), Lower(tail))
  {
  }

  function Shortened(es: seq<Entry>): seq<Entry>
    requires es != [] && |End(es).value| >= 4
  {
    var e := End(es);
    Front(es) + [e.(value := e.value[..|e.value| - 4])]
  }

  lemma {:induction false} ShortenedRender(es: seq<Entry>)
    requires Listing(es) && |End(es).value| >= 4
    ensures Listing(Shortened(es))
    ensures 4 <= |Render(es)| && Render(Shortened(es)) == Render(es)[..|Render(es)| - 4]
    ensures Collect(Shortened(es)) != Collect(es)
  {
    var e, ss := End(es), Shortened(es);
    assert e in es && Front(ss) == Front(es);
    assert ',' !in End(ss).value;
    forall x | x in ss ensures x.Valid() {
      if x != End(ss) {
        assert x in Front(es);
        assert x in es;
      }
    }
    assert End(ss).Part() == e.Part()[..|e.Part()| - 4];
    assert Get(Collect(ss), e.field) == End(ss).value;
    assert Get(Collect(es), e.field) == e.value;
    if |es| > 1 {
      assert Parts(ss) == Parts(Front(es)) + [End(ss).Part()];
      assert Parts(es) == Parts(Front(es)) + [e.Part()];
      JoinSnoc(Parts(Front(es)), End(ss).Part());
      JoinSnoc(Parts(Front(es)), e.Part());
    }
  }

  /** What the parser reads from a listing with an `.exe` ending: the last value of each
      field, except that without a trailing comma a last value that itself ends in `.exe`
      loses that ending, so the listing is recovered exactly when it has no such value. */
  lemma {:induction false} ListingRoundTrip(lib: Library, prefix: string, es: seq<Entry>, comma: string, ext: string)
    requires Listing(es) && comma in ["", ","] && Lower(ext) == ".exe"
    requires Ascii(prefix) && !Occurs(Lower(prefix), "host=")
    ensures ParseName(lib, prefix + (Render(es) + comma) + ext) == Some(Collect(es))
       <==> comma == "," || !EndsInExe(End(es).value)
  {
    ListingEnd(prefix, es, comma);
    if comma == "" && EndsInExe(End(es).value) {
      CutListingParses(lib, prefix, es, ext);
    } else {
      ExtensionStripped(prefix + (Render(es) + comma), ext);
      ListingParses(lib, prefix + (Render(es) + comma) + ext, prefix, es, comma);
    }
  }

  lemma {:induction false} CutListingParses(lib: Library, prefix: string, es: seq<Entry>, ext: string)
    requires Listing(es) && EndsInExe(End(es).value) && Lower(ext) == ".exe"
    requires !Occurs(Lower(prefix), "host=")
    requires EndsInExe(prefix + (Render(es) + ""))
    ensures ParseName(lib, prefix + (Render(es) + "") + ext) == Some(Collect(Shortened(es))) != Some(Collect(es))
  {
    var body := prefix + (Render(es) + "");
    DoubleExeStripped(body, ext);
    ShortenedRender(es);
    CutListing(prefix, Render(es));
    ListingParses(lib, body + ext, prefix, Shortened(es), "");
  }

  lemma {:induction false} CutListing(prefix: string, list: string)
    requires 4 <= |list|
    ensures (prefix + (list + ""))[..|prefix| + |list| - 4] == prefix + (list[..|list| - 4] + "")
  {
  }

  lemma {:induction false} DoubleExeStripped(body: string, ext: string)
    requires EndsInExe(body) && Lower(ext) == ".exe"
    ensures StripExe(body + ext) == body[..|body| - 4]
  {
    LowerConcat(body, ext);
    TwoEndings(Lower(body));
    assert (body + ext)[..|body| - 4] == body[..|body| - 4];
  }

  lemma {:induction false} TwoEndings(low: string)
    requires EndsWith(low, ".exe")
    ensures EndsWith(low + ".exe", ".exe.exe")
  {
  }

  /** A listing that names each non-empty field of a server, in any order, gives it back. */
  lemma {:induction false} ListingOfServer(es: seq<Entry>, s: CustomServer)
    requires forall e <- es :: e.value == Get(s, e.field)
    requires forall f: Field :: Get(s, f) != "" ==> exists e <- es :: e.field == f
    ensures Collect(es) == s
  {
    forall f: Field ensures ValueOf(es, f) == Get(s, f) {
      ValueAgrees(es, s, f);
    }
    assert ValueOf(es, Key) == Get(s, Key) && ValueOf(es, Host) == Get(s, Host);
    assert ValueOf(es, Api) == Get(s, Api) && ValueOf(es, Relay) == Get(s, Relay);
  }

  lemma {:induction false} ValueAgrees(es: seq<Entry>, s: CustomServer, f: Field)
    requires forall e <- es :: e.value == Get(s, e.field)
    ensures ValueOf(es, f) == if exists e <- es :: e.field == f then Get(s, f) else ""
  {
    if es != [] {
      assert End(es) in es;
      assert forall e <- Front(es) :: e in es;
      ValueAgrees(Front(es), s, f);
      assert forall e <- es :: e == End(es) || e in Front(es);
    }
  }

  /** The key-value round trip: for every server without commas and every order and case of
      its fields, the host first. */
  lemma {:induction false} KeyValueRoundTrip(lib: Library, s: CustomServer, prefix: string, es: seq<Entry>, comma: string, ext: string)
    requires Listing(es) && comma in ["", ","] && Lower(ext) == ".exe"
    requires Ascii(prefix) && !Occurs(Lower(prefix), "host=")
    requires forall e <- es :: e.value == Get(s, e.field)
    requires forall f: Field :: Get(s, f) != "" ==> exists e <- es :: e.field == f
    ensures ParseName(lib, prefix + (Render(es) + comma) + ext) == Some(s)
       <==> comma == "," || !EndsInExe(Get(s, End(es).field))
  {
    ListingOfServer(es, s);
    assert End(es) in es;
    ListingRoundTrip(lib, prefix, es, comma, ext);
  }
}
