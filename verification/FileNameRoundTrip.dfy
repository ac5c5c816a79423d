/** The round trip of a printed server name through a file name: exactly when it succeeds. */
module FileNameRoundTrip {
  import opened Options
  import opened Octets
  import opened Text
  import opened Base64Url
  import opened CustomServers
  import opened FileNames

  // --- what the last match of a pattern leaves ---

  /** `parts` ends in the leftover of `x` after its last match of `pat`, and `r`, the string
      with the matches replaced, ends accordingly. */
  ghost predicate Leaves(x: string, pat: string, with: string, parts: seq<string>, r: string) {
    parts != [] &&
    var l := End(parts);
    && EndsWith(x, l)
    && !Occurs(l, pat)
    && if |parts| == 1 then r == x && l == x
       else
         && |l| + |pat| <= |x|
         && OccursAt(x, pat, |x| - |l| - |pat|)
         && EndsWith(r, with + l)
  }

  lemma {:induction false} EndsTwice(r: string, tail: string, last: string)
    requires EndsWith(r, tail) && EndsWith(tail, last)
    ensures EndsWith(r, last)
  {
  }

  lemma {:induction false} EndsConcat(x: string, tail: string)
    ensures EndsWith(x + tail, tail)
  {
  }

  lemma {:induction false} LeavesStep(x: string, i: nat, pat: string, with: string, more: seq<string>, r: string)
    requires i + |pat| <= |x| && OccursAt(x, pat, i)
    requires Leaves(x[i + |pat|..], pat, with, more, r)
    ensures Leaves(x, pat, with, [x[..i]] + more, x[..i] + with + r)
  {
  }

  lemma {:induction false} Leftover(x: string, pat: string, with: string)
    requires pat != ""
    ensures Leaves(x, pat, with, Split(x, pat), Replace(x, pat, with))
    decreases |x|
  {
    FindSpec(x, pat);
    if Find(x, pat).Some? {
      var i := Find(x, pat).value;
      var rest := x[i + |pat|..];
      SplitOnce(x, pat);
      Leftover(rest, pat, with);
      LeavesStep(x, i, pat, with, Split(rest, pat), Replace(rest, pat, with));
      JoinCons(x[..i], Split(rest, pat), with);
    }
  }

  // --- matches at the end of a string that ends in a separator ---

  lemma {:induction false} MatchEnds(x: string, pat: string, n: nat, k: nat)
    requires n + |pat| <= |x| && OccursAt(x, pat, |x| - n - |pat|) && 0 < k <= |pat|
    ensures x[|x| - n - k] == pat[|pat| - k]
  {
  }

  lemma {:induction false} TailChars(x: string, tail: string, k: nat)
    requires EndsWith(x, tail) && 0 < k <= |tail|
    ensures x[|x| - k] == tail[|tail| - k]
  {
  }

  lemma {:induction false} TailsNest(x: string, long: string, short: string)
    requires EndsWith(x, long) && EndsWith(x, short) && |short| <= |long|
    ensures EndsWith(long, short)
  {
  }

  lemma {:induction false} EndsInMatch(l: string, pat: string)
    requires EndsWith(l, pat)
    ensures Occurs(l, pat)
  {
    assert OccursAt(l, pat, |l| - |pat|);
  }

  lemma {:induction false} DashesKept(x: string, pat: string, parts: seq<string>, r: string)
    requires EndsWith(x, "--") && Leaves(x, pat, "--", parts, r)
    ensures EndsWith(r, "--")
  {
  }

  lemma {:induction false} DashTail(dashes: string)
    requires dashes in ["", "-", "--"]
    ensures var pat := LICENSED + dashes;
            pat[|pat| - 1] == '-' && (dashes != "" ==> pat[|pat| - 2] == '-')
  {
  }

  /** A match overlapping a final "-licensed-" can only end with its first dash, or be it. */
  lemma {:induction false} LicensedOverlap(x: string, dashes: string, n: nat)
    requires dashes in ["", "-", "--"]
    requires EndsWith(x, LICENSED) && n < 10
    requires n + 10 + |dashes| <= |x|
    requires OccursAt(x, LICENSED + dashes, |x| - n - 10 - |dashes|)
    ensures n == 9 || (n == 0 && dashes == "")
  {
    var pat := LICENSED + dashes;
    DashTail(dashes);
    MatchEnds(x, pat, n, 1);
    TailChars(x, LICENSED, n + 1);
    assert LICENSED[9 - n] == '-';
    assert n == 9 || n == 0;
    if dashes != "" {
      MatchEnds(x, pat, n, 2);
      TailChars(x, LICENSED, 2);
      assert LICENSED[8] == 'd';
    }
  }

  lemma {:induction false} LicensedKept(x: string, dashes: string, parts: seq<string>, r: string)
    requires dashes in ["-", "--"] && EndsWith(x, LICENSED)
    requires Leaves(x, LICENSED + dashes, "--", parts, r)
    ensures EndsWith(r, LICENSED)
  {
    var l := End(parts);
    if |parts| > 1 {
      if |l| >= 10 {
        TailsNest(x, l, LICENSED);
        EndsConcat("--", l);
        EndsTwice("--" + l, l, LICENSED);
      } else {
        LicensedOverlap(x, dashes, |l|);
        TailsNest(x, LICENSED, l);
        LicensedRemade(l);
      }
      EndsTwice(r, "--" + l, LICENSED);
    }
  }

  lemma {:induction false} LicensedRemade(l: string)
    requires EndsWith(LICENSED, l) && |l| == 9
    ensures EndsWith("--" + l, LICENSED)
  {
    assert l == "licensed-";
    assert ("--" + l)[1..] == LICENSED;
  }

  lemma {:induction false} LicensedReplaced(x: string, parts: seq<string>, r: string)
    requires EndsWith(x, LICENSED) && Leaves(x, LICENSED, "--", parts, r)
    ensures EndsWith(r, "--") || EndsWith(r, "--licensed-")
  {
    var l := End(parts);
    if |l| >= 10 {
      TailsNest(x, l, LICENSED);
      EndsInMatch(l, LICENSED);
    } else {
      assert LICENSED + "" == LICENSED;
      LicensedOverlap(x, "", |l|);
      TailsNest(x, LICENSED, l);
      ShortTail(l);
    }
  }

  lemma {:induction false} ShortTail(l: string)
    requires EndsWith(LICENSED, l) && (|l| == 0 || |l| == 9)
    ensures "--" + l == if |l| == 0 then "--" else "--licensed-"
  {
  }

  lemma {:induction false} SplitAfterDashes(z: string, parts: seq<string>, r: string)
    requires EndsWith(z, "--") && Leaves(z, "--", "", parts, r)
    ensures End(parts) in ["", "-"]
  {
    var l := End(parts);
    if |l| >= 2 {
      TailsNest(z, l, "--");
      EndsInMatch(l, "--");
    } else {
      TailsNest(z, "--", l);
      assert |l| == 1 ==> l == "-";
    }
  }

  lemma {:induction false} SplitAfterLicensed(z: string, parts: seq<string>, r: string)
    requires EndsWith(z, "--licensed-") && Leaves(z, "--", "", parts, r)
    ensures End(parts) in ["licensed-", "-licensed-"]
  {
    var tail, l := "--licensed-", End(parts);
    var n := |l|;
    if n >= 11 {
      TailsNest(z, l, tail);
      DashesInside(l);
    } else {
      TailsNest(z, tail, l);
      if n < 9 {
        NoPairInside(z, n);
      } else {
        assert n == 9 ==> l == "licensed-";
        assert n == 10 ==> l == "-licensed-";
      }
    }
  }

  lemma {:induction false} NoPairInside(z: string, n: nat)
    requires EndsWith(z, "--licensed-") && n < 9
    ensures !OccursAt(z, "--", |z| - n - 2)
  {
    var tail := "--licensed-";
    TailChars(z, tail, n + 1);
    TailChars(z, tail, n + 2);
    assert tail[10 - n] != '-' || tail[9 - n] != '-';
    if OccursAt(z, "--", |z| - n - 2) {
      CharOfMatch(z, "--", |z| - n - 2, 0);
      CharOfMatch(z, "--", |z| - n - 2, 1);
    }
  }

  lemma {:induction false} DashesInside(l: string)
    requires EndsWith(l, "--licensed-")
    ensures Occurs(l, "--")
  {
    var n := |l| - 11;
    assert l[n..][..2] == l[n..n + 2];
    assert OccursAt(l, "--", n);
  }

  /** What any text that ends in a dash leaves in front of a name: nothing, or text that ends
      in a dash. */
  lemma {:induction false} DashResidue(lead: string)
    requires EndsInDash(lead)
    ensures Kept(lead) == "" || EndsInDash(Kept(lead))
  {
    var l3, l2 := LICENSED + "--", LICENSED + "-";
    ReplaceKeepsEnd(lead, l3, "--");
    var x1 := Replace(lead, l3, "--");
    ReplaceKeepsEnd(x1, l2, "--");
    var x2 := Replace(x1, l2, "--");
    ReplaceKeepsEnd(x2, LICENSED, "--");
    LastPartEnds(Replace(x2, LICENSED, "--"), "--");
  }

  /** What a prefix and a separator leave in front of a name: one of four texts. */
  lemma {:induction false} SeparatorResidue(prefix: string, sep: string)
    requires sep in ["--", LICENSED]
    ensures Kept(prefix + sep) in ["", "-", "licensed-", "-licensed-"]
  {
    var x := prefix + sep;
    EndsConcat(prefix, sep);
    var l3, l2 := LICENSED + "--", LICENSED + "-";
    Leftover(x, l3, "--");
    var x1 := Replace(x, l3, "--");
    Leftover(x1, l2, "--");
    var x2 := Replace(x1, l2, "--");
    Leftover(x2, LICENSED, "--");
    var z := Replace(x2, LICENSED, "--");
    Leftover(z, "--", "");
    assert Tokens(x) == Split(z, "--");
    ResidueOfChain(x, Split(x, l3), x1, Split(x1, l2), x2, Split(x2, LICENSED), z, Split(z, "--"), Replace(z, "--", ""));
  }

  lemma {:induction false} ResidueOfChain(x: string, p: seq<string>, x1: string, p1: seq<string>, x2: string,
                                          p2: seq<string>, z: string, p3: seq<string>, r: string)
    requires EndsWith(x, "--") || EndsWith(x, LICENSED)
    requires Leaves(x, LICENSED + "--", "--", p, x1)
    requires Leaves(x1, LICENSED + "-", "--", p1, x2)
    requires Leaves(x2, LICENSED, "--", p2, z)
    requires Leaves(z, "--", "", p3, r)
    ensures End(p3) in ["", "-", "licensed-", "-licensed-"]
  {
    if EndsWith(x, "--") {
      DashesKept(x, LICENSED + "--", p, x1);
      DashesKept(x1, LICENSED + "-", p1, x2);
      DashesKept(x2, LICENSED, p2, z);
      SplitAfterDashes(z, p3, r);
    } else {
      LicensedKept(x, "--", p, x1);
      LicensedKept(x1, "-", p1, x2);
      LicensedReplaced(x2, p2, z);
      if EndsWith(z, "--") {
        SplitAfterDashes(z, p3, r);
      } else {
        SplitAfterLicensed(z, p3, r);
      }
    }
  }

  // --- the file extension and the other format ---

  lemma {:induction false} ExtensionStripped(body: string, ext: string)
    requires Lower(ext) in ["", ".exe", ".exe.exe"]
    requires !EndsWith(Lower(body), ".exe")
    ensures StripExe(body + ext) == body
  {
    LowerConcat(body, ext);
    var low := Lower(body + ext);
    assert low[..|body|] == Lower(body);
    if Lower(ext) == "" {
      assert body + ext == body;
      ExeTwice(low);
    } else if Lower(ext) == ".exe" {
      EndsConcat(Lower(body), Lower(ext));
      ExeBeforeExe(Lower(body), Lower(ext));
    } else {
      EndsConcat(Lower(body), Lower(ext));
    }
  }

  lemma {:induction false} ExeTwice(low: string)
    ensures EndsWith(low, ".exe.exe") ==> EndsWith(low, ".exe")
  {
  }

  lemma {:induction false} ExeBeforeExe(low: string, ext: string)
    requires ext == ".exe"
    ensures EndsWith(low + ext, ".exe.exe") ==> EndsWith(low, ".exe")
  {
    if EndsWith(low + ext, ".exe.exe") {
      var all := low + ext;
      assert all[|all| - 8..|all| - 4] == all[|all| - 8..][..4] == ".exe";
    }
  }

  lemma {:induction false} NoHostKey(prefix: string, rest: string)
    requires !Occurs(Lower(prefix), "host=") && '=' !in rest
    ensures !Occurs(Lower(prefix + rest), "host=")
  {
    var low := Lower(prefix + rest);
    LowerConcat(prefix, rest);
    assert '=' !in Lower(rest);
    forall i: nat ensures !OccursAt(low, "host=", i) {
      if OccursAt(low, "host=", i) {
        CharOfMatch(low, "host=", i, 4);
        if i + 5 <= |prefix| {
          OccursInLeft(Lower(prefix), Lower(rest), "host=", i);
        }
      }
    }
  }

  lemma {:induction false} PrintedEnd(x: string, g: string, cs: seq<Copy>)
    requires Printed(g) && Numbered(cs)
    ensures !EndsWith(Lower(x + g + Copies(cs)), ".exe")
    ensures '=' !in g + Copies(cs)
  {
    CopiesShape(cs);
    var body := x + g + Copies(cs);
    if cs == [] {
      assert body == x + g;
      AlphabetNotBlank(g[|g| - 4]);
      assert Lower(body)[|body| - 4] == LowerChar(g[|g| - 4]);
      assert Lower(body)[|body| - 4..][0] != ".exe"[0];
    } else {
      assert End(body) == End(Copies(cs));
      assert Lower(body)[|body| - 1] == ')';
      assert End(Lower(body)) != ".exe"[3];
    }
  }

  // --- text after the name ---

  lemma {:induction false} DashedHeadKept(rest: string, pat: string)
    requires StartsWith(rest, "--") && StartsWith(pat, LICENSED)
    ensures StartsWith(Replace(rest, pat, "--"), "--")
  {
    FindSpec(rest, pat);
    match Find(rest, pat)
    case None =>
    case Some(i) =>
      if i == 0 {
        CharOfMatch(rest, pat, 0, 1);
      }
      SplitOnce(rest, pat);
      JoinCons(rest[..i], Split(rest[i + |pat|..], pat), "--");
  }

  lemma {:induction false} RelicensePlain(u: string, rest: string)
    requires '-' !in u
    ensures Relicense(u + rest) == u + Relicense(rest)
  {
    var l3, l2 := LICENSED + "--", LICENSED + "-";
    PlainReplace(u, rest, l3, "--");
    var r1 := Replace(rest, l3, "--");
    PlainReplace(u, r1, l2, "--");
    PlainReplace(u, Replace(r1, l2, "--"), LICENSED, "--");
  }

  lemma {:induction false} DashedHeadRelicensed(rest: string)
    requires StartsWith(rest, "--")
    ensures StartsWith(Relicense(rest), "--")
  {
    var l3, l2 := LICENSED + "--", LICENSED + "-";
    DashedHeadKept(rest, l3);
    var r1 := Replace(rest, l3, "--");
    DashedHeadKept(r1, l2);
    DashedHeadKept(Replace(r1, l2, "--"), LICENSED);
  }

  lemma {:induction false} TokensOfNothing()
    ensures Tokens("") == [""]
  {
  }

  lemma {:induction false} MarksTokenize(cs: seq<Copy>, rest: string)
    requires Numbered(cs) && (rest == "" || StartsWith(rest, "--"))
    ensures Tokens(Copies(cs) + rest) == [Copies(cs)] + Tokens(rest)[1..]
  {
    CopiesShape(cs);
    var u := Copies(cs);
    RelicensePlain(u, rest);
    PlainSplit(u, Relicense(rest));
    if rest == "" {
      TokensOfNothing();
    } else {
      DashedHeadRelicensed(rest);
      DashedHeadSplits(Relicense(rest));
    }
    assert u + "" == u;
  }

  lemma {:induction false} DashedHeadSplits(r: string)
    requires StartsWith(r, "--")
    ensures Split(r, "--")[0] == ""
  {
  }

  lemma {:induction false} NoMatchWithoutDash(u: string, rest: string, pat: string)
    requires '-' !in u && pat != "" && pat[0] == '-'
    ensures !Occurs(u, pat) && NoStraddle(u, rest, pat)
  {
  }

  lemma {:induction false} PlainReplace(u: string, rest: string, pat: string, with: string)
    requires '-' !in u && pat != "" && pat[0] == '-'
    ensures Replace(u + rest, pat, with) == u + Replace(rest, pat, with)
  {
    NoMatchWithoutDash(u, rest, pat);
    ReplaceGlue(u, rest, pat, with);
    NotFound(u, pat);
  }

  lemma {:induction false} PlainSplit(u: string, rest: string)
    requires '-' !in u
    ensures var b := Split(rest, "--");
            Split(u + rest, "--") == [u + b[0]] + b[1..]
  {
    NoMatchWithoutDash(u, rest, "--");
    SplitGlue(u, rest, "--");
    NotFound(u, "--");
  }

  // --- the round trip ---

  /** Nothing that comes before the name in the file name decodes by itself: no token, and no
      piece between parentheses of the token with the name. */
  ghost predicate NothingBefore(lib: Library, lead: string) {
    NoTokenBefore(lib, lead) && NoPieceIn(lib, Kept(lead))
  }

  ghost predicate NoTokenBefore(lib: Library, lead: string) {
    forall t <- Front(Tokens(lead)) :: TryToken(lib, t) == None
  }

  lemma {:induction false} FirstTokenIs(lib: Library, before: seq<string>, t: string, after: seq<string>)
    requires forall u <- before :: TryToken(lib, u) == None
    ensures TryToken(lib, t).Some? ==> FirstToken(lib, before + [t] + after) == TryToken(lib, t)
    ensures TryToken(lib, t).None? ==> FirstToken(lib, before + [t] + after) == FirstToken(lib, after)
  {
    assert before + [t] + after == before + ([t] + after);
    FirstTokenSkips(lib, before, [t] + after);
    assert ([t] + after)[1..] == after;
  }

  lemma {:induction false} TokensOfName(g: string, lead: string, cs: seq<Copy>, rest: string)
    requires Printed(g) && Numbered(cs) && (rest == "" || StartsWith(rest, "--"))
    ensures Tokens(lead + g + (Copies(cs) + rest))
         == Front(Tokens(lead)) + [End(Tokens(lead)) + g + Copies(cs)] + Tokens(rest)[1..]
  {
    TokensAround(lead, g, Copies(cs) + rest);
    MarksTokenize(cs, rest);
  }

  /** What the parts after the name and its marks give. */
  function FromRest(lib: Library, rest: string): Option<CustomServer> {
    if rest == "" then None else FirstToken(lib, Tokens(rest)[1..])
  }

  lemma {:induction false} RestDecides(lib: Library, rest: string)
    ensures FirstToken(lib, Tokens(rest)[1..]) == FromRest(lib, rest)
  {
    if rest == "" {
      TokensOfNothing();
    }
  }

  /** The name's own token decides, and if it fails the parts after it do. */
  lemma {:induction false} NameDecides(lib: Library, g: string, lead: string, cs: seq<Copy>, rest: string)
    requires Printed(g) && Numbered(cs) && (rest == "" || StartsWith(rest, "--"))
    requires NoTokenBefore(lib, lead)
    ensures var own := TryToken(lib, End(Tokens(lead)) + g + Copies(cs));
            FirstToken(lib, Tokens(lead + g + (Copies(cs) + rest)))
            == if own.Some? then own else FromRest(lib, rest)
  {
    TokensOfName(g, lead, cs, rest);
    FirstTokenIs(lib, Front(Tokens(lead)), End(Tokens(lead)) + g + Copies(cs), Tokens(rest)[1..]);
    RestDecides(lib, rest);
  }

  /** The token of a name with `a` in front of it. */
  lemma {:induction false} OwnToken(lib: Library, j: seq<Byte>, s: CustomServer, a: string, cs: seq<Copy>)
    requires Reads(lib, j, s) && Numbered(cs)
    requires (a == "" || EndsInDash(a)) && NoPieceIn(lib, a)
    ensures var own := TryToken(lib, a + Reverse(Encode(j)) + Copies(cs));
            (a == "" ==> own == Some(s)) && (a != "" && Unsigned(lib, j) ==> own == None)
  {
    if a == "" {
      NothingInFront(a, Reverse(Encode(j)), Copies(cs));
      PrintedTokenDecodes(lib, j, s, cs);
    } else if Unsigned(lib, j) {
      ResidueTokenFails(lib, j, s, a, cs);
    }
  }

  lemma {:induction false} NothingInFront(a: string, g: string, u: string)
    requires a == ""
    ensures a + g + u == g + u
  {
  }

  lemma {:induction false} ParsesTokens(lib: Library, body: string, ext: string)
    requires Lower(ext) in ["", ".exe", ".exe.exe"]
    requires !EndsWith(Lower(body), ".exe") && !Occurs(Lower(body), "host=")
    ensures ParseName(lib, body + ext) == FirstToken(lib, Tokens(body))
  {
    ExtensionStripped(body, ext);
    NotFound(Lower(body), "host=");
  }

  /** What may follow the name and its marks: nothing, or further `--` parts that do not look
      like the other format or an executable's ending. */
  ghost predicate After(rest: string) {
    && Ascii(rest)
    && (rest == "" || (StartsWith(rest, "--") && '=' !in rest && !EndsWith(Lower(rest), ".exe")))
  }

  /** The file name with a server's printed name in it. */
  function FileName(lead: string, g: string, cs: seq<Copy>, rest: string, ext: string): string {
    lead + g + (Copies(cs) + rest) + ext
  }

  /** What is asked of all the other parts of a file name. */
  ghost predicate Surrounds(lead: string, cs: seq<Copy>, rest: string, ext: string) {
    && Ascii(lead) && !Occurs(Lower(lead), "host=")
    && Numbered(cs) && After(rest)
    && Lower(ext) in ["", ".exe", ".exe.exe"]
  }

  /** What the parser keeps, in the name's own token, of the text in front of the name. */
  function Kept(lead: string): string {
    End(Tokens(lead))
  }

  /** The server comes back if nothing is kept in front of its name; otherwise the name is
      passed over, and with nothing after it the parser fails. */
  ghost predicate Outcome(lib: Library, s: CustomServer, j: seq<Byte>, kept: string, rest: string, r: Option<CustomServer>) {
    && (kept == "" ==> r == Some(s))
    && (kept != "" && Unsigned(lib, j) ==> r == FromRest(lib, rest))
  }

  /** The round trip, exactly, for every ASCII server behind any text that ends in a dash and
      holds no `host=` and nothing decodable, with any duplicate marks, any further parts and
      any `.exe` ending. */
  lemma {:induction false} RoundTrip(lib: Library, s: CustomServer, lead: string, cs: seq<Copy>, rest: string, ext: string)
    requires AsciiServer(s) && lib.ReadsJson()
    requires EndsInDash(lead) && Surrounds(lead, cs, rest, ext) && NothingBefore(lib, lead)
    ensures Outcome(lib, s, ToJson(s), Kept(lead), rest, ParseName(lib, FileName(lead, GenName(s), cs, rest, ext)))
  {
    ReadsGenerated(lib, s);
    DashResidue(lead);
    RoundTripOf(lib, ToJson(s), s, lead, cs, rest, ext);
  }

  lemma {:induction false} RoundTripOf(lib: Library, j: seq<Byte>, s: CustomServer, lead: string, cs: seq<Copy>, rest: string, ext: string)
    requires Reads(lib, j, s)
    requires Kept(lead) == "" || EndsInDash(Kept(lead))
    requires Surrounds(lead, cs, rest, ext) && NothingBefore(lib, lead)
    ensures Outcome(lib, s, j, Kept(lead), rest, ParseName(lib, FileName(lead, Reverse(Encode(j)), cs, rest, ext)))
  {
    PrintedShape(j);
    var g := Reverse(Encode(j));
    NameWithRest(lib, g, lead, cs, rest, ext);
    NameDecides(lib, g, lead, cs, rest);
    OwnToken(lib, j, s, Kept(lead), cs);
  }

  /** After one of the two documented separators no piece can be in the way: the prefix only
      has to hold no decodable token. */
  lemma {:induction false} RoundTripSeparated(lib: Library, s: CustomServer, prefix: string, sep: string,
                                              cs: seq<Copy>, rest: string, ext: string)
    requires AsciiServer(s) && lib.ReadsJson()
    requires sep in ["--", LICENSED] && Surrounds(prefix, cs, rest, ext) && NoTokenBefore(lib, prefix + sep)
    ensures Kept(prefix + sep) in ["", "-", "licensed-", "-licensed-"]
    ensures Outcome(lib, s, ToJson(s), Kept(prefix + sep), rest,
                    ParseName(lib, FileName(prefix + sep, GenName(s), cs, rest, ext)))
  {
    SeparatorResidue(prefix, sep);
    NoPieceInFour(lib, Kept(prefix + sep));
    SeparatedSurrounds(prefix, sep, cs, rest, ext);
    RoundTrip(lib, s, prefix + sep, cs, rest, ext);
  }

  lemma {:induction false} SeparatedSurrounds(prefix: string, sep: string, cs: seq<Copy>, rest: string, ext: string)
    requires sep in ["--", LICENSED] && Surrounds(prefix, cs, rest, ext)
    ensures EndsInDash(prefix + sep) && Surrounds(prefix + sep, cs, rest, ext)
  {
    NoHostKey(prefix, sep);
    assert End(prefix + sep) == End(sep);
  }

  lemma {:induction false} NoPieceInFour(lib: Library, a: string)
    requires a in ["", "-", "licensed-", "-licensed-"]
    ensures NoPieceIn(lib, a)
  {
    assert '(' !in a;
    NoPieceInResidue(lib, a);
  }

  lemma {:induction false} NoPieceInResidue(lib: Library, a: string)
    requires '(' !in a
    ensures NoPieceIn(lib, a)
  {
    CharAbsent(a, '(');
    NotFound(a, "(");
  }

  // --- plain prefixes ---

  /** A prefix that cannot merge with the separator: it ends neither in a dash nor in the
      word the separator starts with. */
  ghost predicate Plain(x: string) {
    !EndsWith(x, "-") && !EndsWith(x, "-licensed")
  }

  lemma {:induction false} PlainKept(x: string, dashes: string, parts: seq<string>, r: string)
    requires Plain(x) && dashes in ["", "-", "--"]
    requires Leaves(x, LICENSED + dashes, "--", parts, r)
    ensures Plain(r)
  {
    var l := End(parts);
    var pat := LICENSED + dashes;
    if |parts| > 1 {
      assert pat[|pat| - 1] == '-';
      MatchEnds(x, pat, |l|, 1);
      PlainEnd(x, l, r);
    }
  }

  lemma {:induction false} PlainEnd(x: string, l: string, r: string)
    requires Plain(x) && EndsWith(x, l) && |l| < |x| && x[|x| - |l| - 1] == '-'
    requires EndsWith(r, "--" + l)
    ensures Plain(r)
  {
    if l != "" {
      EndsConcat("--", l);
      EndsTwice(r, "--" + l, l);
      TailChars(r, l, 1);
      TailChars(x, l, 1);
      assert EndsWith(x, [End(l)]) && EndsWith(r, [End(l)]);
      if EndsWith(r, "-licensed") {
        LicensedTail(x, l, r);
      }
    }
  }

  lemma {:induction false} LicensedTail(x: string, l: string, r: string)
    requires l != "" && EndsWith(x, l) && |l| < |x| && x[|x| - |l| - 1] == '-'
    requires EndsWith(r, "--" + l) && EndsWith(r, "-licensed")
    ensures EndsWith(x, "-licensed")
  {
    if |l| >= 9 {
      EndsConcat("--", l);
      EndsTwice(r, "--" + l, l);
      TailsNest(r, l, "-licensed");
      EndsTwice(x, l, "-licensed");
    } else {
      TailChars(r, "--" + l, |l| + 1);
      TailChars(r, "-licensed", |l| + 1);
      assert "-licensed"[8 - |l|] == '-';
      assert |l| == 8;
      TailsNest(r, "--" + l, "-licensed");
      assert ("--" + l)[1..] == "-licensed";
      assert x[|x| - 9..] == ['-'] + l;
    }
  }

  lemma {:induction false} PlainBorder(x: string, sep: string, pat: string)
    requires Plain(x) && sep != "" && sep[0] == '-'
    requires pat in ["--", LICENSED, LICENSED + "-", LICENSED + "--"]
    ensures NoStraddle(x, sep, pat)
  {
    forall i: nat | OccursAt(x + sep, pat, i) ensures i + |pat| <= |x| || |x| <= i {
      if i < |x| < i + |pat| {
        var k := |x| - i;
        CharOfMatch(x + sep, pat, i, k);
        CharOfMatch(x + sep, pat, i, k - 1);
        assert !EndsWith(x, [End(x)]) || End(x) != '-';
        DashAfterLetter(pat, k);
        MatchedStart(x, sep, pat, i);
      }
    }
  }

  lemma {:induction false} MatchedStart(x: string, y: string, pat: string, i: nat)
    requires OccursAt(x + y, pat, i) && i <= |x| <= i + |pat|
    ensures EndsWith(x, pat[..|x| - i])
  {
  }

  lemma {:induction false} DashAfterLetter(pat: string, k: nat)
    requires pat in ["--", LICENSED, LICENSED + "-", LICENSED + "--"]
    requires 0 < k < |pat| && pat[k] == '-' && pat[k - 1] != '-'
    ensures k == 9 && pat[..9] == "-licensed"
  {
  }

  lemma {:induction false} ReplaceShorter(s: string, pat: string, with: string)
    requires |s| < |pat|
    ensures Replace(s, pat, with) == s
  {
  }

  lemma {:induction false} ReplaceWhole(pat: string, with: string)
    requires pat != ""
    ensures Replace(pat, pat, with) == with
  {
    FoundAt(pat, pat, 0);
    assert pat[|pat|..] == "";
    assert Split("", pat) == [""];
    assert Split(pat, pat) == ["", ""];
    JoinCons("", [""], with);
  }

  /** One step of the chain on a plain prefix and what is left of its separator. */
  lemma {:induction false} PlainStep(x: string, sep: string, dashes: string)
    requires Plain(x) && dashes in ["", "-", "--"] && sep != "" && sep[0] == '-'
    ensures var pat := LICENSED + dashes;
            && Replace(x + sep, pat, "--") == Replace(x, pat, "--") + Replace(sep, pat, "--")
            && Plain(Replace(x, pat, "--"))
  {
    var pat := LICENSED + dashes;
    assert dashes == "" ==> pat == LICENSED;
    PlainBorder(x, sep, pat);
    ReplaceGlue(x, sep, pat, "--");
    Leftover(x, pat, "--");
    PlainKept(x, dashes, Split(x, pat), Replace(x, pat, "--"));
  }

  function Dashes(k: nat): (r: string)
    ensures |r| == k && forall i :: 0 <= i < k ==> r[i] == '-'
  {
    seq(k, i => '-')
  }

  lemma {:induction false} DashesConcat(k: nat, n: nat)
    ensures Dashes(k) + Dashes(n) == Dashes(k + n)
  {
  }

  /** What may close a run of dashes: nothing more, or the word with up to two dashes more. */
  predicate Closing(sep: string) {
    sep == "" || (10 <= |sep| <= 12 && sep[..10] == LICENSED && sep[10..] == Dashes(|sep| - 10))
  }

  lemma {:induction false} ClosingForms(sep: string)
    ensures Closing(sep) <==> sep in ["", LICENSED, LICENSED + "-", LICENSED + "--"]
  {
    DashesShort();
    if sep != "" && Closing(sep) {
      assert sep == LICENSED + Dashes(|sep| - 10);
    }
    forall d | d in ["", "-", "--"] && sep == LICENSED + d ensures Closing(sep) {
      assert sep[..10] == LICENSED && sep[10..] == d == Dashes(|d|);
    }
    assert LICENSED + "" == LICENSED;
  }

  lemma {:induction false} DashesShort()
    ensures Dashes(0) == "" && Dashes(1) == "-" && Dashes(2) == "--"
  {
  }

  /** A replacement does not see dashes in front of its pattern's own first dash. */
  lemma {:induction false} DashRunKept(k: nat, y: string, dashes: string)
    requires (y == "" || y[0] == '-') && dashes in ["", "-", "--"]
    ensures var pat := LICENSED + dashes;
            Replace(Dashes(k) + y, pat, "--") == Dashes(k) + Replace(y, pat, "--")
  {
    var pat := LICENSED + dashes;
    assert pat[1] == 'l';
    forall i: nat | OccursAt(Dashes(k) + y, pat, i) ensures k <= i {
      CharOfMatch(Dashes(k) + y, pat, i, 1);
    }
    forall i: nat ensures !OccursAt(Dashes(k), pat, i) {
      if OccursAt(Dashes(k), pat, i) {
        CharOfMatch(Dashes(k), pat, i, 1);
      }
    }
    ReplaceGlue(Dashes(k), y, pat, "--");
    NotFound(Dashes(k), pat);
  }

  lemma {:induction false} ClosingSteps(sep: string)
    requires Closing(sep)
    ensures var s1 := Replace(sep, LICENSED + "--", "--");
            var s2 := Replace(s1, LICENSED + "-", "--");
            && (s1 == "" || s1[0] == '-') && (s2 == "" || s2[0] == '-')
            && Replace(s2, LICENSED, "--") == if sep == "" then "" else "--"
  {
    var l3, l2 := LICENSED + "--", LICENSED + "-";
    ClosingForms(sep);
    ReplaceShorter("--", l2, "--");
    ReplaceShorter("--", LICENSED, "--");
    if sep == l3 {
      ReplaceWhole(l3, "--");
    } else {
      ReplaceShorter(sep, l3, "--");
      if sep == l2 {
        ReplaceWhole(l2, "--");
      } else {
        ReplaceShorter(sep, l2, "--");
        if sep == LICENSED {
          ReplaceWhole(LICENSED, "--");
        }
      }
    }
  }

  /** The length of the dash run that the replacements make of dashes and a closing word. */
  function RunLength(k: nat, sep: string): nat {
    if sep == "" then k else k + 2
  }

  lemma {:induction false} RunRelicensed(x: string, k: nat, sep: string)
    requires Plain(x) && Closing(sep) && RunLength(k, sep) > 0
    ensures Plain(Relicense(x))
    ensures Relicense(x + (Dashes(k) + sep)) == Relicense(x) + Dashes(RunLength(k, sep))
  {
    var l3, l2 := LICENSED + "--", LICENSED + "-";
    ClosingSteps(sep);
    var s1 := Replace(sep, l3, "--");
    var s2 := Replace(s1, l2, "--");
    RunStep(x, k, sep, "--");
    var x1 := Replace(x, l3, "--");
    RunStep(x1, k, s1, "-");
    var x2 := Replace(x1, l2, "--");
    assert LICENSED + "" == LICENSED;
    RunStep(x2, k, s2, "");
    if sep == "" {
      assert Dashes(k) + "" == Dashes(k);
    } else {
      assert "--" == Dashes(2);
      DashesConcat(k, 2);
    }
  }

  /** One step of the chain on a plain prefix, dashes and what is left of the closing word. */
  lemma {:induction false} RunStep(x: string, k: nat, y: string, dashes: string)
    requires Plain(x) && (y == "" || y[0] == '-') && dashes in ["", "-", "--"] && Dashes(k) + y != ""
    ensures var pat := LICENSED + dashes;
            && Replace(x + (Dashes(k) + y), pat, "--") == Replace(x, pat, "--") + (Dashes(k) + Replace(y, pat, "--"))
            && Plain(Replace(x, pat, "--"))
  {
    DashRunKept(k, y, dashes);
    PlainStep(x, Dashes(k) + y, dashes);
  }

  /** A run of dashes splits into pairs; an odd one leaves a dash. */
  lemma {:induction false} DashesSplit(d: nat)
    ensures End(Split(Dashes(d), "--")) == if d % 2 == 0 then "" else "-"
    ensures |Split(Dashes(d), "--")| == 1 + d / 2
  {
    if d < 2 {
      assert d == 0 ==> Dashes(d) == "";
      assert d == 1 ==> Dashes(d) == "-";
    } else {
      assert OccursAt(Dashes(d), "--", 0);
      FoundAt(Dashes(d), "--", 0);
      SplitInto(Dashes(d), "--", "", Dashes(d - 2));
      DashesSplit(d - 2);
    }
  }

  /** After a plain prefix the tokens end in an empty one exactly when the dashes in front of
      the closing word are even in number. */
  lemma {:induction false} EvenDashes(x: string, k: nat, sep: string)
    requires Plain(x) && Closing(sep) && RunLength(k, sep) > 0
    ensures Kept(x + (Dashes(k) + sep)) == "" <==> k % 2 == 0
  {
    RunRelicensed(x, k, sep);
    RunParity(k, sep);
    EvenKept(x + (Dashes(k) + sep), Relicense(x), RunLength(k, sep), k);
  }

  lemma {:induction false} RunParity(k: nat, sep: string)
    ensures RunLength(k, sep) % 2 == k % 2
  {
  }

  lemma {:induction false} EvenKept(lead: string, y: string, d: nat, k: nat)
    requires Plain(y) && d > 0 && d % 2 == k % 2 && Relicense(lead) == y + Dashes(d)
    ensures Kept(lead) == "" <==> k % 2 == 0
  {
    EvenRun(y, d);
  }

  lemma {:induction false} EvenRun(y: string, d: nat)
    requires Plain(y) && d > 0
    ensures End(Split(y + Dashes(d), "--")) == "" <==> d % 2 == 0
  {
    PlainBorder(y, Dashes(d), "--");
    SplitGlue(y, Dashes(d), "--");
    DashesSplit(d);
    GlueEnd(Split(y, "--"), Split(Dashes(d), "--"));
  }

  lemma {:induction false} GlueEnd(a: seq<string>, b: seq<string>)
    requires a != [] && b != []
    ensures End(Glue(a, b)) == if |b| == 1 then End(a) + End(b) else End(b)
  {
  }

  /** The round trip, read off the text: after a plain prefix, such as the application's name,
      any number of dashes and an optional `-licensed-`, `-licensed--` or `-licensed---`, the
      server comes back exactly when the number of dashes is even. The parser pairs an odd
      dash with the closing word's first, or keeps it in front of the name. */
  lemma {:induction false} RoundTripPlain(lib: Library, s: CustomServer, prefix: string, k: nat, sep: string,
                                          cs: seq<Copy>, rest: string, ext: string)
    requires AsciiServer(s) && lib.ReadsJson()
    requires Plain(prefix) && Closing(sep) && RunLength(k, sep) > 0
    requires Surrounds(prefix, cs, rest, ext) && NothingBefore(lib, prefix + (Dashes(k) + sep))
    ensures var lead := prefix + (Dashes(k) + sep);
            && (Kept(lead) == "" <==> k % 2 == 0)
            && Outcome(lib, s, ToJson(s), Kept(lead), rest, ParseName(lib, FileName(lead, GenName(s), cs, rest, ext)))
  {
    EvenDashes(prefix, k, sep);
    RunSurrounds(prefix, k, sep, cs, rest, ext);
    RoundTrip(lib, s, prefix + (Dashes(k) + sep), cs, rest, ext);
  }

  lemma {:induction false} RunSurrounds(prefix: string, k: nat, sep: string, cs: seq<Copy>, rest: string, ext: string)
    requires Closing(sep) && RunLength(k, sep) > 0 && Surrounds(prefix, cs, rest, ext)
    ensures var lead := prefix + (Dashes(k) + sep);
            EndsInDash(lead) && Surrounds(lead, cs, rest, ext)
  {
    var w := Dashes(k) + sep;
    ClosingShape(k, sep);
    NoHostKey(prefix, w);
    assert End(prefix + w) == End(w);
  }

  lemma {:induction false} ClosingShape(k: nat, sep: string)
    requires Closing(sep) && RunLength(k, sep) > 0
    ensures var w := Dashes(k) + sep; Ascii(w) && '=' !in w && EndsInDash(w)
  {
    ClosingForms(sep);
  }

  // --- vendor-signed names ---

  /** A file name whose tokens hold a vendor-signed server, with nothing decodable before it,
      gives that server. */
  lemma {:induction false} SignedNameDecodes(lib: Library, body: string, ext: string, before: seq<string>, after: seq<string>,
                                             data: seq<Byte>, content: seq<Byte>, s: CustomServer, cs: seq<Copy>)
    requires lib.fromJson(data) == None && lib.verify(data) == Some(content) && lib.fromJson(content) == Some(s)
    requires data != [] && Numbered(cs)
    requires Ascii(body) && !EndsWith(Lower(body), ".exe") && !Occurs(Lower(body), "host=")
    requires Lower(ext) in ["", ".exe", ".exe.exe"]
    requires Tokens(body) == before + [Reverse(Encode(data)) + Copies(cs)] + after
    requires forall t <- before :: TryToken(lib, t) == None
    ensures ParseName(lib, body + ext) == Some(s)
  {
    SignedTokenDecodes(lib, data, content, s, cs);
    FirstTokenIs(lib, before, Reverse(Encode(data)) + Copies(cs), after);
    ParsesTokens(lib, body, ext);
  }

  // --- the name that naming.rs prints ---

  const PROGRAM := "rustdesk-custom_serverd-"

  /** `rustdesk-custom_serverd-{}.exe`, the one file name the repository prints, is never read
      back: its single dash stays in front of the name, for every server. */
  lemma {:induction false} ProgramNameFails(lib: Library, s: CustomServer, cs: seq<Copy>, ext: string)
    requires AsciiServer(s) && lib.ReadsJson() && Unsigned(lib, ToJson(s))
    requires Numbered(cs) && Lower(ext) in ["", ".exe", ".exe.exe"]
    ensures ParseName(lib, PROGRAM + GenName(s) + Copies(cs) + ext) == None
  {
    ProgramLead(lib);
    RoundTrip(lib, s, PROGRAM, cs, "", ext);
    assert Copies(cs) + "" == Copies(cs);
  }

  lemma {:induction false} ProgramLead(lib: Library)
    ensures EndsInDash(PROGRAM) && Ascii(PROGRAM) && !Occurs(Lower(PROGRAM), "host=")
    ensures Kept(PROGRAM) == PROGRAM && NothingBefore(lib, PROGRAM)
  {
    ProgramTokens();
    ProgramChars();
    NoPieceInResidue(lib, PROGRAM);
    SingleToken(lib, PROGRAM);
  }

  lemma {:induction false} SingleToken(lib: Library, lead: string)
    requires Tokens(lead) == [lead]
    ensures Kept(lead) == lead && NoTokenBefore(lib, lead)
  {
  }

  lemma {:induction false} ProgramChars()
    ensures EndsInDash(PROGRAM) && Ascii(PROGRAM) && '(' !in PROGRAM && !Occurs(Lower(PROGRAM), "host=")
  {
    NoHostKey("", PROGRAM);
    assert "" + PROGRAM == PROGRAM;
  }

  lemma {:induction false} ProgramTokens()
    ensures Tokens(PROGRAM) == [PROGRAM]
  {
    Markers();
    NoMarkerInProgram(LICENSED + "--");
    NoMarkerInProgram(LICENSED + "-");
    NoMarkerInProgram(LICENSED);
    NoMarkerInProgram("--");
  }

  lemma {:induction false} NoMarkerInProgram(pat: string)
    requires Marker(pat) && pat[1] in {'-', 'l'}
    ensures Replace(PROGRAM, pat, "--") == PROGRAM && Split(PROGRAM, pat) == [PROGRAM]
  {
    forall i: nat ensures !OccursAt(PROGRAM, pat, i) {
      if OccursAt(PROGRAM, pat, i) {
        CharOfMatch(PROGRAM, pat, i, 0);
        CharOfMatch(PROGRAM, pat, i, 1);
      }
    }
    NotFound(PROGRAM, pat);
  }

  lemma {:induction false} NameWithRest(lib: Library, g: string, lead: string, cs: seq<Copy>, rest: string, ext: string)
    requires Printed(g) && Numbered(cs)
    requires After(rest)
    requires Lower(ext) in ["", ".exe", ".exe.exe"]
    requires !Occurs(Lower(lead), "host=")
    ensures ParseName(lib, lead + g + (Copies(cs) + rest) + ext) == FirstToken(lib, Tokens(lead + g + (Copies(cs) + rest)))
  {
    PrintedEnd(lead, g, cs);
    Reassociate(lead, g, Copies(cs), rest);
    NameWithRestEnd(lead, g + Copies(cs), rest);
    ParsesTokens(lib, lead + g + (Copies(cs) + rest), ext);
  }

  lemma {:induction false} Reassociate(a: string, b: string, c: string, d: string)
    ensures a + b + (c + d) == a + (b + c) + d && a + (b + c) == a + b + c
  {
  }

  lemma {:induction false} NameWithRestEnd(lead: string, tail: string, rest: string)
    requires !Occurs(Lower(lead), "host=") && '=' !in tail && !EndsWith(Lower(lead + tail), ".exe")
    requires After(rest)
    ensures !EndsWith(Lower(lead + tail + rest), ".exe")
    ensures !Occurs(Lower(lead + tail + rest), "host=")
  {
    RestEnd(lead + tail, rest);
    NoHostKeyAround(lead, tail, rest);
  }

  lemma {:induction false} NoHostKeyAround(lead: string, tail: string, rest: string)
    requires !Occurs(Lower(lead), "host=") && '=' !in tail && '=' !in rest
    ensures !Occurs(Lower(lead + tail + rest), "host=")
  {
    NoHostKey(lead, tail);
    NoHostKey(lead + tail, rest);
  }

  lemma {:induction false} RestEnd(body: string, rest: string)
    requires !EndsWith(Lower(body), ".exe")
    requires rest == "" || (StartsWith(rest, "--") && !EndsWith(Lower(rest), ".exe"))
    ensures !EndsWith(Lower(body + rest), ".exe")
  {
    if rest == "" {
      assert body + rest == body;
    } else {
      NotExe(body, rest);
    }
  }

  lemma {:induction false} NotExe(x: string, rest: string)
    requires StartsWith(rest, "--") && !EndsWith(Lower(rest), ".exe")
    ensures !EndsWith(Lower(x + rest), ".exe")
  {
    LowerConcat(x, rest);
    EndsConcat(Lower(x), Lower(rest));
    if |rest| >= 4 {
      if EndsWith(Lower(x + rest), ".exe") {
        TailsNest(Lower(x + rest), Lower(rest), ".exe");
      }
    } else {
      ShortDashes(Lower(x + rest), Lower(rest));
    }
  }

  lemma {:induction false} ShortDashes(low: string, rest: string)
    requires 2 <= |rest| < 4 && rest[1] == '-' && EndsWith(low, rest)
    ensures !EndsWith(low, ".exe")
  {
  }
}
