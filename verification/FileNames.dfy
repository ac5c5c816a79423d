/** Why a printed server name survives the file-name parser: where dashes can occur in it,
    what the parser's replacements leave of its surroundings, and when they leave it whole. */
module FileNames {
  import opened Options
  import opened Octets
  import opened Text
  import opened Base64Url
  import opened CustomServers

  // --- the shape of a printed name ---

  /** The facts about a printed name that keep the parser's patterns away from it. */
  ghost predicate Printed(g: string) {
    && |g| >= 10
    && g[0] in {'9', 'Q', '0'}
    && g[|g| - 2] == 'y' && g[|g| - 1] == 'e'
    && (forall i :: 0 <= i < |g| ==> FromChar(g[i]).Some?)
    && (forall i :: 0 <= i < |g| && g[i] == '-' ==> (|g| - 1 - i) % 4 == 3)
  }

  /** ASCII text that opens like a JSON object and ends in its closing brace. */
  ghost predicate ObjectText(j: seq<Byte>) {
    && 7 <= |j| && j[0] == 123 && j[1] == 34 && j[|j| - 1] == '}' as int
    && forall k :: 0 <= k < |j| ==> j[k] < 128
  }

  /** Token integrity: the printed form of such a text has its dashes only at indices
      congruent to 3 modulo 4 from its end, and neither of its ends is one. */
  lemma {:induction false} PrintedShape(j: seq<Byte>)
    requires ObjectText(j)
    ensures Printed(Reverse(Encode(j)))
  {
    FirstSextets(j);
    LastChar(j);
    var g := Reverse(Encode(j));
    forall i | 0 <= i < |g|
      ensures FromChar(g[i]).Some? && (g[i] == '-' ==> (|g| - 1 - i) % 4 == 3)
    {
      CharOfCode(j, |g| - 1 - i);
    }
  }

  lemma {:induction false} CharOfCode(j: seq<Byte>, k: nat)
    requires ObjectText(j) && k < |Encode(j)|
    ensures FromChar(Encode(j)[k]).Some? && (Encode(j)[k] == '-' ==> k % 4 == 3)
  {
    if Encode(j)[k] == '-' {
      DashPositions(j, k);
    }
  }

  lemma {:induction false} LastChar(j: seq<Byte>)
    requires ObjectText(j)
    ensures End(Encode(j)) in {'9', 'Q', '0'}
  {
    LastSextet(j);
  }

  lemma {:induction false} ReversedTwice(s: string)
    ensures Reverse(Reverse(s)) == s
  {
  }

  lemma {:induction false} FirstSextets(j: seq<Byte>)
    requires ObjectText(j)
    ensures |Encode(j)| >= 10 && Encode(j)[0] == 'e' && Encode(j)[1] == 'y'
  {
  }

  /** The patterns of the parser: two dashes at a distance that is no multiple of four, and
      letters of "licensed" besides. */
  ghost predicate Marker(pat: string) {
    && |pat| >= 2
    && pat[0] == '-'
    && (forall i :: 0 <= i < |pat| ==> pat[i] in "-licensed")
    && (pat[1] == '-' || (|pat| >= 10 && pat[9] == '-'))
  }

  lemma {:induction false} Markers()
    ensures Marker("--") && Marker(LICENSED)
    ensures Marker(LICENSED + "-") && Marker(LICENSED + "--")
  {
  }

  lemma {:induction false} NoMarkerInside(g: string, pat: string)
    requires Printed(g) && Marker(pat)
    ensures !Occurs(g, pat)
  {
  }

  lemma {:induction false} CharOfMatch(s: string, pat: string, i: nat, k: nat)
    requires OccursAt(s, pat, i) && k < |pat|
    ensures s[i + k] == pat[k]
  {
  }

  lemma {:induction false} NoMarkerEnters(x: string, g: string, r: string, pat: string)
    requires Printed(g) && Marker(pat)
    ensures NoStraddle(x, g + r, pat)
  {
    assert (x + (g + r))[|x|] == g[0];
    forall i: nat | OccursAt(x + (g + r), pat, i)
      ensures i + |pat| <= |x| || |x| <= i
    {
      if i < |x| < i + |pat| {
        CharOfMatch(x + (g + r), pat, i, |x| - i);
      }
    }
  }

  lemma {:induction false} NoMarkerLeaves(g: string, r: string, pat: string)
    requires Printed(g) && Marker(pat)
    ensures NoStraddle(g, r, pat)
  {
    var n := |g|;
    assert (g + r)[n - 2] == 'y' && 'y' !in "-licensed";
    forall i: nat | OccursAt(g + r, pat, i)
      ensures i + |pat| <= n || n <= i
    {
      if i < n < i + |pat| {
        CharOfMatch(g + r, pat, i, if i <= n - 2 then n - 2 - i else 0);
      }
    }
  }

  lemma {:induction false} ReplaceAround(x: string, g: string, r: string, pat: string, with: string)
    requires Printed(g) && Marker(pat)
    ensures Replace(x + g + r, pat, with) == Replace(x, pat, with) + g + Replace(r, pat, with)
  {
    assert x + g + r == x + (g + r);
    NoMarkerEnters(x, g, r, pat);
    ReplaceGlue(x, g + r, pat, with);
    NoMarkerLeaves(g, r, pat);
    ReplaceGlue(g, r, pat, with);
    NoMarkerInside(g, pat);
    NotFound(g, pat);
  }

  /** Whatever surrounds a printed name, the tokens before and after it come from its
      surroundings alone, and its own token adds only what they leave at the border. */
  lemma {:induction false} TokensAround(x: string, g: string, r: string)
    requires Printed(g)
    ensures Tokens(x + g + r)
         == Front(Tokens(x)) + [End(Tokens(x)) + g + Tokens(r)[0]] + Tokens(r)[1..]
  {
    Markers();
    var l3, l2 := LICENSED + "--", LICENSED + "-";
    ReplaceAround(x, g, r, l3, "--");
    var x1, r1 := Replace(x, l3, "--"), Replace(r, l3, "--");
    ReplaceAround(x1, g, r1, l2, "--");
    var x2, r2 := Replace(x1, l2, "--"), Replace(r1, l2, "--");
    ReplaceAround(x2, g, r2, LICENSED, "--");
    SplitAround(Relicense(x), g, Relicense(r));
  }

  lemma {:induction false} SplitAround(x: string, g: string, r: string)
    requires Printed(g)
    ensures var a, b := Split(x, "--"), Split(r, "--");
            Split(x + g + r, "--") == Front(a) + [End(a) + g + b[0]] + b[1..]
  {
    Markers();
    assert x + g + r == x + (g + r);
    NoMarkerEnters(x, g, r, "--");
    SplitGlue(x, g + r, "--");
    NoMarkerLeaves(g, r, "--");
    SplitGlue(g, r, "--");
    NoMarkerInside(g, "--");
    NotFound(g, "--");
    var a, b := Split(x, "--"), Split(r, "--");
    assert Split(g, "--") == [g];
    assert Glue([g], b) == [g + b[0]] + b[1..];
    assert End(a) + (g + b[0]) == End(a) + g + b[0];
  }

  // --- trying tokens ---

  lemma {:induction false} FirstTokenSkips(lib: Library, a: seq<string>, b: seq<string>)
    requires forall t <- a :: TryToken(lib, t) == None
    ensures FirstToken(lib, a + b) == FirstToken(lib, b)
  {
    if a == [] {
      assert a + b == b;
    } else {
      assert a[0] in a;
      assert (a + b)[1..] == a[1..] + b;
      FirstTokenSkips(lib, a[1..], b);
    }
  }

  /** A character outside the alphabet, white space aside, makes a string undecodable. */
  lemma {:induction false} ForeignChar(lib: Library, s: string, c: char)
    requires c in s && FromChar(c).None? && !Blank(c)
    ensures FromConfigString(lib, Trim(s)) == None
  {
    var t := Trim(s);
    var i :| 0 <= i < |t| && t[i] == c;
    assert Reverse(t)[|t| - 1 - i] == c;
    assert c in Reverse(t);
  }

  lemma {:induction false} AlphabetNotBlank(c: char)
    requires FromChar(c).Some?
    ensures !Blank(c) && c != '(' && c != ')' && c != '.' && c != '='
  {
  }

  /** The library reads `s` from `j`, and from no longer text that goes on after the object. */
  ghost predicate Reads(lib: Library, j: seq<Byte>, s: CustomServer) {
    && ObjectText(j)
    && lib.fromJson(j) == Some(s)
    && forall rest: seq<Byte> :: rest != [] && rest[0] !in {9, 10, 13, 32} ==> lib.fromJson(j + rest) == None
  }

  lemma {:induction false} ReadsGenerated(lib: Library, s: CustomServer)
    requires AsciiServer(s) && lib.ReadsJson()
    ensures Reads(lib, ToJson(s), s)
  {
  }

  lemma {:induction false} PrintedTrims(lib: Library, j: seq<Byte>, s: CustomServer, blanks: string)
    requires Reads(lib, j, s)
    requires forall c <- blanks :: Blank(c)
    ensures FromConfigString(lib, Trim(Reverse(Encode(j)) + blanks)) == Some(s)
  {
    PrintedShape(j);
    AlphabeticAlone(Reverse(Encode(j)), blanks);
    ReversedTwice(Encode(j));
    DecodeEncode(j);
    Decodable(lib, Reverse(Encode(j)), j, s);
  }

  lemma {:induction false} AlphabeticAlone(g: string, blanks: string)
    requires Alphabetic(g) && forall c <- blanks :: Blank(c)
    ensures Trim(g + blanks) == g
  {
    AlphabetNotBlank(g[0]);
    AlphabetNotBlank(End(g));
    TrimBlanks(g, blanks);
  }

  lemma {:induction false} Decodable(lib: Library, t: string, data: seq<Byte>, s: CustomServer)
    requires Decode(Reverse(t)) == Some(data) && lib.fromJson(data) == Some(s)
    ensures FromConfigString(lib, t) == Some(s)
  {
  }

  /** The marks a file manager appends to a duplicate: "(1)", " (2)" and so on. */
  datatype Copy = Copy(spaced: bool, number: string)

  predicate IsNumber(s: string) {
    forall c <- s :: '0' <= c <= '9'
  }

  function Gap(c: Copy): string {
    if c.spaced then " " else ""
  }

  function Copies(cs: seq<Copy>): string {
    if cs == [] then "" else Gap(cs[0]) + "(" + (cs[0].number + ")") + Copies(cs[1..])
  }

  ghost predicate Numbered(cs: seq<Copy>) {
    forall c <- cs :: IsNumber(c.number)
  }

  lemma {:induction false} CopiesShape(cs: seq<Copy>)
    requires Numbered(cs)
    ensures forall c <- Copies(cs) :: c in "0123456789() "
    ensures cs != [] ==> '(' in Copies(cs) && End(Copies(cs)) == ')'
  {
    if cs != [] {
      assert cs[0] in cs;
      CopiesShape(cs[1..]);
      var head, tail := Gap(cs[0]) + "(" + (cs[0].number + ")"), Copies(cs[1..]);
      assert Copies(cs) == head + tail;
      assert forall c <- head :: c in "0123456789() ";
      assert head[|Gap(cs[0])|] == '(';
      if tail == "" {
        assert Copies(cs) == head;
      } else {
        assert End(head + tail) == End(tail);
        assert cs[1..] != [];
      }
    }
  }

  function GapOf(cs: seq<Copy>): (r: string)
    ensures forall c <- r :: Blank(c)
  {
    if cs == [] then "" else Gap(cs[0])
  }

  /** The pieces that duplicate marks add: numbers with a `)`. */
  function MarkPieces(cs: seq<Copy>): seq<string> {
    if cs == [] then [] else Split(cs[0].number + ")" + Copies(cs[1..]), "(")
  }

  lemma {:induction false} PiecesOfCopies(lead: string, cs: seq<Copy>)
    requires '(' !in lead
    ensures Split(lead + Copies(cs), "(") == [lead + GapOf(cs)] + MarkPieces(cs)
  {
    if cs == [] {
      assert lead + "" == lead;
      CharAbsent(lead, '(');
      NotFound(lead, "(");
    } else {
      CopiesFirst(lead, cs);
      SplitAtChar(lead + Gap(cs[0]), '(', cs[0].number + ")" + Copies(cs[1..]));
    }
  }

  lemma {:induction false} CopiesFirst(lead: string, cs: seq<Copy>)
    requires cs != []
    ensures lead + Copies(cs) == lead + Gap(cs[0]) + ['('] + (cs[0].number + ")" + Copies(cs[1..]))
  {
    var gap, number, rest := Gap(cs[0]), cs[0].number + ")", Copies(cs[1..]);
    assert Copies(cs) == gap + "(" + number + rest;
  }

  lemma {:induction false} MarksDoNotDecode(lib: Library, cs: seq<Copy>)
    requires Numbered(cs)
    ensures FirstPiece(lib, MarkPieces(cs)) == None
    decreases |cs|
  {
    if cs != [] {
      var lead := cs[0].number + ")";
      assert cs[0] in cs && lead[|lead| - 1] == ')';
      PiecesOfCopies(lead, cs[1..]);
      ForeignChar(lib, lead + GapOf(cs[1..]), ')');
      MarksDoNotDecode(lib, cs[1..]);
      FirstPieceSkips(lib, lead + GapOf(cs[1..]), MarkPieces(cs[1..]));
    }
  }

  /** A printed name, with or without duplicate marks, is found in its token. */
  lemma {:induction false} PrintedTokenDecodes(lib: Library, j: seq<Byte>, s: CustomServer, cs: seq<Copy>)
    requires Reads(lib, j, s) && Numbered(cs)
    ensures TryToken(lib, Reverse(Encode(j)) + Copies(cs)) == Some(s)
  {
    PrintedShape(j);
    PrintedTrims(lib, j, s, GapOf(cs));
    PieceDecides(lib, Reverse(Encode(j)), s, cs);
  }

  ghost predicate Alphabetic(g: string) {
    g != "" && forall i :: 0 <= i < |g| ==> FromChar(g[i]).Some?
  }

  lemma {:induction false} PieceDecides(lib: Library, g: string, s: CustomServer, cs: seq<Copy>)
    requires Alphabetic(g) && Numbered(cs)
    requires FromConfigString(lib, Trim(g + GapOf(cs))) == Some(s)
    ensures TryToken(lib, g + Copies(cs)) == Some(s)
  {
    if cs == [] {
      assert g + Copies(cs) == g + GapOf(cs);
    } else {
      CopiesShape(cs);
      ForeignChar(lib, g + Copies(cs), '(');
      NoParenthesis(g);
      PiecesOfCopies(g, cs);
      FirstPieceIs(lib, Split(g + Copies(cs), "("), s);
    }
  }

  lemma {:induction false} FirstPieceIs(lib: Library, pieces: seq<string>, s: CustomServer)
    requires pieces != [] && FromConfigString(lib, Trim(pieces[0])) == Some(s)
    ensures FirstPiece(lib, pieces) == Some(s)
  {
  }

  lemma {:induction false} NoParenthesis(g: string)
    requires forall i :: 0 <= i < |g| ==> FromChar(g[i]).Some?
    ensures '(' !in g
  {
  }

  // --- vendor-signed strings ---

  /** What a reversed encoding decides, for all bytes: plain JSON first, then the content of a
      vendor-signed string. */
  lemma {:induction false} ConfigStringDecides(lib: Library, data: seq<Byte>)
    ensures var r := FromConfigString(lib, Reverse(Encode(data)));
            && (lib.fromJson(data).Some? ==> r == lib.fromJson(data))
            && (lib.fromJson(data).None? ==>
                  match lib.verify(data)
                  case Some(content) => r == lib.fromJson(content)
                  case None => r == None)
  {
    ReversedTwice(Encode(data));
    DecodeEncode(data);
  }

  /** A string that is no such encoding, as the strict engine reads it, decides nothing. */
  lemma {:induction false} OnlyEncodingsDecide(lib: Library, t: string)
    requires FromConfigString(lib, t).Some?
    ensures exists data :: t == Reverse(Encode(data))
  {
    var data := Decode(Reverse(t)).value;
    EncodeDecode(Reverse(t));
    ReversedTwice(t);
    assert t == Reverse(Encode(data));
  }

  /** A vendor-signed server is found in its token, with or without duplicate marks. */
  lemma {:induction false} SignedTokenDecodes(lib: Library, data: seq<Byte>, content: seq<Byte>, s: CustomServer, cs: seq<Copy>)
    requires lib.fromJson(data) == None && lib.verify(data) == Some(content) && lib.fromJson(content) == Some(s)
    requires data != [] && Numbered(cs)
    ensures TryToken(lib, Reverse(Encode(data)) + Copies(cs)) == Some(s)
  {
    var g := Reverse(Encode(data));
    ConfigStringDecides(lib, data);
    EncodedAlphabetic(data);
    AlphabeticAlone(g, GapOf(cs));
    PieceDecides(lib, g, s, cs);
  }

  lemma {:induction false} EncodedAlphabetic(data: seq<Byte>)
    requires data != []
    ensures Alphabetic(Reverse(Encode(data)))
  {
    var e := Encode(data);
    forall i | 0 <= i < |e| ensures FromChar(Reverse(e)[i]).Some? {
      assert Reverse(e)[i] == e[|e| - 1 - i] == ToChar(Sextets(data)[|e| - 1 - i]);
    }
  }

  // --- what text in front of the name does to it ---

  /** Text that ends in a dash. */
  ghost predicate EndsInDash(a: string) {
    a != "" && End(a) == '-'
  }

  /** No longer text that starts with `j` is a vendor-signed server. */
  ghost predicate Unsigned(lib: Library, j: seq<Byte>) {
    forall rest: seq<Byte> :: rest != [] ==> NotSigned(lib, j + rest)
  }

  /** The signature check rejects `data`, or what it signs is no server. */
  predicate NotSigned(lib: Library, data: seq<Byte>) {
    match lib.verify(data)
    case None => true
    case Some(content) => lib.fromJson(content) == None
  }

  lemma {:induction false} ResidueSpoils(lib: Library, j: seq<Byte>, s: CustomServer, a: string, blanks: string)
    requires Reads(lib, j, s) && Unsigned(lib, j) && EndsInDash(a)
    requires forall c <- blanks :: Blank(c)
    ensures FromConfigString(lib, Trim(a + Reverse(Encode(j)) + blanks)) == None
  {
    PrintedShape(j);
    var g, c := Reverse(Encode(j)), TrimStart(a);
    ResidueTrims(a, g, blanks);
    ReversedTwice(Encode(j));
    ReversedConcat(c, g);
    ExtensionRejected(lib, j, s, Reverse(c));
    Undecodable(lib, c + g);
  }

  lemma {:induction false} ResidueTrims(a: string, g: string, blanks: string)
    requires EndsInDash(a) && Printed(g)
    requires forall c <- blanks :: Blank(c)
    ensures var c := TrimStart(a);
            EndsInDash(c) && Trim(a + g + blanks) == c + g
  {
    var c := TrimStart(a);
    TrimStartConcat(a, g + blanks);
    AlphabetNotBlank(End(g));
    assert End(c + g) == End(g) && (c + g)[0] == c[0];
    TrimBlanks(c + g, blanks);
    assert a + g + blanks == a + (g + blanks) && c + (g + blanks) == c + g + blanks;
  }

  lemma {:induction false} ReversedConcat(x: string, y: string)
    ensures Reverse(x + y) == Reverse(y) + Reverse(x)
  {
  }

  lemma {:induction false} Undecodable(lib: Library, t: string)
    requires match Decode(Reverse(t))
             case None => true
             case Some(d) => lib.fromJson(d) == None && NotSigned(lib, d)
    ensures FromConfigString(lib, t) == None
  {
  }

  lemma {:induction false} ExtensionRejected(lib: Library, j: seq<Byte>, s: CustomServer, tail: string)
    requires Reads(lib, j, s) && Unsigned(lib, j)
    requires tail != "" && tail[0] == '-'
    ensures match Decode(Encode(j) + tail)
            case None => true
            case Some(d) => lib.fromJson(d) == None && NotSigned(lib, d)
  {
    ExtendedDecode(j, tail);
    match Decode(Encode(j) + tail)
    case None =>
    case Some(d) => assert d == j + d[|j|..];
  }

  lemma {:induction false} ExtendedDecode(j: seq<Byte>, tail: string)
    requires tail != "" && tail[0] == '-'
    ensures match Decode(Encode(j) + tail)
            case None => true
            case Some(d) => |j| < |d| && d[..|j|] == j && (d[|j|] == 15 || 62 <= d[|j|])
  {
    var v := Values(Encode(j) + tail);
    if v.Some? {
      ExtendedValues(j, tail);
      BytesOfExtended(j, v.value[|Sextets(j)|..]);
    }
  }

  lemma {:induction false} ExtendedValues(j: seq<Byte>, tail: string)
    requires tail != "" && tail[0] == '-'
    requires Values(Encode(j) + tail).Some?
    ensures var v := Values(Encode(j) + tail).value;
            && |v| == |Sextets(j)| + |tail|
            && v == Sextets(j) + v[|Sextets(j)|..]
            && v[|Sextets(j)|] == DASH
  {
    var v, n := Values(Encode(j) + tail).value, |Sextets(j)|;
    ValuesOfConcat(Sextets(j), tail);
    assert v == v[..n] + v[n..];
  }

  lemma {:induction false} ValuesOfConcat(x: seq<Sextet>, tail: string)
    requires tail != "" && Values(Chars(x) + tail).Some?
    ensures var v := Values(Chars(x) + tail).value;
            |v| == |x| + |tail| && v[..|x|] == x && FromChar(tail[0]) == Some(v[|x|])
  {
    var e := Chars(x);
    var v := Values(e + tail).value;
    forall i | 0 <= i < |x| ensures v[i] == x[i] {
      assert (e + tail)[i] == e[i] == ToChar(x[i]);
    }
    assert (e + tail)[|e|] == tail[0];
  }

  /** No piece between parentheses in front of the name decodes. */
  ghost predicate NoPieceIn(lib: Library, a: string) {
    forall p <- Front(Split(a, "(")) :: FromConfigString(lib, Trim(p)) == None
  }

  /** With text in front that ends in a dash, neither the token nor the piece with the name in
      it decodes. */
  lemma {:induction false} ResidueTokenFails(lib: Library, j: seq<Byte>, s: CustomServer, a: string, cs: seq<Copy>)
    requires Reads(lib, j, s) && Unsigned(lib, j) && EndsInDash(a) && NoPieceIn(lib, a) && Numbered(cs)
    ensures TryToken(lib, a + Reverse(Encode(j)) + Copies(cs)) == None
  {
    var t := a + Reverse(Encode(j)) + Copies(cs);
    if cs == [] {
      assert t == a + Reverse(Encode(j)) + "";
      ResidueSpoils(lib, j, s, a, "");
    } else {
      CopiesShape(cs);
      ForeignChar(lib, t, '(');
    }
    ResiduePiecesFail(lib, j, s, a, cs);
  }

  lemma {:induction false} ResiduePiecesFail(lib: Library, j: seq<Byte>, s: CustomServer, a: string, cs: seq<Copy>)
    requires Reads(lib, j, s) && Unsigned(lib, j) && EndsInDash(a) && NoPieceIn(lib, a) && Numbered(cs)
    ensures FirstPiece(lib, Split(a + Reverse(Encode(j)) + Copies(cs), "(")) == None
  {
    PrintedShape(j);
    var g, pieces := Reverse(Encode(j)), Split(a, "(");
    var named := End(pieces) + g + GapOf(cs);
    LastPartEnds(a, "(");
    ResidueSpoils(lib, j, s, End(pieces), GapOf(cs));
    PiecesAfterResidue(a, g, cs);
    MarksDoNotDecode(lib, cs);
    FirstPieceSkips(lib, named, MarkPieces(cs));
    FirstPieceSkipsAll(lib, Front(pieces), [named] + MarkPieces(cs));
  }

  lemma {:induction false} PiecesAfterResidue(a: string, g: string, cs: seq<Copy>)
    requires Printed(g)
    ensures var pieces := Split(a, "(");
            Split(a + g + Copies(cs), "(")
            == Front(pieces) + ([End(pieces) + g + GapOf(cs)] + MarkPieces(cs))
  {
    NoParenthesis(g);
    PiecesOfCopies(g, cs);
    SplitGlueChar(a, g + Copies(cs), '(');
    assert a + (g + Copies(cs)) == a + g + Copies(cs);
    GlueNamed(Split(a, "("), g, GapOf(cs), MarkPieces(cs));
  }

  lemma {:induction false} GlueNamed(a: seq<string>, g: string, gap: string, rest: seq<string>)
    requires a != []
    ensures Glue(a, [g + gap] + rest) == Front(a) + ([End(a) + g + gap] + rest)
  {
    assert End(a) + (g + gap) == End(a) + g + gap;
    assert ([g + gap] + rest)[1..] == rest;
  }

  lemma {:induction false} FirstPieceSkips(lib: Library, piece: string, rest: seq<string>)
    requires FromConfigString(lib, Trim(piece)) == None
    ensures FirstPiece(lib, [piece] + rest) == FirstPiece(lib, rest)
  {
  }

  lemma {:induction false} FirstPieceSkipsAll(lib: Library, a: seq<string>, b: seq<string>)
    requires forall p <- a :: FromConfigString(lib, Trim(p)) == None
    ensures FirstPiece(lib, a + b) == FirstPiece(lib, b)
  {
    if a == [] {
      assert a + b == b;
    } else {
      assert a[0] in a;
      assert a + b == [a[0]] + (a[1..] + b);
      FirstPieceSkips(lib, a[0], a[1..] + b);
      FirstPieceSkipsAll(lib, a[1..], b);
    }
  }
}
