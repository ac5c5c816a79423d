/** The string operations the file-name parser is built from: leftmost search, splitting
    and replacing at non-overlapping matches, trimming and ASCII lower-casing. */
module Text {
  import opened Options

  predicate OccursAt(s: string, pat: string, i: nat) {
    i + |pat| <= |s| && s[i..i + |pat|] == pat
  }

  ghost predicate Occurs(s: string, pat: string) {
    exists i: nat :: OccursAt(s, pat, i)
  }

  /** The index of the leftmost match. */
  function Find(s: string, pat: string): (r: Option<nat>)
    ensures r.Some? ==> r.value + |pat| <= |s|
  {
    FindFrom(s, pat, 0)
  }

  function FindFrom(s: string, pat: string, i: nat): (r: Option<nat>)
    ensures r.Some? ==> r.value + |pat| <= |s|
    decreases |s| - i
  {
    if |s| < i + |pat| then None
    else if s[i..i + |pat|] == pat then Some(i)
    else if i < |s| then FindFrom(s, pat, i + 1)
    else None
  }

  lemma {:induction false} FindFromSpec(s: string, pat: string, i: nat)
    ensures match FindFrom(s, pat, i)
            case None => forall j: nat :: i <= j ==> !OccursAt(s, pat, j)
            case Some(k) => i <= k && OccursAt(s, pat, k) && forall j: nat :: i <= j < k ==> !OccursAt(s, pat, j)
    decreases |s| - i
  {
    if i + |pat| <= |s| && !OccursAt(s, pat, i) && i < |s| {
      FindFromSpec(s, pat, i + 1);
    }
  }

  lemma {:induction false} FindSpec(s: string, pat: string)
    ensures var r := Find(s, pat);
            && (r.None? <==> !Occurs(s, pat))
            && (r.Some? ==> OccursAt(s, pat, r.value) && forall j: nat :: j < r.value ==> !OccursAt(s, pat, j))
  {
    FindFromSpec(s, pat, 0);
  }

  lemma {:induction false} OccursShift(s: string, pat: string, k: nat, j: nat)
    requires k <= |s|
    ensures OccursAt(s, pat, k + j) <==> OccursAt(s[k..], pat, j)
  {
  }

  lemma {:induction false} FoundAt(s: string, pat: string, i: nat)
    requires OccursAt(s, pat, i)
    requires forall j: nat :: j < i ==> !OccursAt(s, pat, j)
    ensures Find(s, pat) == Some(i)
  {
    FindSpec(s, pat);
  }

  lemma {:induction false} NotFound(s: string, pat: string)
    requires !Occurs(s, pat)
    ensures Find(s, pat) == None
  {
    FindSpec(s, pat);
  }

  /** Splitting at the leftmost match, then in the rest; at least one part results. */
  function Split(s: string, pat: string): (parts: seq<string>)
    requires pat != ""
    ensures parts != []
    decreases |s|
  {
    match Find(s, pat)
    case None => [s]
    case Some(i) => [s[..i]] + Split(s[i + |pat|..], pat)
  }

  function Join(parts: seq<string>, sep: string): string {
    if parts == [] then ""
    else if |parts| == 1 then parts[0]
    else parts[0] + sep + Join(parts[1..], sep)
  }

  function Replace(s: string, pat: string, with: string): string
    requires pat != ""
  {
    Join(Split(s, pat), with)
  }

  function Front<T>(s: seq<T>): seq<T>
    requires s != []
  {
    s[..|s| - 1]
  }

  function End<T>(s: seq<T>): T
    requires s != []
  {
    s[|s| - 1]
  }

  /** Two part lists written next to each other: the facing parts merge. */
  function Glue(a: seq<string>, b: seq<string>): (r: seq<string>)
    requires a != [] && b != []
    ensures r != []
  {
    Front(a) + [End(a) + b[0]] + b[1..]
  }

  /** No match lies across the border of `x` and `y`. */
  ghost predicate NoStraddle(x: string, y: string, pat: string) {
    forall i: nat :: OccursAt(x + y, pat, i) ==> i + |pat| <= |x| || |x| <= i
  }

  lemma {:induction false} OccursInLeft(x: string, y: string, pat: string, i: nat)
    requires i + |pat| <= |x|
    ensures OccursAt(x + y, pat, i) <==> OccursAt(x, pat, i)
  {
  }

  lemma {:induction false} OccursInRight(x: string, y: string, pat: string, i: nat)
    ensures OccursAt(x + y, pat, |x| + i) <==> OccursAt(y, pat, i)
  {
  }

  lemma {:induction false} FindInLeft(x: string, y: string, pat: string)
    requires Find(x, pat).Some?
    ensures Find(x + y, pat) == Find(x, pat)
  {
    FindSpec(x, pat);
    var i := Find(x, pat).value;
    forall j: nat | j <= i ensures OccursAt(x + y, pat, j) <==> j == i {
      OccursInLeft(x, y, pat, j);
    }
    FoundAt(x + y, pat, i);
  }

  lemma {:induction false} OccursAfterPlain(x: string, y: string, pat: string, j: nat)
    requires pat != "" && !Occurs(x, pat) && NoStraddle(x, y, pat)
    ensures OccursAt(x + y, pat, j) <==> |x| <= j && OccursAt(y, pat, j - |x|)
  {
    if |x| <= j {
      OccursInRight(x, y, pat, j - |x|);
    } else if OccursAt(x + y, pat, j) {
      OccursInLeft(x, y, pat, j);
    }
  }

  /** A match-free `x` in front only shifts the first match of `y`. */
  lemma {:induction false} FindAfterPlain(x: string, y: string, pat: string)
    requires pat != "" && !Occurs(x, pat) && NoStraddle(x, y, pat)
    ensures Find(x + y, pat)
         == match Find(y, pat) case None => None case Some(i) => Some(|x| + i)
  {
    forall j: nat ensures OccursAt(x + y, pat, j) <==> |x| <= j && OccursAt(y, pat, j - |x|) {
      OccursAfterPlain(x, y, pat, j);
    }
    FindSpec(y, pat);
    match Find(y, pat)
    case None => NotFound(x + y, pat);
    case Some(i) => FoundAt(x + y, pat, |x| + i);
  }

  lemma {:induction false} SplitAfterPlain(x: string, y: string, pat: string)
    requires pat != ""
    requires Find(x + y, pat)
          == match Find(y, pat) case None => None case Some(i) => Some(|x| + i)
    ensures Split(x + y, pat) == Glue([x], Split(y, pat))
  {
    match Find(y, pat)
    case None =>
      GlueSingle(x, y, []);
      assert [y] + [] == [y] && [x + y] + [] == [x + y];
    case Some(i) =>
      SplitShifted(x, y, pat, i);
      GlueSingle(x, y[..i], Split(y[i + |pat|..], pat));
  }

  lemma {:induction false} SplitShifted(x: string, y: string, pat: string, i: nat)
    requires pat != "" && Find(y, pat) == Some(i) && Find(x + y, pat) == Some(|x| + i)
    ensures i + |pat| <= |y|
    ensures Split(y, pat) == [y[..i]] + Split(y[i + |pat|..], pat)
    ensures Split(x + y, pat) == [x + y[..i]] + Split(y[i + |pat|..], pat)
  {
    SplitOnce(y, pat);
    SlicesOfConcat(x, y, i, i + |pat|);
    SplitInto(x + y, pat, x + y[..i], y[i + |pat|..]);
  }

  lemma {:induction false} SplitInto(s: string, pat: string, head: string, rest: string)
    requires pat != "" && Find(s, pat) == Some(|head|)
    requires s[..|head|] == head && s[|head| + |pat|..] == rest
    ensures Split(s, pat) == [head] + Split(rest, pat)
  {
    SplitOnce(s, pat);
  }

  lemma {:induction false} SlicesOfConcat(x: string, y: string, i: nat, k: nat)
    requires i <= k <= |y|
    ensures (x + y)[..|x| + i] == x + y[..i] && (x + y)[|x| + k..] == y[k..]
  {
  }

  lemma {:induction false} SplitOnce(s: string, pat: string)
    requires pat != "" && Find(s, pat).Some?
    ensures var i := Find(s, pat).value;
            Split(s, pat) == [s[..i]] + Split(s[i + |pat|..], pat)
  {
  }

  lemma {:induction false} GlueSingle(x: string, head: string, rest: seq<string>)
    ensures Glue([x], [head] + rest) == [x + head] + rest
  {
  }

  /** Where no match straddles, splitting works on both sides separately. */
  lemma {:induction false} SplitGlue(x: string, y: string, pat: string)
    requires pat != "" && NoStraddle(x, y, pat)
    ensures Split(x + y, pat) == Glue(Split(x, pat), Split(y, pat))
    decreases |x|
  {
    match Find(x, pat)
    case None =>
      FindSpec(x, pat);
      FindAfterPlain(x, y, pat);
      SplitAfterPlain(x, y, pat);
    case Some(i) =>
      FindInLeft(x, y, pat);
      NoStraddleRest(x, y, pat, i + |pat|);
      SplitGlue(x[i + |pat|..], y, pat);
      SplitAfterMatch(x, y, pat);
  }

  lemma {:induction false} SplitAfterMatch(x: string, y: string, pat: string)
    requires pat != "" && Find(x, pat).Some? && Find(x + y, pat) == Find(x, pat)
    requires var rest := x[Find(x, pat).value + |pat|..];
             Split(rest + y, pat) == Glue(Split(rest, pat), Split(y, pat))
    ensures Split(x + y, pat) == Glue(Split(x, pat), Split(y, pat))
  {
    var i := Find(x, pat).value;
    var rest := x[i + |pat|..];
    assert (x + y)[i + |pat|..] == rest + y;
    assert (x + y)[..i] == x[..i];
    GlueCons(x[..i], Split(rest, pat), Split(y, pat));
  }

  lemma {:induction false} NoStraddleRest(x: string, y: string, pat: string, k: nat)
    requires NoStraddle(x, y, pat) && k <= |x|
    ensures NoStraddle(x[k..], y, pat)
  {
    assert (x + y)[k..] == x[k..] + y;
    forall j: nat | OccursAt(x[k..] + y, pat, j)
      ensures j + |pat| <= |x[k..]| || |x[k..]| <= j
    {
      OccursShift(x + y, pat, k, j);
    }
  }

  lemma {:induction false} GlueCons(head: string, a: seq<string>, b: seq<string>)
    requires a != [] && b != []
    ensures Glue([head] + a, b) == [head] + Glue(a, b)
  {
  }

  lemma {:induction false} JoinGlue(a: seq<string>, b: seq<string>, sep: string)
    requires a != [] && b != []
    ensures Join(Glue(a, b), sep) == Join(a, sep) + Join(b, sep)
    decreases |a|
  {
    var g := Glue(a, b);
    if |a| == 1 {
      assert g == [a[0] + b[0]] + b[1..];
      if |b| > 1 {
        assert g[1..] == b[1..];
        assert Join(g, sep) == (a[0] + b[0]) + sep + Join(b[1..], sep);
        assert Join(b, sep) == b[0] + sep + Join(b[1..], sep);
        assert (a[0] + b[0]) + sep + Join(b[1..], sep) == a[0] + (b[0] + sep + Join(b[1..], sep));
      }
    } else {
      assert a == [a[0]] + a[1..];
      GlueCons(a[0], a[1..], b);
      assert g[1..] == Glue(a[1..], b);
      JoinGlue(a[1..], b, sep);
      assert Join(g, sep) == a[0] + sep + (Join(a[1..], sep) + Join(b, sep));
      assert a[0] + sep + (Join(a[1..], sep) + Join(b, sep)) == (a[0] + sep + Join(a[1..], sep)) + Join(b, sep);
    }
  }

  lemma {:induction false} ReplaceGlue(x: string, y: string, pat: string, with: string)
    requires pat != "" && NoStraddle(x, y, pat)
    ensures Replace(x + y, pat, with) == Replace(x, pat, with) + Replace(y, pat, with)
  {
    SplitGlue(x, y, pat);
    JoinGlue(Split(x, pat), Split(y, pat), with);
  }

  // --- the last part ---

  ghost predicate EndsLike(l: string, x: string, pat: string)
    requires x != "" && pat != ""
  {
    (l == "" || End(l) == End(x)) && (End(pat) != End(x) ==> l != "")
  }

  /** The last part is empty or ends as the string does; it is not empty when the string ends
      otherwise than the pattern. */
  lemma {:induction false} LastPartEnds(x: string, pat: string)
    requires x != "" && pat != ""
    ensures EndsLike(End(Split(x, pat)), x, pat)
    decreases |x|
  {
    if Find(x, pat).Some? {
      var k := Find(x, pat).value + |pat|;
      LastPartOfRest(x, pat);
      if k == |x| {
        MatchAtEnd(x, pat);
      } else {
        LastPartEnds(x[k..], pat);
        SameEnd(x, k);
      }
    }
  }

  lemma {:induction false} LastPartOfRest(x: string, pat: string)
    requires pat != "" && Find(x, pat).Some?
    ensures End(Split(x, pat)) == End(Split(x[Find(x, pat).value + |pat|..], pat))
  {
    SplitOnce(x, pat);
  }

  lemma {:induction false} SameEnd(x: string, k: nat)
    requires k < |x|
    ensures End(x[k..]) == End(x)
  {
  }

  lemma {:induction false} MatchAtEnd(x: string, pat: string)
    requires pat != "" && |pat| <= |x| && Find(x, pat) == Some(|x| - |pat|)
    ensures End(x) == End(pat) && Split(x[|x|..], pat) == [""]
  {
    FindSpec(x, pat);
    EndOfMatch(x, pat);
    NothingLeft(x, pat);
  }

  lemma {:induction false} EndOfMatch(x: string, pat: string)
    requires pat != "" && |pat| <= |x| && OccursAt(x, pat, |x| - |pat|)
    ensures End(x) == End(pat)
  {
    assert x[|x| - |pat|..|x|][|pat| - 1] == End(x);
  }

  lemma {:induction false} NothingLeft(x: string, pat: string)
    requires pat != ""
    ensures Split(x[|x|..], pat) == [""]
  {
    assert x[|x|..] == "";
  }

  lemma {:induction false} JoinEnds(parts: seq<string>, sep: string)
    requires |parts| > 1 && sep != ""
    ensures var r, l := Join(parts, sep), End(parts);
            r != "" && End(r) == if l == "" then End(sep) else End(l)
  {
    if |parts| > 2 {
      JoinEnds(parts[1..], sep);
    }
  }

  /** A string keeps its last character if the replacement ends in the same one. */
  lemma {:induction false} ReplaceKeepsEnd(x: string, pat: string, with: string)
    requires x != "" && pat != "" && with != "" && End(with) == End(x)
    ensures Replace(x, pat, with) != "" && End(Replace(x, pat, with)) == End(x)
  {
    LastPartEnds(x, pat);
    if |Split(x, pat)| > 1 {
      JoinEnds(Split(x, pat), with);
    }
  }

  lemma {:induction false} SplitGlueChar(x: string, y: string, c: char)
    ensures Split(x + y, [c]) == Glue(Split(x, [c]), Split(y, [c]))
  {
    SplitGlue(x, y, [c]);
  }

  /** Splitting undoes joining when no part contains the separator character. */
  lemma {:induction false} SplitJoin(parts: seq<string>, c: char)
    requires parts != [] && forall p <- parts :: c !in p
    ensures Split(Join(parts, [c]), [c]) == parts
  {
    if |parts| == 1 {
      CharAbsent(parts[0], c);
      NotFound(parts[0], [c]);
    } else {
      SplitJoin(parts[1..], c);
      SplitJoinStep(parts[0], parts[1..], c);
      assert parts == [parts[0]] + parts[1..];
    }
  }

  lemma {:induction false} SplitJoinStep(head: string, more: seq<string>, c: char)
    requires more != [] && c !in head && Split(Join(more, [c]), [c]) == more
    ensures Split(Join([head] + more, [c]), [c]) == [head] + more
  {
    JoinCons(head, more, [c]);
    SplitAtChar(head, c, Join(more, [c]));
  }

  lemma {:induction false} JoinCons(head: string, more: seq<string>, sep: string)
    requires more != []
    ensures Join([head] + more, sep) == head + sep + Join(more, sep)
  {
    assert ([head] + more)[1..] == more;
  }

  lemma {:induction false} CharAbsent(s: string, c: char)
    requires c !in s
    ensures !Occurs(s, [c])
  {
    forall i: nat ensures !OccursAt(s, [c], i) {
      if i + 1 <= |s| {
        assert s[i..i + 1] == [s[i]];
      }
    }
  }

  lemma {:induction false} SplitAtChar(x: string, c: char, rest: string)
    requires c !in x
    ensures Split(x + [c] + rest, [c]) == [x] + Split(rest, [c])
  {
    var s := x + [c] + rest;
    assert s[|x|..|x| + 1] == [c];
    forall j: nat | j < |x| ensures !OccursAt(s, [c], j) {
      assert s[j..j + 1] == [x[j]];
    }
    FoundAt(s, [c], |x|);
    assert s[..|x|] == x;
    assert s[|x| + 1..] == rest;
  }

  // --- characters ---

  predicate Ascii(s: string) {
    forall i :: 0 <= i < |s| ==> s[i] < 128 as char
  }

  function LowerChar(c: char): char {
    if 'A' <= c <= 'Z' then c + 32 as char else c
  }

  function Lower(s: string): (r: string)
    ensures |r| == |s| && forall i :: 0 <= i < |s| ==> r[i] == LowerChar(s[i])
  {
    seq(|s|, i requires 0 <= i < |s| => LowerChar(s[i]))
  }

  lemma {:induction false} LowerConcat(x: string, y: string)
    ensures Lower(x + y) == Lower(x) + Lower(y)
  {
  }

  /** `s` is `low` with some of its letters in upper case. */
  predicate CaseVariant(s: string, low: string) {
    && |s| == |low|
    && forall i :: 0 <= i < |s| ==>
         s[i] == low[i] || ('a' <= low[i] <= 'z' && s[i] as int + 32 == low[i] as int)
  }

  /** Lower-casing makes exactly the case variants of a text without capitals equal to it. */
  lemma {:induction false} LowerIsCaseless(s: string, low: string)
    requires forall i :: 0 <= i < |low| ==> !('A' <= low[i] <= 'Z')
    ensures Lower(s) == low <==> CaseVariant(s, low)
  {
    if |s| == |low| {
      forall i | 0 <= i < |s|
        ensures LowerChar(s[i]) == low[i]
           <==> s[i] == low[i] || ('a' <= low[i] <= 'z' && s[i] as int + 32 == low[i] as int)
      {
      }
    }
    if CaseVariant(s, low) {
      assert Lower(s) == low;
    }
  }

  function Reverse(s: string): (r: string)
    ensures |r| == |s| && forall i :: 0 <= i < |s| ==> r[i] == s[|s| - 1 - i]
  {
    seq(|s|, i requires 0 <= i < |s| => s[|s| - 1 - i])
  }

  /** ASCII white space. */
  predicate Blank(c: char) {
    c == ' ' || '\t' <= c <= '\r'
  }

  function TrimStart(s: string): (r: string)
    ensures s != "" && !Blank(s[0]) ==> r == s
    ensures forall c <- s :: !Blank(c) ==> c in r
  {
    if s != "" && Blank(s[0]) then TrimStart(s[1..]) else s
  }

  function TrimEnd(s: string): (r: string)
    ensures s != "" && !Blank(End(s)) ==> r == s
    ensures s != "" && !Blank(s[0]) ==> r != "" && r[0] == s[0]
    ensures forall c <- s :: !Blank(c) ==> c in r
  {
    if s != "" && Blank(End(s)) then TrimEnd(Front(s)) else s
  }

  function Trim(s: string): (r: string)
    ensures forall c <- s :: !Blank(c) ==> c in r
  {
    TrimEnd(TrimStart(s))
  }

  /** Text that ends visibly shields what follows it from trimming at the start. */
  lemma {:induction false} TrimStartConcat(a: string, y: string)
    requires a != "" && !Blank(End(a))
    ensures var c := TrimStart(a);
            c != "" && !Blank(c[0]) && End(c) == End(a) && TrimStart(a + y) == c + y
  {
    if Blank(a[0]) {
      assert (a + y)[1..] == a[1..] + y;
      TrimStartConcat(a[1..], y);
    }
  }

  lemma {:induction false} TrimBlanks(s: string, blanks: string)
    requires s != "" && !Blank(s[0]) && !Blank(End(s))
    requires forall c <- blanks :: Blank(c)
    ensures Trim(s + blanks) == s
  {
    if blanks == "" {
      assert s + blanks == s;
    } else {
      var t := s + blanks;
      assert Front(t) == s + Front(blanks);
      assert End(t) == End(blanks);
      TrimBlanks(s, Front(blanks));
    }
  }

  lemma {:induction false} TrimBlankEnds(before: string, s: string, after: string)
    requires s != "" && !Blank(s[0]) && !Blank(End(s))
    requires (forall c <- before :: Blank(c)) && forall c <- after :: Blank(c)
    ensures Trim(before + s + after) == s
  {
    if before == "" {
      assert before + s + after == s + after;
      TrimBlanks(s, after);
    } else {
      var t := before + s + after;
      assert t[1..] == before[1..] + s + after && t[0] == before[0];
      TrimBlankEnds(before[1..], s, after);
    }
  }

  /** Trimming takes white space - space, tab, line feed, vertical tab, form feed and carriage
      return - from both ends and nothing else. */
  lemma {:induction false} TrimBoth(before: string, s: string, after: string)
    requires s != "" && s[0] as int !in {32, 9, 10, 11, 12, 13} && End(s) as int !in {32, 9, 10, 11, 12, 13}
    requires forall i :: 0 <= i < |before| ==> before[i] as int in {32, 9, 10, 11, 12, 13}
    requires forall i :: 0 <= i < |after| ==> after[i] as int in {32, 9, 10, 11, 12, 13}
    ensures Trim(before + s + after) == s
  {
    TrimBlankEnds(before, s, after);
  }

  predicate EndsWith(s: string, tail: string) {
    |tail| <= |s| && s[|s| - |tail|..] == tail
  }

  predicate StartsWith(s: string, head: string) {
    |head| <= |s| && s[..|head|] == head
  }
}
