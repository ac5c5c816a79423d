/** The JSON text of a server can be read back: no two servers print the same text, and none
    prints the start of another's. So a reader as the parser's library is taken to have exists. */
module JsonReading {
  import opened Options
  import opened Octets
  import opened Text
  import opened CustomServers

  lemma {:induction false} EscapeCharFirst(c: char)
    requires c < 128 as char
    ensures EscapeChar(c) != "" && EscapeChar(c)[0] != '\"'
    ensures EscapeChar(c)[0] == '\\' || EscapeChar(c) == [c]
  {
  }

  /** The character is told by its escape's first, second and last two characters. */
  lemma {:induction false} EscapeCharTold(c: char)
    requires c < 128 as char && EscapeChar(c)[0] == '\\'
    ensures var e := EscapeChar(c);
            && (e[1] == '\"' ==> c == '\"') && (e[1] == '\\' ==> c == '\\')
            && (e[1] == 'b' ==> c == 8 as char) && (e[1] == 't' ==> c == '\t')
            && (e[1] == 'n' ==> c == '\n') && (e[1] == 'f' ==> c == 12 as char) && (e[1] == 'r' ==> c == '\r')
            && e[1] in {'\"', '\\', 'b', 't', 'n', 'f', 'r', 'u'}
            && |e| == (if e[1] == 'u' then 6 else 2)
            && (e[1] == 'u' ==> c < ' ' && e[4..] == [HexDigit(c as int / 16), HexDigit(c as int % 16)])
  {
  }

  lemma {:induction false} HexTold(m: int, n: int)
    requires 0 <= m < 32 && 0 <= n < 32
    requires HexDigit(m / 16) == HexDigit(n / 16) && HexDigit(m % 16) == HexDigit(n % 16)
    ensures m == n
  {
  }

  lemma {:induction false} EscapeCharUnique(c: char, d: char, u: string, v: string)
    requires c < 128 as char && d < 128 as char
    requires EscapeChar(c) + u == EscapeChar(d) + v
    ensures c == d && u == v
  {
    var e, f, w := EscapeChar(c), EscapeChar(d), EscapeChar(c) + u;
    EscapeCharFirst(c);
    EscapeCharFirst(d);
    assert e[0] == w[0] == f[0];
    if w[0] == '\\' {
      EscapeCharTold(c);
      EscapeCharTold(d);
      assert e[1] == w[1] == f[1];
      if w[1] == 'u' {
        assert e[4..][0] == w[4] == f[4..][0] && e[4..][1] == w[5] == f[4..][1];
        HexTold(c as int, d as int);
      }
    }
    assert c == d;
    assert u == w[|e|..] == v;
  }

  lemma {:induction false} EscapeStep(x: string, t: string)
    requires Ascii(x) && x != ""
    ensures Escape(x) + t == EscapeChar(x[0]) + (Escape(x[1..]) + t)
    ensures (Escape(x) + t)[0] != '\"'
  {
    EscapeCharFirst(x[0]);
  }

  /** A quotation mark ends an escaped string and occurs nowhere in it. */
  lemma {:induction false} EscapeUnique(x: string, y: string, u: string, v: string)
    requires Ascii(x) && Ascii(y)
    requires Escape(x) + ("\"" + u) == Escape(y) + ("\"" + v)
    ensures x == y && u == v
    decreases |x|
  {
    if x != "" {
      EscapeStep(x, "\"" + u);
    }
    if y != "" {
      EscapeStep(y, "\"" + v);
    }
    if x != "" && y != "" {
      EscapeCharUnique(x[0], y[0], Escape(x[1..]) + ("\"" + u), Escape(y[1..]) + ("\"" + v));
      EscapeUnique(x[1..], y[1..], u, v);
      assert x == [x[0]] + x[1..] && y == [y[0]] + y[1..];
    } else {
      EscapeNothing(u);
      EscapeNothing(v);
      SameTail("\"", u, v);
    }
  }

  lemma {:induction false} EscapeNothing(u: string)
    ensures Escape("") + ("\"" + u) == "\"" + u && (Escape("") + ("\"" + u))[0] == '\"'
  {
  }

  lemma {:induction false} MemberUnique(name: string, x: string, y: string, u: string, v: string)
    requires Ascii(name) && Ascii(x) && Ascii(y)
    requires Member(name, x) + u == Member(name, y) + v
    ensures x == y && u == v
  {
    var head := "\"" + name + "\":\"";
    MemberShape(name, x, u);
    MemberShape(name, y, v);
    SameTail(head, Escape(x) + ("\"" + u), Escape(y) + ("\"" + v));
    EscapeUnique(x, y, u, v);
  }

  lemma {:induction false} MemberShape(name: string, x: string, u: string)
    requires Ascii(name) && Ascii(x)
    ensures Member(name, x) + u == ("\"" + name + "\":\"") + (Escape(x) + ("\"" + u))
  {
    var head := "\"" + name + "\":\"";
    assert Member(name, x) == head + Escape(x) + "\"";
  }

  lemma {:induction false} SameTail(head: string, u: string, v: string)
    requires head + u == head + v
    ensures u == v
  {
    assert (head + u)[|head|..] == u && (head + v)[|head|..] == v;
  }

  /** The text with what follows it, one member at a time. */
  function Unrolled(s: CustomServer, rest: string): string
    requires AsciiServer(s)
  {
    "{" + (Member("key", s.key) + ("," + (Member("host", s.host) + ("," + (Member("api", s.api)
      + ("," + (Member("relay", s.relay) + ("}" + rest))))))))
  }

  lemma {:induction false} TextUnrolled(s: CustomServer, rest: string)
    requires AsciiServer(s)
    ensures JsonText(s) + rest == Unrolled(s, rest)
  {
    var a, b, c, d := Member("key", s.key), Member("host", s.host), Member("api", s.api), Member("relay", s.relay);
    Regrouped(a, b, c, d, rest);
  }

  lemma {:induction false} Regrouped(a: string, b: string, c: string, d: string, rest: string)
    ensures "{" + (a + "," + b + "," + c + "," + d) + "}" + rest
         == "{" + (a + ("," + (b + ("," + (c + ("," + (d + ("}" + rest))))))))
  {
  }

  /** Text that needs no escapes. */
  predicate Literal(x: string) {
    forall i :: 0 <= i < |x| ==> ' ' <= x[i] < 128 as char && x[i] != '\"' && x[i] != '\\'
  }

  lemma {:induction false} LiteralKept(x: string)
    requires Literal(x)
    ensures Ascii(x) && Escape(x) == x
  {
    if x != "" {
      LiteralKept(x[1..]);
      assert x == [x[0]] + x[1..];
    }
  }

  lemma {:induction false} LiteralMember(name: string, head: string, x: string)
    requires Ascii(name) && Literal(x) && head == "\"" + name + "\":\""
    ensures Ascii(x) && Member(name, x) == head + x + "\""
  {
    LiteralKept(x);
  }

  /** The text itself, for a server without characters to escape: the four members in the
      order of their declaration. */
  lemma {:induction false} LiteralText(s: CustomServer)
    requires Literal(s.key) && Literal(s.host) && Literal(s.api) && Literal(s.relay)
    ensures AsciiServer(s)
    ensures JsonText(s) == "{" + ("\"key\":\"" + s.key + "\"") + "," + ("\"host\":\"" + s.host + "\"")
                           + "," + ("\"api\":\"" + s.api + "\"") + "," + ("\"relay\":\"" + s.relay + "\"") + "}"
  {
    LiteralMember("key", "\"key\":\"", s.key);
    LiteralMember("host", "\"host\":\"", s.host);
    LiteralMember("api", "\"api\":\"", s.api);
    LiteralMember("relay", "\"relay\":\"", s.relay);
    Braced(Member("key", s.key), Member("host", s.host), Member("api", s.api), Member("relay", s.relay));
  }

  lemma {:induction false} Braced(a: string, b: string, c: string, d: string)
    ensures "{" + (a + "," + b + "," + c + "," + d) + "}" == "{" + a + "," + b + "," + c + "," + d + "}"
  {
  }

  /** No server's text is another's, or another's start. */
  lemma {:induction false} TextUnique(s: CustomServer, t: CustomServer, u: string, v: string)
    requires AsciiServer(s) && AsciiServer(t)
    requires JsonText(s) + u == JsonText(t) + v
    ensures s == t && u == v
  {
    TextUnrolled(s, u);
    TextUnrolled(t, v);
    UnrolledUnique(s, t, u, v);
  }

  lemma {:induction false} UnrolledUnique(s: CustomServer, t: CustomServer, u: string, v: string)
    requires AsciiServer(s) && AsciiServer(t) && Unrolled(s, u) == Unrolled(t, v)
    ensures s == t && u == v
  {
    var su, tv := Member("relay", s.relay) + ("}" + u), Member("relay", t.relay) + ("}" + v);
    var sa, ta := Member("api", s.api) + ("," + su), Member("api", t.api) + ("," + tv);
    var sh, th := Member("host", s.host) + ("," + sa), Member("host", t.host) + ("," + ta);
    SameTail("{", Member("key", s.key) + ("," + sh), Member("key", t.key) + ("," + th));
    MemberUnique("key", s.key, t.key, "," + sh, "," + th);
    SameTail(",", sh, th);
    MemberUnique("host", s.host, t.host, "," + sa, "," + ta);
    SameTail(",", sa, ta);
    MemberUnique("api", s.api, t.api, "," + su, "," + tv);
    SameTail(",", su, tv);
    MemberUnique("relay", s.relay, t.relay, "}" + u, "}" + v);
    SameTail("}", u, v);
  }

  // --- a reader ---

  lemma {:induction false} CodesUnique(t: string, u: string, rest: seq<Byte>)
    requires Ascii(t) && Ascii(u) && CodeUnits(t) + rest == CodeUnits(u)
    ensures |rest| == |u| - |t| && t + u[|t|..] == u
  {
    var b := CodeUnits(u);
    assert |b| == |t| + |rest|;
    forall i | 0 <= i < |t| ensures t[i] == u[i] {
      assert (CodeUnits(t) + rest)[i] == CodeUnits(t)[i];
      assert t[i] as int == u[i] as int;
    }
    assert t == u[..|t|];
  }

  lemma {:induction false} JsonUnique(s: CustomServer, t: CustomServer, rest: seq<Byte>)
    requires AsciiServer(s) && AsciiServer(t) && ToJson(s) + rest == ToJson(t)
    ensures s == t && rest == []
  {
    TextsUnique(s, t, JsonText(s), JsonText(t), rest);
  }

  lemma {:induction false} TextsUnique(s: CustomServer, t: CustomServer, a: string, b: string, rest: seq<Byte>)
    requires AsciiServer(s) && AsciiServer(t) && a == JsonText(s) && b == JsonText(t)
    requires CodeUnits(a) + rest == CodeUnits(b)
    ensures s == t && rest == []
  {
    CodesUnique(a, b, rest);
    assert b + "" == b;
    TextUnique(s, t, b[|a|..], "");
  }

  /** The server whose text this is, if there is one. */
  ghost function Read(b: seq<Byte>): Option<CustomServer> {
    if exists s :: AsciiServer(s) && ToJson(s) == b then
      var s :| AsciiServer(s) && ToJson(s) == b;
      Some(s)
    else None
  }

  /** What is asked of the JSON library can be met, whatever the signature check accepts. */
  lemma {:induction false} ReaderExists(verify: seq<Byte> -> Option<seq<Byte>>)
    ensures exists fromJson: seq<Byte> -> Option<CustomServer> :: Library(fromJson, verify).ReadsJson()
  {
    var fromJson := b => Read(b);
    var lib := Library(fromJson, verify);
    forall s | AsciiServer(s) ensures lib.fromJson(ToJson(s)) == Some(s) {
      ReadPrinted(s);
    }
    forall s, rest: seq<Byte> | AsciiServer(s) && rest != [] ensures lib.fromJson(ToJson(s) + rest) == None {
      ReadLonger(s, rest);
    }
    assert lib.ReadsJson();
  }

  lemma {:induction false} ReadPrinted(s: CustomServer)
    requires AsciiServer(s)
    ensures Read(ToJson(s)) == Some(s)
  {
    forall t | AsciiServer(t) && ToJson(t) == ToJson(s) ensures t == s {
      PrintedUnique(s, t);
    }
  }

  lemma {:induction false} PrintedUnique(s: CustomServer, t: CustomServer)
    requires AsciiServer(s) && AsciiServer(t) && ToJson(t) == ToJson(s)
    ensures t == s
  {
    assert ToJson(t) + [] == ToJson(t);
    JsonUnique(t, s, []);
  }

  lemma {:induction false} ReadLonger(s: CustomServer, rest: seq<Byte>)
    requires AsciiServer(s) && rest != []
    ensures Read(ToJson(s) + rest) == None
  {
    if t :| AsciiServer(t) && ToJson(t) == ToJson(s) + rest {
      JsonUnique(s, t, rest);
    }
  }
}
