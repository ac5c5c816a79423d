/** The server settings a file name can carry: src/naming.rs prints them, src/custom_server.rs
    parses them back, either from a reversed base64url token or from `key=value` parts. */
module CustomServers {
  import opened Options
  import opened Octets
  import opened Text
  import opened Base64Url

  datatype CustomServer = CustomServer(key: string, host: string, api: string, relay: string)

  predicate AsciiServer(s: CustomServer) {
    Ascii(s.key) && Ascii(s.host) && Ascii(s.api) && Ascii(s.relay)
  }

  // --- printing ---

  function HexDigit(n: int): (c: char)
    requires 0 <= n < 16
    ensures c < 128 as char
  {
    if n < 10 then (48 + n) as char else (87 + n) as char
  }

  /** How serde_json writes one ASCII character inside a string. */
  function EscapeChar(c: char): (r: string)
    requires c < 128 as char
    ensures Ascii(r)
  {
    if c == '\"' then "\\\""
    else if c == '\\' then "\\\\"
    else if c == 8 as char then "\\b"
    else if c == '\t' then "\\t"
    else if c == '\n' then "\\n"
    else if c == 12 as char then "\\f"
    else if c == '\r' then "\\r"
    else if c < ' ' then "\\u00" + [HexDigit(c as int / 16), HexDigit(c as int % 16)]
    else [c]
  }

  function Escape(s: string): (r: string)
    requires Ascii(s)
    ensures Ascii(r)
  {
    if s == "" then "" else EscapeChar(s[0]) + Escape(s[1..])
  }

  function Member(name: string, value: string): (r: string)
    requires Ascii(name) && Ascii(value)
    ensures Ascii(r) && |r| >= 5 && r[0] == '\"'
  {
    "\"" + name + "\":\"" + Escape(value) + "\""
  }

  function Comma(x: string, y: string): (r: string)
    requires Ascii(x) && Ascii(y) && |x| >= 5
    ensures Ascii(r) && |r| >= 5 && r[0] == x[0]
  {
    x + "," + y
  }

  function Members(s: CustomServer): (r: string)
    requires AsciiServer(s)
    ensures Ascii(r) && |r| >= 5 && r[0] == '\"'
  {
    Comma(Comma(Comma(Member("key", s.key), Member("host", s.host)), Member("api", s.api)),
          Member("relay", s.relay))
  }

  function JsonText(s: CustomServer): (t: string)
    requires AsciiServer(s)
    ensures Ascii(t) && 7 <= |t| && t[0] == '{' && t[1] == '\"' && End(t) == '}'
  {
    "{" + Members(s) + "}"
  }

  function CodeUnits(t: string): (b: seq<Byte>)
    requires Ascii(t)
    ensures |b| == |t|
    ensures forall k :: 0 <= k < |b| ==> b[k] < 128 && b[k] == t[k] as int
  {
    seq(|t|, i requires 0 <= i < |t| => t[i] as int)
  }

  function ToJson(s: CustomServer): (b: seq<Byte>)
    requires AsciiServer(s)
    ensures 7 <= |b| && b[0] == 123 && b[1] == 34 && b[|b| - 1] == '}' as int
    ensures forall k :: 0 <= k < |b| ==> b[k] < 128
  {
    CodeUnits(JsonText(s))
  }

  /** `gen_name`. */
  function GenName(s: CustomServer): string
    requires AsciiServer(s)
  {
    Reverse(Encode(ToJson(s)))
  }

  // --- parsing ---

  /** What the parser takes from serde_json and from the signature check. */
  datatype Library = Library(
    fromJson: seq<Byte> -> Option<CustomServer>,
    verify: seq<Byte> -> Option<seq<Byte>>
  ) {
    /** serde_json reads back what it wrote and rejects anything but white space after it. */
    ghost predicate ReadsJson() {
      && (forall s {:trigger ToJson(s)} | AsciiServer(s) :: fromJson(ToJson(s)) == Some(s))
      && (forall s, rest: seq<Byte> {:trigger ToJson(s) + rest} |
            AsciiServer(s) && rest != [] && rest[0] !in {9, 10, 13, 32} ::
            fromJson(ToJson(s) + rest) == None)
    }
  }

  /** What a vendor-signed string carries, if `data` is one. */
  function FromSigned(lib: Library, data: seq<Byte>): Option<CustomServer> {
    match lib.verify(data)
    case None => None
    case Some(signed) => lib.fromJson(signed)
  }

  /** `get_custom_server_from_config_string`. */
  function FromConfigString(lib: Library, s: string): Option<CustomServer> {
    match Decode(Reverse(s))
    case None => None
    case Some(data) =>
      match lib.fromJson(data)
      case Some(server) => Some(server)
      case None => FromSigned(lib, data)
  }

  function StripExe(s: string): (r: string)
    ensures r <= s
  {
    if EndsWith(Lower(s), ".exe.exe") then s[..|s| - 8]
    else if EndsWith(Lower(s), ".exe") then s[..|s| - 4]
    else s
  }

  /** Exactly the longest of the two endings, in any case, is removed. */
  lemma {:induction false} EndingRemoved(s: string)
    ensures var r := StripExe(s);
            var ending := s[|r|..];
            && s == r + ending && Lower(ending) in ["", ".exe", ".exe.exe"]
            && forall e :: e in ["", ".exe", ".exe.exe"] && EndsWith(Lower(s), e) ==> |e| <= |ending|
  {
    var r := StripExe(s);
    assert Lower(s)[|r|..] == Lower(s[|r|..]);
    if EndsWith(Lower(s), ".exe.exe") {
      assert Lower(s[|r|..]) == ".exe.exe";
    } else if EndsWith(Lower(s), ".exe") {
      assert Lower(s[|r|..]) == ".exe";
    } else {
      assert Lower(s[|r|..]) == "";
    }
  }

  const LICENSED := "-licensed-"

  function Relicense(s: string): string {
    Replace(Replace(Replace(s, LICENSED + "--", "--"), LICENSED + "-", "--"), LICENSED, "--")
  }

  function Tokens(s: string): (ts: seq<string>)
    ensures ts != []
  {
    Split(Relicense(s), "--")
  }

  function FirstPiece(lib: Library, pieces: seq<string>): Option<CustomServer> {
    if pieces == [] then None
    else
      match FromConfigString(lib, Trim(pieces[0]))
      case Some(server) => Some(server)
      case None => FirstPiece(lib, pieces[1..])
  }

  function TryToken(lib: Library, t: string): Option<CustomServer> {
    match FromConfigString(lib, Trim(t))
    case Some(server) => Some(server)
    case None => if '(' in t then FirstPiece(lib, Split(t, "(")) else None
  }

  function FirstToken(lib: Library, ts: seq<string>): Option<CustomServer> {
    if ts == [] then None
    else
      match TryToken(lib, ts[0])
      case Some(server) => Some(server)
      case None => FirstToken(lib, ts[1..])
  }

  /** The value of the last part that starts with `key` in any case, or nothing. */
  function LastValue(parts: seq<string>, key: string): string {
    if parts == [] then ""
    else
      var p := End(parts);
      if StartsWith(Lower(p), key) then p[|key|..] else LastValue(Front(parts), key)
  }

  function FromParts(parts: seq<string>): CustomServer {
    CustomServer(LastValue(parts, "key="), LastValue(parts, "host="),
                 LastValue(parts, "api="), LastValue(parts, "relay="))
  }

  /** `get_custom_server_from_string`; `None` is its error. */
  function ParseName(lib: Library, name: string): Option<CustomServer> {
    var s := StripExe(name);
    match Find(Lower(s), "host=")
    case Some(i) => Some(FromParts(Split(s[i..], ",")))
    case None => FirstToken(lib, Tokens(s))
  }

  /** The parser in its own form: a loop over the comma-separated parts that overwrites the
      four settings, or nested loops over tokens and their pieces with early return. */
  method GetCustomServer(lib: Library, name: string) returns (r: Option<CustomServer>)
    ensures r == ParseName(lib, name)
  {
    var s := StripExe(name);
    var at := Find(Lower(s), "host=");
    if at.Some? {
      var server := ReadParts(Split(s[at.value..], ","));
      return Some(server);
    }
    var tokens := Tokens(s);
    for i := 0 to |tokens|
      invariant FirstToken(lib, tokens) == FirstToken(lib, tokens[i..])
    {
      var t := tokens[i];
      assert tokens[i..][1..] == tokens[i + 1..];
      r := FromConfigString(lib, Trim(t));
      if r.Some? {
        return;
      } else if '(' in t {
        r := ReadPieces(lib, Split(t, "("));
        if r.Some? {
          return;
        }
      }
    }
    assert tokens[|tokens|..] == [];
    r := None;
  }

  method ReadPieces(lib: Library, pieces: seq<string>) returns (r: Option<CustomServer>)
    ensures r == FirstPiece(lib, pieces)
  {
    for i := 0 to |pieces|
      invariant FirstPiece(lib, pieces) == FirstPiece(lib, pieces[i..])
    {
      assert pieces[i..][1..] == pieces[i + 1..];
      r := FromConfigString(lib, Trim(pieces[i]));
      if r.Some? {
        return;
      }
    }
    assert pieces[|pieces|..] == [];
    r := None;
  }

  method ReadParts(parts: seq<string>) returns (r: CustomServer)
    ensures r == FromParts(parts)
  {
    var host, key, api, relay := "", "", "", "";
    for i := 0 to |parts|
      invariant CustomServer(key, host, api, relay) == FromParts(parts[..i])
    {
      var p := parts[i];
      var lower := Lower(p);
      assert Front(parts[..i + 1]) == parts[..i];
      assert End(parts[..i + 1]) == p;
      if StartsWith(lower, "host=") {
        host := p[5..];
      }
      if StartsWith(lower, "key=") {
        key := p[4..];
      }
      if StartsWith(lower, "api=") {
        api := p[4..];
      }
      if StartsWith(lower, "relay=") {
        relay := p[6..];
      }
    }
    assert parts[..|parts|] == parts;
    r := CustomServer(key, host, api, relay);
  }
}
