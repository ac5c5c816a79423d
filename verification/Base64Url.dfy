/** base64 with the URL-safe alphabet and no padding (section 5 of RFC 4648, padding left
    out as in section 3.2), as the `URL_SAFE_NO_PAD` engine reads and writes it: a stray
    character, a lone trailing character and non-zero trailing bits are all rejected. */
module Base64Url {
  import opened Options
  import opened Octets

  type Sextet = x: int | 0 <= x < 64

  const DASH: Sextet := 62

  function ToChar(v: Sextet): (c: char)
    ensures FromChar(c) == Some(v)
    ensures c == '-' <==> v == DASH
  {
    if v < 26 then (65 + v) as char
    else if v < 52 then (71 + v) as char
    else if v < 62 then (v - 4) as char
    else if v == DASH then '-'
    else '_'
  }

  function FromChar(c: char): (r: Option<Sextet>) {
    var n := c as int;
    if 'A' <= c <= 'Z' then Some(n - 65)
    else if 'a' <= c <= 'z' then Some(n - 71)
    else if '0' <= c <= '9' then Some(n + 4)
    else if c == '-' then Some(DASH)
    else if c == '_' then Some(63)
    else None
  }

  /** The four values of three bytes. */
  function Quad(b0: Byte, b1: Byte, b2: Byte): (v: seq<Sextet>)
    ensures |v| == 4
  {
    [b0 / 4, b0 % 4 * 16 + b1 / 16, b1 % 16 * 4 + b2 / 64, b2 % 64]
  }

  function Sextets(b: seq<Byte>): (v: seq<Sextet>)
    ensures |v| == (|b| * 4 + 2) / 3
  {
    if |b| == 0 then []
    else if |b| == 1 then Quad(b[0], 0, 0)[..2]
    else if |b| == 2 then Quad(b[0], b[1], 0)[..3]
    else Quad(b[0], b[1], b[2]) + Sextets(b[3..])
  }

  function Bytes(v: seq<Sextet>): Option<seq<Byte>> {
    if |v| == 0 then Some([])
    else if |v| == 1 then None
    else if |v| == 2 then
      if v[1] % 16 == 0 then Some(Group(v[0], v[1], 0, 0)[..1]) else None
    else if |v| == 3 then
      if v[2] % 4 == 0 then Some(Group(v[0], v[1], v[2], 0)[..2]) else None
    else
      match Bytes(v[4..])
      case None => None
      case Some(rest) => Some(Group(v[0], v[1], v[2], v[3]) + rest)
  }

  function Group(v0: Sextet, v1: Sextet, v2: Sextet, v3: Sextet): (b: seq<Byte>)
    ensures |b| == 3
  {
    [v0 * 4 + v1 / 16, v1 % 16 * 16 + v2 / 4, v2 % 4 * 64 + v3]
  }

  function Chars(v: seq<Sextet>): (s: string)
    ensures |s| == |v| && forall i :: 0 <= i < |v| ==> s[i] == ToChar(v[i])
  {
    seq(|v|, i requires 0 <= i < |v| => ToChar(v[i]))
  }

  function Values(s: string): (v: Option<seq<Sextet>>)
    ensures v.Some? <==> forall c <- s :: FromChar(c).Some?
    ensures v.Some? ==> |v.value| == |s| && forall i :: 0 <= i < |s| ==> FromChar(s[i]) == Some(v.value[i])
  {
    if s == "" then Some([])
    else
      match (FromChar(s[0]), Values(s[1..]))
      case (Some(x), Some(rest)) => Some([x] + rest)
      case _ => None
  }

  function Encode(b: seq<Byte>): string {
    Chars(Sextets(b))
  }

  function Decode(s: string): Option<seq<Byte>> {
    match Values(s)
    case None => None
    case Some(v) => Bytes(v)
  }

  lemma ValuesOfChars(v: seq<Sextet>)
    ensures Values(Chars(v)) == Some(v)
  {
    var s := Chars(v);
    assert forall c <- s :: FromChar(c).Some?;
    assert Values(s).value == v;
  }

  lemma HighLow(high: nat, low: nat, base: nat)
    requires base in {4, 16, 64} && low < base
    ensures (high * base + low) / base == high && (high * base + low) % base == low
  {
  }

  lemma QuadGroup(b0: Byte, b1: Byte, b2: Byte)
    ensures var q := Quad(b0, b1, b2);
            && Group(q[0], q[1], q[2], q[3]) == [b0, b1, b2]
            && (b2 == 0 ==> q[2] % 4 == 0 && q[3] == 0)
            && (b1 == 0 && b2 == 0 ==> q[1] % 16 == 0 && q[2] == 0)
  {
    var q := Quad(b0, b1, b2);
    HighLow(b0 % 4, b1 / 16, 16);
    HighLow(b1 % 16, b2 / 64, 4);
    assert q[1] / 16 == b0 % 4 && q[1] % 16 == b1 / 16;
    assert q[2] / 4 == b1 % 16 && q[2] % 4 == b2 / 64;
  }

  lemma {:induction false} BytesOfSextets(b: seq<Byte>)
    ensures Bytes(Sextets(b)) == Some(b)
  {
    if |b| >= 3 {
      BytesOfSextets(b[3..]);
      BytesOfQuad(b, Sextets(b[3..]));
      assert b == [b[0], b[1], b[2]] + b[3..];
    } else if |b| == 2 {
      QuadGroup(b[0], b[1], 0);
      assert [b[0], b[1], 0][..2] == b;
    } else if |b| == 1 {
      QuadGroup(b[0], 0, 0);
      assert [b[0], 0, 0][..1] == b;
    }
  }

  /** Decoding three bytes' values and more gives the three bytes and the rest. */
  lemma {:induction false} BytesOfQuad(b: seq<Byte>, more: seq<Sextet>)
    requires |b| >= 3
    ensures var r := Bytes(more);
            Bytes(Quad(b[0], b[1], b[2]) + more)
            == if r.Some? then Some([b[0], b[1], b[2]] + r.value) else None
  {
    var q := Quad(b[0], b[1], b[2]);
    var v := q + more;
    QuadGroup(b[0], b[1], b[2]);
    assert v[4..] == more;
  }

  /** Decoding inverts encoding, for every byte string. */
  lemma DecodeEncode(b: seq<Byte>)
    ensures Decode(Encode(b)) == Some(b)
  {
    ValuesOfChars(Sextets(b));
    BytesOfSextets(b);
  }

  // --- the alphabet, the bits and strictness ---

  const UPPER := "ABCDEFGHIJKLMNOPQRSTUVWXYZ"
  const LOWER := "abcdefghijklmnopqrstuvwxyz"
  const DIGITS := "0123456789"
  const ALPHABET := UPPER + LOWER + DIGITS + "-_"

  /** Table 2 of RFC 4648. */
  lemma {:induction false} AlphabetOf(v: Sextet)
    ensures |ALPHABET| == 64 && ToChar(v) == ALPHABET[v]
  {
    if v < 26 {
      UpperAt(v);
    } else if v < 52 {
      LowerAt(v - 26);
    } else if v < 62 {
      DigitAt(v - 52);
    }
  }

  lemma UpperAt(k: int)
    requires 0 <= k < 26
    ensures UPPER[k] == (65 + k) as char
  {
  }

  lemma LowerAt(k: int)
    requires 0 <= k < 26
    ensures LOWER[k] == (97 + k) as char
  {
  }

  lemma DigitAt(k: int)
    requires 0 <= k < 10
    ensures DIGITS[k] == (48 + k) as char
  {
  }

  lemma OnlyAlphabet(c: char)
    ensures match FromChar(c) case Some(v) => ToChar(v) == c case None => c !in ALPHABET
  {
    if c in ALPHABET {
      var i :| 0 <= i < |ALPHABET| && ALPHABET[i] == c;
      AlphabetOf(i);
    }
  }

  /** Four values are the 24 bits of three bytes, most significant first. */
  lemma QuadBits(b0: Byte, b1: Byte, b2: Byte)
    ensures var v := Quad(b0, b1, b2);
            v[0] as int * 0x40000 + v[1] as int * 0x1000 + v[2] as int * 0x40 + v[3] as int == b0 as int * 0x10000 + b1 as int * 0x100 + b2 as int
  {
  }

  lemma GroupQuad(v0: Sextet, v1: Sextet, v2: Sextet, v3: Sextet)
    ensures var b := Group(v0, v1, v2, v3); Quad(b[0], b[1], b[2]) == [v0, v1, v2, v3]
  {
    HighLow(v0, v1 / 16, 4);
    HighLow(v1 % 16, v2 / 4, 16);
    HighLow(v2 % 4, v3, 64);
  }

  lemma {:induction false} SextetsOfBytes(v: seq<Sextet>)
    requires Bytes(v).Some?
    ensures Sextets(Bytes(v).value) == v
  {
    if |v| >= 4 {
      var rest := Bytes(v[4..]).value;
      SextetsOfBytes(v[4..]);
      GroupQuad(v[0], v[1], v[2], v[3]);
      var b := Group(v[0], v[1], v[2], v[3]) + rest;
      assert b[3..] == rest;
      assert v == [v[0], v[1], v[2], v[3]] + v[4..];
    } else if |v| == 3 {
      GroupQuad(v[0], v[1], v[2], 0);
      assert Group(v[0], v[1], v[2], 0)[2] == 0;
    } else if |v| == 2 {
      GroupQuad(v[0], v[1], 0, 0);
      assert Group(v[0], v[1], 0, 0)[1] == 0;
    }
  }

  /** The decoder is strict: it accepts nothing but encodings. */
  lemma EncodeDecode(s: string)
    requires Decode(s).Some?
    ensures Encode(Decode(s).value) == s
  {
    var v := Values(s).value;
    SextetsOfBytes(v);
    forall i | 0 <= i < |s| ensures ToChar(v[i]) == s[i] {
      OnlyAlphabet(s[i]);
    }
  }

  // --- ASCII text ---

  /** With bytes below 128 the top bit of each group's bytes is clear, which rules the value
      62 out of the first three positions of every group. */
  lemma {:induction false} DashPositions(b: seq<Byte>, i: nat)
    requires forall k :: 0 <= k < |b| ==> b[k] < 128
    requires i < |Sextets(b)| && Sextets(b)[i] == DASH
    ensures i % 4 == 3
  {
    SextetAt(b, i);
    if |b| >= 3 && i >= 4 {
      DashPositions(b[3..], i - 4);
      GroupFurther(i);
    } else {
      QuadDash(b[0], if |b| > 1 then b[1] else 0, if |b| > 2 then b[2] else 0, i);
    }
  }

  lemma GroupFurther(i: nat)
    requires 4 <= i && (i - 4) % 4 == 3
    ensures i % 4 == 3
  {
  }

  /** A value belongs to the first group or to the rest. */
  lemma {:induction false} SextetAt(b: seq<Byte>, i: nat)
    requires i < |Sextets(b)|
    ensures if |b| >= 3 && i >= 4 then i - 4 < |Sextets(b[3..])| && Sextets(b)[i] == Sextets(b[3..])[i - 4]
            else
              && b != [] && i < 4
              && Sextets(b)[i] == Quad(b[0], if |b| > 1 then b[1] else 0, if |b| > 2 then b[2] else 0)[i]
  {
  }

  lemma QuadDash(b0: Byte, b1: Byte, b2: Byte, i: nat)
    requires b0 < 128 && b1 < 128 && b2 < 128 && i < 4
    requires Quad(b0, b1, b2)[i] == DASH
    ensures i == 3
  {
    assert b0 / 4 < 32 && b1 / 16 < 8 && b2 / 64 < 2;
  }

  /** The last value of a text that ends in a closing brace: one of three, by length. */
  lemma {:induction false} LastSextet(b: seq<Byte>)
    requires b != [] && b[|b| - 1] == '}' as int
    ensures var v := Sextets(b); v[|v| - 1] in {61, 16, 52}
  {
    if |b| > 3 {
      LastSextet(b[3..]);
    }
  }

  /** Values appended to an encoding, a dash first, either fail to decode or decode to the
      encoded bytes followed by at least one byte that is not white space. */
  lemma {:induction false} BytesOfExtended(b: seq<Byte>, more: seq<Sextet>)
    requires more != [] && more[0] == DASH
    ensures match Bytes(Sextets(b) + more)
            case None => true
            case Some(d) => |b| < |d| && d[..|b|] == b && (d[|b|] == 15 || 62 <= d[|b|])
    decreases |b|
  {
    if |b| >= 3 {
      BytesOfExtended(b[3..], more);
      BytesOfQuad(b, Sextets(b[3..]) + more);
      assert Sextets(b) + more == Quad(b[0], b[1], b[2]) + (Sextets(b[3..]) + more);
      assert b == [b[0], b[1], b[2]] + b[3..];
    } else if |b| == 0 {
      assert Sextets(b) + more == more;
    } else {
      ShortExtended(b, more);
    }
  }

  lemma {:induction false} ShortExtended(b: seq<Byte>, more: seq<Sextet>)
    requires more != [] && more[0] == DASH && (|b| == 1 || |b| == 2)
    ensures match Bytes(Sextets(b) + more)
            case None => true
            case Some(d) => |b| < |d| && d[..|b|] == b && (d[|b|] == 15 || 62 <= d[|b|])
  {
    var v, q := Sextets(b) + more, Quad(b[0], if |b| == 2 then b[1] else 0, 0);
    QuadGroup(b[0], if |b| == 2 then b[1] else 0, 0);
    assert v[0] == q[0] && v[1] == q[1] && v[|b| + 1] == DASH;
    assert |b| == 2 ==> v[2] == q[2];
    if |v| >= 4 {
      var g := Group(v[0], v[1], v[2], v[3]);
      assert g[..|b|] == b && (g[|b|] == 15 || g[|b|] == 62);
      match Bytes(v[4..])
      case None =>
      case Some(rest) => assert (g + rest)[..|b|] == g[..|b|];
    }
  }
}
