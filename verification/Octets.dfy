/** Bytes, machine words and UTF-8 strings as the program's types carry them. */
module Octets {
  type Byte = x: int | 0 <= x < 256
  type Bytes = seq<Byte>

  const TWO31 := 0x8000_0000
  const TWO32 := 0x1_0000_0000
  const TWO64 := 0x1_0000_0000_0000_0000

  type Usize = x: int | 0 <= x < TWO64
  type Int32 = x: int | -TWO31 <= x < TWO31

  /** The truncating cast `as i32` of a 64-bit `usize`. */
  function ToInt32(w: Usize): Int32 {
    var r := w % TWO32;
    if r < TWO31 then r else r - TWO32
  }

  /** The sign-extending cast back. */
  function ToUsize(i: Int32): Usize {
    if i < 0 then i + TWO64 else i
  }

  predicate FitsInt32(w: Usize) {
    w < TWO31 || TWO64 - TWO31 <= w
  }

  lemma CastRoundTrip(w: Usize)
    ensures ToUsize(ToInt32(w)) == w <==> FitsInt32(w)
  {
  }

  predicate Continues(b: Bytes, from: nat, n: nat) {
    from + n <= |b| && forall i :: from <= i < from + n ==> 0x80 <= b[i] < 0xC0
  }

  /** The length of the well-formed UTF-8 sequence at the start, 0 if there is none
      (section 4 of RFC 3629). */
  function SequenceLength(b: Bytes): (n: nat)
    ensures n <= |b|
  {
    if |b| == 0 then 0
    else if b[0] < 0x80 then 1
    else if 0xC2 <= b[0] < 0xE0 then if Continues(b, 1, 1) then 2 else 0
    else if 0xE0 <= b[0] < 0xF0 then
      if Continues(b, 1, 2) && (b[0] == 0xE0 ==> 0xA0 <= b[1]) && (b[0] == 0xED ==> b[1] < 0xA0) then 3 else 0
    else if 0xF0 <= b[0] < 0xF5 then
      if Continues(b, 1, 3) && (b[0] == 0xF0 ==> 0x90 <= b[1]) && (b[0] == 0xF4 ==> b[1] < 0x90) then 4 else 0
    else 0
  }

  predicate Utf8(b: Bytes) {
    b == [] || (SequenceLength(b) > 0 && Utf8(b[SequenceLength(b)..]))
  }

  /** A Rust `String`. */
  type Str = b: Bytes | Utf8(b)

  /** The UTF-8 bytes of one character (section 3 of RFC 3629). */
  function EncodeChar(c: char): Bytes {
    var n := c as int;
    if n < 0x80 then [n]
    else if n < 0x800 then [0xC0 + n / 64, 0x80 + n % 64]
    else if n < 0x10000 then [0xE0 + n / 4096, 0x80 + n / 64 % 64, 0x80 + n % 64]
    else [0xF0 + n / 262144, 0x80 + n / 4096 % 64, 0x80 + n / 64 % 64, 0x80 + n % 64]
  }

  function EncodeUtf8(s: string): Bytes {
    if s == "" then [] else EncodeChar(s[0]) + EncodeUtf8(s[1..])
  }

  lemma Digits(n: nat, base: nat)
    requires base > 0
    ensures n == n / base * base + n % base && n % base < base
  {
  }

  /** A character's bytes are a whole well-formed sequence, whatever follows. */
  lemma {:induction false} CharIsSequence(c: char, more: Bytes)
    ensures SequenceLength(EncodeChar(c) + more) == |EncodeChar(c)| > 0
  {
    var n := c as int;
    if 0x800 <= n {
      Digits(n, 64);
      Digits(n / 64, 64);
      assert n / 4096 == n / 64 / 64;
      if 0x10000 <= n {
        assert n / 262144 == n / 4096 / 64;
      }
    }
  }

  /** The number that the payload bits of one to four bytes make. */
  function Payload(b: Bytes): int {
    if |b| == 1 then b[0] as int
    else if |b| == 2 then (b[0] as int - 0xC0) * 0x40 + (b[1] as int - 0x80)
    else if |b| == 3 then (b[0] as int - 0xE0) * 0x1000 + (b[1] as int - 0x80) * 0x40 + (b[2] as int - 0x80)
    else if |b| == 4 then
      (b[0] as int - 0xF0) * 0x40000 + (b[1] as int - 0x80) * 0x1000 + (b[2] as int - 0x80) * 0x40 + (b[3] as int - 0x80)
    else -1
  }

  /** It is the character's code, in as few bytes as possible. */
  lemma {:induction false} CharBits(c: char)
    ensures var b, n := EncodeChar(c), c as int;
            && Payload(b) == n
            && |b| == if n < 0x80 then 1 else if n < 0x800 then 2 else if n < 0x10000 then 3 else 4
  {
    var n := c as int;
    Digits(n, 64);
    Digits(n / 64, 64);
    assert n / 4096 == n / 64 / 64;
    Digits(n / 4096, 64);
    assert n / 262144 == n / 4096 / 64;
  }

  /** The bytes of a string are a Rust `String`. */
  lemma {:induction false} EncodedIsUtf8(s: string)
    ensures Utf8(EncodeUtf8(s))
  {
    if s != "" {
      var head, rest := EncodeChar(s[0]), EncodeUtf8(s[1..]);
      CharIsSequence(s[0], rest);
      EncodedIsUtf8(s[1..]);
      assert (head + rest)[|head|..] == rest;
    }
  }
}
