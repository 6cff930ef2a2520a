/** UTF-8 as `str.encode('utf-8')` produces it, with a decoder that shows no two texts share their bytes. */
module Utf8 {

  type Byte = b: int | 0 <= b < 256

  function EncodeChar(c: char): (r: seq<Byte>)
    ensures 1 <= |r| <= 4
  {
    var n := c as int;
    if n < 0x80 then [n]
    else if n < 0x800 then [0xC0 + n / 0x40, 0x80 + n % 0x40]
    else if n < 0x10000 then [0xE0 + n / 0x1000, 0x80 + n / 0x40 % 0x40, 0x80 + n % 0x40]
    else [0xF0 + n / 0x40000, 0x80 + n / 0x1000 % 0x40, 0x80 + n / 0x40 % 0x40, 0x80 + n % 0x40]
  }

  /** The byte ranges and values of RFC 3629 section 3. */
  lemma BytesOfChar(c: char)
    ensures var b, n := EncodeChar(c), c as int;
            && (|b| == 1 <==> n < 0x80) && (|b| <= 2 <==> n < 0x800) && (|b| <= 3 <==> n < 0x10000)
            && (|b| == 1 ==> b[0] == n)
            && (|b| == 2 ==> 0xC0 <= b[0] < 0xE0 && n == (At(b, 0) - 0xC0) * 0x40 + (At(b, 1) - 0x80))
            && (|b| == 3 ==>
                  && 0xE0 <= b[0] < 0xF0
                  && n == (At(b, 0) - 0xE0) * 0x1000 + (At(b, 1) - 0x80) * 0x40 + (At(b, 2) - 0x80))
            && (|b| == 4 ==>
                  && 0xF0 <= b[0] < 0xF8
                  && n == (At(b, 0) - 0xF0) * 0x40000 + (At(b, 1) - 0x80) * 0x1000
                          + (At(b, 2) - 0x80) * 0x40 + (At(b, 3) - 0x80))
            && forall i :: 0 < i < |b| ==> 0x80 <= b[i] < 0xC0
  {
    var n := c as int;
    assert n / 0x40 == n / 0x1000 * 0x40 + n / 0x40 % 0x40;
    assert n / 0x1000 == n / 0x40000 * 0x40 + n / 0x1000 % 0x40;
    assert n == n / 0x40 * 0x40 + n % 0x40;
  }

  function Encode(s: string): seq<Byte> {
    if s == [] then [] else EncodeChar(s[0]) + Encode(s[1..])
  }

  lemma {:induction false} EncodeConcat(a: string, b: string)
    ensures Encode(a + b) == Encode(a) + Encode(b)
  {
    if a == [] {
      assert a + b == b;
    } else {
      EncodeConcat(a[1..], b);
      assert (a + b)[0] == a[0] && (a + b)[1..] == a[1..] + b;
    }
  }

  lemma {:induction false} EncodeAscii(s: string)
    requires forall i :: 0 <= i < |s| ==> s[i] as int < 0x80
    ensures |Encode(s)| == |s| && forall i :: 0 <= i < |s| ==> Encode(s)[i] == s[i] as int
  {
    if s != [] {
      EncodeAscii(s[1..]);
    }
  }

  lemma EncodeOne(c: char)
    ensures Encode([c]) == EncodeChar(c)
  {
  }

  /** The code point that starts a byte string, and how many bytes it takes. */
  function DecodeFirst(b: seq<Byte>): (int, nat) {
    if |b| >= 1 && b[0] < 0x80 then (b[0], 1)
    else if |b| >= 2 && b[0] < 0xE0 then (At(b, 0) * 0x40 + At(b, 1) - 0x3080, 2)
    else if |b| >= 3 && b[0] < 0xF0 then (At(b, 0) * 0x1000 + At(b, 1) * 0x40 + At(b, 2) - 0xE2080, 3)
    else if |b| >= 4 then (At(b, 0) * 0x40000 + At(b, 1) * 0x1000 + At(b, 2) * 0x40 + At(b, 3) - 0x3C82080, 4)
    else (0, 0)
  }

  function At(b: seq<Byte>, i: nat): int
    requires i < |b|
  {
    b[i]
  }

  lemma DecodeFirstEncodes(c: char, rest: seq<Byte>)
    ensures DecodeFirst(EncodeChar(c) + rest) == (c as int, |EncodeChar(c)|)
  {
    var n := c as int;
    assert n / 0x40 == n / 0x1000 * 0x40 + n / 0x40 % 0x40;
    assert n / 0x1000 == n / 0x40000 * 0x40 + n / 0x1000 % 0x40;
    assert n == n / 0x40 * 0x40 + n % 0x40;
  }

  lemma {:induction false} EncodeInjective(a: string, b: string)
    requires Encode(a) == Encode(b)
    ensures a == b
  {
    if a != [] && b != [] {
      DecodeFirstEncodes(a[0], Encode(a[1..]));
      DecodeFirstEncodes(b[0], Encode(b[1..]));
      assert Encode(a)[|EncodeChar(a[0])|..] == Encode(a[1..]);
      assert Encode(b)[|EncodeChar(b[0])|..] == Encode(b[1..]);
      EncodeInjective(a[1..], b[1..]);
    }
  }
}
