/** Byte strings, and well-formed UTF-8 as the grammar of section 4 of RFC 3629 defines it.
    A Rust `str` is a byte string for which `IsUtf8` holds. */
module Utf8 {
  type Byte = b: int | 0 <= b < 256
  type Bytes = seq<Byte>

  predicate IsTail(b: Byte) {
    0x80 <= b <= 0xBF
  }

  /** How many bytes the well-formed character at the head of `s` takes; 0 when there is none.
      The second byte's range depends on the first one, which is what rules out overlong forms,
      surrogates and everything above U+10FFFF. */
  function CharLength(s: Bytes): (n: nat)
    ensures n <= |s|
  {
    if s == [] then 0
    else if s[0] < 0x80 then 1
    else if |s| < 2 then 0
    else if 0xC2 <= s[0] <= 0xDF then if IsTail(s[1]) then 2 else 0
    else if |s| < 3 || !IsTail(s[2]) then 0
    else if s[0] == 0xE0 then if 0xA0 <= s[1] <= 0xBF then 3 else 0
    else if 0xE1 <= s[0] <= 0xEC || 0xEE <= s[0] <= 0xEF then if IsTail(s[1]) then 3 else 0
    else if s[0] == 0xED then if 0x80 <= s[1] <= 0x9F then 3 else 0
    else if |s| < 4 || !IsTail(s[3]) then 0
    else if s[0] == 0xF0 then if 0x90 <= s[1] <= 0xBF then 4 else 0
    else if 0xF1 <= s[0] <= 0xF3 then if IsTail(s[1]) then 4 else 0
    else if s[0] == 0xF4 then if 0x80 <= s[1] <= 0x8F then 4 else 0
    else 0
  }

  predicate IsUtf8(s: Bytes) {
    s == [] || (CharLength(s) > 0 && IsUtf8(s[CharLength(s)..]))
  }

  /** Two strings joined are a string. */
  lemma {:induction false} Utf8Append(a: Bytes, b: Bytes)
    requires IsUtf8(a) && IsUtf8(b)
    ensures IsUtf8(a + b)
  {
    if a == [] {
      assert a + b == b;
    } else {
      var n := CharLength(a);
      FirstCharStays(a, b);
      assert (a + b)[n..] == a[n..] + b;
      Utf8Append(a[n..], b);
    }
  }

  lemma {:induction false} AsciiIsUtf8(s: Bytes)
    requires forall i :: 0 <= i < |s| ==> s[i] < 0x80
    ensures IsUtf8(s)
  {
    if s != [] {
      AsciiIsUtf8(s[1..]);
    }
  }

  lemma FirstCharStays(a: Bytes, b: Bytes)
    requires CharLength(a) > 0
    ensures CharLength(a + b) == CharLength(a)
  {
    var s := a + b;
    assert s[0] == a[0] && (|a| > 1 ==> s[1] == a[1]) && (|a| > 2 ==> s[2] == a[2]) && (|a| > 3 ==> s[3] == a[3]);
  }

  lemma BehindTheFirst(s: Bytes, i: nat)
    requires 0 < i < |s| && s[i] < 0x80
    ensures CharLength(s) <= i
  {
  }

  lemma SameFirstChar(a: Bytes, b: Bytes)
    requires CharLength(a + b) <= |a|
    ensures CharLength(a) == CharLength(a + b)
  {
    var s := a + b;
    assert |a| > 0 ==> s[0] == a[0];
    assert |a| > 1 ==> s[1] == a[1];
    assert |a| > 2 ==> s[2] == a[2];
    assert |a| > 3 ==> s[3] == a[3];
  }

  /** Cutting a string in front of an ASCII byte leaves a string: no character spans the cut. */
  lemma {:induction false} Utf8CutAtAscii(a: Bytes, b: Bytes)
    requires b != [] && b[0] < 0x80
    requires IsUtf8(a + b)
    ensures IsUtf8(a) && IsUtf8(b)
  {
    if a == [] {
      assert a + b == b;
    } else {
      var s := a + b;
      var n := CharLength(s);
      BehindTheFirst(s, |a|);
      SameFirstChar(a, b);
      assert s[n..] == a[n..] + b;
      Utf8CutAtAscii(a[n..], b);
    }
  }

  // ---------------------------------------------------------------------------
  // The encoding the grammar describes
  // ---------------------------------------------------------------------------

  /** The octets of one character, as section 3 of RFC 3629 lays them out. */
  function EncodeChar(c: char): Bytes {
    var n := c as int;
    if n < 0x80 then [n]
    else if n < 0x800 then [0xC0 + n / 0x40, 0x80 + n % 0x40]
    else if n < 0x1_0000 then [0xE0 + n / 0x1000, 0x80 + n / 0x40 % 0x40, 0x80 + n % 0x40]
    else [0xF0 + n / 0x4_0000, 0x80 + n / 0x1000 % 0x40, 0x80 + n / 0x40 % 0x40, 0x80 + n % 0x40]
  }

  function Encode(s: string): Bytes {
    if s == "" then [] else EncodeChar(s[0]) + Encode(s[1..])
  }

  /** Six more bits, from a tail byte. */
  function Six(high: nat, tail: Byte): nat
    requires IsTail(tail)
  {
    high * 0x40 + (tail as int - 0x80)
  }

  /** The number a well-formed character stands for. */
  function CodePoint(s: Bytes): (n: nat)
    requires CharLength(s) > 0
    ensures n <= 0x10_FFFF && !(0xD800 <= n < 0xE000)
  {
    match CharLength(s)
    case 1 => s[0]
    case 2 => Six(s[0] - 0xC0, s[1])
    case 3 => Six(Six(s[0] - 0xE0, s[1]), s[2])
    case _ => Six(Six(Six(s[0] - 0xF0, s[1]), s[2]), s[3])
  }

  function Decode(s: Bytes): string
    requires IsUtf8(s)
  {
    if s == [] then "" else [CodePoint(s) as char] + Decode(s[CharLength(s)..])
  }

  lemma EncodedChar(c: char, rest: Bytes)
    ensures CharLength(EncodeChar(c) + rest) == |EncodeChar(c)|
    ensures CodePoint(EncodeChar(c) + rest) == c as int
  {
    var n := c as int;
    if n < 0x80 {
    } else if n < 0x800 {
    } else if n < 0x1_0000 {
      assert n / 0x40 == n / 0x1000 * 0x40 + n / 0x40 % 0x40;
    } else {
      EncodedLongChar(c, rest);
    }
  }

  lemma EncodedLongChar(c: char, rest: Bytes)
    requires c as int >= 0x1_0000
    ensures CharLength(EncodeChar(c) + rest) == 4
    ensures CodePoint(EncodeChar(c) + rest) == c as int
  {
    var n := c as int;
    var s := EncodeChar(c) + rest;
    assert n / 0x40 == n / 0x1000 * 0x40 + n / 0x40 % 0x40;
    assert n / 0x1000 == n / 0x4_0000 * 0x40 + n / 0x1000 % 0x40;
    assert s[0] == 0xF0 + n / 0x4_0000 && s[1] == 0x80 + n / 0x1000 % 0x40;
    assert s[2] == 0x80 + n / 0x40 % 0x40 && s[3] == 0x80 + n % 0x40;
  }

  lemma SixApart(high: nat, tail: Byte)
    requires IsTail(tail)
    ensures Six(high, tail) / 0x40 == high && 0x80 + Six(high, tail) % 0x40 == tail
  {
  }

  lemma ReadChar(s: Bytes)
    requires CharLength(s) > 0
    ensures EncodeChar(CodePoint(s) as char) == s[..CharLength(s)]
  {
    match CharLength(s) {
      case 1 =>
      case 2 => SixApart(s[0] - 0xC0, s[1]);
      case 3 => ThreeApart(s[0] - 0xE0, s[1], s[2]);
      case _ => FourApart(s[0] - 0xF0, s[1], s[2], s[3]);
    }
  }

  lemma ThreeApart(a: nat, b: Byte, c: Byte)
    requires IsTail(b) && IsTail(c)
    ensures var n := Six(Six(a, b), c);
            n / 0x1000 == a && 0x80 + n / 0x40 % 0x40 == b && 0x80 + n % 0x40 == c
  {
    var n := Six(Six(a, b), c);
    SixApart(a, b);
    SixApart(Six(a, b), c);
    assert n / 0x1000 == n / 0x40 / 0x40;
  }

  lemma FourApart(a: nat, b: Byte, c: Byte, d: Byte)
    requires IsTail(b) && IsTail(c) && IsTail(d)
    ensures var n := Six(Six(Six(a, b), c), d);
            n / 0x4_0000 == a && 0x80 + n / 0x1000 % 0x40 == b && 0x80 + n / 0x40 % 0x40 == c && 0x80 + n % 0x40 == d
  {
    var n := Six(Six(Six(a, b), c), d);
    ThreeApart(a, b, c);
    SixApart(Six(Six(a, b), c), d);
    assert n / 0x4_0000 == n / 0x40 / 0x1000 && n / 0x1000 == n / 0x40 / 0x40;
  }

  /** Encoded text is well formed and decodes to itself. */
  lemma {:induction false} EncodeDecodes(s: string)
    ensures IsUtf8(Encode(s)) && Decode(Encode(s)) == s
  {
    if s != "" {
      EncodedChar(s[0], Encode(s[1..]));
      EncodeDecodes(s[1..]);
      assert Encode(s)[|EncodeChar(s[0])|..] == Encode(s[1..]);
      assert s == [s[0]] + s[1..];
    }
  }

  lemma EncodeCons(c: char, rest: string)
    ensures Encode([c] + rest) == EncodeChar(c) + Encode(rest)
  {
    assert ([c] + rest)[1..] == rest;
  }

  lemma EncodeHead(s: Bytes, rest: string)
    requires CharLength(s) > 0 && Encode(rest) == s[CharLength(s)..]
    ensures Encode([CodePoint(s) as char] + rest) == s
  {
    var n := CharLength(s);
    EncodeCons(CodePoint(s) as char, rest);
    ReadChar(s);
    assert s == s[..n] + s[n..];
  }

  /** Well-formed bytes are the encoding of exactly the text they decode to: the grammar accepts
      nothing that is not an encoding. */
  lemma {:induction false} DecodeEncodes(s: Bytes)
    requires IsUtf8(s)
    ensures Encode(Decode(s)) == s
  {
    if s != [] {
      DecodeEncodes(s[CharLength(s)..]);
      EncodeHead(s, Decode(s[CharLength(s)..]));
    }
  }
}
