/** Percent encoding of text, and the decoder that reads it back. */
module PercentCode {
  import opened Wrappers

  // ---------- UTF-8 ----------

  function Utf8Char(c: char): (b: bytes)
    ensures b != [] && (|b| == 1 <==> c as int < 0x80)
  {
    var x := c as int;
    if x < 0x80 then [x]
    else if x < 0x800 then [0xC0 + x / 0x40, 0x80 + x % 0x40]
    else if x < 0x1_0000 then [0xE0 + x / 0x1000, 0x80 + x / 0x40 % 0x40, 0x80 + x % 0x40]
    else [0xF0 + x / 0x4_0000, 0x80 + x / 0x1000 % 0x40, 0x80 + x / 0x40 % 0x40, 0x80 + x % 0x40]
  }

  // The bytes of a character are a lead byte that tells their number, and the
  // character's bits, six to each further byte.
  lemma Utf8Exactly(c: char)
    ensures Utf8Value(Utf8Char(c)) == c as int
    ensures var b := Utf8Char(c);
            1 <= |b| <= 4 && Follows(b)
            && (if |b| == 1 then b[0] < 0x80 else if |b| == 2 then 0xC2 <= b[0] <= 0xDF
                else if |b| == 3 then 0xE0 <= b[0] <= 0xEF && 0x800 <= c as int
                else 0xF0 <= b[0] <= 0xF4 && 0x1_0000 <= c as int)
  {
    var x: nat := c as int;
    SixBack(x);
    SixBack(x / 0x40);
    SixBack(x / 0x1000);
    assert x / 0x40 / 0x40 == x / 0x1000 && x / 0x1000 / 0x40 == x / 0x4_0000;
  }

  lemma SixBack(x: nat)
    ensures Six(x / 0x40, 0x80 + x % 0x40) == x
  {
  }

  function Utf8Value(b: bytes): int
    requires 1 <= |b| <= 4
  {
    if |b| == 1 then b[0]
    else if |b| == 2 then Six(b[0] as int - 0xC0, b[1])
    else if |b| == 3 then Six(Six(b[0] as int - 0xE0, b[1]), b[2])
    else Six(Six(Six(b[0] as int - 0xF0, b[1]), b[2]), b[3])
  }

  function Six(high: int, b: int): int {
    64 * high + (b - 0x80)
  }

  predicate Follows(b: bytes) {
    forall i :: 1 <= i < |b| ==> 0x80 <= b[i] <= 0xBF
  }

  function Utf8(text: string): bytes {
    if text == "" then [] else Utf8Char(text[0]) + Utf8(text[1..])
  }

  // Bytes read as characters of the same number.
  function AsChars(b: bytes): (text: string)
    ensures |text| == |b|
  {
    if b == [] then "" else [b[0] as char] + AsChars(b[1..])
  }

  predicate IsAscii(text: string) {
    forall i :: 0 <= i < |text| ==> text[i] as int < 0x80
  }

  // ---------- Encoding ----------

  // The characters written as they are.
  predicate IsPlain(x: byte) {
    0x30 <= x <= 0x39 || 0x41 <= x <= 0x5A || 0x61 <= x <= 0x7A || (x as char) in "-_.!~*'()"
  }

  function HexDigit(n: nat): (c: char)
    requires n < 16
    ensures c as int < 0x80
  {
    if n < 10 then (0x30 + n) as char else (0x41 + n - 10) as char
  }

  function EncodeByte(x: byte): (text: string)
    ensures IsAscii(text)
  {
    if IsPlain(x) then PlainIsAscii(x); [x as char] else ['%', HexDigit(x / 16), HexDigit(x % 16)]
  }

  lemma PlainIsAscii(x: byte)
    requires IsPlain(x)
    ensures x < 0x80 && x != 0x25
  {
    if (x as char) in "-_.!~*'()" {
      var i :| 0 <= i < 9 && "-_.!~*'()"[i] == x as char;
    }
  }

  const UPPER_DIGITS := "0123456789ABCDEF"
  const LOWER_DIGITS := "0123456789abcdef"

  // A byte stands for itself if it is a letter, a digit or one of nine marks; any
  // other is a percent sign and its two digits in upper case.
  lemma EncodedByteExactly(x: byte)
    ensures EncodeByte(x)
            == if ('0' <= x as char <= '9') || ('A' <= x as char <= 'Z') || ('a' <= x as char <= 'z')
                  || x as char == '-' || x as char == '_' || x as char == '.' || x as char == '!' || x as char == '~'
                  || x as char == '*' || x as char == '\'' || x as char == '(' || x as char == ')'
               then [x as char]
               else ['%', UPPER_DIGITS[x / 16], UPPER_DIGITS[x % 16]]
  {
    MarksExactly(x as char);
    UpperDigit(x / 16);
    UpperDigit(x % 16);
  }

  lemma MarksExactly(c: char)
    ensures c in "-_.!~*'()"
            <==> c == '-' || c == '_' || c == '.' || c == '!' || c == '~' || c == '*' || c == '\'' || c == '('
                 || c == ')'
  {
    var marks := "-_.!~*'()";
    assert marks[0] == '-' && marks[1] == '_' && marks[2] == '.' && marks[3] == '!' && marks[4] == '~';
    assert marks[5] == '*' && marks[6] == '\'' && marks[7] == '(' && marks[8] == ')';
  }

  lemma UpperDigit(n: nat)
    requires n < 16
    ensures HexDigit(n) == UPPER_DIGITS[n]
  {
  }

  function Encoded(b: bytes): string {
    if b == [] then "" else Encoded(b[..|b| - 1]) + EncodeByte(b[|b| - 1])
  }

  method PctEncode(text: string) returns (out: string)
    ensures out == Encoded(Utf8(text))
  {
    out := "";
    var all := Utf8(text);
    for i := 0 to |all|
      invariant out == Encoded(all[..i])
    {
      assert all[..i + 1][..i] == all[..i];
      if IsPlain(all[i]) {
        out := out + [all[i] as char];
      } else {
        out := out + ['%', HexDigit(all[i] / 16), HexDigit(all[i] % 16)];
      }
    }
    assert all[..|all|] == all;
  }

  // ---------- Decoding ----------

  function HexVal(x: byte): (v: Option<nat>)
    ensures v.Some? ==> v.value < 16
  {
    if 0x30 <= x <= 0x39 then Some(x - 0x30)
    else if 0x61 <= x <= 0x66 then Some(x - 0x61 + 10)
    else if 0x41 <= x <= 0x46 then Some(x - 0x41 + 10)
    else None
  }

  // The bytes start with an escape: a percent sign and two hex digits.
  predicate Escaped(b: bytes) {
    |b| > 2 && b[0] == 0x25 && HexVal(b[1]).Some? && HexVal(b[2]).Some?
  }

  function Decoded(b: bytes): string {
    if b == [] then ""
    else if Escaped(b) then [(HexVal(b[1]).value * 16 + HexVal(b[2]).value) as char] + Decoded(b[3..])
    else [b[0] as char] + Decoded(b[1..])
  }

  // Characters the decoder takes at the front of b.
  function Taken(b: bytes): nat
    requires b != []
  {
    if Escaped(b) then 3 else 1
  }

  function Front(b: bytes): char
    requires b != []
  {
    if Escaped(b) then (HexVal(b[1]).value * 16 + HexVal(b[2]).value) as char else b[0] as char
  }

  lemma {:induction false} DecodeStep(all: bytes, i: nat, out: string)
    requires i < |all| && Decoded(all) == out + Decoded(all[i..])
    ensures i + Taken(all[i..]) <= |all|
    ensures Decoded(all) == (out + [Front(all[i..])]) + Decoded(all[i + Taken(all[i..])..])
  {
    var rest, n := all[i..], Taken(all[i..]);
    assert rest[n..] == all[i + n..];
    Regroup(out, [Front(rest)], Decoded(rest[n..]));
  }

  method PercentDecode(value: string) returns (out: string)
    ensures out == Decoded(Utf8(value))
  {
    out := "";
    var all := Utf8(value);
    var i := 0;
    assert all[0..] == all;
    while i < |all|
      invariant 0 <= i <= |all|
      invariant Decoded(all) == out + Decoded(all[i..])
    {
      DecodeStep(all, i, out);
      if all[i] == 0x25 && i + 2 < |all| && HexVal(all[i + 1]).Some? && HexVal(all[i + 2]).Some? {
        out := out + [(HexVal(all[i + 1]).value * 16 + HexVal(all[i + 2]).value) as char];
        i := i + 3;
      } else {
        out := out + [all[i] as char];
        i := i + 1;
      }
    }
    assert out + "" == out;
  }

  // A hex digit is one of the sixteen in either case.
  lemma HexValExactly(x: byte, v: nat)
    ensures HexVal(x) == Some(v)
            <==> v < 16 && (x as char == UPPER_DIGITS[v] || x as char == LOWER_DIGITS[v])
  {
  }

  // A percent sign and two hex digits are read as one byte.
  lemma EscapeIsRead(x: byte, y: byte, h: nat, l: nat, rest: bytes)
    requires HexVal(x) == Some(h) && HexVal(y) == Some(l)
    ensures Decoded([0x25, x, y] + rest) == [(16 * h + l) as char] + Decoded(rest)
  {
    var b := [0x25, x, y] + rest;
    assert b[1] == x && b[2] == y && b[3..] == rest;
  }

  // A percent sign in front of anything else, and any other byte, is read as
  // itself.
  lemma OthersAreKept(x: byte, rest: bytes)
    requires x != 0x25 || |rest| < 2 || HexVal(rest[0]).None? || HexVal(rest[1]).None?
    ensures Decoded([x] + rest) == [x as char] + Decoded(rest)
  {
    var b := [x] + rest;
    assert b[1..] == rest && b[0] == x;
    assert |rest| >= 2 ==> b[1] == rest[0] && b[2] == rest[1];
    assert !Escaped(b);
  }

  // ---------- Round trip ----------

  lemma {:induction false} Utf8OfAscii(text: string)
    requires IsAscii(text)
    ensures AsChars(Utf8(text)) == text
    decreases |text|
  {
    if text != "" {
      Utf8OfAscii(text[1..]);
      assert Utf8Char(text[0]) == [text[0] as int];
      assert Utf8(text)[1..] == Utf8(text[1..]);
      assert text == [text[0]] + text[1..];
    }
  }

  lemma {:induction false} Utf8IsLonger(text: string)
    ensures |Utf8(text)| >= |text| && (|Utf8(text)| == |text| <==> IsAscii(text))
    decreases |text|
  {
    if text != "" {
      Utf8IsLonger(text[1..]);
      assert IsAscii(text) <==> text[0] as int < 0x80 && IsAscii(text[1..]) by {
        if text[0] as int < 0x80 && IsAscii(text[1..]) {
          forall i | 0 <= i < |text| ensures text[i] as int < 0x80 {
            assert i > 0 ==> text[i] == text[1..][i - 1];
          }
        }
      }
    }
  }

  lemma {:induction false} Utf8Joined(p: string, q: string)
    ensures Utf8(p + q) == Utf8(p) + Utf8(q)
    decreases |p|
  {
    if p == "" {
      assert p + q == q;
    } else {
      assert (p + q)[1..] == p[1..] + q;
      Utf8Joined(p[1..], q);
    }
  }

  // The bytes of the encoded text, front first.
  lemma {:induction false} EncodedFront(b: bytes)
    requires b != []
    ensures Encoded(b) == EncodeByte(b[0]) + Encoded(b[1..])
    decreases |b|
  {
    var n := |b| - 1;
    if n > 0 {
      EncodedFront(b[..n]);
      assert b[..n][1..] == b[1..][..n - 1] && b[1..][n - 1] == b[n];
    } else {
      assert b[..0] == [] && b[1..] == [];
    }
  }

  lemma DecodeByte(x: byte, rest: bytes)
    ensures Decoded(Utf8(EncodeByte(x)) + rest) == [x as char] + Decoded(rest)
  {
    var text := EncodeByte(x);
    if IsPlain(x) {
      PlainIsAscii(x);
      assert text[1..] == "";
      assert Utf8(text) == [x];
      assert ([x] + rest)[1..] == rest;
    } else {
      var h, l := HexDigit(x / 16), HexDigit(x % 16);
      assert text[1..] == [h, l] && [h, l][1..] == [l] && [l][1..] == "";
      assert Utf8([l]) == [l as int] && Utf8([h, l]) == [h as int] + Utf8([l]);
      assert Utf8(text) == [0x25] + Utf8([h, l]);
      assert ([0x25, h as int, l as int] + rest)[3..] == rest;
    }
  }

  // Decoding an encoding gives its bytes, as characters.
  lemma {:induction false} BytesComeBack(b: bytes)
    ensures Decoded(Utf8(Encoded(b))) == AsChars(b)
    decreases |b|
  {
    if b != [] {
      EncodedFront(b);
      Utf8Joined(EncodeByte(b[0]), Encoded(b[1..]));
      DecodeByte(b[0], Utf8(Encoded(b[1..])));
      BytesComeBack(b[1..]);
    }
  }

  /** What comes back is the UTF-8 bytes of the text, one character each; so the
      text itself comes back exactly if it is ASCII. */
  lemma {:induction false} RoundTripIsAscii(text: string)
    ensures Decoded(Utf8(Encoded(Utf8(text)))) == AsChars(Utf8(text))
    ensures Decoded(Utf8(Encoded(Utf8(text)))) == text <==> IsAscii(text)
  {
    BytesComeBack(Utf8(text));
    Utf8IsLonger(text);
    if IsAscii(text) {
      Utf8OfAscii(text);
    }
  }
}
