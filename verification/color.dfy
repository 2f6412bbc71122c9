/** `stringToColor`: the background colour of an avatar, derived from its
    identifier by a 32-bit string hash printed as `#rrggbb`.

    JavaScript numbers are modelled as unbounded integers; the only places
    the source wraps to 32 bits are the bitwise operators `<<`, `>>` and `&`,
    and those are written out here through `ToInt32`. */
module Color {
  import opened Js

  /** 2 to the power `n`, for the shift counts the source uses. */
  function Pow2(n: nat): (r: nat)
    ensures r >= 1
  {
    if n == 0 then 1 else 2 * Pow2(n - 1)
  }

  /** The three powers of two the source shifts by, and the hash's `<< 5`. */
  lemma Pow2Values()
    ensures Pow2(0) == 1 && Pow2(5) == 32 && Pow2(8) == 256 && Pow2(16) == 65536
  {
    assert Pow2(8) == 256;
    assert Pow2(16) == 256 * 256 by { Pow2Add(8, 8); }
  }

  /** Splitting an exponent splits the power. */
  lemma {:induction false} Pow2Add(a: nat, b: nat)
    ensures Pow2(a + b) == Pow2(a) * Pow2(b)
  {
    if a > 0 {
      Pow2Add(a - 1, b);
    }
  }

  /** ECMAScript ToInt32: the representative of `x` modulo 2^32 that lies in
      the signed 32-bit range. */
  function ToInt32(x: int): (r: int)
    ensures -0x8000_0000 <= r < 0x8000_0000
    ensures (x - r) % 0x1_0000_0000 == 0
  {
    var m := x % 0x1_0000_0000;
    if m < 0x8000_0000 then m else m - 0x1_0000_0000
  }

  /** `x << n`: both operands go through ToInt32 and the product is wrapped
      back into the signed 32-bit range. */
  function ShiftLeft(x: int, n: nat): (r: int)
    requires n < 32
    ensures -0x8000_0000 <= r < 0x8000_0000
    ensures (ToInt32(x) * Pow2(n) - r) % 0x1_0000_0000 == 0
  {
    ToInt32(ToInt32(x) * Pow2(n))
  }

  /** `x >> n`: a sign-propagating shift of the 32-bit value, that is, the
      floor of its quotient by 2^n. */
  function ShiftRight(x: int, n: nat): (r: int)
    requires n < 32
    ensures Pow2(n) * r <= ToInt32(x) < Pow2(n) * (r + 1)
  {
    ToInt32(x) / Pow2(n)
  }

  /** `x & 0xFF`: the low byte of the 32-bit two's complement form of `x`. */
  function LowByte(x: int): (r: nat)
    ensures r < 256
    ensures (x - r) % 256 == 0
  {
    ToInt32(x) % 256
  }

  /** Equal modulo 2^32: the same 32-bit two's complement value. */
  predicate Congruent32(a: int, b: int) {
    (a - b) % 0x1_0000_0000 == 0
  }

  /** `h << 5` is `32 * h` modulo 2^32. */
  lemma ShiftLeftFive(h: int)
    ensures Congruent32(ShiftLeft(h, 5), 32 * h)
  {
    Pow2Values();
    var t, s := ToInt32(h), ShiftLeft(h, 5);
    var q1, q2 := (t * 32 - s) / 0x1_0000_0000, (h - t) / 0x1_0000_0000;
    assert t * 32 - s == 0x1_0000_0000 * q1;
    assert h - t == 0x1_0000_0000 * q2;
    assert s - 32 * h == 0x1_0000_0000 * (-q1 - 32 * q2);
  }

  /** One round of the hash loop: `h' = c + ((h << 5) - h)`. The subtraction
      uses the unwrapped `h`; modulo 2^32 the round is `31 * h + c`. */
  function HashStep(h: int, c: CodeUnit): (r: int)
    ensures Congruent32(r, 31 * h + c)
  {
    ShiftLeftFive(h);
    c + (ShiftLeft(h, 5) - h)
  }

  /** The textbook polynomial string hash over unbounded integers: each
      code unit is added to 31 times the hash of the units before it. */
  function PolyHash(units: seq<CodeUnit>): int {
    if |units| == 0 then 0 else 31 * PolyHash(units[..|units| - 1]) + units[|units| - 1]
  }

  /** A round applied to congruent hashes gives congruent hashes. */
  lemma StepCongruent(r: int, h: int, p: int, c: int)
    requires Congruent32(r, 31 * h + c) && Congruent32(h, p)
    ensures Congruent32(r, 31 * p + c)
  {
    var q1, q2 := (r - (31 * h + c)) / 0x1_0000_0000, (h - p) / 0x1_0000_0000;
    assert r - (31 * h + c) == 0x1_0000_0000 * q1;
    assert h - p == 0x1_0000_0000 * q2;
    assert r - (31 * p + c) == 0x1_0000_0000 * (q1 + 31 * q2);
  }

  /** The value of `hash` after the first loop has consumed `units`: the
      polynomial hash, up to multiples of 2^32. */
  function Hash(units: seq<CodeUnit>): (r: int)
    ensures Congruent32(r, PolyHash(units))
  {
    if |units| == 0 then 0
    else
      var h, c := Hash(units[..|units| - 1]), units[|units| - 1];
      StepCongruent(HashStep(h, c), h, PolyHash(units[..|units| - 1]), c);
      HashStep(h, c)
  }

  /** Bits `k` to `k + 7` of the 32-bit two's complement form of `h`. */
  function Bits(h: int, k: nat): (r: nat)
    ensures r < 256
  {
    (h % 0x1_0000_0000) / Pow2(k) % 256
  }

  /** A lower-case hexadecimal digit character. */
  predicate IsHexDigit(c: char) {
    '0' <= c <= '9' || 'a' <= c <= 'f'
  }

  /** The digit character for `d`, as `Number.prototype.toString(16)` prints it. */
  function HexDigit(d: nat): (c: char)
    requires d < 16
    ensures IsHexDigit(c)
  {
    if d < 10 then ('0' as int + d) as char else ('a' as int + d - 10) as char
  }

  /** The value of one hexadecimal digit character. */
  function DigitValue(c: char): (d: nat)
    requires IsHexDigit(c)
    ensures d < 16 && HexDigit(d) == c
  {
    if c <= '9' then c as int - '0' as int else c as int - 'a' as int + 10
  }

  /** Reading a printed digit gives back its value. */
  lemma DigitRoundTrip(d: nat)
    requires d < 16
    ensures DigitValue(HexDigit(d)) == d
  {
  }

  /** The number a string of hexadecimal digits denotes. */
  function HexValue(s: string): nat
    requires forall i | 0 <= i < |s| :: IsHexDigit(s[i])
  {
    if s == [] then 0 else HexValue(s[..|s| - 1]) * 16 + DigitValue(s[|s| - 1])
  }

  /** `n.toString(16)` for a non-negative integer: its hexadecimal digits
      with no leading zero. */
  function ToHex(n: nat): (r: string)
    ensures |r| >= 1
    ensures forall i | 0 <= i < |r| :: IsHexDigit(r[i])
    ensures HexValue(r) == n
    ensures r[0] == '0' ==> n == 0
  {
    if n < 16 then
      assert [HexDigit(n)][..0] == [];
      [HexDigit(n)]
    else
      var r := ToHex(n / 16) + [HexDigit(n % 16)];
      assert r[..|r| - 1] == ToHex(n / 16);
      r
  }

  /** `s.slice(-2)`: the last two characters, or all of `s` if it is shorter. */
  function LastTwo(s: string): (r: string)
    ensures |r| == if |s| < 2 then |s| else 2
    ensures s == s[..|s| - |r|] + r
  {
    if |s| >= 2 then s[|s| - 2..] else s
  }

  /** `("00" + b.toString(16)).slice(-2)`: a byte printed as exactly two
      hexadecimal digits, high digit first, zero-padded. */
  function HexPair(b: nat): (r: string)
    requires b < 256
    ensures r == [HexDigit(b / 16), HexDigit(b % 16)]
    ensures HexValue(r) == b
  {
    var r := LastTwo("00" + ToHex(b));
    assert r[..1] == [HexDigit(b / 16)];
    assert [HexDigit(b / 16)][..0] == [];
    DigitRoundTrip(b / 16);
    DigitRoundTrip(b % 16);
    assert HexValue(r[..1]) == b / 16;
    assert HexValue(r) == (b / 16) * 16 + b % 16;
    r
  }

  /** A `#rrggbb` string: a hash sign and six lower-case hexadecimal digits. */
  predicate IsColor(s: string) {
    |s| == 7 && s[0] == '#' && forall i | 1 <= i < 7 :: IsHexDigit(s[i])
  }

  /** The three byte values a `#rrggbb` string spells, in the order written. */
  function DecodeColor(s: string): seq<nat>
    requires IsColor(s)
  {
    [HexValue(s[1..3]), HexValue(s[3..5]), HexValue(s[5..7])]
  }

  /** Three bytes printed one after the other behind a hash sign. */
  function ColorOfBytes(b0: nat, b1: nat, b2: nat): (r: string)
    requires b0 < 256 && b1 < 256 && b2 < 256
    ensures IsColor(r)
    ensures DecodeColor(r) == [b0, b1, b2]
  {
    var r := "#" + HexPair(b0) + HexPair(b1) + HexPair(b2);
    assert r[1..3] == HexPair(b0);
    assert r[3..5] == HexPair(b1);
    assert r[5..7] == HexPair(b2);
    r
  }

  /** The byte the second loop appends in round `i`: `(hash >> (i * 8)) & 0xFF`. */
  function ByteAt(h: int, i: nat): (r: nat)
    requires i < 3
    ensures r < 256
  {
    LowByte(ShiftRight(h, i * 8))
  }

  /** The colour after `i` rounds of the second loop. */
  function Pairs(h: int, i: nat): string
    requires i <= 3
  {
    if i == 0 then "#" else Pairs(h, i - 1) + HexPair(ByteAt(h, i - 1))
  }

  /** The colour the source prints for a hash value: bits 0-7, 8-15 and
      16-23 of the wrapped hash, in that order. */
  function HashToColor(h: int): (r: string)
    ensures IsColor(r)
    ensures DecodeColor(r) == [Bits(h, 0), Bits(h, 8), Bits(h, 16)]
  {
    ShiftMaskIsBits(h, 0);
    ShiftMaskIsBits(h, 1);
    ShiftMaskIsBits(h, 2);
    ColorOfBytes(ByteAt(h, 0), ByteAt(h, 1), ByteAt(h, 2))
  }

  /** The shift-and-mask of round `i` extracts the byte at bit `8 * i` of
      the wrapped hash. */
  lemma ShiftMaskIsBits(h: int, i: nat)
    requires i < 3
    ensures ByteAt(h, i) == Bits(h, 8 * i)
  {
    Pow2Values();
    var p := Pow2(8 * i);
    var q := ToInt32(h) / p;
    assert ShiftRight(h, i * 8) == q;
    assert ToInt32(q) == q;
    SignedByte(h % 0x1_0000_0000, ToInt32(h), p);
  }

  /** Dividing the signed or the unsigned reading of a 32-bit value by 1,
      256 or 65536 leaves the same low byte. */
  lemma SignedByte(u: int, t: int, p: int)
    requires 0 <= u < 0x1_0000_0000
    requires t == u || t == u - 0x1_0000_0000
    requires p == 1 || p == 256 || p == 65536
    ensures (t / p) % 256 == (u / p) % 256
  {
    if t != u {
      var k := 0x1_0000_0000 / p;
      assert k * p == 0x1_0000_0000;
      assert t == u - k * p;
      assert t / p == u / p - k;
      assert k == 256 * (k / 256);
    }
  }

  /** `stringToColor(str)`: hash the UTF-16 code units of `str`, then print
      bits 0-7, 8-15 and 16-23 of the wrapped hash, low byte first. */
  function StringToColor(str: string): (r: string)
    ensures IsColor(r)
    ensures var h := Hash(Utf16(str));
      DecodeColor(r) == [Bits(h, 0), Bits(h, 8), Bits(h, 16)]
  {
    HashToColor(Hash(Utf16(str)))
  }

  /** The first loop of the source: fold the code units into `hash`. */
  method HashLoop(units: seq<CodeUnit>) returns (hash: int)
    ensures hash == Hash(units)
  {
    hash := 0;
    for i := 0 to |units|
      invariant hash == Hash(units[..i])
    {
      assert units[..i + 1][..i] == units[..i];
      hash := units[i] + (ShiftLeft(hash, 5) - hash);
    }
    assert units[..|units|] == units;
  }

  /** The second loop of the source: append one pair per byte. */
  method PairsLoop(hash: int) returns (color: string)
    ensures color == HashToColor(hash)
  {
    color := "#";
    for i := 0 to 3
      invariant color == Pairs(hash, i)
    {
      color := color + HexPair(ByteAt(hash, i));
    }
    PairsComplete(hash);
  }

  /** The two loops of the source, as written. */
  method StringToColorLoops(str: string) returns (color: string)
    ensures color == StringToColor(str)
  {
    var hash := HashLoop(Utf16(str));
    color := PairsLoop(hash);
  }

  /** Three rounds of the second loop print the whole colour. */
  lemma PairsComplete(h: int)
    ensures Pairs(h, 3) == HashToColor(h)
  {
    var p0, p1, p2 := HexPair(ByteAt(h, 0)), HexPair(ByteAt(h, 1)), HexPair(ByteAt(h, 2));
    assert Pairs(h, 0) == "#";
    assert Pairs(h, 1) == "#" + p0;
    assert Pairs(h, 2) == "#" + p0 + p1;
    assert Pairs(h, 3) == "#" + p0 + p1 + p2;
    assert HashToColor(h) == ColorOfBytes(ByteAt(h, 0), ByteAt(h, 1), ByteAt(h, 2));
  }

  /** The empty identifier hashes to 0 and gets black. */
  lemma EmptyIsBlack()
    ensures StringToColor("") == "#000000"
  {
    assert Utf16("") == [];
    assert Hash([]) == 0;
    Pow2Values();
    assert Bits(0, 0) == 0 && Bits(0, 8) == 0 && Bits(0, 16) == 0;
    ColorDigits(0, 0, 0);
    assert HexDigit(0) == '0';
  }

  /** The three printed bytes spell the low 24 bits of the hash. */
  lemma Low24FromBits(h: int)
    ensures h % 0x100_0000 == Bits(h, 0) + 256 * Bits(h, 8) + 65536 * Bits(h, 16)
  {
    Pow2Values();
    var u := h % 0x1_0000_0000;
    assert u % 0x100_0000 == h % 0x100_0000;
    var b0, a := u % 256, u / 256;
    assert u == 256 * a + b0;
    var b1, c := a % 256, a / 256;
    assert a == 256 * c + b1;
    assert u / 65536 == c;
    var b2 := c % 256;
    assert c == 256 * (c / 256) + b2;
    assert u == 0x100_0000 * (c / 256) + (b0 + 256 * b1 + 65536 * b2);
    assert Bits(h, 0) == b0 && Bits(h, 8) == b1 && Bits(h, 16) == b2;
  }

  /** Bits 24-31 of the hash never reach the colour: two identifiers get
      the same colour exactly when their hashes agree on the low 24 bits. */
  lemma SameColorIffLow24(s1: string, s2: string)
    ensures StringToColor(s1) == StringToColor(s2)
        <==> Hash(Utf16(s1)) % 0x100_0000 == Hash(Utf16(s2)) % 0x100_0000
  {
    HashColorIffLow24(Hash(Utf16(s1)), Hash(Utf16(s2)));
  }

  /** Two hash values print the same colour exactly when they agree on
      their low 24 bits. */
  lemma HashColorIffLow24(h1: int, h2: int)
    ensures HashToColor(h1) == HashToColor(h2) <==> h1 % 0x100_0000 == h2 % 0x100_0000
  {
    Low24FromBits(h1);
    Low24FromBits(h2);
    ShiftMaskIsBits(h1, 0);
    ShiftMaskIsBits(h1, 1);
    ShiftMaskIsBits(h1, 2);
    ShiftMaskIsBits(h2, 0);
    ShiftMaskIsBits(h2, 1);
    ShiftMaskIsBits(h2, 2);
    var x0, x1, x2 := Bits(h1, 0), Bits(h1, 8), Bits(h1, 16);
    var y0, y1, y2 := Bits(h2, 0), Bits(h2, 8), Bits(h2, 16);
    assert HashToColor(h1) == ColorOfBytes(x0, x1, x2);
    assert HashToColor(h2) == ColorOfBytes(y0, y1, y2);
    if ColorOfBytes(x0, x1, x2) == ColorOfBytes(y0, y1, y2) {
      assert [x0, x1, x2] == [y0, y1, y2];
    }
    if h1 % 0x100_0000 == h2 % 0x100_0000 {
      Digits256(x0, x1, x2, y0, y1, y2);
    }
  }

  /** Base-256 digits are unique. */
  lemma Digits256(x0: nat, x1: nat, x2: nat, y0: nat, y1: nat, y2: nat)
    requires x0 < 256 && x1 < 256 && x2 < 256 && y0 < 256 && y1 < 256 && y2 < 256
    requires x0 + 256 * x1 + 65536 * x2 == y0 + 256 * y1 + 65536 * y2
    ensures x0 == y0 && x1 == y1 && x2 == y2
  {
  }

  /** A hash below 2^24 prints its own three low bytes. */
  lemma SmallHashColor(h: int)
    requires 0 <= h < 0x100_0000
    ensures HashToColor(h) == ColorOfBytes(h % 256, h / 256 % 256, h / 65536)
  {
    Pow2Values();
    assert h % 0x1_0000_0000 == h;
    assert Bits(h, 0) == h % 256;
    assert Bits(h, 8) == h / 256 % 256;
    assert Bits(h, 16) == h / 65536;
  }

  /** A colour printed from bytes, digit by digit. */
  lemma ColorDigits(b0: nat, b1: nat, b2: nat)
    requires b0 < 256 && b1 < 256 && b2 < 256
    ensures ColorOfBytes(b0, b1, b2)
      == ['#', HexDigit(b0 / 16), HexDigit(b0 % 16), HexDigit(b1 / 16), HexDigit(b1 % 16),
          HexDigit(b2 / 16), HexDigit(b2 % 16)]
  {
    var p0, p1, p2 := HexPair(b0), HexPair(b1), HexPair(b2);
    assert ColorOfBytes(b0, b1, b2) == "#" + p0 + p1 + p2;
  }

  /** The hash 0x61 prints as `#610000`. */
  lemma ColorOfHash61()
    ensures HashToColor(0x61) == "#610000"
  {
    Pow2Values();
    assert Bits(0x61, 0) == 0x61 && Bits(0x61, 8) == 0 && Bits(0x61, 16) == 0;
    ColorDigits(0x61, 0, 0);
    assert HexDigit(6) == '6' && HexDigit(1) == '1' && HexDigit(0) == '0';
  }

  /** The hash 0xC21 prints as `#210c00`: low byte first. */
  lemma ColorOfHashC21()
    ensures HashToColor(0xC21) == "#210c00"
  {
    Pow2Values();
    assert Bits(0xC21, 0) == 0x21 && Bits(0xC21, 8) == 0x0C && Bits(0xC21, 16) == 0;
    ColorDigits(0x21, 0x0C, 0);
    assert HexDigit(2) == '2' && HexDigit(1) == '1' && HexDigit(0) == '0' && HexDigit(12) == 'c';
  }

  /** Numbers equal modulo 2^32 have the same 32-bit two's complement bits. */
  lemma BitsCongruent(a: int, b: int, k: nat)
    requires Congruent32(a, b)
    ensures Bits(a, k) == Bits(b, k)
  {
    var q := (a - b) / 0x1_0000_0000;
    assert a == b + 0x1_0000_0000 * q;
    assert a % 0x1_0000_0000 == b % 0x1_0000_0000;
  }

  /** The wrap-around of the hash loop never shows in the colour: an
      identifier gets the colour of its textbook polynomial hash. */
  lemma ColorOfPolyHash(str: string)
    ensures StringToColor(str) == HashToColor(PolyHash(Utf16(str)))
  {
    var h, p := Hash(Utf16(str)), PolyHash(Utf16(str));
    BitsCongruent(h, p, 0);
    BitsCongruent(h, p, 8);
    BitsCongruent(h, p, 16);
  }

  /** Worked example: "a" hashes to 0x61, the low byte, printed first. */
  lemma ExampleOneLetter()
    ensures StringToColor("a") == "#610000"
  {
    var s := "a";
    var u := Utf16(s);
    assert u == [97] by {
      assert u == Utf16Char(s[0]) + Utf16(s[1..]);
      assert s[0] == 'a' && s[1..] == [];
    }
    assert PolyHash(u) == 97 by {
      assert u[..0] == [];
    }
    ColorOfPolyHash(s);
    ColorOfHash61();
  }

  /** Worked example: "ab" hashes to 31 * 97 + 98 = 0xC21. */
  lemma ExampleTwoLetters()
    ensures StringToColor("ab") == "#210c00"
  {
    var s := "ab";
    var u := Utf16(s);
    assert u == [97, 98] by {
      assert u == Utf16Char(s[0]) + Utf16(s[1..]);
      assert s[0] == 'a' && s[1..] == "b";
      assert Utf16(s[1..]) == Utf16Char(s[1]) + Utf16(s[1..][1..]);
      assert s[1] == 'b' && s[1..][1..] == [];
    }
    assert PolyHash(u) == 0xC21 by {
      assert u[..1][..0] == [];
      assert u[..|u| - 1] == u[..1];
      assert PolyHash(u[..1]) == 97;
    }
    ColorOfPolyHash(s);
    ColorOfHashC21();
  }
}
