/** The avatar of src/Components/AvatarIcon.js: a background colour derived
    from a name by a multiply-by-31 string hash, rendered as `#` and three
    two-digit hexadecimal groups, and a label made of the name's first three
    code units followed by an ellipsis. */
module AvatarIcon {
  import opened JsOps

  /** A UTF-16 code unit, the value `charCodeAt` returns. */
  type CodeUnit = c: int | 0 <= c < 0x1_0000

  /** A JavaScript string: its sequence of UTF-16 code units. */
  type JsString = seq<CodeUnit>

  datatype Option<T> = None | Some(value: T)

  // ---------------------------------------------------------------------------
  // The hash

  /** One round of the first loop, `hash = c + ((hash << 5) - hash)`, where
      only the shift wraps to 32 bits and the rest is exact Number arithmetic. */
  function HashStep(hash: int, c: CodeUnit): int {
    c + (ShiftLeft(hash, 5) - hash)
  }

  /** The value of `hash` once the first loop has read every code unit of s. */
  function JsHash(s: JsString): int {
    if s == [] then 0 else HashStep(JsHash(s[..|s| - 1]), s[|s| - 1])
  }

  function Pow(b: nat, e: nat): nat {
    if e == 0 then 1 else b * Pow(b, e - 1)
  }

  /** The polynomial hash: the sum over k of s[k] * 31^(|s|-1-k), unwrapped. */
  function PolyHash(s: JsString): nat {
    if s == [] then 0 else s[0] * Pow(31, |s| - 1) + PolyHash(s[1..])
  }

  /** Appending a code unit multiplies the polynomial hash by 31 and adds the
      code unit (Horner's rule). */
  lemma {:induction false} HornerStep(p: JsString, c: CodeUnit)
    ensures PolyHash(p + [c]) == 31 * PolyHash(p) + c
  {
    if p == [] {
      assert p + [c] == [c];
    } else {
      assert (p + [c])[1..] == p[1..] + [c];
      HornerStep(p[1..], c);
      assert Pow(31, |p|) == 31 * Pow(31, |p| - 1);
      assert p[0] * Pow(31, |p|) == 31 * (p[0] * Pow(31, |p| - 1));
    }
  }

  /** `hash << 5` has the 32-bit pattern of 32 * hash. */
  lemma ShiftLeftFive(h: int)
    ensures Congruent32(ShiftLeft(h, 5), 32 * h)
  {
    Pow2Bytes();
  }

  /** The hash loop computes the polynomial hash modulo 2^32: the values it
      leaves in `hash` may differ from it, but only by multiples of 2^32. */
  lemma {:induction false} HashIsPolynomial(s: JsString)
    ensures Congruent32(JsHash(s), PolyHash(s))
  {
    if s != [] {
      var p, c := s[..|s| - 1], s[|s| - 1];
      assert s == p + [c];
      var h := JsHash(p);
      HashIsPolynomial(p);
      HornerStep(p, c);
      ShiftLeftFive(h);
      CongruentShift(ShiftLeft(h, 5), 32 * h, c - h);
      CongruentScale(h, PolyHash(p), 31);
      CongruentShift(h * 31, PolyHash(p) * 31, c);
    }
  }

  /** The hash grows by less than 2^32 per code unit, so for names of at most
      2^21 code units it stays within 2^53 and every Number operation of
      the loop is exact. */
  lemma {:induction false} HashMagnitude(s: JsString)
    ensures -|s| * TwoTo32 <= JsHash(s) <= |s| * TwoTo32
    ensures |s| <= 0x20_0000 ==> -0x20_0000_0000_0000 <= JsHash(s) <= 0x20_0000_0000_0000
  {
    if s != [] {
      HashMagnitude(s[..|s| - 1]);
    }
  }

  // ---------------------------------------------------------------------------
  // The colour

  /** Byte i (bits 8i to 8i+7) of the 32-bit pattern of h. */
  function ByteAt(h: int, i: nat): (b: nat)
    ensures b < 0x100
  {
    ToUint32(h) / Pow2(8 * i) % 0x100
  }

  /** A byte as exactly two lower-case hexadecimal digits, high digit first. */
  function HexByte(b: nat): string
    requires b < 0x100
  {
    [HexDigit(b / 16), HexDigit(b % 16)]
  }

  /** The colour string after k rounds of the second loop. */
  function ColorPrefix(h: int, k: nat): string
    requires k <= 3
  {
    if k == 0 then "#" else ColorPrefix(h, k - 1) + HexByte(ByteAt(h, k - 1))
  }

  /** The colour for a final hash value h. */
  function ColorOf(h: int): string {
    ColorPrefix(h, 3)
  }

  /** The colour of a name, as `stringToColor` is specified. */
  function StringColor(s: JsString): string {
    ColorOf(PolyHash(s))
  }

  /** `(hash >> (i * 8)) & 0xff` is byte i of hash's 32-bit pattern, for the
      first four bytes; the sign bits the shift copies in are masked away. */
  lemma ExtractByte(h: int, i: nat)
    requires i < 4
    ensures BitAnd(ShiftRight(h, i * 8), 0xff) == ByteAt(h, i)
  {
    var y := ShiftRight(h, i * 8);
    var p := Pow2(8 * i);
    assert ShiftCount(i * 8) == 8 * i;
    LowByteMask(y);
    var t, u := ToInt32(h), ToUint32(h);
    FloorDivUnique(t, p, y);
    if t != u {
      assert u == t + TwoTo32;
      Pow2Bytes();
      if i == 0 {
        ByteUnaffectedByWrap(t, p, 0x100_0000);
      } else if i == 1 {
        ByteUnaffectedByWrap(t, p, 0x1_0000);
      } else if i == 2 {
        ByteUnaffectedByWrap(t, p, 0x100);
      } else {
        ByteUnaffectedByWrap(t, p, 1);
      }
    }
  }

  lemma FloorDivUnique(t: int, p: int, y: int)
    requires p >= 1 && p * y <= t < p * (y + 1)
    ensures y == t / p
  {
    assert p * (y + 1) == p * y + p;
    DivModUnique(t, p, y, t - p * y);
  }

  /** Adding 2^32 does not change byte i of the quotient by 2^(8i) when the
      quotient of 2^32 by it is a multiple of 256. */
  lemma ByteUnaffectedByWrap(t: int, p: int, j: int)
    requires p >= 1 && p * (0x100 * j) == TwoTo32
    ensures (t / p) % 0x100 == ((t + TwoTo32) / p) % 0x100
  {
    var q, k := t / p, 0x100 * j;
    assert t == p * q + t % p;
    assert p * (q + k) == p * q + p * k;
    DivModUnique(t + TwoTo32, p, q + k, t % p);
    assert q == 0x100 * (q / 0x100) + q % 0x100;
    DivModUnique(q + k, 0x100, q / 0x100 + j, q % 0x100);
  }

  /** `("00" + b.toString(16)).slice(-2)` is the byte's two-digit form. */
  lemma PaddedHexByte(b: nat)
    requires b < 0x100
    ensures Slice("00" + ToHexString(b), -2) == HexByte(b)
  {
    if b >= 16 {
      assert ToHexString(b / 16) == [HexDigit(b / 16)];
    }
  }

  /** The colour of h spelled out: `#`, then bytes 0, 1 and 2 of h's 32-bit
      pattern, each as two hexadecimal digits, lowest byte first. */
  lemma ColorLayout(h: int)
    ensures ColorOf(h) == "#" + HexByte(ByteAt(h, 0)) + HexByte(ByteAt(h, 1)) + HexByte(ByteAt(h, 2))
  {
    assert ColorPrefix(h, 1) == "#" + HexByte(ByteAt(h, 0));
    assert ColorPrefix(h, 2) == ColorPrefix(h, 1) + HexByte(ByteAt(h, 1));
  }

  /** Every colour is seven characters: `#` and six lower-case hex digits. */
  lemma ColorShape(h: int)
    ensures |ColorOf(h)| == 7 && ColorOf(h)[0] == '#'
    ensures forall k :: 1 <= k < 7 ==> IsLowerHexDigit(ColorOf(h)[k])
  {
    ColorLayout(h);
  }

  /** The three components of a `#rrggbb` colour: `r` holds the first group. */
  datatype Rgb = Rgb(r: nat, g: nat, b: nat)

  /** Reads a `#` followed by six lower-case hexadecimal digits back into
      its three byte values; anything else is rejected. */
  function DecodeColor(c: string): Option<Rgb> {
    if |c| == 7 && c[0] == '#' && forall k :: 1 <= k < 7 ==> IsLowerHexDigit(c[k]) then
      Some(Rgb(16 * DigitValue(c[1]) + DigitValue(c[2]),
               16 * DigitValue(c[3]) + DigitValue(c[4]),
               16 * DigitValue(c[5]) + DigitValue(c[6])))
    else None
  }

  /** Decoding a colour gives back bytes 0, 1 and 2 of the hash, in that
      order: the first group is the lowest byte. */
  lemma ColorDecodes(h: int)
    ensures DecodeColor(ColorOf(h)) == Some(Rgb(ByteAt(h, 0), ByteAt(h, 1), ByteAt(h, 2)))
  {
    ColorLayout(h);
    ColorShape(h);
  }

  /** The low 24 bits of h, as the three bytes the colour shows. */
  lemma Low24Bytes(h: int)
    ensures h % 0x100_0000 == ByteAt(h, 0) + 0x100 * ByteAt(h, 1) + 0x1_0000 * ByteAt(h, 2)
  {
    Pow2Bytes();
    ThreeLowBytes(ToUint32(h));
    LowBitsOfPattern(h);
  }

  lemma ThreeLowBytes(u: nat)
    ensures u % 0x100_0000 == u % 0x100 + 0x100 * ((u / 0x100) % 0x100) + 0x1_0000 * ((u / 0x1_0000) % 0x100)
  {
    var b0, v := u % 0x100, u / 0x100;
    assert u == 0x100 * v + b0;
    var b1, w := v % 0x100, v / 0x100;
    assert v == 0x100 * w + b1;
    assert u == 0x1_0000 * w + (0x100 * b1 + b0);
    DivModUnique(u, 0x1_0000, w, 0x100 * b1 + b0);
    var b2, z := w % 0x100, w / 0x100;
    assert w == 0x100 * z + b2;
    assert u == 0x100_0000 * z + (0x1_0000 * b2 + 0x100 * b1 + b0);
    DivModUnique(u, 0x100_0000, z, 0x1_0000 * b2 + 0x100 * b1 + b0);
  }

  lemma LowBitsOfPattern(x: int)
    ensures (x % TwoTo32) % 0x100_0000 == x % 0x100_0000
  {
    var q, u := x / TwoTo32, x % TwoTo32;
    assert x == TwoTo32 * q + u;
    assert x == 0x100_0000 * (x / 0x100_0000) + x % 0x100_0000;
    assert u == 0x100_0000 * (x / 0x100_0000 - 0x100 * q) + x % 0x100_0000;
    DivModUnique(u, 0x100_0000, x / 0x100_0000 - 0x100 * q, x % 0x100_0000);
  }

  /** Three base-256 digits are recovered from the number they make. */
  lemma DigitsOfLow24(b0: nat, b1: nat, b2: nat)
    requires b0 < 0x100 && b1 < 0x100 && b2 < 0x100
    ensures var n := b0 + 0x100 * b1 + 0x1_0000 * b2;
      n % 0x100 == b0 && (n / 0x100) % 0x100 == b1 && n / 0x1_0000 == b2
  {
    var n := b0 + 0x100 * b1 + 0x1_0000 * b2;
    DivModUnique(n, 0x100, b1 + 0x100 * b2, b0);
    DivModUnique(b1 + 0x100 * b2, 0x100, b2, b1);
    DivModUnique(n, 0x1_0000, b2, b0 + 0x100 * b1);
  }

  /** Two hash values give the same colour exactly when they agree in their
      low 24 bits. */
  lemma ColorDeterminedByLow24(a: int, b: int)
    ensures ColorOf(a) == ColorOf(b) <==> a % 0x100_0000 == b % 0x100_0000
  {
    Low24Bytes(a);
    Low24Bytes(b);
    if ColorOf(a) == ColorOf(b) {
      ColorDecodes(a);
      ColorDecodes(b);
    }
    if a % 0x100_0000 == b % 0x100_0000 {
      DigitsOfLow24(ByteAt(a, 0), ByteAt(a, 1), ByteAt(a, 2));
      DigitsOfLow24(ByteAt(b, 0), ByteAt(b, 1), ByteAt(b, 2));
      ColorLayout(a);
      ColorLayout(b);
    }
  }

  /** Hash values with the same 32-bit pattern give the same colour. */
  lemma ColorOfPattern(a: int, b: int)
    requires Congruent32(a, b)
    ensures ColorOf(a) == ColorOf(b)
  {
    ColorLayout(a);
    ColorLayout(b);
  }

  /** `stringToColor`: the hash loop over the name's code units, then one
      two-digit group per low byte of the hash.  The result is the colour of
      the polynomial hash, so equal names get equal colours, and the empty
      name gets black. */
  method StringToColor(s: JsString) returns (color: string)
    ensures color == StringColor(s)
    ensures s == [] ==> color == "#000000"
  {
    var hash := 0;
    var i := 0;
    while i < |s|
      invariant 0 <= i <= |s|
      invariant hash == JsHash(s[..i])
    {
      assert s[..i + 1][..i] == s[..i];
      hash := s[i] + (ShiftLeft(hash, 5) - hash);
      i := i + 1;
    }
    assert s[..i] == s;

    color := "#";
    i := 0;
    while i < 3
      invariant 0 <= i <= 3
      invariant color == ColorPrefix(hash, i)
    {
      var value := BitAnd(ShiftRight(hash, i * 8), 0xff);
      ExtractByte(hash, i);
      PaddedHexByte(value);
      color := color + Slice("00" + ToHexString(value), -2);
      i := i + 1;
    }

    HashIsPolynomial(s);
    ColorOfPattern(hash, PolyHash(s));
    if s == [] {
      ColorLayout(0);
    }
  }

  // ---------------------------------------------------------------------------
  // stringAvatar

  /** The two layouts: the 40px chip used when `type === 'name'`, and the
      full-width banner otherwise. */
  datatype Variant = NameChip | Banner

  /** What `stringAvatar` returns, less its fixed style literals: the layout,
      `sx.bgcolor` and the text of `children`. */
  datatype AvatarProps = AvatarProps(variant: Variant, bgcolor: string, caption: JsString)

  /** "name" */
  const NameType: JsString := [0x6E, 0x61, 0x6D, 0x65]

  /** "..." */
  const Ellipsis: JsString := [0x2E, 0x2E, 0x2E]

  /** `stringAvatar(name, type)`: both layouts take their background from the
      name's colour and their label from the first three code units of the
      name (fewer if it is shorter) followed by "...". */
  function StringAvatar(name: JsString, kind: JsString): (p: AvatarProps)
    ensures p.variant == NameChip <==> kind == NameType
    ensures p.bgcolor == StringColor(name)
    ensures p.caption == name[..Min(3, |name|)] + Ellipsis
  {
    if kind == NameType then
      AvatarProps(NameChip, StringColor(name), Substring(name, 0, 3) + Ellipsis)
    else
      AvatarProps(Banner, StringColor(name), Substring(name, 0, 3) + Ellipsis)
  }
}
