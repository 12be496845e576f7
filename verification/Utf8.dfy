/** UTF-8 as in RFC 3629: the encoder and decoders of the library, the grammar of section 4, and why
    they agree.  Bit fields are written with division and remainder. */
module Utf8 {

  type Byte = b: int | 0 <= b < 256

  /** A `char`: a Unicode scalar value. */
  type Scalar = c: int | 0 <= c <= 0x10FFFF && !(0xD800 <= c <= 0xDFFF)

  function LenUtf8(c: Scalar): (n: nat)
    ensures 1 <= n <= 4
  {
    if c < 0x80 then 1 else if c < 0x800 then 2 else if c < 0x10000 then 3 else 4
  }

  /** `encode_utf8_raw`. */
  function Encode(c: Scalar): (r: seq<Byte>)
    ensures |r| == LenUtf8(c)
  {
    if c < 0x80 then [c]
    else if c < 0x800 then [0xC0 + c / 64, 0x80 + c % 64]
    else if c < 0x10000 then [0xE0 + c / 4096, 0x80 + c / 64 % 64, 0x80 + c % 64]
    else [0xF0 + c / 262144, 0x80 + c / 4096 % 64, 0x80 + c / 64 % 64, 0x80 + c % 64]
  }

  function EncodeAll(cs: seq<Scalar>): seq<Byte> {
    if cs == [] then [] else Encode(cs[0]) + EncodeAll(cs[1..])
  }

  predicate IsTail(b: Byte) {
    0x80 <= b <= 0xBF
  }

  function At(s: seq<Byte>, i: int): Byte {
    if 0 <= i < |s| then s[i] else 0
  }

  /** `next_code_point`: the first code point of bytes assumed to be UTF-8. */
  function DecodeFirst(s: seq<Byte>): int
    requires s != []
  {
    var x := s[0];
    if x < 0x80 then x
    else
      var y := At(s, 1) % 64;
      if x < 0xE0 then x % 32 * 64 + y
      else
        var yz := y * 64 + At(s, 2) % 64;
        if x < 0xF0 then x % 32 * 4096 + yz
        else x % 8 * 262144 + yz * 64 + At(s, 3) % 64
  }

  /** `next_code_point_reverse`: the last code point of bytes assumed to be UTF-8. */
  function DecodeLast(s: seq<Byte>): int
    requires s != []
  {
    var n := |s|;
    var w, z, y, x := s[n - 1], At(s, n - 2), At(s, n - 3), At(s, n - 4);
    if w < 0x80 then w
    else if !IsTail(z) then z % 32 * 64 + w % 64
    else if !IsTail(y) then (y % 16 * 64 + z % 64) * 64 + w % 64
    else ((x % 8 * 64 + y % 64) * 64 + z % 64) * 64 + w % 64
  }

  // -----------------------------------------------------------------------------------------
  // Encoding and decoding

  /** The six-bit digits of a number. */
  lemma Digits(c: nat)
    ensures c / 64 / 64 == c / 4096 && c / 64 / 64 / 64 == c / 262144
    ensures c == c / 64 * 64 + c % 64
    ensures c / 64 == c / 4096 * 64 + c / 64 % 64
    ensures c / 4096 == c / 262144 * 64 + c / 4096 % 64
  {
  }

  lemma Payload(x: nat)
    ensures x < 64 ==> (0x80 + x) % 64 == x
    ensures x < 32 ==> (0xC0 + x) % 32 == x
    ensures x < 16 ==> (0xE0 + x) % 32 == x && (0xE0 + x) % 16 == x
    ensures x < 8 ==> (0xF0 + x) % 8 == x
  {
  }

  /** The bytes of an encoding decode to the character, read from either end. */
  lemma DecodeBytes(c: Scalar)
    ensures DecodeFirst(Encode(c)) == c && DecodeLast(Encode(c)) == c
  {
    if 0x10000 <= c {
      DecodeFour(c);
    } else if 0x800 <= c {
      DecodeThree(c);
    } else if 0x80 <= c {
      Digits(c);
      Payload(c % 64);
      Payload(c / 64);
    }
  }

  lemma DecodeThree(c: Scalar)
    requires 0x800 <= c < 0x10000
    ensures DecodeFirst(Encode(c)) == c && DecodeLast(Encode(c)) == c
  {
    var x, y, z := c / 4096, c / 64 % 64, c % 64;
    assert c == x * 4096 + y * 64 + z && x < 16 by { Digits(c); }
    Payload(x);
    Payload(y);
    Payload(z);
    assert Encode(c) == [0xE0 + x, 0x80 + y, 0x80 + z];
  }

  lemma DecodeFour(c: Scalar)
    requires 0x10000 <= c
    ensures DecodeFirst(Encode(c)) == c && DecodeLast(Encode(c)) == c
  {
    var x, y, z, w := c / 262144, c / 4096 % 64, c / 64 % 64, c % 64;
    assert c == x * 262144 + y * 4096 + z * 64 + w && x < 8 by { Digits(c); }
    Payload(x);
    Payload(y);
    Payload(z);
    Payload(w);
    assert Encode(c) == [0xF0 + x, 0x80 + y, 0x80 + z, 0x80 + w];
  }

  lemma DecodeFirstEncode(c: Scalar, rest: seq<Byte>)
    ensures DecodeFirst(Encode(c) + rest) == c
  {
    DecodeBytes(c);
    FirstIsLocal(c, rest);
  }

  /** Decoding the first character looks no further than its bytes. */
  lemma FirstIsLocal(c: Scalar, rest: seq<Byte>)
    ensures DecodeFirst(Encode(c) + rest) == DecodeFirst(Encode(c))
  {
  }

  lemma DecodeLastEncode(front: seq<Byte>, c: Scalar)
    ensures DecodeLast(front + Encode(c)) == c
  {
    DecodeBytes(c);
    LastIsLocal(front, c);
  }

  lemma LastIsLocal(front: seq<Byte>, c: Scalar)
    ensures DecodeLast(front + Encode(c)) == DecodeLast(Encode(c))
  {
  }

  /** The first byte of a character is no tail byte, and all others are. */
  lemma EncodeShape(c: Scalar)
    ensures !IsTail(Encode(c)[0])
    ensures forall i :: 1 <= i < LenUtf8(c) ==> IsTail(Encode(c)[i])
  {
  }

  lemma {:induction false} EncodeConcat(a: seq<Scalar>, b: seq<Scalar>)
    ensures EncodeAll(a + b) == EncodeAll(a) + EncodeAll(b)
  {
    if a == [] {
      assert a + b == b;
    } else {
      assert (a + b)[1..] == a[1..] + b;
      EncodeConcat(a[1..], b);
    }
  }

  lemma EncodeCons(c: Scalar, cs: seq<Scalar>)
    ensures EncodeAll([c] + cs) == Encode(c) + EncodeAll(cs)
  {
  }

  lemma EncodeOne(c: Scalar)
    ensures EncodeAll([c]) == Encode(c)
  {
  }

  // -----------------------------------------------------------------------------------------
  // The grammar of RFC 3629, section 4

  /** The length of a `UTF8-char` at the start of `s`, or 0 if there is none. */
  function Production(s: seq<Byte>): nat {
    var a, b, c, d := At(s, 0), At(s, 1), At(s, 2), At(s, 3);
    if s == [] then 0
    else if a <= 0x7F then 1
    else if 0xC2 <= a <= 0xDF && IsTail(b) then 2
    else if a == 0xE0 && 0xA0 <= b <= 0xBF && IsTail(c) then 3
    else if 0xE1 <= a <= 0xEC && IsTail(b) && IsTail(c) then 3
    else if a == 0xED && 0x80 <= b <= 0x9F && IsTail(c) then 3
    else if 0xEE <= a <= 0xEF && IsTail(b) && IsTail(c) then 3
    else if a == 0xF0 && 0x90 <= b <= 0xBF && IsTail(c) && IsTail(d) then 4
    else if 0xF1 <= a <= 0xF3 && IsTail(b) && IsTail(c) && IsTail(d) then 4
    else if a == 0xF4 && 0x80 <= b <= 0x8F && IsTail(c) && IsTail(d) then 4
    else 0
  }

  /** `UTF8-octets = *( UTF8-char )`. */
  ghost predicate WellFormed(s: seq<Byte>)
    decreases |s|
  {
    s == [] || (0 < Production(s) <= |s| && WellFormed(s[Production(s)..]))
  }

  lemma EncodeIsProduction(c: Scalar, rest: seq<Byte>)
    ensures Production(Encode(c) + rest) == LenUtf8(c)
  {
    var e, s := Encode(c), Encode(c) + rest;
    EncodeAdmitted(c);
    assert At(s, 0) == e[0];
    assert |e| >= 2 ==> At(s, 1) == e[1];
    assert |e| >= 3 ==> At(s, 2) == e[2];
    assert |e| >= 4 ==> At(s, 3) == e[3];
    hide Encode;
  }

  /** The bytes of an encoding are those the grammar admits for its length. */
  lemma EncodeAdmitted(c: Scalar)
    ensures var e := Encode(c);
            && (|e| == 1 ==> e[0] < 0x80)
            && (|e| == 2 ==> 0xC2 <= e[0] <= 0xDF && IsTail(e[1]))
            && (|e| == 3 ==> && 0xE0 <= e[0] <= 0xEF && IsTail(e[1]) && IsTail(e[2])
                             && (e[0] == 0xE0 ==> 0xA0 <= e[1]) && (e[0] == 0xED ==> e[1] <= 0x9F))
            && (|e| == 4 ==> && 0xF0 <= e[0] <= 0xF4 && IsTail(e[1]) && IsTail(e[2]) && IsTail(e[3])
                             && (e[0] == 0xF0 ==> 0x90 <= e[1]) && (e[0] == 0xF4 ==> e[1] <= 0x8F))
  {
    Digits(c);
  }

  /** What the productions say about the bytes they cover. */
  lemma ProductionFits(s: seq<Byte>)
    requires 0 < Production(s)
    ensures Production(s) <= |s| && Production(s) <= 4
    ensures Production(s) == 1 ==> s[0] < 0x80
    ensures Production(s) == 2 ==> 0xC2 <= s[0] <= 0xDF && IsTail(s[1])
    ensures Production(s) == 3 ==>
              && 0xE0 <= s[0] <= 0xEF && IsTail(s[1]) && IsTail(s[2])
              && (s[0] == 0xE0 ==> 0xA0 <= s[1]) && (s[0] == 0xED ==> s[1] <= 0x9F)
    ensures Production(s) == 4 ==>
              && 0xF0 <= s[0] <= 0xF4 && IsTail(s[1]) && IsTail(s[2]) && IsTail(s[3])
              && (s[0] == 0xF0 ==> 0x90 <= s[1]) && (s[0] == 0xF4 ==> s[1] <= 0x8F)
  {
  }

  lemma TwoBytes(x: Byte, y: Byte)
    requires 0xC2 <= x <= 0xDF && IsTail(y)
    ensures var c := x % 32 * 64 + y % 64;
            0x80 <= c < 0x800 && x == 0xC0 + c / 64 && y == 0x80 + c % 64
  {
    assert x % 32 == x - 0xC0 && y % 64 == y - 0x80;
  }

  lemma ThreeBytes(x: Byte, y: Byte, z: Byte)
    requires 0xE0 <= x <= 0xEF && IsTail(y) && IsTail(z)
    requires (x == 0xE0 ==> 0xA0 <= y) && (x == 0xED ==> y <= 0x9F)
    ensures var c := x % 32 * 4096 + (y % 64 * 64 + z % 64);
            && 0x800 <= c < 0x10000 && !(0xD800 <= c <= 0xDFFF)
            && x == 0xE0 + c / 4096 && y == 0x80 + c / 64 % 64 && z == 0x80 + c % 64
  {
    Payload(x - 0xE0);
    Payload(y - 0x80);
    Payload(z - 0x80);
    Compose3(x - 0xE0, y - 0x80, z - 0x80);
  }

  lemma FourBytes(x: Byte, y: Byte, z: Byte, w: Byte)
    requires 0xF0 <= x <= 0xF4 && IsTail(y) && IsTail(z) && IsTail(w)
    requires (x == 0xF0 ==> 0x90 <= y) && (x == 0xF4 ==> y <= 0x8F)
    ensures var c := x % 8 * 262144 + (y % 64 * 64 + z % 64) * 64 + w % 64;
            && 0x10000 <= c <= 0x10FFFF
            && x == 0xF0 + c / 262144 && y == 0x80 + c / 4096 % 64 && z == 0x80 + c / 64 % 64 && w == 0x80 + c % 64
  {
    Payload(x - 0xF0);
    Payload(y - 0x80);
    Payload(z - 0x80);
    Payload(w - 0x80);
    var c := (x - 0xF0) * 262144 + ((y - 0x80) * 64 + (z - 0x80)) * 64 + (w - 0x80);
    assert c == x % 8 * 262144 + (y % 64 * 64 + z % 64) * 64 + w % 64;
    Compose4(x - 0xF0, y - 0x80, z - 0x80, w - 0x80);
  }

  /** A number put together from six-bit digits has those digits. */
  lemma Compose3(x: nat, y: nat, z: nat)
    requires y < 64 && z < 64
    ensures var c := x * 4096 + (y * 64 + z);
            c / 4096 == x && c / 64 % 64 == y && c % 64 == z && c / 64 == x * 64 + y
  {
    Recompose(x * 64 + y, z);
    Recompose(x, y);
    DivTwice((x * 64 + y) * 64 + z);
  }

  lemma Compose4(x: nat, y: nat, z: nat, w: nat)
    requires y < 64 && z < 64 && w < 64
    ensures var c := x * 262144 + (y * 64 + z) * 64 + w;
            c / 262144 == x && c / 4096 % 64 == y && c / 64 % 64 == z && c % 64 == w
  {
    Compose3(x * 64 + y, z, w);
    Recompose(x, y);
    ThirdDigit(x * 262144 + (y * 64 + z) * 64 + w);
  }

  lemma DivTwice(c: nat)
    ensures c / 64 / 64 == c / 4096
  {
  }

  lemma ThirdDigit(c: nat)
    ensures c / 262144 == c / 4096 / 64
  {
  }

  lemma Recompose(q: nat, r: nat)
    requires r < 64
    ensures (q * 64 + r) / 64 == q && (q * 64 + r) % 64 == r
  {
  }

  lemma OneEncoded(s: seq<Byte>)
    requires s != [] && s[0] < 0x80
    ensures DecodeFirst(s) == s[0] as int && s[..1] == Encode(DecodeFirst(s))
  {
    assert s[..1] == [s[0]];
  }

  lemma TwoEncoded(s: seq<Byte>)
    requires |s| >= 2 && 0xC2 <= s[0] <= 0xDF && IsTail(s[1])
    ensures 0x80 <= DecodeFirst(s) < 0x800 && s[..2] == Encode(DecodeFirst(s))
  {
    TwoBytes(s[0], s[1]);
    assert s[..2] == [s[0], s[1]];
  }

  lemma ThreeEncoded(s: seq<Byte>)
    requires |s| >= 3 && 0xE0 <= s[0] <= 0xEF && IsTail(s[1]) && IsTail(s[2])
    requires (s[0] == 0xE0 ==> 0xA0 <= s[1]) && (s[0] == 0xED ==> s[1] <= 0x9F)
    ensures var c := DecodeFirst(s);
            0x800 <= c < 0x10000 && !(0xD800 <= c <= 0xDFFF) && s[..3] == Encode(c)
  {
    ThreeBytes(s[0], s[1], s[2]);
    assert s[..3] == [s[0], s[1], s[2]];
  }

  lemma FourEncoded(s: seq<Byte>)
    requires |s| >= 4 && 0xF0 <= s[0] <= 0xF4 && IsTail(s[1]) && IsTail(s[2]) && IsTail(s[3])
    requires (s[0] == 0xF0 ==> 0x90 <= s[1]) && (s[0] == 0xF4 ==> s[1] <= 0x8F)
    ensures 0x10000 <= DecodeFirst(s) <= 0x10FFFF && s[..4] == Encode(DecodeFirst(s))
  {
    FourBytes(s[0], s[1], s[2], s[3]);
    assert s[..4] == [s[0], s[1], s[2], s[3]];
  }

  /** Whatever the grammar admits as a character is the encoding of the one that is decoded. */
  lemma ProductionIsEncode(s: seq<Byte>)
    requires 0 < Production(s)
    ensures Production(s) <= |s|
    ensures var c := DecodeFirst(s);
            0 <= c <= 0x10FFFF && !(0xD800 <= c <= 0xDFFF) && s[..Production(s)] == Encode(c)
  {
    hide Production, DecodeFirst, Encode;
    ProductionFits(s);
    match Production(s)
    case 1 => OneEncoded(s);
    case 2 => TwoEncoded(s);
    case 3 => ThreeEncoded(s);
    case _ => FourEncoded(s);
  }

  /** The characters of well-formed bytes, one after the other. */
  ghost function DecodeAll(s: seq<Byte>): (cs: seq<Scalar>)
    requires WellFormed(s)
    decreases |s|
  {
    if s == [] then []
    else
      ProductionIsEncode(s);
      [DecodeFirst(s)] + DecodeAll(s[Production(s)..])
  }

  /** What is encoded is well formed and decodes to itself. */
  lemma {:induction false} EncodeRoundTrip(cs: seq<Scalar>)
    ensures WellFormed(EncodeAll(cs)) && DecodeAll(EncodeAll(cs)) == cs
  {
    hide Production, DecodeFirst, Encode, LenUtf8;
    if cs != [] {
      var rest := EncodeAll(cs[1..]);
      var s := EncodeAll(cs);
      EncodeRoundTrip(cs[1..]);
      EncodeIsProduction(cs[0], rest);
      DecodeFirstEncode(cs[0], rest);
      assert s == Encode(cs[0]) + rest && s[LenUtf8(cs[0])..] == rest;
      assert Production(s) == LenUtf8(cs[0]);
    }
  }

  /** What is well formed is the encoding of what it decodes to. */
  lemma {:induction false} DecodeRoundTrip(s: seq<Byte>)
    requires WellFormed(s)
    ensures EncodeAll(DecodeAll(s)) == s
    decreases |s|
  {
    hide Production, DecodeFirst, Encode, LenUtf8;
    if s != [] {
      var n := Production(s);
      ProductionIsEncode(s);
      DecodeRoundTrip(s[n..]);
      EncodeCons(DecodeFirst(s), DecodeAll(s[n..]));
      assert s == s[..n] + s[n..];
    }
  }

  lemma EncodeInjective(a: seq<Scalar>, b: seq<Scalar>)
    requires EncodeAll(a) == EncodeAll(b)
    ensures a == b
  {
    EncodeRoundTrip(a);
    EncodeRoundTrip(b);
  }

  // -----------------------------------------------------------------------------------------
  // Character boundaries

  /** `is_char_boundary`. */
  predicate IsBoundary(s: seq<Byte>, i: nat) {
    i == 0 || i == |s| || (i < |s| && !IsTail(s[i]))
  }

  /** Where the `k`-th character starts. */
  ghost function Offset(cs: seq<Scalar>, k: nat): nat
    requires k <= |cs|
  {
    |EncodeAll(cs[..k])|
  }

  lemma Halves<T>(a: seq<T>, b: seq<T>)
    ensures (a + b)[..|a|] == a && (a + b)[|a|..] == b
  {
  }

  lemma SplitAt(cs: seq<Scalar>, k: nat)
    requires k <= |cs|
    ensures Offset(cs, k) <= |EncodeAll(cs)|
    ensures EncodeAll(cs)[..Offset(cs, k)] == EncodeAll(cs[..k])
    ensures EncodeAll(cs)[Offset(cs, k)..] == EncodeAll(cs[k..])
  {
    hide EncodeAll;
    EncodeConcat(cs[..k], cs[k..]);
    assert cs == cs[..k] + cs[k..];
    Halves(EncodeAll(cs[..k]), EncodeAll(cs[k..]));
  }

  /** Looking at one byte decides whether an index is the start of a character or the end. */
  lemma {:induction false} BoundaryIsOffset(cs: seq<Scalar>, i: nat)
    ensures IsBoundary(EncodeAll(cs), i) <==> exists k :: 0 <= k <= |cs| && Offset(cs, k) == i
  {
    if cs == [] {
      assert IsBoundary(EncodeAll(cs), i) ==> Offset(cs, 0) == i;
    } else if i == 0 {
      assert Offset(cs, 0) == 0;
    } else if i < LenUtf8(cs[0]) {
      InsideFirst(cs, i);
    } else {
      hide EncodeAll, IsBoundary, LenUtf8;
      BoundaryIsOffset(cs[1..], i - LenUtf8(cs[0]));
      BoundaryShift(cs, i);
      OffsetsShift(cs, i);
    }
  }

  lemma OffsetStep(cs: seq<Scalar>, k: nat)
    requires 0 < k <= |cs|
    ensures Offset(cs, k) == LenUtf8(cs[0]) + Offset(cs[1..], k - 1)
  {
    assert cs[..k][1..] == cs[1..][..k - 1];
  }

  /** No character starts inside the first one. */
  lemma InsideFirst(cs: seq<Scalar>, i: nat)
    requires cs != [] && 0 < i < LenUtf8(cs[0])
    ensures !IsBoundary(EncodeAll(cs), i) && forall k :: 0 <= k <= |cs| ==> Offset(cs, k) != i
  {
    EncodeShape(cs[0]);
    assert EncodeAll(cs)[i] == Encode(cs[0])[i] && i < |EncodeAll(cs)|;
    hide Encode;
    forall k | 0 <= k <= |cs|
      ensures Offset(cs, k) != i
    {
      if k > 0 { OffsetStep(cs, k); }
    }
  }

  lemma OffsetsShift(cs: seq<Scalar>, i: nat)
    requires cs != [] && LenUtf8(cs[0]) <= i
    ensures (exists k :: 0 <= k <= |cs| && Offset(cs, k) == i) <==>
            (exists k :: 0 <= k <= |cs[1..]| && Offset(cs[1..], k) == i - LenUtf8(cs[0]))
  {
    var rest, j := cs[1..], i - LenUtf8(cs[0]);
    if k :| 0 <= k <= |cs| && Offset(cs, k) == i {
      assert k > 0 by { assert Offset(cs, 0) == 0; }
      OffsetStep(cs, k);
      assert Offset(rest, k - 1) == j;
    }
    if k :| 0 <= k <= |rest| && Offset(rest, k) == j {
      OffsetStep(cs, k + 1);
      assert Offset(cs, k + 1) == i;
    }
  }

  lemma BoundaryBehind(a: seq<Byte>, b: seq<Byte>, j: nat)
    requires a != [] && (b != [] ==> !IsTail(b[0]))
    ensures IsBoundary(a + b, |a| + j) <==> IsBoundary(b, j)
  {
    if j < |b| { assert (a + b)[|a| + j] == b[j]; }
  }

  lemma HeadNotTail(cs: seq<Scalar>)
    ensures EncodeAll(cs) != [] ==> !IsTail(EncodeAll(cs)[0])
  {
    if cs != [] {
      EncodeShape(cs[0]);
      assert EncodeAll(cs)[0] == Encode(cs[0])[0];
    }
  }

  lemma BoundaryShift(cs: seq<Scalar>, i: nat)
    requires cs != [] && LenUtf8(cs[0]) <= i
    ensures IsBoundary(EncodeAll(cs), i) <==> IsBoundary(EncodeAll(cs[1..]), i - LenUtf8(cs[0]))
  {
    hide EncodeAll, Encode, LenUtf8;
    EncodeCons(cs[0], cs[1..]);
    EncodeShape(cs[0]);
    assert cs == [cs[0]] + cs[1..];
    HeadNotTail(cs[1..]);
    BoundaryBehind(Encode(cs[0]), EncodeAll(cs[1..]), i - LenUtf8(cs[0]));
  }
}
