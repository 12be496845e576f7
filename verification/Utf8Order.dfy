/** Comparing strings byte by byte compares them character by character.  Together with the grammar
    this fixes the encoding: no other assignment of the grammar's byte sequences to characters keeps
    the order. */
module Utf8Order {
  import opened Utf8

  /** Lexicographic order, as `Ord` for slices defines it. */
  ghost predicate Below(a: seq<int>, b: seq<int>) {
    b != [] && (a == [] || a[0] < b[0] || (a[0] == b[0] && Below(a[1..], b[1..])))
  }

  /** `e` and `f` differ first at `i`, where `e` is less. */
  ghost predicate FirstDiff(e: seq<int>, f: seq<int>, i: nat) {
    i < |e| && i < |f| && e[..i] == f[..i] && e[i] < f[i]
  }

  lemma {:induction false} DiffDecides(e: seq<int>, f: seq<int>, i: nat, x: seq<int>, y: seq<int>)
    requires FirstDiff(e, f, i)
    ensures Below(e + x, f + y) && !Below(f + y, e + x)
    decreases i
  {
    if i > 0 {
      assert e[0] == e[..i][0] == f[0];
      assert e[1..][..i - 1] == e[..i][1..] && f[1..][..i - 1] == f[..i][1..];
      assert (e + x)[1..] == e[1..] + x && (f + y)[1..] == f[1..] + y;
      DiffDecides(e[1..], f[1..], i - 1, x, y);
    }
  }

  lemma {:induction false} SameFront(e: seq<int>, x: seq<int>, y: seq<int>)
    ensures Below(e + x, e + y) <==> Below(x, y)
  {
    if e == [] {
      assert e + x == x && e + y == y;
    } else {
      assert (e + x)[1..] == e[1..] + x && (e + y)[1..] == e[1..] + y;
      SameFront(e[1..], x, y);
    }
  }

  lemma DigitOrder(a: nat, b: nat)
    requires a < b
    ensures a / 64 < b / 64 || (a / 64 == b / 64 && a % 64 < b % 64)
  {
  }

  /** The lesser of two characters has the lesser bytes, decided before either ends. */
  lemma EncodeOrder(a: Scalar, b: Scalar) returns (i: nat)
    requires a < b
    ensures FirstDiff(Encode(a), Encode(b), i)
  {
    if LenUtf8(a) != LenUtf8(b) {
      i := 0;
      LongerIsGreater(a, b);
    } else if b < 0x80 {
      i := 0;
    } else if b < 0x800 {
      DigitOrder(a, b);
      i := if a / 64 < b / 64 then 0 else 1;
    } else if b < 0x10000 {
      i := ThreeOrder(a, b);
    } else {
      i := FourOrder(a, b);
    }
  }

  lemma LongerIsGreater(a: Scalar, b: Scalar)
    requires a < b && LenUtf8(a) != LenUtf8(b)
    ensures Encode(a)[0] < Encode(b)[0]
  {
    EncodeAdmitted(a);
    EncodeAdmitted(b);
    hide Encode;
  }

  lemma ThreeOrder(a: Scalar, b: Scalar) returns (i: nat)
    requires 0x800 <= a < b < 0x10000
    ensures FirstDiff(Encode(a), Encode(b), i)
  {
    ThreeDigits(a, b);
    i := if a / 4096 < b / 4096 then 0 else if a / 64 % 64 < b / 64 % 64 then 1 else 2;
  }

  lemma ThreeDigits(a: nat, b: nat)
    requires a < b
    ensures || a / 4096 < b / 4096
            || (a / 4096 == b / 4096 && a / 64 % 64 < b / 64 % 64)
            || (a / 4096 == b / 4096 && a / 64 % 64 == b / 64 % 64 && a % 64 < b % 64)
  {
    DivTwice(a);
    DivTwice(b);
    DigitOrder(a, b);
    if a / 64 < b / 64 { DigitOrder(a / 64, b / 64); }
  }

  lemma FourOrder(a: Scalar, b: Scalar) returns (i: nat)
    requires 0x10000 <= a < b
    ensures FirstDiff(Encode(a), Encode(b), i)
  {
    ThreeDigits(a, b);
    ThirdDigit(a);
    ThirdDigit(b);
    if a / 4096 < b / 4096 {
      DigitOrder(a / 4096, b / 4096);
      i := if a / 262144 < b / 262144 then 0 else 1;
    } else {
      i := if a / 64 % 64 < b / 64 % 64 then 2 else 3;
    }
  }

  /** The byte order of strings is the order of their characters in the code charts. */
  lemma {:induction false} ByteOrderIsCharOrder(cs: seq<Scalar>, ds: seq<Scalar>)
    ensures Below(EncodeAll(cs), EncodeAll(ds)) <==> Below(cs, ds)
  {
    hide Encode;
    if cs != [] && ds != [] {
      var x, y := EncodeAll(cs[1..]), EncodeAll(ds[1..]);
      if cs[0] == ds[0] {
        SameFront(Encode(cs[0]), x, y);
        ByteOrderIsCharOrder(cs[1..], ds[1..]);
      } else if cs[0] < ds[0] {
        var i := EncodeOrder(cs[0], ds[0]);
        DiffDecides(Encode(cs[0]), Encode(ds[0]), i, x, y);
      } else {
        var i := EncodeOrder(ds[0], cs[0]);
        DiffDecides(Encode(ds[0]), Encode(cs[0]), i, y, x);
      }
    }
  }

  lemma EncodeOrderIff(a: Scalar, b: Scalar)
    ensures Below(Encode(a), Encode(b)) <==> a < b
  {
    ByteOrderIsCharOrder([a], [b]);
    EncodeOne(a);
    EncodeOne(b);
  }

  // -----------------------------------------------------------------------------------------
  // No other encoding

  ghost predicate Increasing(g: Scalar -> Scalar) {
    forall a: Scalar, b: Scalar :: a < b ==> g(a) < g(b)
  }

  lemma {:induction false} AtLeast(g: Scalar -> Scalar, c: Scalar)
    requires Increasing(g)
    ensures c <= g(c)
    decreases c
  {
    if c > 0 {
      var p: Scalar := if c == 0xE000 then 0xD7FF else c - 1;
      AtLeast(g, p);
      assert g(p) < g(c);
    }
  }

  lemma {:induction false} AtMost(g: Scalar -> Scalar, c: Scalar)
    requires Increasing(g)
    ensures g(c) <= c
    decreases 0x10FFFF - c
  {
    if c < 0x10FFFF {
      var p: Scalar := if c == 0xD7FF then 0xE000 else c + 1;
      AtMost(g, p);
      assert g(c) < g(p);
    }
  }

  /** An encoder that writes one `UTF8-char` of the grammar for each character and keeps their order
      is this one. */
  lemma OnlyEncoding(f: Scalar -> seq<Byte>, c: Scalar)
    requires forall a: Scalar :: f(a) != [] && Production(f(a)) == |f(a)|
    requires forall a: Scalar, b: Scalar :: a < b ==> Below(f(a), f(b))
    ensures f(c) == Encode(c)
  {
    hide Production, Encode, DecodeFirst;
    forall a: Scalar
      ensures 0 <= DecodeFirst(f(a)) <= 0x10FFFF && !(0xD800 <= DecodeFirst(f(a)) <= 0xDFFF)
      ensures f(a) == Encode(DecodeFirst(f(a)))
    {
      ProductionIsEncode(f(a));
      assert f(a)[..|f(a)|] == f(a);
    }
    var g: Scalar -> Scalar := (a: Scalar) =>
      assert f(a) == Encode(DecodeFirst(f(a))); DecodeFirst(f(a));
    forall a: Scalar, b: Scalar | a < b
      ensures g(a) < g(b)
    {
      EncodeOrderIff(g(a), g(b));
    }
    AtLeast(g, c);
    AtMost(g, c);
  }
}
