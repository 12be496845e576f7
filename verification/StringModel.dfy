/** `String`: edits of a byte buffer that keep it UTF-8, and the edits of the characters they stand
    for.  Indices are byte offsets; `Offset(chars, k)` is where the `k`-th character starts. */
module StringModel {
  import opened Wrappers
  import opened Utf8

  datatype Verdict = Keep | Discard | Panic

  /** `ptr::copy` of `n` bytes inside a buffer. */
  function Copied(s: seq<Byte>, src: nat, dst: nat, n: nat): (r: seq<Byte>)
    requires src + n <= |s| && dst + n <= |s|
    ensures |r| == |s|
  {
    s[..dst] + s[src..src + n] + s[dst + n..]
  }

  /** The characters the closure keeps, the `n`-th call being the first. */
  ghost function Kept(f: (nat, Scalar) -> Verdict, n: nat, cs: seq<Scalar>): seq<Scalar>
    decreases |cs|
  {
    if cs == [] then []
    else if f(n, cs[0]) == Keep then [cs[0]] + Kept(f, n + 1, cs[1..])
    else Kept(f, n + 1, cs[1..])
  }

  ghost predicate Panics(f: (nat, Scalar) -> Verdict, n: nat, cs: seq<Scalar>)
    decreases |cs|
  {
    cs != [] && (f(n, cs[0]) == Panic || Panics(f, n + 1, cs[1..]))
  }

  lemma {:induction false} KeptSnoc(f: (nat, Scalar) -> Verdict, n: nat, cs: seq<Scalar>, c: Scalar)
    ensures Kept(f, n, cs + [c]) == Kept(f, n, cs) + if f(n + |cs|, c) == Keep then [c] else []
    ensures Panics(f, n, cs + [c]) <==> Panics(f, n, cs) || f(n + |cs|, c) == Panic
    decreases |cs|
  {
    if cs == [] {
      assert (cs + [c])[1..] == [];
    } else {
      assert (cs + [c])[1..] == cs[1..] + [c];
      KeptSnoc(f, n + 1, cs[1..], c);
    }
  }

  /** Panicking once decides for every longer sequence. */
  lemma {:induction false} PanicsEarly(f: (nat, Scalar) -> Verdict, n: nat, cs: seq<Scalar>, k: nat)
    requires k < |cs| && f(n + k, cs[k]) == Panic
    ensures Panics(f, n, cs)
    decreases k
  {
    if k > 0 { PanicsEarly(f, n + 1, cs[1..], k - 1); }
  }

  lemma OffsetNext(cs: seq<Scalar>, k: nat)
    requires k < |cs|
    ensures Offset(cs, k + 1) == Offset(cs, k) + LenUtf8(cs[k])
  {
    assert cs[..k + 1] == cs[..k] + [cs[k]];
    EncodeConcat(cs[..k], [cs[k]]);
    EncodeOne(cs[k]);
  }

  /** A byte offset belongs to at most one character. */
  lemma {:induction false} OffsetInjective(cs: seq<Scalar>, j: nat, k: nat)
    requires j < k <= |cs|
    ensures Offset(cs, j) < Offset(cs, k)
    decreases k
  {
    OffsetNext(cs, k - 1);
    if j < k - 1 { OffsetInjective(cs, j, k - 1); }
  }

  /** The character that a boundary starts, if it is not the end. */
  lemma CharAt(cs: seq<Scalar>, k: nat)
    requires k < |cs|
    ensures Offset(cs, k) < |EncodeAll(cs)|
    ensures DecodeFirst(EncodeAll(cs)[Offset(cs, k)..]) == cs[k]
  {
    SplitAt(cs, k);
    DecodeFirstEncode(cs[k], EncodeAll(cs[k + 1..]));
    assert cs[k..][1..] == cs[k + 1..];
  }

  /** The last character is decoded from the end and takes up the last bytes. */
  lemma LastChar(cs: seq<Scalar>)
    requires cs != []
    ensures var n, s := |cs| - 1, EncodeAll(cs);
            && s != [] && DecodeLast(s) == cs[n] && LenUtf8(cs[n]) <= |s|
            && s[..|s| - LenUtf8(cs[n])] == EncodeAll(cs[..n])
  {
    hide DecodeLast, Encode;
    var n := |cs| - 1;
    assert cs == cs[..n] + [cs[n]];
    EncodeConcat(cs[..n], [cs[n]]);
    EncodeOne(cs[n]);
    DecodeLastEncode(EncodeAll(cs[..n]), cs[n]);
  }

  class Utf8String {
    var buf: seq<Byte>          // as long as the capacity
    var len: nat
    ghost var chars: seq<Scalar>

    /** The bytes in use are the encoding of the characters, hence well formed. */
    ghost predicate Valid()
      reads this
    {
      len <= |buf| && buf[..len] == EncodeAll(chars)
    }

    constructor ()
      ensures Valid() && chars == []
    {
      buf, len, chars := [], 0, [];
    }

    method Reserve(additional: nat)
      requires Valid()
      modifies this`buf
      ensures Valid() && |buf| >= len + additional && buf[..len] == old(buf[..len])
    {
      if |buf| - len < additional {
        buf := buf + seq(len + additional - |buf|, _ => 0);
      }
    }

    /** `push`. */
    method Push(c: Scalar)
      requires Valid()
      modifies this
      ensures Valid() && chars == old(chars) + [c]
    {
      var e := Encode(c);
      Reserve(|e|);
      EncodeConcat(chars, [c]);
      EncodeOne(c);
      buf := buf[..len] + e + buf[len + |e|..];
      len := len + |e|;
      chars := chars + [c];
      assert buf[..len] == EncodeAll(chars);
    }

    /** `pop`. */
    method Pop() returns (r: Option<int>)
      requires Valid()
      modifies this`len, this`chars
      ensures Valid()
      ensures old(chars) == [] ==> r == None && chars == []
      ensures old(chars) != [] ==>
                r == Some(old(chars)[|old(chars)| - 1]) && chars == old(chars)[..|old(chars)| - 1]
    {
      hide DecodeLast, LenUtf8, Encode;
      if len == 0 {
        assert chars == [];
        return None;
      }
      assert chars != [];
      hide EncodeAll;
      ghost var n := |chars| - 1;
      LastChar(chars);
      var c := DecodeLast(buf[..len]);
      var newLen := len - LenUtf8(c);
      assert buf[..newLen] == buf[..len][..newLen];
      len := newLen;
      chars := chars[..n];
      r := Some(c);
    }

    /** `remove`; `None` is a panic: the index is no boundary, out of range, or the end. */
    method Remove(idx: nat) returns (r: Option<int>)
      requires Valid()
      modifies this
      ensures Valid()
      ensures r.None? ==> chars == old(chars)
      ensures r.Some? <==> exists k :: 0 <= k < |old(chars)| && Offset(old(chars), k) == idx
      ensures forall k :: 0 <= k < |old(chars)| && Offset(old(chars), k) == idx ==>
                r == Some(old(chars)[k]) && chars == old(chars)[..k] + old(chars)[k + 1..]
    {
      hide EncodeAll, Offset, IsBoundary, DecodeFirst, Copied;
      ghost var cs := chars;
      BoundaryIsOffset(cs, idx);
      EndIsLast(cs, idx);
      if !IsBoundary(buf[..len], idx) || idx >= len {
        return None;
      }
      ghost var k: nat :| 0 <= k <= |cs| && Offset(cs, k) == idx;
      assert k < |cs|;
      CharAt(cs, k);
      OffsetNext(cs, k);
      OthersDiffer(cs, k);
      RemoveBytes(buf, len, cs, k);
      var c := DecodeFirst(buf[..len][idx..]);
      var next := idx + LenUtf8(c);
      buf := Copied(buf, next, idx, len - next);
      len := len - (next - idx);
      chars := cs[..k] + cs[k + 1..];
      r := Some(c);
    }

    /** `insert`; `false` is the panic on an index that is no boundary. */
    method Insert(idx: nat, c: Scalar) returns (ok: bool)
      requires Valid()
      modifies this
      ensures Valid()
      ensures !ok ==> chars == old(chars)
      ensures ok <==> exists k :: 0 <= k <= |old(chars)| && Offset(old(chars), k) == idx
      ensures forall k :: 0 <= k <= |old(chars)| && Offset(old(chars), k) == idx ==>
                chars == old(chars)[..k] + [c] + old(chars)[k..]
    {
      hide EncodeAll, Offset, IsBoundary, Copied, Encode;
      ghost var cs := chars;
      BoundaryIsOffset(cs, idx);
      if !IsBoundary(buf[..len], idx) {
        return false;
      }
      ghost var k: nat :| 0 <= k <= |cs| && Offset(cs, k) == idx;
      OthersDifferEnd(cs, k);
      SplitAt(cs, k);
      InsertBytes(idx, Encode(c), cs, k, c);
      ok := true;
    }

    /** `insert_bytes`: the tail moves up, and the bytes go into the gap. */
    method InsertBytes(idx: nat, bytes: seq<Byte>, ghost cs: seq<Scalar>, ghost k: nat, ghost c: Scalar)
      requires Valid() && chars == cs && k <= |cs| && Offset(cs, k) == idx <= len && bytes == Encode(c)
      modifies this
      ensures Valid() && chars == cs[..k] + [c] + cs[k..]
    {
      hide EncodeAll, Offset, Encode;
      var amt := |bytes|;
      Reserve(amt);
      InsertedBytes(buf, len, cs, k, c);
      buf := Copied(buf, idx, idx + amt, len - idx);
      buf := buf[..idx] + bytes + buf[idx + amt..];
      len := len + amt;
      chars := cs[..k] + [c] + cs[k..];
    }

    /** `truncate`; `false` is the panic on an index inside a character. */
    method Truncate(newLen: nat) returns (ok: bool)
      requires Valid()
      modifies this`len, this`chars
      ensures Valid()
      ensures newLen > old(len) ==> ok && chars == old(chars)
      ensures !ok ==> chars == old(chars)
      ensures newLen <= old(len) ==> (ok <==> exists k :: 0 <= k <= |old(chars)| && Offset(old(chars), k) == newLen)
      ensures newLen <= old(len) ==>
                forall k :: 0 <= k <= |old(chars)| && Offset(old(chars), k) == newLen ==> chars == old(chars)[..k]
    {
      hide EncodeAll, Offset, IsBoundary;
      if newLen > len {
        return true;
      }
      BoundaryIsOffset(chars, newLen);
      if !IsBoundary(buf[..len], newLen) {
        return false;
      }
      ghost var k: nat :| 0 <= k <= |chars| && Offset(chars, k) == newLen;
      OthersDifferEnd(chars, k);
      SplitAt(chars, k);
      assert buf[..newLen] == buf[..len][..newLen];
      len := newLen;
      chars := chars[..k];
      ok := true;
    }

    /** `split_off`; `None` is the panic on an index that is no boundary. */
    method SplitOff(at: nat) returns (r: Option<Utf8String>)
      requires Valid()
      modifies this`len, this`chars
      ensures Valid()
      ensures r.None? ==> chars == old(chars)
      ensures r.Some? <==> exists k :: 0 <= k <= |old(chars)| && Offset(old(chars), k) == at
      ensures r.Some? ==> fresh(r.value) && r.value.Valid()
      ensures forall k :: 0 <= k <= |old(chars)| && Offset(old(chars), k) == at ==>
                r.Some? && chars == old(chars)[..k] && r.value.chars == old(chars)[k..]
    {
      hide EncodeAll, Offset, IsBoundary;
      BoundaryIsOffset(chars, at);
      if !IsBoundary(buf[..len], at) {
        return None;
      }
      ghost var k: nat :| 0 <= k <= |chars| && Offset(chars, k) == at;
      OthersDifferEnd(chars, k);
      SplitAt(chars, k);
      assert buf[..at] == buf[..len][..at];
      var other := new Utf8String();
      other.buf := buf[..len][at..];
      other.len := |other.buf|;
      other.chars := chars[k..];
      assert other.buf[..other.len] == other.buf;
      len := at;
      chars := chars[..k];
      r := Some(other);
    }

    /** `drain` and the drop of the iterator: the range goes, character by character, if both its
        ends are boundaries; `false` is a panic.  An iterator that is `leaked` removes nothing. */
    method Drain(start: nat, end: nat, leaked: bool) returns (ok: bool)
      requires Valid()
      modifies this
      ensures Valid()
      ensures !ok || leaked ==> chars == old(chars)
      ensures ok <==> exists j, k :: 0 <= j <= k <= |old(chars)| &&
                                     Offset(old(chars), j) == start && Offset(old(chars), k) == end
      ensures !leaked ==>
                forall j, k :: 0 <= j <= k <= |old(chars)| &&
                               Offset(old(chars), j) == start && Offset(old(chars), k) == end ==>
                  chars == old(chars)[..j] + old(chars)[k..]
    {
      hide EncodeAll, Offset, IsBoundary;
      ghost var cs := chars;
      BoundaryIsOffset(cs, start);
      BoundaryIsOffset(cs, end);
      if !(start <= end && end <= len) || !IsBoundary(buf[..len], start) || !IsBoundary(buf[..len], end) {
        NoRange(cs, start, end);
        return false;
      }
      ghost var j: nat :| 0 <= j <= |cs| && Offset(cs, j) == start;
      ghost var k: nat :| 0 <= k <= |cs| && Offset(cs, k) == end;
      OthersDifferEnd(cs, j);
      OthersDifferEnd(cs, k);
      if k < j { OffsetInjective(cs, k, j); }
      ok := true;
      if leaked {
        return;
      }
      DrainedBytes(buf, len, cs, j, k);
      buf := buf[..start] + buf[end..];
      len := len - (end - start);
      chars := cs[..j] + cs[k..];
    }

    /** `retain`: the characters the closure keeps, in order.  The length is zero while the closure
        runs, so a panic leaves the string empty but valid. */
    method Retain(f: (nat, Scalar) -> Verdict) returns (panicked: bool)
      requires Valid()
      modifies this
      ensures Valid()
      ensures panicked <==> Panics(f, 0, old(chars))
      ensures chars == if panicked then [] else Kept(f, 0, old(chars))
    {
      hide EncodeAll, Kept, Panics, Copied;
      var n := len;
      ghost var cs := chars;
      len, chars := 0, [];
      var del, idx, k := 0, 0, 0;
      SieveStart(f, buf, n, cs);
      panicked := false;
      while idx < n
        invariant n <= |buf| && 0 <= del <= idx <= n && k <= |cs| && len == 0 && chars == []
        invariant Sieved(f, buf, n, cs, k, idx, del)
        decreases n - idx
      {
        SieveHead(f, buf, n, cs, k, idx, del);
        var c := DecodeFirst(buf[idx..n]);
        var chLen := LenUtf8(c);
        var v := f(k, c);
        if v == Panic {
          PanicsEarly(f, 0, cs, k);
          EncodeNothing(buf);
          panicked := true;
          return;
        }
        SieveStep(f, buf, n, cs, k, idx, del);
        if v == Discard {
          del := del + chLen;
        } else if del > 0 {
          buf := Copied(buf, idx, idx - del, chLen);
        }
        idx, k := idx + chLen, k + 1;
      }
      SieveEnd(f, buf, n, cs, k, del);
      len, chars := n - del, Kept(f, 0, cs);
    }
  }

  /** Only the end of the string is the offset of no character. */
  lemma EndIsLast(cs: seq<Scalar>, idx: nat)
    ensures idx >= |EncodeAll(cs)| ==> forall k :: 0 <= k < |cs| ==> Offset(cs, k) != idx
    ensures idx < |EncodeAll(cs)| ==> Offset(cs, |cs|) != idx
  {
    assert cs[..|cs|] == cs;
    forall k | 0 <= k < |cs|
      ensures Offset(cs, k) < |EncodeAll(cs)|
    {
      OffsetInjective(cs, k, |cs|);
    }
  }

  lemma OthersDiffer(cs: seq<Scalar>, k: nat)
    requires k < |cs|
    ensures forall j :: 0 <= j < |cs| && Offset(cs, j) == Offset(cs, k) ==> j == k
  {
    forall j | 0 <= j < |cs| && j != k
      ensures Offset(cs, j) != Offset(cs, k)
    {
      if j < k { OffsetInjective(cs, j, k); } else { OffsetInjective(cs, k, j); }
    }
  }

  /** Closing the gap of the `k`-th character. */
  lemma RemoveBytes(buf: seq<Byte>, len: nat, cs: seq<Scalar>, k: nat)
    requires len <= |buf| && buf[..len] == EncodeAll(cs) && k < |cs|
    ensures var idx, next := Offset(cs, k), Offset(cs, k + 1);
            && idx <= next <= len
            && Copied(buf, next, idx, len - next)[..len - (next - idx)] == EncodeAll(cs[..k] + cs[k + 1..])
  {
    hide EncodeAll, Offset, Copied;
    OffsetNext(cs, k);
    SplitAt(cs, k);
    SplitAt(cs, k + 1);
    EncodeConcat(cs[..k], cs[k + 1..]);
    ShiftedDown(buf, len, Offset(cs, k), Offset(cs, k + 1));
  }

  lemma ShiftedDown(buf: seq<Byte>, len: nat, idx: nat, next: nat)
    requires idx <= next <= len <= |buf|
    ensures Copied(buf, next, idx, len - next)[..len - (next - idx)] == buf[..len][..idx] + buf[..len][next..]
  {
    assert buf[..len][..idx] == buf[..idx] && buf[..len][next..] == buf[next..next + (len - next)];
  }

  lemma OthersDifferEnd(cs: seq<Scalar>, k: nat)
    requires k <= |cs|
    ensures forall j :: 0 <= j <= |cs| && Offset(cs, j) == Offset(cs, k) ==> j == k
  {
    forall j | 0 <= j <= |cs| && j != k
      ensures Offset(cs, j) != Offset(cs, k)
    {
      if j < k { OffsetInjective(cs, j, k); } else { OffsetInjective(cs, k, j); }
    }
  }

  lemma EncodeNothing(buf: seq<Byte>)
    ensures buf[..0] == EncodeAll([])
  {
  }

  /** The buffer after the tail has moved up and the bytes are written into the gap. */
  function Inserted(buf: seq<Byte>, len: nat, idx: nat, e: seq<Byte>): (r: seq<Byte>)
    requires idx <= len && len + |e| <= |buf|
    ensures |r| == |buf|
  {
    var moved := Copied(buf, idx, idx + |e|, len - idx);
    moved[..idx] + e + moved[idx + |e|..]
  }

  lemma TakeThird<T>(a: seq<T>, b: seq<T>, c: seq<T>, n: nat)
    requires n <= |c|
    ensures (a + b + c)[..|a| + |b| + n] == a + b + c[..n]
  {
  }

  lemma GapFilled(buf: seq<Byte>, len: nat, idx: nat, e: seq<Byte>)
    requires idx <= len && len + |e| <= |buf|
    ensures Inserted(buf, len, idx, e)[..len + |e|] == buf[..len][..idx] + e + buf[..len][idx..]
  {
    var moved := Copied(buf, idx, idx + |e|, len - idx);
    assert moved[..idx] == buf[..idx] == buf[..len][..idx];
    assert moved[idx + |e|..][..len - idx] == buf[idx..len] == buf[..len][idx..];
    TakeThird(moved[..idx], e, moved[idx + |e|..], len - idx);
  }

  /** Inserting the bytes of one more character. */
  lemma InsertedBytes(buf: seq<Byte>, len: nat, cs: seq<Scalar>, k: nat, c: Scalar)
    requires len + LenUtf8(c) <= |buf| && buf[..len] == EncodeAll(cs) && k <= |cs|
    ensures Offset(cs, k) <= len
    ensures Inserted(buf, len, Offset(cs, k), Encode(c))[..len + LenUtf8(c)] == EncodeAll(cs[..k] + [c] + cs[k..])
  {
    hide Encode, EncodeAll, Inserted, Offset;
    SplitAt(cs, k);
    EncodeAround(cs[..k], c, cs[k..]);
    GapFilled(buf, len, Offset(cs, k), Encode(c));
  }

  lemma EncodeAround(a: seq<Scalar>, c: Scalar, b: seq<Scalar>)
    ensures EncodeAll(a + [c] + b) == EncodeAll(a) + Encode(c) + EncodeAll(b)
  {
    hide EncodeAll, Encode;
    EncodeConcat(a + [c], b);
    EncodeConcat(a, [c]);
    EncodeOne(c);
  }

  lemma NoRange(cs: seq<Scalar>, start: nat, end: nat)
    requires || start > end || end > |EncodeAll(cs)|
             || !IsBoundary(EncodeAll(cs), start) || !IsBoundary(EncodeAll(cs), end)
    ensures !exists j, k :: 0 <= j <= k <= |cs| && Offset(cs, j) == start && Offset(cs, k) == end
  {
    BoundaryIsOffset(cs, start);
    BoundaryIsOffset(cs, end);
    forall j, k | 0 <= j <= k <= |cs|
      ensures Offset(cs, j) <= Offset(cs, k) <= |EncodeAll(cs)|
    {
      if j < k { OffsetInjective(cs, j, k); }
      SplitAt(cs, k);
    }
  }

  lemma GapClosed(buf: seq<Byte>, len: nat, e: seq<Byte>, start: nat, end: nat, a: seq<Byte>, z: seq<Byte>)
    requires start <= end <= len <= |buf| && buf[..len] == e && e[..start] == a && e[end..] == z
    ensures (buf[..start] + buf[end..])[..len - (end - start)] == a + z
  {
    assert buf[..start] == e[..start] && buf[end..][..len - end] == e[end..];
    assert (buf[..start] + buf[end..])[..len - (end - start)] == buf[..start] + buf[end..][..len - end];
  }

  lemma DrainedBytes(buf: seq<Byte>, len: nat, cs: seq<Scalar>, j: nat, k: nat)
    requires len <= |buf| && buf[..len] == EncodeAll(cs) && j <= k <= |cs|
    ensures var start, end := Offset(cs, j), Offset(cs, k);
            && start <= end <= len
            && (buf[..start] + buf[end..])[..len - (end - start)] == EncodeAll(cs[..j] + cs[k..])
  {
    hide EncodeAll, Offset;
    var e, start, end := EncodeAll(cs), Offset(cs, j), Offset(cs, k);
    var a, z := EncodeAll(cs[..j]), EncodeAll(cs[k..]);
    assert start <= end by { if j < k { OffsetInjective(cs, j, k); } }
    assert e[..start] == a by { SplitAt(cs, j); }
    assert end <= len && e[end..] == z by { SplitAt(cs, k); }
    EncodeConcat(cs[..j], cs[k..]);
    GapClosed(buf, len, e, start, end, a, z);
  }

  // -----------------------------------------------------------------------------------------
  // retain

  /** Where `retain` stands after `k` characters: the kept ones encoded at the front, the rest of the
      original from `idx` on. */
  ghost predicate Sieved(f: (nat, Scalar) -> Verdict, buf: seq<Byte>, n: nat, cs: seq<Scalar>, k: nat, idx: nat,
                         del: nat) {
    && del <= idx <= n <= |buf| && k <= |cs|
    && buf[..idx - del] == EncodeAll(Kept(f, 0, cs[..k]))
    && buf[idx..n] == EncodeAll(cs[k..])
    && !Panics(f, 0, cs[..k])
  }

  lemma SieveStart(f: (nat, Scalar) -> Verdict, buf: seq<Byte>, n: nat, cs: seq<Scalar>)
    requires n <= |buf| && buf[..n] == EncodeAll(cs)
    ensures Sieved(f, buf, n, cs, 0, 0, 0)
  {
  }

  /** There is a next character, and decoding finds it. */
  lemma SieveHead(f: (nat, Scalar) -> Verdict, buf: seq<Byte>, n: nat, cs: seq<Scalar>, k: nat, idx: nat, del: nat)
    requires Sieved(f, buf, n, cs, k, idx, del) && idx < n
    ensures k < |cs| && DecodeFirst(buf[idx..n]) == cs[k] && idx + LenUtf8(cs[k]) <= n
  {
    assert k < |cs|;
    assert buf[idx..n] == Encode(cs[k]) + EncodeAll(cs[k..][1..]);
    DecodeFirstEncode(cs[k], EncodeAll(cs[k..][1..]));
  }

  lemma SieveStep(f: (nat, Scalar) -> Verdict, buf: seq<Byte>, n: nat, cs: seq<Scalar>, k: nat, idx: nat, del: nat)
    requires Sieved(f, buf, n, cs, k, idx, del) && idx < n && k < |cs| && idx + LenUtf8(cs[k]) <= n
    requires f(k, cs[k]) != Panic
    ensures var m := LenUtf8(cs[k]);
            && (f(k, cs[k]) == Discard ==> Sieved(f, buf, n, cs, k + 1, idx + m, del + m))
            && (f(k, cs[k]) == Keep ==> Sieved(f, Copied(buf, idx, idx - del, m), n, cs, k + 1, idx + m, del))
            && (del == 0 ==> Copied(buf, idx, idx - del, m) == buf)
  {
    hide EncodeAll, Encode, Copied, Kept, Panics;
    var c, m := cs[k], LenUtf8(cs[k]);
    assert cs[..k + 1] == cs[..k] + [c] && cs[k..] == [c] + cs[k + 1..];
    KeptSnoc(f, 0, cs[..k], c);
    EncodeCons(c, cs[k + 1..]);
    HeadAndRest(buf, idx, n, Encode(c), EncodeAll(cs[k + 1..]));
    MovedDown(buf, idx, del, m, n);
    if f(k, c) == Keep {
      EncodeConcat(Kept(f, 0, cs[..k]), [c]);
      EncodeOne(c);
    } else {
      assert Kept(f, 0, cs[..k]) + [] == Kept(f, 0, cs[..k]);
    }
  }

  lemma HeadAndRest(buf: seq<Byte>, idx: nat, n: nat, e: seq<Byte>, rest: seq<Byte>)
    requires idx <= n <= |buf| && buf[idx..n] == e + rest
    ensures idx + |e| <= n && buf[idx..idx + |e|] == e && buf[idx + |e|..n] == rest
  {
    assert |buf[idx..n]| == |e| + |rest|;
    assert buf[idx..idx + |e|] == buf[idx..n][..|e|];
    assert buf[idx + |e|..n] == buf[idx..n][|e|..];
  }

  lemma MovedFront(buf: seq<Byte>, idx: nat, del: nat, m: nat)
    requires del <= idx && idx + m <= |buf|
    ensures Copied(buf, idx, idx - del, m)[..idx + m - del] == buf[..idx - del] + buf[idx..idx + m]
  {
    var b, c := Copied(buf, idx, idx - del, m), buf[..idx - del] + buf[idx..idx + m];
    assert forall i :: 0 <= i < idx - del ==> b[i] == c[i];
    assert forall i :: idx - del <= i < idx + m - del ==> b[i] == c[i];
  }

  lemma MovedRest(buf: seq<Byte>, idx: nat, del: nat, m: nat, n: nat)
    requires del <= idx && idx + m <= n <= |buf|
    ensures Copied(buf, idx, idx - del, m)[idx + m..n] == buf[idx + m..n]
  {
  }

  lemma MovedNowhere(buf: seq<Byte>, idx: nat, m: nat)
    requires idx + m <= |buf|
    ensures Copied(buf, idx, idx, m) == buf
  {
  }

  lemma MovedDown(buf: seq<Byte>, idx: nat, del: nat, m: nat, n: nat)
    requires del <= idx && idx + m <= n <= |buf|
    ensures var b := Copied(buf, idx, idx - del, m);
            && b[..idx + m - del] == buf[..idx - del] + buf[idx..idx + m]
            && b[idx + m..n] == buf[idx + m..n]
            && (del == 0 ==> b == buf)
  {
    hide Copied;
    MovedFront(buf, idx, del, m);
    MovedRest(buf, idx, del, m, n);
    if del == 0 { MovedNowhere(buf, idx, m); }
  }

  lemma SieveEnd(f: (nat, Scalar) -> Verdict, buf: seq<Byte>, n: nat, cs: seq<Scalar>, k: nat, del: nat)
    requires Sieved(f, buf, n, cs, k, n, del)
    ensures buf[..n - del] == EncodeAll(Kept(f, 0, cs)) && !Panics(f, 0, cs)
  {
    assert cs[k..] == [] by {
      assert EncodeAll(cs[k..]) == [];
    }
    assert cs[..k] == cs;
  }

  // -----------------------------------------------------------------------------------------
  // Laws across operations

  /** `pop` undoes `push`. */
  method PushPop(s: Utf8String, c: Scalar) returns (r: Option<int>)
    requires s.Valid()
    modifies s
    ensures s.Valid() && s.chars == old(s.chars) && r == Some(c as int)
  {
    s.Push(c);
    r := s.Pop();
  }

  /** Every string a program can hold is well formed, by the grammar of RFC 3629. */
  lemma ValidIsWellFormed(s: Utf8String)
    requires s.Valid()
    ensures WellFormed(s.buf[..s.len]) && DecodeAll(s.buf[..s.len]) == s.chars
  {
    EncodeRoundTrip(s.chars);
  }

  /** The character that starts at byte `idx`, as its position; the end counts as a position. */
  ghost function CharIndex(cs: seq<Scalar>, idx: nat): (r: Option<nat>)
    ensures r.Some? ==> r.value <= |cs| && Offset(cs, r.value) == idx
    ensures r.None? ==> forall k :: 0 <= k <= |cs| ==> Offset(cs, k) != idx
  {
    if exists k :: 0 <= k <= |cs| && Offset(cs, k) == idx then
      var k :| 0 <= k <= |cs| && Offset(cs, k) == idx; Some(k)
    else None
  }

  datatype Edit =
    | PushChar(c: Scalar)
    | PopChar
    | RemoveAt(idx: nat)
    | InsertAt(idx: nat, c: Scalar)
    | TruncateTo(n: nat)
    | SplitOffAt(at: nat)
    | DrainRange(start: nat, end: nat, leaked: bool)
    | RetainIf(f: (nat, Scalar) -> Verdict)

  /** What an edit means for the characters.  An edit that panics leaves them alone, except that a
      panic inside `retain` empties the string. */
  ghost function Apply(cs: seq<Scalar>, e: Edit): seq<Scalar> {
    match e
    case PushChar(c) => cs + [c]
    case PopChar => if cs == [] then [] else cs[..|cs| - 1]
    case RemoveAt(idx) =>
      var k := CharIndex(cs, idx);
      if k.Some? && k.value < |cs| then cs[..k.value] + cs[k.value + 1..] else cs
    case InsertAt(idx, c) =>
      var k := CharIndex(cs, idx);
      if k.Some? then cs[..k.value] + [c] + cs[k.value..] else cs
    case TruncateTo(n) =>
      var k := CharIndex(cs, n);
      if k.Some? then cs[..k.value] else cs
    case SplitOffAt(at) =>
      var k := CharIndex(cs, at);
      if k.Some? then cs[..k.value] else cs
    case DrainRange(start, end, leaked) =>
      var j, k := CharIndex(cs, start), CharIndex(cs, end);
      if j.Some? && k.Some? && j.value <= k.value && !leaked then cs[..j.value] + cs[k.value..] else cs
    case RetainIf(f) =>
      if Panics(f, 0, cs) then [] else Kept(f, 0, cs)
  }

  lemma CharIndexAt(cs: seq<Scalar>, k: nat)
    requires k <= |cs|
    ensures CharIndex(cs, Offset(cs, k)) == Some(k)
  {
    hide Offset;
    OthersDifferEnd(cs, k);
  }

  /** The edits at the start of the `k`-th character, without mention of bytes. */
  lemma EditAt(cs: seq<Scalar>, k: nat, c: Scalar)
    requires k <= |cs|
    ensures var idx := Offset(cs, k);
            && Apply(cs, InsertAt(idx, c)) == cs[..k] + [c] + cs[k..]
            && Apply(cs, RemoveAt(idx)) == (if k < |cs| then cs[..k] + cs[k + 1..] else cs)
            && Apply(cs, TruncateTo(idx)) == cs[..k] && Apply(cs, SplitOffAt(idx)) == cs[..k]
  {
    hide Offset, CharIndex;
    CharIndexAt(cs, k);
  }

  lemma DrainBetween(cs: seq<Scalar>, j: nat, k: nat)
    requires j <= k <= |cs|
    ensures Apply(cs, DrainRange(Offset(cs, j), Offset(cs, k), false)) == cs[..j] + cs[k..]
    ensures Apply(cs, DrainRange(Offset(cs, j), Offset(cs, k), true)) == cs
  {
    hide Offset, CharIndex;
    CharIndexAt(cs, j);
    CharIndexAt(cs, k);
  }

  /** Inside a character, or beyond the end, no edit changes anything. */
  lemma EditElsewhere(cs: seq<Scalar>, idx: nat, end: nat, c: Scalar, leaked: bool)
    requires forall k :: 0 <= k <= |cs| ==> Offset(cs, k) != idx
    ensures Apply(cs, InsertAt(idx, c)) == Apply(cs, RemoveAt(idx)) == Apply(cs, TruncateTo(idx)) == cs
    ensures Apply(cs, SplitOffAt(idx)) == cs
    ensures Apply(cs, DrainRange(idx, end, leaked)) == Apply(cs, DrainRange(end, idx, leaked)) == cs
  {
    hide Offset;
    assert CharIndex(cs, idx) == None;
  }

  /** `remove` undoes `insert`, and `pop` undoes `push`. */
  lemma EditUndone(cs: seq<Scalar>, k: nat, c: Scalar)
    requires k <= |cs|
    ensures var idx := Offset(cs, k); Apply(Apply(cs, InsertAt(idx, c)), RemoveAt(idx)) == cs
    ensures Apply(cs, PushChar(c)) == cs + [c] && Apply(Apply(cs, PushChar(c)), PopChar) == cs
  {
    var ds := cs[..k] + [c] + cs[k..];
    assert ds[..k] == cs[..k] && ds[..k] + ds[k + 1..] == cs;
    assert Offset(ds, k) == Offset(cs, k);
    hide Offset, Apply;
    EditAt(cs, k, c);
    EditAt(ds, k, c);
    Popped(cs, c);
  }

  lemma Popped(cs: seq<Scalar>, c: Scalar)
    ensures Apply(cs, PushChar(c)) == cs + [c] && Apply(cs + [c], PopChar) == cs
  {
  }

  /** What is kept: the characters at exactly the positions that the closure keeps, in order. */
  lemma {:induction false} KeptPositions(f: (nat, Scalar) -> Verdict, n: nat, cs: seq<Scalar>) returns (at: seq<nat>)
    ensures |at| == |Kept(f, n, cs)|
    ensures forall i, j :: 0 <= i < j < |at| ==> at[i] < at[j]
    ensures forall i :: 0 <= i < |at| ==> at[i] < |cs| && Kept(f, n, cs)[i] == cs[at[i]]
    ensures forall k: nat :: k < |cs| ==> (k in at <==> f(n + k, cs[k]) == Keep)
    decreases |cs|
  {
    at := [];
    if cs != [] {
      var m := |cs| - 1;
      assert cs == cs[..m] + [cs[m]];
      KeptSnoc(f, n, cs[..m], cs[m]);
      at := KeptPositions(f, n, cs[..m]);
      if f(n + m, cs[m]) == Keep { at := at + [m]; }
    }
  }

  ghost function ApplyAll(cs: seq<Scalar>, edits: seq<Edit>): seq<Scalar>
    decreases |edits|
  {
    if edits == [] then cs else Apply(ApplyAll(cs, edits[..|edits| - 1]), edits[|edits| - 1])
  }

  lemma OffsetEnd(cs: seq<Scalar>)
    ensures Offset(cs, |cs|) == |EncodeAll(cs)|
  {
    assert cs[..|cs|] == cs;
  }

  /** One edit of the bytes is the edit of the characters. */
  method Perform(s: Utf8String, e: Edit)
    requires s.Valid()
    modifies s
    ensures s.Valid() && s.chars == Apply(old(s.chars), e)
  {
    hide Offset, EncodeAll, Kept, Panics;
    ghost var cs := s.chars;
    match e
    case PushChar(c) => s.Push(c);
    case PopChar => var _ := s.Pop();
    case RemoveAt(idx) =>
      var r := s.Remove(idx);
      if r.Some? {
        ghost var k: nat :| 0 <= k < |cs| && Offset(cs, k) == idx;
        OthersDifferEnd(cs, k);
      }
    case InsertAt(idx, c) => var _ := s.Insert(idx, c);
    case TruncateTo(n) =>
      OffsetEnd(cs);
      ghost var len := s.len;
      var _ := s.Truncate(n);
      if n > len { NoOffsetBeyond(cs, n); }
    case SplitOffAt(at) => var _ := s.SplitOff(at);
    case DrainRange(start, end, leaked) =>
      var ok := s.Drain(start, end, leaked);
      if ok {
        ghost var j: nat, k: nat :| 0 <= j <= k <= |cs| && Offset(cs, j) == start && Offset(cs, k) == end;
        OthersDifferEnd(cs, j);
        OthersDifferEnd(cs, k);
      }
    case RetainIf(f) => var _ := s.Retain(f);
  }

  lemma NoOffsetBeyond(cs: seq<Scalar>, n: nat)
    requires n > |EncodeAll(cs)|
    ensures CharIndex(cs, n) == None
  {
    forall k | 0 <= k <= |cs|
      ensures Offset(cs, k) != n
    {
      SplitAt(cs, k);
    }
  }

  /** Any sequence of edits refines the same edits of the characters, and the bytes stay well
      formed throughout. */
  method PerformAll(s: Utf8String, edits: seq<Edit>)
    requires s.Valid()
    modifies s
    ensures s.Valid() && s.chars == ApplyAll(old(s.chars), edits)
    ensures WellFormed(s.buf[..s.len]) && DecodeAll(s.buf[..s.len]) == s.chars
  {
    hide Apply;
    for i := 0 to |edits|
      invariant s.Valid() && s.chars == ApplyAll(old(s.chars), edits[..i])
    {
      assert edits[..i + 1][..i] == edits[..i];
      Perform(s, edits[i]);
    }
    assert edits[..|edits|] == edits;
    ValidIsWellFormed(s);
  }
}
