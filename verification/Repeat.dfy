/** `repeat`: a slice repeated `n` times by doubling a buffer of the final capacity. */
module Repeat {
  import opened Slices
  import opened GlobalAlloc
  import opened RawVecModel

  /** How the call ends: a value, the panic on capacity overflow, or the abort for lack of memory. */
  datatype Repeated<+T> = Done(value: seq<T>) | TooLong | OutOfMemory

  /** `n` copies of `s`, one after the other. */
  ghost function Copies<T>(s: seq<T>, n: nat): (r: seq<T>)
  {
    if n == 0 then [] else s + Copies(s, n - 1)
  }

  lemma {:induction false} CopiesLen<T>(s: seq<T>, n: nat)
    ensures |Copies(s, n)| == |s| * n
  {
    if n > 0 {
      CopiesLen(s, n - 1);
      assert |s| * n == |s| * (n - 1) + |s|;
    }
  }

  lemma CopiesOne<T>(s: seq<T>)
    ensures Copies(s, 1) == s
  {
  }

  lemma {:induction false} CopiesAdd<T>(s: seq<T>, a: nat, b: nat)
    ensures Copies(s, a + b) == Copies(s, a) + Copies(s, b)
  {
    if a > 0 {
      CopiesAdd(s, a - 1, b);
      Assoc(s, Copies(s, a - 1), Copies(s, b));
    } else {
      assert [] + Copies(s, b) == Copies(s, b);
    }
  }

  /** `ptr::copy_nonoverlapping` inside one buffer: the caller must keep the ranges apart and
      within the capacity. */
  method CopyNonOverlapping<T>(buf: array<T>, src: nat, dst: nat, count: nat)
    requires src + count <= dst || dst + count <= src
    requires src + count <= buf.Length && dst + count <= buf.Length
    modifies buf
    ensures buf[dst..dst + count] == old(buf[src..src + count])
    ensures forall k :: 0 <= k < dst || dst + count <= k < buf.Length ==> buf[k] == old(buf[k])
  {
    ghost var s := buf[..];
    for k := 0 to count
      invariant buf[dst..dst + k] == s[src..src + k]
      invariant forall j :: 0 <= j < dst || dst + k <= j < buf.Length ==> buf[j] == s[j]
    {
      buf[dst + k] := buf[src + k];
    }
  }

  /** What doubling has reached: `reps` copies, the leading bits of `n`; `m` holds the other bits. */
  ghost predicate Leading(n: nat, m: nat, reps: nat) {
    exists q: nat :: LeadingBy(n, m, reps, q)
  }

  ghost predicate LeadingBy(n: nat, m: nat, reps: nat, q: nat) {
    q > 0 && m == q / 2 && reps * q <= n < reps * (q + 1)
  }

  lemma LeadingStart(n: nat)
    requires n > 0
    ensures Leading(n, n / 2, 1)
  {
    assert LeadingBy(n, n / 2, 1, n);
  }

  lemma MulMonotone(a: nat, b: nat, c: nat)
    requires b <= c
    ensures a * b <= a * c
  {
  }

  lemma TwiceProduct(a: nat, b: nat)
    ensures (2 * a) * b == a * (2 * b)
  {
  }

  lemma DoubleBy(n: nat, m: nat, reps: nat, q: nat)
    requires LeadingBy(n, m, reps, q) && m > 0
    ensures 2 * reps <= n && LeadingBy(n, m / 2, 2 * reps, m)
  {
    MulMonotone(reps, 2 * m, q);
    MulMonotone(reps, q + 1, 2 * m + 2);
    MulMonotone(reps, 2, q);
    TwiceProduct(reps, m);
    TwiceProduct(reps, m + 1);
  }

  lemma LeadingDouble(n: nat, m: nat, reps: nat)
    requires Leading(n, m, reps) && m > 0
    ensures 2 * reps <= n && Leading(n, m / 2, 2 * reps)
  {
    hide LeadingBy;
    var q: nat :| LeadingBy(n, m, reps, q);
    DoubleBy(n, m, reps, q);
  }

  lemma LeadingDone(n: nat, reps: nat)
    requires Leading(n, 0, reps)
    ensures reps <= n < 2 * reps
  {
  }

  /** A prefix of whole copies is itself whole copies. */
  lemma CopiesPrefix<T>(s: seq<T>, a: nat, b: nat)
    requires b <= a
    ensures |s| * b <= |Copies(s, a)| && Copies(s, a)[..|s| * b] == Copies(s, b)
  {
    CopiesAdd(s, b, a - b);
    CopiesLen(s, b);
  }

  lemma DoubleFits(a: nat, reps: nat, n: nat)
    requires 2 * reps <= n
    ensures 2 * (a * reps) == a * (2 * reps) <= a * n
  {
  }

  /** Doubles the buffer until it holds as many copies as the leading bit of `n` says. */
  method DoubleUp<T>(s: seq<T>, n: nat, buf: array<T>) returns (len: nat, ghost reps: nat)
    requires n > 0 && buf.Length == |s| * n && |s| <= buf.Length && buf[..|s|] == s
    modifies buf
    ensures reps <= n < 2 * reps && len == |s| * reps <= buf.Length
    ensures buf[..len] == Copies(s, reps)
  {
    hide Copies, Leading;
    len, reps := |s|, 1;
    var m: nat := n / 2;
    LeadingStart(n);
    CopiesOne(s);
    while m > 0
      invariant Leading(n, m, reps)
      invariant len == |s| * reps <= buf.Length
      invariant buf[..len] == Copies(s, reps)
      decreases m
    {
      LeadingDouble(n, m, reps);
      DoubleFits(|s|, reps, n);
      CopiesAdd(s, reps, reps);
      CopyNonOverlapping(buf, 0, len, len);
      assert buf[..len] == Copies(s, reps);
      assert buf[..2 * len] == buf[..len] + buf[len..2 * len];
      len, reps, m := 2 * len, 2 * reps, m / 2;
    }
    LeadingDone(n, reps);
  }

  lemma RemainderFits(a: nat, reps: nat, n: nat)
    requires reps <= n < 2 * reps
    ensures a * n - a * reps == a * (n - reps) <= a * reps
  {
  }

  /** Doubles up to the leading bit of `n` and copies the remaining repetitions from the front. */
  method CopyRemainder<T>(s: seq<T>, n: nat, buf: array<T>)
    requires n > 0 && buf.Length == |s| * n && |s| <= buf.Length && buf[..|s|] == s
    modifies buf
    ensures buf[..] == Copies(s, n)
  {
    hide Copies;
    var len, reps := DoubleUp(s, n, buf);
    var rem := buf.Length - len;
    RemainderFits(|s|, reps, n);
    CopiesAdd(s, reps, n - reps);
    CopiesPrefix(s, reps, n - reps);
    ghost var head := buf[..len];
    if rem > 0 {
      CopyNonOverlapping(buf, 0, len, rem);
      assert buf[len..len + rem] == head[..rem];
    }
    assert buf[len..] == head[..rem] && buf[..len] == head;
    assert buf[..] == head + head[..rem];
  }

  /** The slice repeated `n` times.  `granted` is the answer of the allocator, which is asked only for
      a buffer of some bytes. */
  method Repeat<T>(s: seq<T>, n: nat, word: Word, elemSize: nat, granted: bool) returns (r: Repeated<T>)
    ensures r == TooLong <==>
              || |s| * n > UsizeMax(word)
              || elemSize * (|s| * n) > (if word == W64 then UsizeMax(word) else IsizeMax(word))
    ensures r == OutOfMemory <==> r != TooLong && 0 < elemSize * (|s| * n) && !granted
    ensures r.Done? ==> r.value == Copies(s, n)
  {
    hide Copies;
    if n == 0 {
      CopiesPrefix(s, 0, 0);
      return Done([]);
    }
    var capacity := |s| * n;
    if capacity > UsizeMax(word) {
      return TooLong;
    }
    if elemSize > 0 {
      if Overflows(word, elemSize, capacity) {
        return TooLong;
      }
      if elemSize * capacity > 0 && !granted {
        return OutOfMemory;
      }
    }
    var value := FillBuffer(s, n);
    r := Done(value);
  }

  /** The buffer of the final capacity, filled. */
  method FillBuffer<T>(s: seq<T>, n: nat) returns (value: seq<T>)
    requires n > 0
    ensures value == Copies(s, n)
  {
    hide Copies;
    var capacity := |s| * n;
    MulMonotone(|s|, 1, n);
    assert capacity > 0 ==> s != [];
    var buf := new T[capacity](k requires s != [] => s[0]);
    for k := 0 to |s|
      invariant buf[..k] == s[..k]
    {
      buf[k] := s[k];
    }
    CopyRemainder(s, n, buf);
    value := buf[..];
  }
}
