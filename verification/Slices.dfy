/** Facts about pieces of sequences, each small enough to be found at once. */
module Slices {

  lemma Assoc<T>(a: seq<T>, b: seq<T>, c: seq<T>)
    ensures (a + b) + c == a + (b + c)
  {
  }

  lemma Nested<T>(s: seq<T>, a: nat, b: nat, c: nat, d: nat)
    requires a <= b <= |s| && c <= d <= b - a
    ensures s[a..b][c..d] == s[a + c..a + d]
  {
    forall k | 0 <= k < d - c
      ensures s[a..b][c..d][k] == s[a + c..a + d][k]
    {
      assert s[a..b][c + k] == s[a + c + k];
    }
  }

  lemma NestedTake<T>(s: seq<T>, a: nat, b: nat, n: nat)
    requires a <= b <= |s| && n <= b - a
    ensures s[a..b][..n] == s[a..a + n]
  {
  }

  lemma NestedDrop<T>(s: seq<T>, a: nat, b: nat, n: nat)
    requires a <= b <= |s| && n <= b - a
    ensures s[a..b][n..] == s[a + n..b]
  {
  }

  lemma Cut<T>(s: seq<T>, lo: nat, mid: nat, hi: nat)
    requires lo <= mid <= hi <= |s|
    ensures s[lo..hi] == s[lo..mid] + s[mid..hi]
  {
  }

  lemma Snoc<T>(s: seq<T>, lo: nat, i: nat)
    requires lo <= i < |s|
    ensures s[lo..i + 1] == s[lo..i] + [s[i]]
  {
  }

  lemma Cons<T>(s: seq<T>, i: nat, hi: nat)
    requires i < hi <= |s|
    ensures s[i..hi] == [s[i]] + s[i + 1..hi]
  {
  }

  /** Writing behind a piece extends it. */
  lemma SetSnoc<T>(t: seq<T>, lo: nat, i: nat, x: T)
    requires lo <= i < |t|
    ensures t[i := x][lo..i + 1] == t[lo..i] + [x]
  {
  }

  /** Writing in front of a piece extends it. */
  lemma SetCons<T>(t: seq<T>, i: nat, hi: nat, x: T)
    requires i < hi <= |t|
    ensures t[i := x][i..hi] == [x] + t[i + 1..hi]
  {
  }

  /** A common prefix survives writing behind a part of it. */
  lemma SetBelow<T>(s: seq<T>, t: seq<T>, n: nat, k: nat, i: nat, x: T)
    requires k <= n <= |s| == |t| && k <= i < |t| && t[..n] == s[..n]
    ensures t[i := x][..k] == s[..k]
  {
    assert forall j :: 0 <= j < k ==> t[j] == t[..n][j] == s[j];
  }

  /** A common suffix survives writing in front of a part of it. */
  lemma SetAbove<T>(s: seq<T>, t: seq<T>, n: nat, k: nat, i: nat, x: T)
    requires n <= k <= |s| == |t| && i < k && i < |t| && t[n..] == s[n..]
    ensures t[i := x][k..] == s[k..]
  {
    assert forall j :: k <= j < |t| ==> t[j] == t[n..][j - n] == s[j];
  }

  /** Sequences with a common prefix agree on every piece of it. */
  lemma SameBelow<T>(s: seq<T>, t: seq<T>, n: nat, lo: nat, hi: nat)
    requires lo <= hi <= n <= |s| && n <= |t| && t[..n] == s[..n]
    ensures t[lo..hi] == s[lo..hi]
  {
    Nested(s, 0, n, lo, hi);
    Nested(t, 0, n, lo, hi);
  }

  /** Sequences with a common suffix agree on every piece of it. */
  lemma SameAbove<T>(s: seq<T>, t: seq<T>, n: nat, lo: nat, hi: nat)
    requires n <= lo <= hi <= |s| == |t| && t[n..] == s[n..]
    ensures t[lo..hi] == s[lo..hi]
  {
    Nested(s, n, |s|, lo - n, hi - n);
    Nested(t, n, |t|, lo - n, hi - n);
  }

  lemma SameFrom<T>(s: seq<T>, t: seq<T>, n: nat, k: nat)
    requires n <= k <= |s| == |t| && t[n..] == s[n..]
    ensures t[k..] == s[k..]
  {
    assert forall j :: k <= j < |t| ==> t[j] == t[n..][j - n] == s[j];
  }

  /** A gap `from..to` is filled: what a window around it holds, and what is outside. */
  lemma Patched<T>(t: seq<T>, m: seq<T>, from: nat, to: nat, lo: nat, hi: nat)
    requires lo <= from && from + |m| == to <= hi <= |t|
    ensures var u := t[..from] + m + t[to..];
            && |u| == |t| && u[..lo] == t[..lo] && u[hi..] == t[hi..]
            && u[lo..hi] == t[lo..from] + m + t[to..hi]
  {
  }

  lemma FourParts<T>(s: seq<T>, a: nat, b: nat, c: nat, d: nat, e: nat)
    requires a <= b <= c <= d <= e <= |s|
    ensures s[a..e] == s[a..b] + s[b..c] + s[c..d] + s[d..e]
  {
    Cut(s, a, b, c);
    Cut(s, a, c, d);
    Cut(s, a, d, e);
  }

  ghost function Reversed<T>(s: seq<T>): (r: seq<T>)
    ensures |r| == |s|
    ensures forall k :: 0 <= k < |s| ==> r[k] == s[|s| - 1 - k]
  {
    if s == [] then [] else Reversed(s[1..]) + [s[0]]
  }

  lemma {:induction false} ReversedKeepsElements<T>(s: seq<T>)
    ensures multiset(Reversed(s)) == multiset(s)
  {
    if s != [] {
      ReversedKeepsElements(s[1..]);
      assert s == [s[0]] + s[1..];
    }
  }

  lemma {:induction false} ReversedSnoc<T>(s: seq<T>, x: T)
    ensures Reversed(s + [x]) == [x] + Reversed(s)
  {
    if s == [] {
      assert s + [x] == [x];
    } else {
      ReversedSnoc(s[1..], x);
      assert (s + [x])[1..] == s[1..] + [x];
      Assoc([x], Reversed(s[1..]), [s[0]]);
    }
  }
}
