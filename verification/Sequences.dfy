/** Sequence vocabulary shared by the models: prefixes, reversal, flattening. */
module Sequences {

  datatype Option<+T> = None | Some(value: T)

  /** The first `n` elements, or all of them when there are fewer; none when `n` is not positive. */
  function Take<T>(n: int, s: seq<T>): (r: seq<T>)
    ensures r <= s
    ensures n >= 0 ==> |r| <= n
  {
    if n <= 0 then [] else if n >= |s| then s else s[..n]
  }

  function Reverse<T>(s: seq<T>): (r: seq<T>)
    ensures |r| == |s|
  {
    if s == [] then [] else Reverse(s[1..]) + [s[0]]
  }

  function Flatten<T>(ss: seq<seq<T>>): seq<T> {
    if ss == [] then [] else ss[0] + Flatten(ss[1..])
  }

  /** The values of `g` at `lo` to `hi`, in order. */
  function Range<T>(g: int -> T, lo: int, hi: int): (r: seq<T>)
    ensures |r| == if hi < lo then 0 else hi - lo + 1
    ensures forall i :: 0 <= i < |r| ==> r[i] == g(lo + i)
    decreases hi - lo
  {
    if hi < lo then [] else Range(g, lo, hi - 1) + [g(hi)]
  }

  lemma {:induction false} RangeSplit<T>(g: int -> T, lo: int, mid: int, hi: int)
    requires lo <= mid <= hi + 1
    ensures Range(g, lo, hi) == Range(g, lo, mid - 1) + Range(g, mid, hi)
    decreases hi - mid
  {
    if mid <= hi {
      RangeSplit(g, lo, mid, hi - 1);
      Assoc(Range(g, lo, mid - 1), Range(g, mid, hi - 1), [g(hi)]);
    }
  }

  lemma RangeAll<T>(g: int -> T, lo: int, hi: int, p: T -> bool)
    requires forall i | lo <= i <= hi :: p(g(i))
    ensures forall x <- Range(g, lo, hi) :: p(x)
  {
  }

  /** The lists `g` gives for the elements of `s`, one after the other. */
  function FlatMap<A, B>(g: A -> seq<B>, s: seq<A>): seq<B> {
    if s == [] then [] else g(s[0]) + FlatMap(g, s[1..])
  }

  lemma Assoc<T>(a: seq<T>, b: seq<T>, c: seq<T>)
    ensures a + (b + c) == (a + b) + c
  {
  }

  lemma FlatMapOne<A, B>(g: A -> seq<B>, x: A)
    ensures FlatMap(g, [x]) == g(x)
  {
    assert [x][1..] == [];
    assert g(x) + [] == g(x);
  }

  lemma {:induction false} FlatMapAppend<A, B>(g: A -> seq<B>, a: seq<A>, b: seq<A>)
    ensures FlatMap(g, a + b) == FlatMap(g, a) + FlatMap(g, b)
  {
    if a == [] {
      assert a + b == b;
    } else {
      FlatMapAppend(g, a[1..], b);
      assert (a + b)[0] == a[0] && (a + b)[1..] == a[1..] + b;
      Assoc(g(a[0]), FlatMap(g, a[1..]), FlatMap(g, b));
    }
  }

  lemma FlatMapMember<A, B>(g: A -> seq<B>, s: seq<A>, y: B)
    requires y in FlatMap(g, s)
    ensures exists x :: x in s && y in g(x)
  {
    if y !in g(s[0]) {
      FlatMapMember(g, s[1..], y);
    }
  }

  /** Mapping in two steps is mapping once, when the steps agree element by element. */
  lemma {:induction false} FlatMapTwice<A, B, C>(g: A -> seq<B>, k: B -> seq<C>, both: A -> seq<C>, s: seq<A>)
    requires forall x <- s :: both(x) == FlatMap(k, g(x))
    ensures FlatMap(both, s) == FlatMap(k, FlatMap(g, s))
  {
    if s != [] {
      assert s[0] in s;
      FlatMapTwice(g, k, both, s[1..]);
      FlatMapAppend(k, g(s[0]), FlatMap(g, s[1..]));
    }
  }

  lemma {:induction false} FlatMapNothing<A, B>(g: A -> seq<B>, s: seq<A>)
    requires forall x <- s :: g(x) == []
    ensures FlatMap(g, s) == []
  {
    if s != [] {
      assert s[0] in s;
      FlatMapNothing(g, s[1..]);
    }
  }

  lemma {:induction false} ReverseAppend<T>(a: seq<T>, b: seq<T>)
    ensures Reverse(a + b) == Reverse(b) + Reverse(a)
  {
    if a == [] {
      assert a + b == b;
    } else {
      ReverseAppend(a[1..], b);
      assert (a + b)[1..] == a[1..] + b;
    }
  }

  lemma {:induction false} ReverseTwice<T>(s: seq<T>)
    ensures Reverse(Reverse(s)) == s
  {
    if s != [] {
      ReverseAppend(Reverse(s[1..]), [s[0]]);
      ReverseTwice(s[1..]);
      assert Reverse([s[0]]) == [s[0]];
    }
  }

  lemma {:induction false} FlattenAppend<T>(a: seq<seq<T>>, b: seq<seq<T>>)
    ensures Flatten(a + b) == Flatten(a) + Flatten(b)
  {
    if a == [] {
      assert a + b == b;
    } else {
      FlattenAppend(a[1..], b);
      assert (a + b)[0] == a[0] && (a + b)[1..] == a[1..] + b;
      Assoc(a[0], Flatten(a[1..]), Flatten(b));
    }
  }

  lemma FlattenSnoc<T>(a: seq<seq<T>>, x: seq<T>)
    ensures Flatten(a + [x]) == Flatten(a) + x
  {
    FlattenAppend(a, [x]);
    assert Flatten([x]) == x + Flatten([]);
  }

  /** A prefix of a concatenation: all of the left part and what is left of the quota from the right. */
  lemma TakeAppend<T>(n: int, a: seq<T>, b: seq<T>)
    ensures Take(n, a + b) == Take(n, a) + Take(n - |a|, b)
  {
  }
}
