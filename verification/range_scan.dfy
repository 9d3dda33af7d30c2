/**
 The store's range query over one partition.

 `RangeQuery(store, reverse, gt, lt, n)` is the `Entity.query(PK, { reverse, gt, lt, limit })`
 call the list resolvers issue: the records whose sort key lies strictly between
 the optional bounds, in descending order when `reverse` and ascending otherwise,
 at most `n` of them, starting from the end nearest the scan's origin.
 */
module RangeScan {
  import opened KeyOrder
  import opened Records

  function Min(a: int, b: int): int {
    if a <= b then a else b
  }

  /** The first `n` elements of `s`, or all of `s` when it is shorter (`slice(0, n)`). */
  function Take<T>(s: seq<T>, n: nat): (t: seq<T>)
    ensures |t| == Min(n, |s|)
  {
    s[..Min(n, |s|)]
  }

  /** `s` read from its last element to its first. */
  function Reverse<T>(s: seq<T>): (r: seq<T>)
    ensures |r| == |s|
  {
    if s == [] then [] else Reverse(s[1..]) + [s[0]]
  }

  lemma {:induction false} ReverseAt<T>(s: seq<T>, i: int)
    requires 0 <= i < |s|
    ensures Reverse(s)[i] == s[|s| - 1 - i]
  {
    if i < |s| - 1 {
      ReverseAt(s[1..], i);
    }
  }

  lemma {:induction false} ReverseReverse<T>(s: seq<T>)
    ensures Reverse(Reverse(s)) == s
  {
    forall i | 0 <= i < |s|
      ensures Reverse(Reverse(s))[i] == s[i]
    {
      ReverseAt(Reverse(s), i);
      ReverseAt(s, |s| - 1 - i);
    }
  }

  lemma {:induction false} ReverseConcat<T>(a: seq<T>, b: seq<T>)
    ensures Reverse(a + b) == Reverse(b) + Reverse(a)
  {
    var r, q := Reverse(a + b), Reverse(b) + Reverse(a);
    forall i | 0 <= i < |r|
      ensures r[i] == q[i]
    {
      ReverseAt(a + b, i);
      if i < |b| {
        ReverseAt(b, i);
      } else {
        ReverseAt(a, i - |b|);
      }
    }
  }

  lemma {:induction false} ReverseHas<T>(s: seq<T>, x: T)
    ensures x in Reverse(s) <==> x in s
  {
    if x in s {
      var k :| 0 <= k < |s| && s[k] == x;
      ReverseAt(s, |s| - 1 - k);
    }
    if x in Reverse(s) {
      var k :| 0 <= k < |s| && Reverse(s)[k] == x;
      ReverseAt(s, k);
    }
  }

  /** Reading a sequence backwards flips its direction. */
  lemma {:induction false} ReverseMonotone(s: seq<Rec>, reverse: bool)
    requires Monotone(s, reverse)
    ensures Monotone(Reverse(s), !reverse)
  {
    var r := Reverse(s);
    forall i, j | 0 <= i < j < |r|
      ensures Ahead(!reverse, r[i].sk, r[j].sk)
    {
      ReverseAt(s, i);
      ReverseAt(s, j);
      assert Ahead(reverse, s[|s| - 1 - j].sk, s[|s| - 1 - i].sk);
    }
  }

  /** The first `m` of the reversed `p` are its last `m`, reversed. */
  lemma {:induction false} TakeReverse<T>(p: seq<T>, m: nat)
    requires m <= |p|
    ensures Take(Reverse(p), m) == Reverse(p[|p| - m..])
  {
    var tail := p[|p| - m..];
    var t, rt := Take(Reverse(p), m), Reverse(tail);
    forall i | 0 <= i < m
      ensures t[i] == rt[i]
    {
      assert t[i] == Reverse(p)[i];
      ReverseAt(p, i);
      ReverseAt(tail, i);
      assert tail[m - 1 - i] == p[|p| - 1 - i];
    }
  }

  /** A partition read in scan order: descending when `reverse`, ascending otherwise. */
  function Ordered(store: seq<Rec>, reverse: bool): seq<Rec> {
    if reverse then Reverse(store) else store
  }

  lemma {:induction false} OrderedMonotone(store: seq<Rec>, reverse: bool)
    requires Monotone(store, false)
    ensures Monotone(Ordered(store, reverse), reverse)
  {
    if reverse {
      ReverseMonotone(store, false);
    }
  }

  lemma {:induction false} OrderedHas(store: seq<Rec>, reverse: bool, x: Rec)
    ensures x in Ordered(store, reverse) <==> x in store
  {
    ReverseHas(store, x);
  }

  /** Reading a partition against its scan order is reading it in the opposite scan order. */
  lemma {:induction false} OrderedFlip(store: seq<Rec>, reverse: bool)
    ensures Ordered(store, !reverse) == Reverse(Ordered(store, reverse))
  {
    ReverseReverse(store);
  }

  /** The strict `gt`/`lt` key conditions of a query; an absent bound does not constrain. */
  predicate InBounds(k: string, gt: Option<string>, lt: Option<string>) {
    && (gt.None? || Less(gt.value, k))
    && (lt.None? || Less(k, lt.value))
  }

  /** The records of `s` inside the bounds, in the order of `s`. */
  function Window(s: seq<Rec>, gt: Option<string>, lt: Option<string>): (w: seq<Rec>)
    ensures |w| <= |s|
  {
    if s == [] then []
    else (if InBounds(s[0].sk, gt, lt) then [s[0]] else []) + Window(s[1..], gt, lt)
  }

  /** A record is in the window exactly when it is in `s` and inside the bounds. */
  lemma {:induction false} WindowHas(s: seq<Rec>, gt: Option<string>, lt: Option<string>, x: Rec)
    ensures x in Window(s, gt, lt) <==> x in s && InBounds(x.sk, gt, lt)
  {
    if s != [] {
      WindowHas(s[1..], gt, lt, x);
      assert s == [s[0]] + s[1..];
    }
  }

  lemma {:induction false} WindowConcat(a: seq<Rec>, b: seq<Rec>, gt: Option<string>, lt: Option<string>)
    ensures Window(a + b, gt, lt) == Window(a, gt, lt) + Window(b, gt, lt)
  {
    if a == [] {
      assert a + b == b;
    } else {
      assert (a + b)[0] == a[0];
      assert (a + b)[1..] == a[1..] + b;
      WindowConcat(a[1..], b, gt, lt);
    }
  }

  lemma {:induction false} WindowAll(s: seq<Rec>, gt: Option<string>, lt: Option<string>)
    requires forall i :: 0 <= i < |s| ==> InBounds(s[i].sk, gt, lt)
    ensures Window(s, gt, lt) == s
  {
    if s != [] {
      WindowAll(s[1..], gt, lt);
    }
  }

  lemma {:induction false} WindowNone(s: seq<Rec>, gt: Option<string>, lt: Option<string>)
    requires forall i :: 0 <= i < |s| ==> !InBounds(s[i].sk, gt, lt)
    ensures Window(s, gt, lt) == []
  {
    if s != [] {
      WindowNone(s[1..], gt, lt);
    }
  }

  /** Filtering keeps the direction of a scan. */
  lemma {:induction false} WindowMonotone(s: seq<Rec>, gt: Option<string>, lt: Option<string>, reverse: bool)
    requires Monotone(s, reverse)
    ensures Monotone(Window(s, gt, lt), reverse)
  {
    if s != [] {
      var tail := s[1..];
      MonotoneTail(s, reverse);
      WindowMonotone(tail, gt, lt, reverse);
      var rest := Window(tail, gt, lt);
      var w := Window(s, gt, lt);
      if InBounds(s[0].sk, gt, lt) {
        assert w == [s[0]] + rest;
        forall i, j | 0 <= i < j < |w|
          ensures Ahead(reverse, w[i].sk, w[j].sk)
        {
          var y := rest[j - 1];
          assert w[j] == y;
          if i == 0 {
            WindowHas(tail, gt, lt, y);
            var k :| 0 <= k < |tail| && tail[k] == y;
            assert s[k + 1] == y;
            assert Ahead(reverse, s[0].sk, s[k + 1].sk);
          } else {
            assert w[i] == rest[i - 1];
            assert Ahead(reverse, rest[i - 1].sk, rest[j - 1].sk);
          }
        }
      } else {
        assert w == rest;
      }
    }
  }

  /** Filtering commutes with reading backwards. */
  lemma {:induction false} WindowReverse(s: seq<Rec>, gt: Option<string>, lt: Option<string>)
    ensures Window(Reverse(s), gt, lt) == Reverse(Window(s, gt, lt))
  {
    if s != [] {
      var head, tail := s[..1], s[1..];
      assert s == head + tail;
      ReverseConcat(head, tail);
      assert Reverse(head) == head;
      WindowConcat(Reverse(tail), head, gt, lt);
      WindowConcat(head, tail, gt, lt);
      WindowReverse(tail, gt, lt);
      var wh := Window(head, gt, lt);
      assert |wh| <= 1;
      assert Reverse(wh) == wh;
      ReverseConcat(wh, Window(tail, gt, lt));
    }
  }

  /** The store's range query, as a computation; `RangeQuerySpec` states what it promises. */
  function RangeQuery(store: seq<Rec>, reverse: bool, gt: Option<string>, lt: Option<string>, n: nat): (r: seq<Rec>)
    ensures |r| <= n
  {
    Take(Window(Ordered(store, reverse), gt, lt), n)
  }

  /**
   What the range query promises, and what the resolvers' over-fetch relies on:
   every result is stored and inside the bounds, results come in scan order, a
   result shorter than `n` holds every record in range, and a record in range
   that is not returned lies beyond every returned one.
   */
  lemma {:induction false} RangeQuerySpec(store: seq<Rec>, reverse: bool, gt: Option<string>, lt: Option<string>, n: nat)
    requires Monotone(store, false)
    ensures var r := RangeQuery(store, reverse, gt, lt, n);
            && (forall x :: x in r ==> x in store && InBounds(x.sk, gt, lt))
            && Monotone(r, reverse)
            && (|r| < n ==> forall x :: x in store && InBounds(x.sk, gt, lt) ==> x in r)
            && (forall x, i :: x in store && InBounds(x.sk, gt, lt) && x !in r && 0 <= i < |r| ==> Ahead(reverse, r[i].sk, x.sk))
  {
    var s := Ordered(store, reverse);
    OrderedMonotone(store, reverse);
    WindowMonotone(s, gt, lt, reverse);
    var w := Window(s, gt, lt);
    forall x
      ensures x in w <==> x in store && InBounds(x.sk, gt, lt)
    {
      OrderedHas(store, reverse, x);
      WindowHas(s, gt, lt, x);
    }
    TakeKeepsNearest(w, n, reverse);
  }

  /** A record of a monotone sequence that `Take` drops lies beyond everything it keeps. */
  lemma {:induction false} TakeKeepsNearest(w: seq<Rec>, n: nat, reverse: bool)
    requires Monotone(w, reverse)
    ensures Monotone(Take(w, n), reverse)
    ensures forall x, i :: x in w && x !in Take(w, n) && 0 <= i < |Take(w, n)| ==> Ahead(reverse, Take(w, n)[i].sk, x.sk)
  {
    var t := Take(w, n);
    forall i, j | 0 <= i < j < |t|
      ensures Ahead(reverse, t[i].sk, t[j].sk)
    {
      assert t[i] == w[i] && t[j] == w[j];
      assert Ahead(reverse, w[i].sk, w[j].sk);
    }
    forall x, i | x in w && x !in t && 0 <= i < |t|
      ensures Ahead(reverse, t[i].sk, x.sk)
    {
      var k :| 0 <= k < |w| && w[k] == x;
      assert t[i] == w[i];
      assert Ahead(reverse, w[i].sk, w[k].sk);
    }
  }

  /** The lower bound a cursor sets in a scan of the given direction. */
  function Lower(reverse: bool, c: string): Option<string> {
    if reverse then None else Some(c)
  }

  /** The upper bound a cursor sets in a scan of the given direction. */
  function Upper(reverse: bool, c: string): Option<string> {
    if reverse then Some(c) else None
  }

  /** The records of `s` strictly beyond `c` in the given direction, in the order of `s`. */
  function Beyond(s: seq<Rec>, reverse: bool, c: string): (b: seq<Rec>)
    ensures |b| <= |s|
  {
    Window(s, Lower(reverse, c), Upper(reverse, c))
  }

  lemma {:induction false} BeyondHas(s: seq<Rec>, reverse: bool, c: string, x: Rec)
    ensures x in Beyond(s, reverse, c) <==> x in s && Ahead(reverse, c, x.sk)
  {
    WindowHas(s, Lower(reverse, c), Upper(reverse, c), x);
  }

  /** Nothing up to record `k` of a scan-ordered sequence lies beyond it. */
  lemma {:induction false} NoneBeyondUpTo(s: seq<Rec>, reverse: bool, k: int)
    requires Monotone(s, reverse) && 0 <= k < |s|
    ensures Beyond(s[..k + 1], reverse, s[k].sk) == []
  {
    var c := s[k].sk;
    var front := s[..k + 1];
    forall i | 0 <= i < |front|
      ensures !InBounds(front[i].sk, Lower(reverse, c), Upper(reverse, c))
    {
      if i == k {
        AheadIrreflexive(reverse, c);
      } else {
        assert front[i] == s[i];
        AheadAsymmetric(reverse, s[i].sk, c);
      }
    }
    WindowNone(front, Lower(reverse, c), Upper(reverse, c));
  }

  /** Everything after record `k` of a scan-ordered sequence lies beyond it. */
  lemma {:induction false} AllBeyondAfter(s: seq<Rec>, reverse: bool, k: int)
    requires Monotone(s, reverse) && 0 <= k < |s|
    ensures Beyond(s[k + 1..], reverse, s[k].sk) == s[k + 1..]
  {
    var c := s[k].sk;
    var back := s[k + 1..];
    forall i | 0 <= i < |back|
      ensures InBounds(back[i].sk, Lower(reverse, c), Upper(reverse, c))
    {
      assert back[i] == s[k + 1 + i];
      assert Ahead(reverse, s[k].sk, s[k + 1 + i].sk);
    }
    WindowAll(back, Lower(reverse, c), Upper(reverse, c));
  }

  /** Scanning on from record `k` of a scan-ordered sequence yields exactly what follows it. */
  lemma {:induction false} BeyondAt(s: seq<Rec>, reverse: bool, k: int)
    requires Monotone(s, reverse) && 0 <= k < |s|
    ensures Beyond(s, reverse, s[k].sk) == s[k + 1..]
  {
    var c := s[k].sk;
    assert s == s[..k + 1] + s[k + 1..];
    WindowConcat(s[..k + 1], s[k + 1..], Lower(reverse, c), Upper(reverse, c));
    NoneBeyondUpTo(s, reverse, k);
    AllBeyondAfter(s, reverse, k);
  }

  /** Everything before record `k` of a scan-ordered sequence lies behind it. */
  lemma {:induction false} AllBehindBefore(s: seq<Rec>, reverse: bool, k: int)
    requires Monotone(s, reverse) && 0 <= k < |s|
    ensures Beyond(s[..k], !reverse, s[k].sk) == s[..k]
  {
    var c := s[k].sk;
    var front := s[..k];
    forall i | 0 <= i < |front|
      ensures InBounds(front[i].sk, Lower(!reverse, c), Upper(!reverse, c))
    {
      assert front[i] == s[i];
      assert Ahead(reverse, s[i].sk, s[k].sk);
    }
    WindowAll(front, Lower(!reverse, c), Upper(!reverse, c));
  }

  /** Nothing from record `k` of a scan-ordered sequence on lies behind it. */
  lemma {:induction false} NoneBehindFrom(s: seq<Rec>, reverse: bool, k: int)
    requires Monotone(s, reverse) && 0 <= k < |s|
    ensures Beyond(s[k..], !reverse, s[k].sk) == []
  {
    var c := s[k].sk;
    var back := s[k..];
    forall i | 0 <= i < |back|
      ensures !InBounds(back[i].sk, Lower(!reverse, c), Upper(!reverse, c))
    {
      if i == 0 {
        AheadIrreflexive(reverse, c);
      } else {
        assert back[i] == s[k + i];
        AheadAsymmetric(reverse, c, s[k + i].sk);
      }
    }
    WindowNone(back, Lower(!reverse, c), Upper(!reverse, c));
  }

  /** Scanning back from record `k` of a scan-ordered sequence yields exactly what precedes it. */
  lemma {:induction false} BehindAt(s: seq<Rec>, reverse: bool, k: int)
    requires Monotone(s, reverse) && 0 <= k < |s|
    ensures Beyond(s, !reverse, s[k].sk) == s[..k]
  {
    var c := s[k].sk;
    assert s == s[..k] + s[k..];
    WindowConcat(s[..k], s[k..], Lower(!reverse, c), Upper(!reverse, c));
    AllBehindBefore(s, reverse, k);
    NoneBehindFrom(s, reverse, k);
  }
}
