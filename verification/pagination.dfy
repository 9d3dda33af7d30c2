/**
 Cursor-based listing of one partition (`listNoticias` / `listSliders`).

 Both list resolvers run the same algorithm: one range query of `limit + 1`
 records, bounded by the `after` or `before` cursor, whose over-fetched last
 record tells whether a further page exists. `ListPage` is that algorithm,
 generic in the partition it reads; it keeps the resolvers' exact behaviour,
 including the requests on which they throw.
 */
module Pagination {
  import opened KeyOrder
  import opened Records
  import opened RangeScan

  /** The `sort` argument (`createdOn_ASC` / `createdOn_DESC`). */
  datatype Sort = CreatedOnAsc | CreatedOnDesc

  datatype Meta = Meta(limit: nat, after: Option<string>, before: Option<string>)

  datatype Page = Page(data: seq<Rec>, meta: Meta)

  /** The value `limit` takes when the request leaves it out. */
  const DefaultLimit: nat := 10

  function LimitOrDefault(limit: Option<nat>): nat {
    if limit.Some? then limit.value else DefaultLimit
  }

  /** JavaScript truthiness of an optional string argument: absent and "" are both false. */
  predicate Present(c: Option<string>) {
    c.Some? && c.value != ""
  }

  /** The base scan direction: descending unless the request asks for `createdOn_ASC`. */
  predicate Descending(sort: Option<Sort>) {
    sort != Some(CreatedOnAsc)
  }

  /**
   One list request. `before` is looked at first: the scan then runs the other
   way from it and its result is reversed back into presentation order.
   Otherwise the scan runs forwards, from the `after` cursor when there is one.
   */
  function ListPage(store: seq<Rec>, limit: Option<nat>, sort: Option<Sort>,
                    after: Option<string>, before: Option<string>): (r: Result<Page>)
    requires Monotone(store, false)
    ensures r.Ok? ==> r.value.meta.limit == LimitOrDefault(limit)
    ensures r.Ok? ==> |r.value.data| <= r.value.meta.limit
    ensures r.Ok? && !Present(before) && !Present(after) ==> r.value.meta.before.None?
    ensures r.Ok? && Present(before) ==> r.value.meta.after.Some?
    ensures r.Ok? && !Present(before) && Present(after) ==>
              r.value.data != [] && r.value.meta.before == Some(r.value.data[0].id)
    ensures r.Err? ==> r.error.MissingItem?
  {
    var limit := LimitOrDefault(limit);
    var reverse := Descending(sort);
    if Present(before) then
      var items := BackwardScan(store, reverse, before.value, limit + 1);
      BackwardResult(items, limit)
    else
      ForwardResult(ForwardScan(store, reverse, after, limit + 1), limit, Present(after))
  }

  /** The scan of a request without `before`: bounded by the `after` cursor when there is one. */
  function ForwardScan(store: seq<Rec>, reverse: bool, after: Option<string>, n: nat): seq<Rec>
    requires Monotone(store, false)
  {
    var gt := if Present(after) then Lower(reverse, after.value) else None;
    var lt := if Present(after) then Upper(reverse, after.value) else None;
    RangeQuery(store, reverse, gt, lt, n)
  }

  /**
   The page built from a forward scan of `limit + 1` records: `Items[limit - 1]`
   is read when the scan overflows and `Items[0]` when a cursor was given.
   */
  function ForwardResult(items: seq<Rec>, limit: nat, cursored: bool): Result<Page> {
    if |items| > limit && limit == 0 then Err(MissingItem(-1))
    else if cursored && |items| == 0 then Err(MissingItem(0))
    else
      var after := if |items| > limit then Some(items[limit - 1].id) else None;
      var before := if cursored then Some(items[0].id) else None;
      Ok(Page(Take(items, limit), Meta(limit, after, before)))
  }

  /** The scan of a request with `before`: the opposite direction, strictly beyond the cursor. */
  function BackwardScan(store: seq<Rec>, reverse: bool, before: string, n: nat): seq<Rec>
    requires Monotone(store, false)
  {
    var inverted := !reverse;
    RangeQuery(store, inverted, Lower(inverted, before), Upper(inverted, before), n)
  }

  /**
   The page built from a backward scan of `limit + 1` records: the first `limit`
   reversed; `Items[0]` is always read, the last item when the scan overflows.
   */
  function BackwardResult(items: seq<Rec>, limit: nat): Result<Page> {
    if |items| == 0 then Err(MissingItem(0))
    else
      var before := if |items| > limit then Some(items[|items| - 1].id) else None;
      Ok(Page(Reverse(Take(items, limit)), Meta(limit, Some(items[0].id), before)))
  }

  /** What is left to list in scan order once the cursor, if any, is passed. */
  function Remaining(store: seq<Rec>, reverse: bool, cursor: Option<string>): seq<Rec> {
    var s := Ordered(store, reverse);
    if Present(cursor) then Beyond(s, reverse, cursor.value) else s
  }

  /** The records that come before `c` in presentation order, in presentation order. */
  function Preceding(store: seq<Rec>, reverse: bool, c: string): seq<Rec> {
    Beyond(Ordered(store, reverse), !reverse, c)
  }

  lemma {:induction false} ForwardScanRemaining(store: seq<Rec>, reverse: bool, after: Option<string>, n: nat)
    requires Monotone(store, false)
    ensures ForwardScan(store, reverse, after, n) == Take(Remaining(store, reverse, after), n)
  {
    if !Present(after) {
      WindowAll(Ordered(store, reverse), None, None);
    }
  }

  lemma {:induction false} BackwardScanPreceding(store: seq<Rec>, reverse: bool, before: string, n: nat)
    requires Monotone(store, false)
    ensures BackwardScan(store, reverse, before, n) == Take(Reverse(Preceding(store, reverse, before)), n)
  {
    var inverted := !reverse;
    OrderedFlip(store, reverse);
    WindowReverse(Ordered(store, reverse), Lower(inverted, before), Upper(inverted, before));
  }

  /**
   The outcome of a request without `before` stated on `rest`, what remains to
   list in scan order: its first `limit` records, `meta.after` at the last of
   them when more remain, `meta.before` at the first when a cursor was given.
   */
  function ForwardOutcome(rest: seq<Rec>, limit: nat, cursored: bool): Result<Page> {
    if limit == 0 && |rest| > 0 then Err(MissingItem(-1))
    else if cursored && |rest| == 0 then Err(MissingItem(0))
    else Ok(Page(Take(rest, limit), Meta(limit, if |rest| > limit then Some(rest[limit - 1].id) else None,
                                            if cursored then Some(rest[0].id) else None)))
  }

  lemma {:induction false} ForwardFromPrefix(rest: seq<Rec>, limit: nat, cursored: bool)
    ensures ForwardResult(Take(rest, limit + 1), limit, cursored) == ForwardOutcome(rest, limit, cursored)
  {
    var items := Take(rest, limit + 1);
    assert Take(items, limit) == Take(rest, limit);
    if |rest| > 0 {
      assert items[0] == rest[0];
    }
    if |rest| > limit && limit > 0 {
      assert items[limit - 1] == rest[limit - 1];
    }
  }

  /** What a forward outcome promises about the records that remain in scan order. */
  lemma {:induction false} ForwardOutcomeShape(rest: seq<Rec>, limit: nat, cursored: bool, reverse: bool)
    requires Monotone(rest, reverse)
    ensures var r := ForwardOutcome(rest, limit, cursored);
            && (r.Ok? <==> (limit >= 1 || |rest| == 0) && (!cursored || |rest| > 0))
            && (r.Ok? ==> r.value.data == rest[..Min(limit, |rest|)] && r.value.meta.limit == limit)
            && (r.Ok? ==> forall x :: x in r.value.data ==> x in rest)
            && (r.Ok? ==> Monotone(r.value.data, reverse))
            && (r.Ok? ==> forall x, i ::
                  x in rest && x !in r.value.data && 0 <= i < |r.value.data| ==> Ahead(reverse, r.value.data[i].sk, x.sk))
            && (r.Ok? ==> (r.value.meta.after.Some? <==> |rest| > limit))
            && (r.Ok? && r.value.meta.after.Some? ==>
                  r.value.data != [] && r.value.meta.after.value == r.value.data[|r.value.data| - 1].id)
            && (r.Ok? ==> (r.value.meta.before.Some? <==> cursored))
            && (r.Ok? && cursored ==> r.value.data != [] && r.value.meta.before.value == r.value.data[0].id)
  {
    TakeKeepsNearest(rest, limit, reverse);
  }

  /**
   The outcome of a `before` request stated on `p`, the records preceding the
   cursor in presentation order: the last `limit` of them, `meta.after` at the
   last, `meta.before` at the record just ahead of the page when there is one.
   */
  function BeforeOutcome(p: seq<Rec>, limit: nat): Result<Page> {
    if |p| == 0 then Err(MissingItem(0))
    else Ok(Page(p[|p| - Min(limit, |p|)..], Meta(limit, Some(p[|p| - 1].id),
                                                  if |p| > limit then Some(p[|p| - 1 - limit].id) else None)))
  }

  lemma {:induction false} BackwardFromPreceding(p: seq<Rec>, limit: nat)
    ensures BackwardResult(Take(Reverse(p), limit + 1), limit) == BeforeOutcome(p, limit)
  {
    if |p| > 0 {
      ReversedPage(p, limit);
      ScanEnds(p, limit);
    }
  }

  /** Reversing the first `limit` of the reversed `p` gives back the last `limit` of `p`. */
  lemma {:induction false} ReversedPage<T>(p: seq<T>, limit: nat)
    ensures Reverse(Take(Take(Reverse(p), limit + 1), limit)) == p[|p| - Min(limit, |p|)..]
  {
    var m := Min(limit, |p|);
    var tail := p[|p| - m..];
    assert Take(Take(Reverse(p), limit + 1), limit) == Take(Reverse(p), m);
    TakeReverse(p, m);
    ReverseReverse(tail);
  }

  /** The ends of a backward scan of `limit + 1` records over `p` read backwards. */
  lemma {:induction false} ScanEnds<T>(p: seq<T>, limit: nat)
    requires |p| > 0
    ensures var items := Take(Reverse(p), limit + 1);
            && |items| > 0 && items[0] == p[|p| - 1]
            && (|items| > limit <==> |p| > limit)
            && (|p| > limit ==> items[|items| - 1] == p[|p| - 1 - limit])
  {
    ReverseAt(p, 0);
    if |p| > limit {
      ReverseAt(p, limit);
    }
  }

  /** What a `before` outcome promises about the records preceding the cursor. */
  lemma {:induction false} BeforeOutcomeShape(p: seq<Rec>, limit: nat, reverse: bool)
    requires Monotone(p, reverse) && Keyed(p)
    ensures var r := BeforeOutcome(p, limit);
            && (r.Ok? <==> |p| > 0)
            && (r.Ok? ==> r.value.meta.limit == limit && |r.value.data| == Min(limit, |p|))
            && (r.Ok? ==> forall x :: x in r.value.data ==> x in p)
            && (r.Ok? ==> Monotone(r.value.data, reverse))
            && (r.Ok? ==> forall x, i ::
                  x in p && x !in r.value.data && 0 <= i < |r.value.data| ==> Ahead(reverse, x.sk, r.value.data[i].sk))
            && (r.Ok? && limit >= 1 ==>
                  r.value.data != [] && r.value.meta.after == Some(r.value.data[|r.value.data| - 1].id))
            && (r.Ok? ==> (r.value.meta.before.Some? <==> |p| > limit))
            && (r.Ok? && r.value.meta.before.Some? ==>
                  exists b :: b in p && b.id == r.value.meta.before.value)
            && (r.Ok? && r.value.meta.before.Some? ==>
                  forall x :: x in r.value.data ==> x.id != r.value.meta.before.value && Ahead(reverse, r.value.meta.before.value, x.sk))
  {
    if |p| > 0 {
      var m := Min(limit, |p|);
      var data := p[|p| - m..];
      SuffixShape(p, m, reverse);
      if |p| > limit {
        var b := p[|p| - 1 - limit];
        assert b in p;
        SuffixPivot(p, m, reverse);
        forall x | x in data
          ensures x.id != b.id
        {
          KeyedHas(p, x);
          KeyedHas(p, b);
        }
      }
    }
  }

  /** The last `m` records of a scan-ordered `p`: in `p`, in order, and behind nothing else of `p`. */
  lemma {:induction false} SuffixShape(p: seq<Rec>, m: nat, reverse: bool)
    requires Monotone(p, reverse) && m <= |p|
    ensures var d := p[|p| - m..];
            && (forall x :: x in d ==> x in p)
            && Monotone(d, reverse)
            && (forall x, i :: x in p && x !in d && 0 <= i < |d| ==> Ahead(reverse, x.sk, d[i].sk))
  {
    var d := p[|p| - m..];
    forall i, j | 0 <= i < j < |d|
      ensures Ahead(reverse, d[i].sk, d[j].sk)
    {
      assert d[i] == p[|p| - m + i] && d[j] == p[|p| - m + j];
    }
    forall x | x in d
      ensures x in p
    {
      var k :| 0 <= k < |d| && d[k] == x;
      assert x == p[|p| - m + k];
    }
    forall x, i | x in p && x !in d && 0 <= i < |d|
      ensures Ahead(reverse, x.sk, d[i].sk)
    {
      var k :| 0 <= k < |p| && p[k] == x;
      assert d[i] == p[|p| - m + i];
    }
  }

  /** Every one of the last `m` records of a scan-ordered `p` lies beyond the record just before them. */
  lemma {:induction false} SuffixPivot(p: seq<Rec>, m: nat, reverse: bool)
    requires Monotone(p, reverse) && m < |p|
    ensures forall x :: x in p[|p| - m..] ==> Ahead(reverse, p[|p| - 1 - m].sk, x.sk) && x.sk != p[|p| - 1 - m].sk
  {
    var b := p[|p| - 1 - m];
    var d := p[|p| - m..];
    forall x | x in d
      ensures Ahead(reverse, b.sk, x.sk) && x.sk != b.sk
    {
      var k :| 0 <= k < |d| && d[k] == x;
      assert x == p[|p| - m + k];
      AheadIrreflexive(reverse, b.sk);
    }
  }

  /**
   A request without `before` lists the first `limit` records of what remains
   beyond the cursor in scan order. It fails for `limit = 0` when anything
   remains (`Items[-1]`), and for an `after` cursor with nothing beyond it (`Items[0]`).
   */
  lemma {:induction false} ForwardPage(store: seq<Rec>, limit: Option<nat>, sort: Option<Sort>, after: Option<string>, before: Option<string>)
    requires Monotone(store, false) && !Present(before)
    ensures ListPage(store, limit, sort, after, before) ==
              ForwardOutcome(Remaining(store, Descending(sort), after), LimitOrDefault(limit), Present(after))
  {
    ForwardScanOutcome(store, Descending(sort), after, LimitOrDefault(limit));
    ListPageForward(store, limit, sort, after, before);
  }

  lemma {:induction false} ListPageForward(store: seq<Rec>, limit: Option<nat>, sort: Option<Sort>, after: Option<string>, before: Option<string>)
    requires Monotone(store, false) && !Present(before)
    ensures ListPage(store, limit, sort, after, before) ==
              ForwardResult(ForwardScan(store, Descending(sort), after, LimitOrDefault(limit) + 1), LimitOrDefault(limit), Present(after))
  {
  }

  lemma {:induction false} ForwardScanOutcome(store: seq<Rec>, reverse: bool, after: Option<string>, l: nat)
    requires Monotone(store, false)
    ensures ForwardResult(ForwardScan(store, reverse, after, l + 1), l, Present(after)) ==
              ForwardOutcome(Remaining(store, reverse, after), l, Present(after))
  {
    ForwardScanRemaining(store, reverse, after, l + 1);
    ForwardFromPrefix(Remaining(store, reverse, after), l, Present(after));
  }

  /**
   A request with `before`, whatever its `after`, lists the last `limit` records
   preceding the cursor, in presentation order. `meta.after` is the last of
   them; `meta.before` is set only when more precede, and names the record just
   before the page, not the page's first record. Nothing preceding the cursor
   is a failure (`Items[0]`).
   */
  lemma {:induction false} BeforePage(store: seq<Rec>, limit: Option<nat>, sort: Option<Sort>, after: Option<string>, before: Option<string>)
    requires Monotone(store, false) && Present(before)
    ensures ListPage(store, limit, sort, after, before) ==
              BeforeOutcome(Preceding(store, Descending(sort), before.value), LimitOrDefault(limit))
  {
    BackwardScanOutcome(store, Descending(sort), before.value, LimitOrDefault(limit));
    ListPageBackward(store, limit, sort, after, before);
  }

  lemma {:induction false} ListPageBackward(store: seq<Rec>, limit: Option<nat>, sort: Option<Sort>, after: Option<string>, before: Option<string>)
    requires Monotone(store, false) && Present(before)
    ensures ListPage(store, limit, sort, after, before) ==
              BackwardResult(BackwardScan(store, Descending(sort), before.value, LimitOrDefault(limit) + 1), LimitOrDefault(limit))
  {
  }

  lemma {:induction false} BackwardScanOutcome(store: seq<Rec>, reverse: bool, c: string, l: nat)
    requires Monotone(store, false)
    ensures BackwardResult(BackwardScan(store, reverse, c, l + 1), l) == BeforeOutcome(Preceding(store, reverse, c), l)
  {
    BackwardScanPreceding(store, reverse, c, l + 1);
    BackwardFromPreceding(Preceding(store, reverse, c), l);
  }

  lemma {:induction false} KeyedSub(a: seq<Rec>, b: seq<Rec>)
    requires Keyed(b) && forall x :: x in a ==> x in b
    ensures Keyed(a)
  {
    forall i | 0 <= i < |a|
      ensures a[i].id == a[i].sk && a[i].sk != ""
    {
      KeyedHas(b, a[i]);
    }
  }

  lemma {:induction false} OrderedKeyed(store: seq<Rec>, reverse: bool)
    requires Keyed(store)
    ensures Keyed(Ordered(store, reverse))
  {
    if reverse {
      forall i | 0 <= i < |store|
        ensures Reverse(store)[i].id == Reverse(store)[i].sk && Reverse(store)[i].sk != ""
      {
        ReverseAt(store, i);
      }
    }
  }

  lemma {:induction false} RemainingMonotone(store: seq<Rec>, reverse: bool, cursor: Option<string>)
    requires Monotone(store, false)
    ensures Monotone(Remaining(store, reverse, cursor), reverse)
  {
    OrderedMonotone(store, reverse);
    if Present(cursor) {
      WindowMonotone(Ordered(store, reverse), Lower(reverse, cursor.value), Upper(reverse, cursor.value), reverse);
    }
  }

  lemma {:induction false} RemainingHas(store: seq<Rec>, reverse: bool, c: string, x: Rec)
    requires c != ""
    ensures x in Remaining(store, reverse, Some(c)) <==> x in store && Ahead(reverse, c, x.sk)
  {
    OrderedHas(store, reverse, x);
    BeyondHas(Ordered(store, reverse), reverse, c, x);
  }

  lemma {:induction false} PrecedingHas(store: seq<Rec>, reverse: bool, c: string, x: Rec)
    ensures x in Preceding(store, reverse, c) <==> x in store && Ahead(!reverse, c, x.sk)
  {
    OrderedHas(store, reverse, x);
    BeyondHas(Ordered(store, reverse), !reverse, c, x);
  }

  /**
   The first page: the first `limit` records in sort order, no `meta.before`,
   and `meta.after` naming the last of them exactly when more records exist.
   With `limit = 0` it fails as soon as the partition holds a record.
   */
  lemma {:induction false} FirstPage(store: seq<Rec>, limit: Option<nat>, sort: Option<Sort>, after: Option<string>, before: Option<string>)
    requires Monotone(store, false) && !Present(after) && !Present(before)
    ensures var l := LimitOrDefault(limit);
            var s := Ordered(store, Descending(sort));
            var r := ListPage(store, limit, sort, after, before);
            && (r.Ok? <==> l >= 1 || |store| == 0)
            && (r.Ok? ==> r.value.data == s[..Min(l, |s|)])
            && (r.Ok? ==> r.value.meta == Meta(l, if |s| > l then Some(s[l - 1].id) else None, None))
            && (r.Ok? && r.value.meta.after.Some? ==>
                  r.value.data != [] && r.value.meta.after.value == r.value.data[|r.value.data| - 1].id)
  {
    var reverse := Descending(sort);
    ForwardPage(store, limit, sort, after, before);
    OrderedMonotone(store, reverse);
    ForwardOutcomeShape(Ordered(store, reverse), LimitOrDefault(limit), false, reverse);
  }

  /**
   A page reached through `after`: every record on it lies strictly beyond the
   cursor in scan order (so the cursor record never reappears), they are the
   nearest such records, and `meta.before` is the first of them. The request
   succeeds exactly when `limit >= 1` and some record lies beyond the cursor.
   */
  lemma {:induction false} AfterPage(store: seq<Rec>, limit: Option<nat>, sort: Option<Sort>, after: Option<string>, before: Option<string>)
    requires Monotone(store, false) && Present(after) && !Present(before)
    ensures var l := LimitOrDefault(limit);
            var reverse := Descending(sort);
            var c := after.value;
            var r := ListPage(store, limit, sort, after, before);
            && (r.Ok? <==> l >= 1 && exists x :: x in store && Ahead(reverse, c, x.sk))
            && (r.Ok? ==> forall x :: x in r.value.data ==> x in store && Ahead(reverse, c, x.sk) && x.sk != c)
            && (r.Ok? ==> Monotone(r.value.data, reverse))
            && (r.Ok? ==> forall x, i ::
                  x in store && Ahead(reverse, c, x.sk) && x !in r.value.data && 0 <= i < |r.value.data| ==>
                  Ahead(reverse, r.value.data[i].sk, x.sk))
            && (r.Ok? ==> r.value.data != [] && r.value.meta.before == Some(r.value.data[0].id))
            && (r.Ok? && r.value.meta.after.Some? ==> r.value.meta.after.value == r.value.data[|r.value.data| - 1].id)
  {
    var l := LimitOrDefault(limit);
    var reverse := Descending(sort);
    var c := after.value;
    var rest := Remaining(store, reverse, after);
    assert ListPage(store, limit, sort, after, before) == ForwardOutcome(rest, l, true) by {
      ForwardPage(store, limit, sort, after, before);
    }
    RemainingMonotone(store, reverse, after);
    forall x | true
      ensures x in rest <==> x in store && Ahead(reverse, c, x.sk)
    {
      RemainingHas(store, reverse, c, x);
    }
    AfterOutcomeShape(store, rest, l, reverse, c);
  }

  /** `AfterPage` stated on `rest`, the records of the partition beyond the cursor in scan order. */
  lemma {:induction false} AfterOutcomeShape(store: seq<Rec>, rest: seq<Rec>, l: nat, reverse: bool, c: string)
    requires Monotone(rest, reverse)
    requires forall x :: x in rest <==> x in store && Ahead(reverse, c, x.sk)
    ensures var r := ForwardOutcome(rest, l, true);
            && (r.Ok? <==> l >= 1 && exists x :: x in store && Ahead(reverse, c, x.sk))
            && (r.Ok? ==> forall x :: x in r.value.data ==> x in store && Ahead(reverse, c, x.sk) && x.sk != c)
            && (r.Ok? ==> Monotone(r.value.data, reverse))
            && (r.Ok? ==> forall x, i ::
                  x in store && Ahead(reverse, c, x.sk) && x !in r.value.data && 0 <= i < |r.value.data| ==>
                  Ahead(reverse, r.value.data[i].sk, x.sk))
            && (r.Ok? ==> r.value.data != [] && r.value.meta.before == Some(r.value.data[0].id))
            && (r.Ok? && r.value.meta.after.Some? ==> r.value.meta.after.value == r.value.data[|r.value.data| - 1].id)
  {
    ForwardOutcomeShape(rest, l, true, reverse);
    forall x: Rec | Ahead(reverse, c, x.sk)
      ensures x.sk != c
    {
      AheadIrreflexive(reverse, c);
    }
    if |rest| > 0 {
      assert rest[0] in rest;
    }
  }

  /**
   A page reached through `before`: its records precede the cursor, are shown in
   sort order, and are the nearest such records; `meta.after` is the last of
   them. `meta.before`, set exactly when more than `limit` records precede the
   cursor, names a stored record that precedes the page and is not on it. The
   request succeeds exactly when some record precedes the cursor.
   */
  lemma {:induction false} BeforePageShape(store: seq<Rec>, limit: Option<nat>, sort: Option<Sort>, after: Option<string>, before: Option<string>)
    requires Valid(store) && Present(before)
    ensures var l := LimitOrDefault(limit);
            var reverse := Descending(sort);
            var c := before.value;
            var r := ListPage(store, limit, sort, after, before);
            && (r.Ok? <==> exists x :: x in store && Ahead(!reverse, c, x.sk))
            && (r.Ok? ==> forall x :: x in r.value.data ==> x in store && Ahead(!reverse, c, x.sk) && x.sk != c)
            && (r.Ok? ==> Monotone(r.value.data, reverse))
            && (r.Ok? ==> forall x, i ::
                  x in store && Ahead(!reverse, c, x.sk) && x !in r.value.data && 0 <= i < |r.value.data| ==>
                  Ahead(reverse, x.sk, r.value.data[i].sk))
            && (r.Ok? && l >= 1 ==> r.value.data != [] && r.value.meta.after == Some(r.value.data[|r.value.data| - 1].id))
            && (r.Ok? ==> (r.value.meta.before.Some? <==> |Preceding(store, reverse, c)| > l))
            && (r.Ok? && r.value.meta.before.Some? ==>
                  exists b :: b in store && b.id == r.value.meta.before.value && Ahead(!reverse, c, b.sk))
            && (r.Ok? && r.value.meta.before.Some? ==>
                  forall x :: x in r.value.data ==> x.id != r.value.meta.before.value && Ahead(reverse, r.value.meta.before.value, x.sk))
  {
    BeforePage(store, limit, sort, after, before);
    BeforeOutcomeStore(store, Descending(sort), before.value, LimitOrDefault(limit), ListPage(store, limit, sort, after, before));
  }

  /** `BeforePageShape` stated on the outcome over the records preceding the cursor. */
  lemma {:induction false} BeforeOutcomeStore(store: seq<Rec>, reverse: bool, c: string, l: nat, r: Result<Page>)
    requires Valid(store)
    requires r == BeforeOutcome(Preceding(store, reverse, c), l)
    ensures && (r.Ok? <==> exists x :: x in store && Ahead(!reverse, c, x.sk))
            && (r.Ok? ==> forall x :: x in r.value.data ==> x in store && Ahead(!reverse, c, x.sk) && x.sk != c)
            && (r.Ok? ==> Monotone(r.value.data, reverse))
            && (r.Ok? ==> forall x, i ::
                  x in store && Ahead(!reverse, c, x.sk) && x !in r.value.data && 0 <= i < |r.value.data| ==>
                  Ahead(reverse, x.sk, r.value.data[i].sk))
            && (r.Ok? && l >= 1 ==> r.value.data != [] && r.value.meta.after == Some(r.value.data[|r.value.data| - 1].id))
            && (r.Ok? ==> (r.value.meta.before.Some? <==> |Preceding(store, reverse, c)| > l))
            && (r.Ok? && r.value.meta.before.Some? ==>
                  exists b :: b in store && b.id == r.value.meta.before.value && Ahead(!reverse, c, b.sk))
            && (r.Ok? && r.value.meta.before.Some? ==>
                  forall x :: x in r.value.data ==> x.id != r.value.meta.before.value && Ahead(reverse, r.value.meta.before.value, x.sk))
  {
    var s := Ordered(store, reverse);
    var p := Preceding(store, reverse, c);
    OrderedMonotone(store, reverse);
    WindowMonotone(s, Lower(!reverse, c), Upper(!reverse, c), reverse);
    forall x | true
      ensures x in p <==> x in store && Ahead(!reverse, c, x.sk)
    {
      PrecedingHas(store, reverse, c, x);
    }
    KeyedSub(p, store);
    BeforeOutcomeShape(p, l, reverse);
    forall x: Rec | Ahead(!reverse, c, x.sk)
      ensures x.sk != c
    {
      AheadIrreflexive(!reverse, c);
    }
    if |p| > 0 {
      assert p[0] in p;
    }
  }

  /** The cursor that reaches position `j` of a sort-ordered partition: none for the start. */
  function CursorTo(s: seq<Rec>, j: nat): Option<string>
    requires j <= |s|
  {
    if j == 0 then None else Some(s[j - 1].id)
  }

  /** Position `j`'s cursor leaves exactly the records from `j` on to list. */
  lemma {:induction false} RemainingAt(store: seq<Rec>, reverse: bool, j: nat)
    requires Valid(store) && j <= |store|
    ensures Remaining(store, reverse, CursorTo(Ordered(store, reverse), j)) == Ordered(store, reverse)[j..]
  {
    var s := Ordered(store, reverse);
    OrderedMonotone(store, reverse);
    OrderedKeyed(store, reverse);
    if j > 0 {
      BeyondAt(s, reverse, j - 1);
    }
  }

  /**
   Following a page's `meta.after` lands exactly on the next records: from the
   cursor of position `j`, the page is the next `limit` records of the sort
   order, with `meta.after` at its last record iff records remain after it.
   */
  lemma {:induction false} PageAt(store: seq<Rec>, l: nat, sort: Option<Sort>, j: nat)
    requires Valid(store) && l >= 1
    requires j == 0 || j < |store|
    ensures var s := Ordered(store, Descending(sort));
            ListPage(store, Some(l), sort, CursorTo(s, j), None) ==
              Ok(Page(s[j..j + Min(l, |s| - j)], Meta(l, if |s| - j > l then Some(s[j + l - 1].id) else None,
                                                        if j == 0 then None else Some(s[j].id))))
  {
    var reverse := Descending(sort);
    var s := Ordered(store, reverse);
    var cursor := CursorTo(s, j);
    assert ListPage(store, Some(l), sort, cursor, None) == ForwardOutcome(s[j..], l, j > 0) by {
      ForwardPage(store, Some(l), sort, cursor, None);
      RemainingAt(store, reverse, j);
      OrderedKeyed(store, reverse);
      assert Present(cursor) == (j > 0);
    }
    ForwardOutcomeAt(s, j, l);
  }

  lemma {:induction false} ForwardOutcomeAt(s: seq<Rec>, j: nat, l: nat)
    requires l >= 1 && (j == 0 || j < |s|)
    ensures ForwardOutcome(s[j..], l, j > 0) ==
              Ok(Page(s[j..j + Min(l, |s| - j)], Meta(l, if |s| - j > l then Some(s[j + l - 1].id) else None,
                                                        if j == 0 then None else Some(s[j].id))))
  {
    var rest := s[j..];
    assert Take(rest, l) == s[j..j + Min(l, |s| - j)];
    if |s| - j > l {
      assert rest[l - 1] == s[j + l - 1];
    }
    if j > 0 {
      assert rest[0] == s[j];
    }
  }

  /**
   Following a `before` cursor that names the record at position `k` of the
   sort order lists the (up to) `limit` records just before it, as the `before`
   outcome over exactly the records `s[..k]`; an `after` given alongside is ignored.
   */
  lemma {:induction false} PageBefore(store: seq<Rec>, limit: Option<nat>, sort: Option<Sort>, after: Option<string>, k: nat)
    requires Valid(store) && k < |store|
    ensures var s := Ordered(store, Descending(sort));
            ListPage(store, limit, sort, after, Some(s[k].id)) == BeforeOutcome(s[..k], LimitOrDefault(limit))
  {
    var reverse := Descending(sort);
    var s := Ordered(store, reverse);
    OrderedMonotone(store, reverse);
    OrderedKeyed(store, reverse);
    assert s[k].id == s[k].sk && s[k].sk != "";
    BehindAt(s, reverse, k);
    BeforePage(store, limit, sort, after, Some(s[k].id));
  }

  /**
   `limit: 0` under a `before` cursor fails only when nothing precedes the
   cursor. Otherwise the page is empty, and `meta.after` and `meta.before`
   both name the record just before the cursor in the sort order.
   */
  lemma {:induction false} BeforeLimitZero(store: seq<Rec>, sort: Option<Sort>, after: Option<string>, k: nat)
    requires Valid(store) && k < |store|
    ensures var s := Ordered(store, Descending(sort));
            var r := ListPage(store, Some(0), sort, after, Some(s[k].id));
            r == if k == 0 then Err(MissingItem(0))
                 else Ok(Page([], Meta(0, Some(s[k - 1].id), Some(s[k - 1].id))))
  {
    var s := Ordered(store, Descending(sort));
    if k > 0 {
      assert s[..k][k - 1] == s[k - 1];
    }
    PageBefore(store, Some(0), sort, after, k);
  }

  /**
   A client that starts without a cursor and keeps requesting `after = meta.after`
   until a page comes back without one, concatenating the pages it receives: it
   visits every record of the partition exactly once, in sort order, and no
   request fails.
   */
  method FollowAfter(store: seq<Rec>, l: nat, sort: Option<Sort>) returns (w: seq<Rec>)
    requires Valid(store) && l >= 1
    ensures w == Ordered(store, Descending(sort))
    ensures forall x :: x in store <==> x in w
    ensures |w| == |store|
    ensures Monotone(w, Descending(sort))
  {
    var s := Ordered(store, Descending(sort));
    var cursor: Option<string> := None;
    var j: nat := 0;
    var done := false;
    w := [];
    while !done
      invariant j == 0 || j < |s|
      invariant !done ==> w == s[..j] && cursor == CursorTo(s, j)
      invariant done ==> w == s
      decreases |s| - j, !done
    {
      var page := NextPage(store, l, sort, cursor, j);
      PageJoin(s, j, l);
      w := w + page.data;
      if page.meta.after.None? {
        done := true;
      } else {
        cursor := page.meta.after;
        j := j + l;
      }
    }
    OrderedShape(store, Descending(sort));
  }

  /** One request of the client: the page `ListPage` returns for the cursor of position `j`, which never fails. */
  method NextPage(store: seq<Rec>, l: nat, sort: Option<Sort>, cursor: Option<string>, ghost j: nat) returns (page: Page)
    requires Valid(store) && l >= 1
    requires j == 0 || j < |store|
    requires cursor == CursorTo(Ordered(store, Descending(sort)), j)
    ensures var s := Ordered(store, Descending(sort));
            && page.data == s[j..j + Min(l, |s| - j)]
            && page.meta.after == (if |s| - j > l then Some(s[j + l - 1].id) else None)
  {
    var r := ListPage(store, Some(l), sort, cursor, None);
    PageAt(store, l, sort, j);
    page := r.value;
  }

  /** The records before position `j` followed by the page from `j`. */
  lemma {:induction false} PageJoin<T>(s: seq<T>, j: nat, l: nat)
    requires j <= |s|
    ensures |s| - j <= l ==> s[..j] + s[j..j + Min(l, |s| - j)] == s
    ensures |s| - j > l ==> s[..j] + s[j..j + Min(l, |s| - j)] == s[..j + l]
  {
    if |s| - j <= l {
      assert s[j..j + Min(l, |s| - j)] == s[j..];
    }
  }

  /** A partition read in either scan order holds the same records, ordered by that scan. */
  lemma {:induction false} OrderedShape(store: seq<Rec>, reverse: bool)
    requires Monotone(store, false)
    ensures forall x :: x in store <==> x in Ordered(store, reverse)
    ensures |Ordered(store, reverse)| == |store|
    ensures Monotone(Ordered(store, reverse), reverse)
  {
    OrderedMonotone(store, reverse);
    forall x {
      OrderedHas(store, reverse, x);
    }
  }

  /**
   Chaining `before`: the record named by a `before` page's `meta.before` lies
   strictly between that page and the page the next `before` request returns,
   yet is on neither, so a client paging backwards never sees it.
   */
  lemma {:induction false} BeforeChainSkips(store: seq<Rec>, l: nat, sort: Option<Sort>, c: string)
    requires Valid(store) && c != ""
    ensures var reverse := Descending(sort);
            var p1 := ListPage(store, Some(l), sort, None, Some(c));
            p1.Ok? && p1.value.meta.before.Some? ==>
              var b := p1.value.meta.before.value;
              var p2 := ListPage(store, Some(l), sort, None, Some(b));
              && (exists x :: x in store && x.id == b)
              && (forall x :: x in p1.value.data ==> x.id != b && Ahead(reverse, b, x.sk))
              && (p2.Ok? ==> forall x :: x in p2.value.data ==> x.id != b && Ahead(reverse, x.sk, b))
  {
    var p1 := ListPage(store, Some(l), sort, None, Some(c));
    BeforePageShape(store, Some(l), sort, None, Some(c));
    if p1.Ok? && p1.value.meta.before.Some? {
      var b := p1.value.meta.before.value;
      var x :| x in store && x.id == b && Ahead(!Descending(sort), c, x.sk);
      KeyedHas(store, x);
      BeforePageShape(store, Some(l), sort, None, Some(b));
      var p2 := ListPage(store, Some(l), sort, None, Some(b));
      if p2.Ok? {
        forall y | y in p2.value.data
          ensures y.id == y.sk
        {
          KeyedHas(store, y);
        }
      }
    }
  }

  /** Whatever the request, a page shows only records stored in the partition. */
  lemma {:induction false} PageFromStore(store: seq<Rec>, limit: Option<nat>, sort: Option<Sort>, after: Option<string>, before: Option<string>)
    requires Valid(store)
    ensures var r := ListPage(store, limit, sort, after, before);
            r.Ok? ==> forall x :: x in r.value.data ==> x in store
  {
    if Present(before) {
      BeforePageShape(store, limit, sort, after, before);
    } else if Present(after) {
      AfterPage(store, limit, sort, after, before);
    } else {
      var s := Ordered(store, Descending(sort));
      FirstPage(store, limit, sort, after, before);
      forall x | x in s[..Min(LimitOrDefault(limit), |s|)]
        ensures x in store
      {
        assert x in s;
        OrderedHas(store, Descending(sort), x);
      }
    }
  }
}
