/**
 The integration tests' scenarios, stated for any records with the shape the
 tests create: ids from `mdbid`, so each later record has a greater key.
 */
module Scenarios {
  import opened KeyOrder
  import opened Records
  import opened RangeScan
  import opened Pagination
  import opened Crud

  lemma {:induction false} ReverseThree<T>(a: T, b: T, c: T)
    ensures Reverse([a, b, c]) == [c, b, a]
  {
    ReverseAt([a, b, c], 0);
    ReverseAt([a, b, c], 1);
    ReverseAt([a, b, c], 2);
  }

  /**
   Three records, newest first, two per page: the first page is the two newest;
   `after` its `meta.after` gives the oldest; `before` the oldest gives the
   first page back, without a `meta.before`.
   */
  lemma {:induction false} ThreeDescending(r0: Rec, r1: Rec, r2: Rec)
    requires Valid([r0, r1, r2])
    ensures var store := [r0, r1, r2];
            && ListPage(store, Some(2), None, None, None) == Ok(Page([r2, r1], Meta(2, Some(r1.id), None)))
            && ListPage(store, Some(2), None, Some(r1.id), None) == Ok(Page([r0], Meta(2, None, Some(r0.id))))
            && ListPage(store, Some(2), None, None, Some(r0.id)) == Ok(Page([r2, r1], Meta(2, Some(r1.id), None)))
  {
    var store := [r0, r1, r2];
    var s := Ordered(store, Descending(None));
    assert s == [r2, r1, r0] by {
      ReverseThree(r0, r1, r2);
    }
    assert ListPage(store, Some(2), None, None, None) == Ok(Page([r2, r1], Meta(2, Some(r1.id), None))) by {
      PageAt(store, 2, None, 0);
      assert s[0..2] == [r2, r1];
    }
    assert ListPage(store, Some(2), None, Some(r1.id), None) == Ok(Page([r0], Meta(2, None, Some(r0.id)))) by {
      PageAt(store, 2, None, 2);
      assert CursorTo(s, 2) == Some(r1.id);
      assert s[2..3] == [r0];
    }
    assert ListPage(store, Some(2), None, None, Some(r0.id)) == Ok(Page([r2, r1], Meta(2, Some(r1.id), None))) by {
      PageBefore(store, Some(2), None, None, 2);
      assert s[..2] == [r2, r1];
    }
  }

  /** The same three records with `sort: createdOn_ASC`: oldest first, the same walk mirrored. */
  lemma {:induction false} ThreeAscending(r0: Rec, r1: Rec, r2: Rec)
    requires Valid([r0, r1, r2])
    ensures var store := [r0, r1, r2];
            var asc := Some(CreatedOnAsc);
            && ListPage(store, Some(2), asc, None, None) == Ok(Page([r0, r1], Meta(2, Some(r1.id), None)))
            && ListPage(store, Some(2), asc, Some(r1.id), None) == Ok(Page([r2], Meta(2, None, Some(r2.id))))
            && ListPage(store, Some(2), asc, None, Some(r2.id)) == Ok(Page([r0, r1], Meta(2, Some(r1.id), None)))
  {
    var store := [r0, r1, r2];
    var asc := Some(CreatedOnAsc);
    assert Ordered(store, Descending(asc)) == store;
    assert ListPage(store, Some(2), asc, None, None) == Ok(Page([r0, r1], Meta(2, Some(r1.id), None))) by {
      PageAt(store, 2, asc, 0);
      assert store[0..2] == [r0, r1];
    }
    assert ListPage(store, Some(2), asc, Some(r1.id), None) == Ok(Page([r2], Meta(2, None, Some(r2.id)))) by {
      PageAt(store, 2, asc, 2);
      assert CursorTo(store, 2) == Some(r1.id);
      assert store[2..3] == [r2];
    }
    assert ListPage(store, Some(2), asc, None, Some(r2.id)) == Ok(Page([r0, r1], Meta(2, Some(r1.id), None))) by {
      PageBefore(store, Some(2), asc, None, 2);
      assert store[..2] == [r0, r1];
    }
  }

  /**
   Five records r0 < ... < r4, newest first, two per page. `before` r0 gives
   [r2, r1] with `meta.before` naming r3; following it gives [r4]. r3 lies
   between the two pages and is on neither.
   */
  lemma {:induction false} BeforeChainExample(r0: Rec, r1: Rec, r2: Rec, r3: Rec, r4: Rec)
    requires Valid([r0, r1, r2, r3, r4])
    ensures var store := [r0, r1, r2, r3, r4];
            var p1 := ListPage(store, Some(2), None, None, Some(r0.id));
            var p2 := ListPage(store, Some(2), None, None, Some(r3.id));
            && p1 == Ok(Page([r2, r1], Meta(2, Some(r1.id), Some(r3.id))))
            && p2 == Ok(Page([r4], Meta(2, Some(r4.id), None)))
            && r3 !in p1.value.data + p2.value.data
  {
    var store := [r0, r1, r2, r3, r4];
    var s := Ordered(store, Descending(None));
    assert s == [r4, r3, r2, r1, r0] by {
      forall i | 0 <= i < 5
        ensures s[i] == store[4 - i]
      {
        ReverseAt(store, i);
      }
    }
    assert ListPage(store, Some(2), None, None, Some(r0.id)) == Ok(Page([r2, r1], Meta(2, Some(r1.id), Some(r3.id)))) by {
      PageBefore(store, Some(2), None, None, 4);
      assert s[..4] == [r4, r3, r2, r1];
    }
    assert ListPage(store, Some(2), None, None, Some(r3.id)) == Ok(Page([r4], Meta(2, Some(r4.id), None))) by {
      PageBefore(store, Some(2), None, None, 1);
      assert s[..1] == [r4];
    }
    assert r3 != r1 && r3 != r2 && r3 != r4 by {
      assert Ahead(false, store[1].sk, store[3].sk);
      assert Ahead(false, store[2].sk, store[3].sk);
      assert Ahead(false, store[3].sk, store[4].sk);
      LessIrreflexive(r3.sk);
    }
  }

  /**
   The basic CRUD test: three records created in an empty partition, with
   increasing `mdbid` ids, list newest first under the default limit of 10;
   deleting the middle one returns it and drops it from the listing; updating
   the oldest merges the new fields into it, and `get` then returns the merged
   record.
   */
  lemma {:induction false} CrudFlow(e: Entity, i0: string, i1: string, i2: string,
                                    d0: Input, d1: Input, d2: Input,
                                    t0: string, t1: string, t2: string, s0: string, s1: string, s2: string, v: Option<string>, u: Input)
    requires i0 != "" && Less(i0, i1) && Less(i1, i2)
    requires Admits(e, u)
    ensures var c0 := Create([], e, d0, i0, t0, s0, v);
            var c1 := Create(c0.store, e, d1, i1, t1, s1, v);
            var c2 := Create(c1.store, e, d2, i2, t2, s2, v);
            var n0, n1, n2 := c0.result.value, c1.result.value, c2.result.value;
            var del := Delete(c2.store, e, n1.id);
            var up := Update(del.store, e, n0.id, u);
            && c2.store == [n0, n1, n2] && Valid(c2.store)
            && ListPage(c2.store, None, None, None, None) == Ok(Page([n2, n1, n0], Meta(10, None, None)))
            && del.result == Ok(n1)
            && ListPage(del.store, None, None, None, None) == Ok(Page([n2, n0], Meta(10, None, None)))
            && up.result == Ok(n0.(attrs := Merge(n0.attrs, u)))
            && Get(up.store, e, n0.id) == up.result
  {
    var c0 := Create([], e, d0, i0, t0, s0, v);
    var c1 := Create(c0.store, e, d1, i1, t1, s1, v);
    var c2 := Create(c1.store, e, d2, i2, t2, s2, v);
    var n0, n1, n2 := c0.result.value, c1.result.value, c2.result.value;
    CreateThree(e, i0, i1, i2, d0, d1, d2, t0, t1, t2, s0, s1, s2, v);
    DeleteThenUpdate(e, n0, n1, n2, u);
  }

  lemma {:induction false} CreateThree(e: Entity, i0: string, i1: string, i2: string,
                                       d0: Input, d1: Input, d2: Input,
                                       t0: string, t1: string, t2: string, s0: string, s1: string, s2: string, v: Option<string>)
    requires i0 != "" && Less(i0, i1) && Less(i1, i2)
    ensures var c0 := Create([], e, d0, i0, t0, s0, v);
            var c1 := Create(c0.store, e, d1, i1, t1, s1, v);
            var c2 := Create(c1.store, e, d2, i2, t2, s2, v);
            && c2.store == [c0.result.value, c1.result.value, c2.result.value]
            && Valid(c2.store)
  {
    var c0 := Create([], e, d0, i0, t0, s0, v);
    var c1 := Create(c0.store, e, d1, i1, t1, s1, v);
    CreateAppends([], e, d0, i0, t0, s0, v);
    CreateAppends(c0.store, e, d1, i1, t1, s1, v);
    LessTransitive(i0, i1, i2);
    CreateAppends(c1.store, e, d2, i2, t2, s2, v);
  }

  /** The rest of the CRUD test, from the three stored records on. */
  lemma {:induction false} DeleteThenUpdate(e: Entity, n0: Rec, n1: Rec, n2: Rec, u: Input)
    requires Valid([n0, n1, n2]) && Admits(e, u)
    ensures var store := [n0, n1, n2];
            var del := Delete(store, e, n1.id);
            var up := Update(del.store, e, n0.id, u);
            && ListPage(store, None, None, None, None) == Ok(Page([n2, n1, n0], Meta(10, None, None)))
            && del.result == Ok(n1)
            && ListPage(del.store, None, None, None, None) == Ok(Page([n2, n0], Meta(10, None, None)))
            && up.result == Ok(n0.(attrs := Merge(n0.attrs, u)))
            && Get(up.store, e, n0.id) == up.result
  {
    var store := [n0, n1, n2];
    ReverseThree(n0, n1, n2);
    OnePage(store);
    var del := Delete(store, e, n1.id);
    assert del.result == Ok(n1) && del.store == [n0, n2] by {
      DeleteEffect(store, e, n1.id, 1);
    }
    assert Reverse([n0, n2]) == [n2, n0] by {
      ReverseAt([n0, n2], 0);
      ReverseAt([n0, n2], 1);
    }
    OnePage(del.store);
    var up := Update(del.store, e, n0.id, u);
    assert up.result == Ok(n0.(attrs := Merge(n0.attrs, u))) by {
      FindAt(del.store, 0);
    }
    UpdateThenGet(del.store, e, n0.id, u);
  }

  /** Up to the default limit of records all fit on the first page, newest first, with no cursors. */
  lemma {:induction false} OnePage(store: seq<Rec>)
    requires Valid(store) && |store| <= DefaultLimit
    ensures ListPage(store, None, None, None, None) == Ok(Page(Reverse(store), Meta(DefaultLimit, None, None)))
  {
    var s := Ordered(store, Descending(None));
    FirstPage(store, None, None, None, None);
    assert s[..Min(DefaultLimit, |s|)] == s;
  }
}
