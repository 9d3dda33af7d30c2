/**
 The point operations of one entity kind: `get`, `create`, `update` and
 `delete` as transitions of the partition that holds the entity's records.

 The resolvers address a record by `{ PK: getPK(), SK: id }`; within the one
 partition this model keeps, that is a lookup by sort key (`Find`). A write
 (`put` or `update`) stores the record under its sort key, replacing whatever
 was stored there (`Upsert`); `delete` removes the record stored under the key
 (`Remove`). The id generator, the clock and the environment are parameters.
 */
module Crud {
  import opened KeyOrder
  import opened Records

  /** The attribute names the resolvers manage themselves rather than take from `data`. */
  const SystemFields: set<string> := {"PK", "SK", "id", "createdOn", "savedOn", "webinyVersion"}

  /**
   An entity kind: the name its error messages use, the partition key its
   resolvers' `getPK()` yields, and the content fields its input types accept.
   */
  datatype Entity = Entity(name: string, partition: string, fields: set<string>)

  /**
   A request's `data`: each field it names holds a string, or `null` (`None`).
   A stored record keeps no null field: a field that is null or unset is
   absent from its `attrs`, which the schema reads as `null` either way.
   */
  type Input = map<string, Option<string>>

  /** The fields `data` sets to a string, with those strings. */
  function Assigned(data: Input): map<string, string> {
    map k | k in data && data[k].Some? :: data[k].value
  }

  /** `{ ...attrs, ...data }` on content fields: `data`'s strings replace, its nulls clear, the rest stays. */
  function Merge(attrs: map<string, string>, data: Input): map<string, string> {
    (attrs - data.Keys) + Assigned(data)
  }

  /**
   `data` is one the entity's update input type admits: content fields only,
   none of which the resolvers manage themselves.
   */
  predicate Admits(e: Entity, data: Input) {
    e.fields !! SystemFields && data.Keys <= e.fields
  }

  /** The partition after an operation, and what the operation returned or threw. */
  datatype Reply<T> = Reply(store: seq<Rec>, result: Result<T>)

  // ---------------------------------------------------------------------------
  // The store's writes

  /** `put`/`update` of `r`: it replaces the record under `r.sk`, or joins the partition in key order. */
  function Upsert(s: seq<Rec>, r: Rec): (t: seq<Rec>)
    ensures |s| <= |t| <= |s| + 1
  {
    if s == [] then [r]
    else if s[0].sk == r.sk then [r] + s[1..]
    else if Less(r.sk, s[0].sk) then [r] + s
    else [s[0]] + Upsert(s[1..], r)
  }

  /** `delete` of the record under key `k`, if there is one. */
  function Remove(s: seq<Rec>, k: string): (t: seq<Rec>)
    ensures |t| <= |s|
  {
    if s == [] then []
    else if s[0].sk == k then s[1..]
    else [s[0]] + Remove(s[1..], k)
  }

  lemma {:induction false} HeadBelow(s: seq<Rec>, x: Rec)
    requires Monotone(s, false) && s != [] && x in s[1..]
    ensures Less(s[0].sk, x.sk)
  {
    var j :| 0 <= j < |s[1..]| && s[1..][j] == x;
    assert s[j + 1] == x;
    assert Ahead(false, s[0].sk, s[j + 1].sk);
  }

  /** In a partition, a key below the first record's key is stored nowhere. */
  lemma {:induction false} BelowHeadAbsent(s: seq<Rec>, k: string, x: Rec)
    requires Monotone(s, false) && s != [] && Less(k, s[0].sk) && x in s
    ensures x.sk != k
  {
    if x == s[0] {
      LessIrreflexive(k);
    } else {
      assert x in s[1..] by {
        var j :| 0 <= j < |s| && s[j] == x;
        assert s[1..][j - 1] == x;
      }
      HeadBelow(s, x);
      LessAsymmetric(k, s[0].sk);
    }
  }

  /** Only the first record of a partition holds its key. */
  lemma {:induction false} HeadKeyUnique(s: seq<Rec>, x: Rec)
    requires Monotone(s, false) && s != [] && x in s[1..]
    ensures x.sk != s[0].sk
  {
    HeadBelow(s, x);
    LessIrreflexive(s[0].sk);
  }

  lemma {:induction false} InTail(s: seq<Rec>, x: Rec)
    requires s != [] && x in s && x != s[0]
    ensures x in s[1..]
  {
    var j :| 0 <= j < |s| && s[j] == x;
    assert s[1..][j - 1] == x;
  }

  /** After a write of `r`, the partition holds `r` and every other record whose key differs. */
  lemma {:induction false} UpsertHas(s: seq<Rec>, r: Rec, x: Rec)
    requires Monotone(s, false)
    ensures x in Upsert(s, r) <==> x == r || (x in s && x.sk != r.sk)
  {
    if s != [] {
      if s[0].sk == r.sk {
        if x in s[1..] {
          HeadKeyUnique(s, x);
        }
        if x in s && x.sk != r.sk {
          InTail(s, x);
        }
      } else if Less(r.sk, s[0].sk) {
        if x in s {
          BelowHeadAbsent(s, r.sk, x);
        }
      } else {
        MonotoneTail(s, false);
        UpsertHas(s[1..], r, x);
        if x in s && x != s[0] {
          InTail(s, x);
        }
      }
    }
  }

  /** A write keeps a partition in strictly ascending key order. */
  lemma {:induction false} UpsertMonotone(s: seq<Rec>, r: Rec)
    requires Monotone(s, false)
    ensures Monotone(Upsert(s, r), false)
  {
    var t := Upsert(s, r);
    if s == [] {
    } else if s[0].sk == r.sk {
      forall i, j | 0 <= i < j < |t|
        ensures Ahead(false, t[i].sk, t[j].sk)
      {
        assert t[j] == s[j];
        if i > 0 {
          assert t[i] == s[i];
        }
        assert Ahead(false, s[i].sk, s[j].sk);
      }
    } else if Less(r.sk, s[0].sk) {
      forall i, j | 0 <= i < j < |t|
        ensures Ahead(false, t[i].sk, t[j].sk)
      {
        assert t[j] == s[j - 1];
        if i > 0 {
          assert t[i] == s[i - 1];
          assert Ahead(false, s[i - 1].sk, s[j - 1].sk);
        } else if j > 1 {
          assert Ahead(false, s[0].sk, s[j - 1].sk);
          LessTransitive(r.sk, s[0].sk, s[j - 1].sk);
        }
      }
    } else {
      LessTotal(r.sk, s[0].sk);
      MonotoneTail(s, false);
      UpsertMonotone(s[1..], r);
      var u := Upsert(s[1..], r);
      assert t == [s[0]] + u;
      forall i, j | 0 <= i < j < |t|
        ensures Ahead(false, t[i].sk, t[j].sk)
      {
        assert t[j] == u[j - 1];
        if i > 0 {
          assert t[i] == u[i - 1];
          assert Ahead(false, u[i - 1].sk, u[j - 1].sk);
        } else {
          UpsertHas(s[1..], r, u[j - 1]);
          if u[j - 1] != r {
            HeadBelow(s, u[j - 1]);
          }
        }
      }
    }
  }

  /** Writing a record under a key not yet stored adds one record. */
  lemma {:induction false} UpsertFreshGrows(s: seq<Rec>, r: Rec)
    requires forall x :: x in s ==> x.sk != r.sk
    ensures |Upsert(s, r)| == |s| + 1
  {
    if s != [] {
      assert s[0] in s;
      forall x | x in s[1..]
        ensures x.sk != r.sk
      {
        assert x in s;
      }
      UpsertFreshGrows(s[1..], r);
    }
  }

  /** Writing a record with a key above every stored key appends it. */
  lemma {:induction false} UpsertAppends(s: seq<Rec>, r: Rec)
    requires forall x :: x in s ==> Less(x.sk, r.sk)
    ensures Upsert(s, r) == s + [r]
  {
    if s != [] {
      assert s[0] in s;
      LessIrreflexive(r.sk);
      LessAsymmetric(s[0].sk, r.sk);
      forall x | x in s[1..]
        ensures Less(x.sk, r.sk)
      {
        assert x in s;
      }
      UpsertAppends(s[1..], r);
      assert s == [s[0]] + s[1..];
    }
  }

  /** Writing a record under the key of the record at position `i` replaces that record in place. */
  lemma {:induction false} UpsertAt(s: seq<Rec>, r: Rec, i: int)
    requires Monotone(s, false) && 0 <= i < |s| && s[i].sk == r.sk
    ensures Upsert(s, r) == s[i := r]
  {
    if i > 0 {
      assert s[1..][i - 1] == s[i];
      HeadKeyUnique(s, s[i]);
      assert Less(s[0].sk, r.sk) by {
        assert Ahead(false, s[0].sk, s[i].sk);
      }
      LessAsymmetric(s[0].sk, r.sk);
      MonotoneTail(s, false);
      UpsertAt(s[1..], r, i - 1);
      assert s[i := r] == [s[0]] + s[1..][i - 1 := r];
    }
  }

  /** After a removal, the partition holds exactly the records whose key differs. */
  lemma {:induction false} RemoveHas(s: seq<Rec>, k: string, x: Rec)
    requires Monotone(s, false)
    ensures x in Remove(s, k) <==> x in s && x.sk != k
  {
    if s != [] {
      if s[0].sk == k {
        if x in s[1..] {
          HeadKeyUnique(s, x);
        }
        if x in s && x.sk != k {
          InTail(s, x);
        }
      } else {
        MonotoneTail(s, false);
        RemoveHas(s[1..], k, x);
        if x in s && x != s[0] {
          InTail(s, x);
        }
      }
    }
  }

  /** Removing the record at position `i` leaves the others in their order. */
  lemma {:induction false} RemoveAt(s: seq<Rec>, i: int)
    requires Monotone(s, false) && 0 <= i < |s|
    ensures Remove(s, s[i].sk) == s[..i] + s[i + 1..]
  {
    if i > 0 {
      assert s[1..][i - 1] == s[i];
      HeadKeyUnique(s, s[i]);
      MonotoneTail(s, false);
      RemoveAt(s[1..], i - 1);
      assert s[..i] + s[i + 1..] == [s[0]] + (s[1..][..i - 1] + s[1..][i..]);
    }
  }

  /** Removing a key that is not stored changes nothing. */
  lemma {:induction false} RemoveAbsent(s: seq<Rec>, k: string)
    requires forall i :: 0 <= i < |s| ==> s[i].sk != k
    ensures Remove(s, k) == s
  {
    if s != [] {
      RemoveAbsent(s[1..], k);
      assert s == [s[0]] + s[1..];
    }
  }

  /** A removal keeps a partition in strictly ascending key order. */
  lemma {:induction false} RemoveMonotone(s: seq<Rec>, k: string)
    requires Monotone(s, false)
    ensures Monotone(Remove(s, k), false)
  {
    if Find(s, k).None? {
      RemoveAbsent(s, k);
    } else {
      var x := Find(s, k).value;
      var i :| 0 <= i < |s| && s[i] == x;
      RemoveAt(s, i);
      var t := s[..i] + s[i + 1..];
      forall a, b | 0 <= a < b < |t|
        ensures Ahead(false, t[a].sk, t[b].sk)
      {
        var a', b' := if a < i then a else a + 1, if b < i then b else b + 1;
        assert t[a] == s[a'] && t[b] == s[b'];
        assert Ahead(false, s[a'].sk, s[b'].sk);
      }
    }
  }

  /** Every record of a partition is found under its own key. */
  lemma {:induction false} FindHas(s: seq<Rec>, x: Rec)
    requires Monotone(s, false) && x in s
    ensures Find(s, x.sk) == Some(x)
  {
    var i :| 0 <= i < |s| && s[i] == x;
    FindAt(s, i);
  }

  /** What a lookup returns after a write of `r`. */
  lemma {:induction false} UpsertFind(s: seq<Rec>, r: Rec, k: string)
    requires Monotone(s, false)
    ensures Find(Upsert(s, r), k) == if k == r.sk then Some(r) else Find(s, k)
  {
    var t := Upsert(s, r);
    UpsertMonotone(s, r);
    if k == r.sk {
      UpsertHas(s, r, r);
      FindHas(t, r);
    } else if Find(s, k).Some? {
      var x := Find(s, k).value;
      UpsertHas(s, r, x);
      FindHas(t, x);
    } else {
      forall i | 0 <= i < |t|
        ensures t[i].sk != k
      {
        UpsertHas(s, r, t[i]);
      }
    }
  }

  /** What a lookup returns after a removal of `k`. */
  lemma {:induction false} RemoveFind(s: seq<Rec>, k: string, k': string)
    requires Monotone(s, false)
    ensures Find(Remove(s, k), k).None?
    ensures k' != k ==> Find(Remove(s, k), k') == Find(s, k')
  {
    var t := Remove(s, k);
    forall i | 0 <= i < |t|
      ensures t[i].sk != k
    {
      RemoveHas(s, k, t[i]);
    }
    if k' != k {
      if Find(s, k').Some? {
        var x := Find(s, k').value;
        RemoveHas(s, k, x);
        RemoveMonotone(s, k);
        FindHas(t, x);
      } else {
        forall i | 0 <= i < |t|
          ensures t[i].sk != k'
        {
          RemoveHas(s, k, t[i]);
        }
      }
    }
  }

  /** A write of a keyed record keeps a partition valid. */
  lemma {:induction false} UpsertValid(s: seq<Rec>, r: Rec)
    requires Valid(s) && r.id == r.sk && r.sk != ""
    ensures Valid(Upsert(s, r))
  {
    var t := Upsert(s, r);
    UpsertMonotone(s, r);
    forall i | 0 <= i < |t|
      ensures t[i].id == t[i].sk && t[i].sk != ""
    {
      UpsertHas(s, r, t[i]);
      if t[i] != r {
        KeyedHas(s, t[i]);
      }
    }
  }

  /** A removal keeps a partition valid. */
  lemma {:induction false} RemoveValid(s: seq<Rec>, k: string)
    requires Valid(s)
    ensures Valid(Remove(s, k))
  {
    var t := Remove(s, k);
    RemoveMonotone(s, k);
    forall i | 0 <= i < |t|
      ensures t[i].id == t[i].sk && t[i].sk != ""
    {
      RemoveHas(s, k, t[i]);
      KeyedHas(s, t[i]);
    }
  }

  // ---------------------------------------------------------------------------
  // The resolvers

  /** `get{Entity}`: the record stored under `id`, or the not-found error. */
  function Get(store: seq<Rec>, e: Entity, id: string): (r: Result<Rec>)
    ensures r.Ok? ==> r.value in store && r.value.sk == id
    ensures r.Err? <==> forall i :: 0 <= i < |store| ==> store[i].sk != id
    ensures r.Err? ==> r.error == NotFound(e.name, id)
  {
    match Find(store, id)
    case None => Err(NotFound(e.name, id))
    case Some(x) => Ok(x)
  }

  /** In a valid partition, `get` finds every stored record under its id, and only it. */
  lemma {:induction false} GetStored(store: seq<Rec>, e: Entity, x: Rec)
    requires Valid(store) && x in store
    ensures Get(store, e, x.id) == Ok(x)
  {
    FindHas(store, x);
    var i :| 0 <= i < |store| && store[i] == x;
  }

  /**
   The record `create{Entity}` builds: `data` spread first, then the partition
   key, the new id as both sort key and `id`, two clock readings and the
   deployment's version, so those names in `data` are overridden.
   */
  function NewRecord(e: Entity, data: Input, id: string,
                     createdOn: string, savedOn: string, version: Option<string>): (r: Rec)
    ensures r.pk == e.partition && r.sk == id && r.id == id
    ensures r.createdOn == createdOn && r.savedOn == savedOn && r.webinyVersion == version
    ensures r.attrs.Keys !! SystemFields
    ensures forall k :: k in data && k !in SystemFields && data[k].Some? ==> k in r.attrs && r.attrs[k] == data[k].value
    ensures forall k :: k in r.attrs ==> k in data && data[k].Some?
  {
    Rec(e.partition, id, id, createdOn, savedOn, version, Assigned(data) - SystemFields)
  }

  /**
   `create{Entity}`: `id` is the freshly generated `mdbid()`, `createdOn` and
   `savedOn` the two clock readings, `version` the `WEBINY_VERSION` variable.
   The new record is written and returned.
   */
  function Create(store: seq<Rec>, e: Entity, data: Input, id: string,
                  createdOn: string, savedOn: string, version: Option<string>): (rep: Reply<Rec>)
    ensures rep.result == Ok(NewRecord(e, data, id, createdOn, savedOn, version))
    ensures |store| <= |rep.store| <= |store| + 1
    ensures Valid(store) && id != "" ==> Valid(rep.store)
    ensures Monotone(store, false) ==> Find(rep.store, id) == Some(rep.result.value)
  {
    var r := NewRecord(e, data, id, createdOn, savedOn, version);
    assert Valid(store) && id != "" ==> Valid(Upsert(store, r)) by {
      if Valid(store) && id != "" {
        UpsertValid(store, r);
      }
    }
    assert Monotone(store, false) ==> Find(Upsert(store, r), id) == Some(r) by {
      if Monotone(store, false) {
        UpsertFind(store, r, id);
      }
    }
    Reply(Upsert(store, r), Ok(r))
  }

  /** After `create`, `get` of the new id returns exactly what `create` returned. */
  lemma {:induction false} CreateThenGet(store: seq<Rec>, e: Entity, data: Input, id: string,
                      createdOn: string, savedOn: string, version: Option<string>)
    requires Valid(store)
    ensures var rep := Create(store, e, data, id, createdOn, savedOn, version);
            Get(rep.store, e, id) == rep.result
  {
    UpsertFind(store, NewRecord(e, data, id, createdOn, savedOn, version), id);
  }

  /**
   `create` adds exactly the new record: it holds the new record and every
   record it held before, other keys read as before, and it stays valid.
   */
  lemma {:induction false} CreateEffect(store: seq<Rec>, e: Entity, data: Input, id: string,
                     createdOn: string, savedOn: string, version: Option<string>)
    requires Valid(store) && id != ""
    requires forall x :: x in store ==> x.sk != id
    ensures var rep := Create(store, e, data, id, createdOn, savedOn, version);
            && Valid(rep.store)
            && |rep.store| == |store| + 1
            && (forall x :: x in rep.store <==> x in store || Ok(x) == rep.result)
            && (forall k :: k != id ==> Find(rep.store, k) == Find(store, k))
  {
    var r := NewRecord(e, data, id, createdOn, savedOn, version);
    var t := Upsert(store, r);
    forall x
      ensures x in t <==> x in store || x == r
    {
      UpsertHas(store, r, x);
    }
    forall k | k != id
      ensures Find(t, k) == Find(store, k)
    {
      UpsertFind(store, r, k);
    }
    UpsertFreshGrows(store, r);
  }

  /**
   `mdbid` ids grow with time, so a new id lies above every stored key and the
   new record is appended at the end of the partition.
   */
  lemma {:induction false} CreateAppends(store: seq<Rec>, e: Entity, data: Input, id: string,
                      createdOn: string, savedOn: string, version: Option<string>)
    requires forall x :: x in store ==> Less(x.sk, id)
    ensures var rep := Create(store, e, data, id, createdOn, savedOn, version);
            rep.store == store + [rep.result.value]
  {
    UpsertAppends(store, NewRecord(e, data, id, createdOn, savedOn, version));
  }

  /**
   `update{Entity}`: the stored record with `data` spread over it, written back
   and returned; a missing id throws before anything is written. A field set
   to `null` in `data` is cleared. `data` holds content fields only, as the
   schema's update input type allows.
   */
  function Update(store: seq<Rec>, e: Entity, id: string, data: Input): (rep: Reply<Rec>)
    requires Admits(e, data)
    ensures rep.result.Err? <==> forall i :: 0 <= i < |store| ==> store[i].sk != id
    ensures rep.result.Err? ==> rep.store == store && rep.result.error == NotFound(e.name, id)
    ensures rep.result.Ok? ==>
              var prev := Find(store, id).value;
              var u := rep.result.value;
              && prev in store && prev.sk == id
              && u.pk == prev.pk && u.sk == prev.sk && u.id == prev.id
              && u.createdOn == prev.createdOn && u.savedOn == prev.savedOn && u.webinyVersion == prev.webinyVersion
              && (forall k :: k in u.attrs <==> (k in data && data[k].Some?) || (k in prev.attrs && k !in data))
              && (forall k :: k in data && data[k].Some? ==> u.attrs[k] == data[k].value)
              && (forall k :: k in prev.attrs && k !in data ==> u.attrs[k] == prev.attrs[k])
    ensures Valid(store) ==> Valid(rep.store)
  {
    match Find(store, id)
    case None => Reply(store, Err(NotFound(e.name, id)))
    case Some(prev) =>
      var u := prev.(attrs := Merge(prev.attrs, data));
      assert Valid(store) ==> Valid(Upsert(store, u)) by {
        if Valid(store) {
          KeyedHas(store, prev);
          UpsertValid(store, u);
        }
      }
      Reply(Upsert(store, u), Ok(u))
  }

  /** After a successful `update`, `get` of the id returns exactly what `update` returned. */
  lemma {:induction false} UpdateThenGet(store: seq<Rec>, e: Entity, id: string, data: Input)
    requires Valid(store) && Admits(e, data)
    ensures var rep := Update(store, e, id, data);
            rep.result.Ok? ==> Get(rep.store, e, id) == rep.result
  {
    var rep := Update(store, e, id, data);
    if rep.result.Ok? {
      UpsertFind(store, rep.result.value, id);
    }
  }

  /** A successful `update` replaces the record in place: same length, same order, nothing else changes, still valid. */
  lemma {:induction false} UpdateInPlace(store: seq<Rec>, e: Entity, id: string, data: Input, i: int)
    requires Valid(store) && Admits(e, data)
    requires 0 <= i < |store| && store[i].sk == id
    ensures var rep := Update(store, e, id, data);
            && rep.result.Ok?
            && rep.store == store[i := rep.result.value]
            && Valid(rep.store)
  {
    FindAt(store, i);
    var u := store[i].(attrs := Merge(store[i].attrs, data));
    UpsertAt(store, u, i);
  }

  /** `delete{Entity}`: the stored record is removed and returned; a missing id throws before anything is removed. */
  function Delete(store: seq<Rec>, e: Entity, id: string): (rep: Reply<Rec>)
    ensures rep.result.Err? <==> forall i :: 0 <= i < |store| ==> store[i].sk != id
    ensures rep.result.Err? ==> rep.store == store && rep.result.error == NotFound(e.name, id)
    ensures rep.result.Ok? ==> rep.result.value in store && rep.result.value.sk == id
    ensures |rep.store| <= |store|
    ensures Valid(store) ==> Valid(rep.store)
    ensures Monotone(store, false) && rep.result.Ok? ==> |rep.store| == |store| - 1 && Find(rep.store, id).None?
    ensures Monotone(store, false) ==> forall k :: k != id ==> Find(rep.store, k) == Find(store, k)
  {
    match Find(store, id)
    case None => Reply(store, Err(NotFound(e.name, id)))
    case Some(x) =>
      assert Valid(store) ==> Valid(Remove(store, id)) by {
        if Valid(store) {
          RemoveValid(store, id);
        }
      }
      assert Monotone(store, false) ==> |Remove(store, id)| == |store| - 1 by {
        if Monotone(store, false) {
          var i :| 0 <= i < |store| && store[i] == x;
          RemoveAt(store, i);
        }
      }
      assert Monotone(store, false) ==> forall k :: Find(Remove(store, id), k) == if k == id then None else Find(store, k) by {
        if Monotone(store, false) {
          forall k {
            RemoveFind(store, id, k);
          }
        }
      }
      Reply(Remove(store, id), Ok(x))
  }

  /** After a successful `delete`, `get` of the id fails. */
  lemma {:induction false} DeleteThenGet(store: seq<Rec>, e: Entity, id: string)
    requires Valid(store)
    ensures var rep := Delete(store, e, id);
            rep.result.Ok? ==> Get(rep.store, e, id) == Err(NotFound(e.name, id))
  {
    RemoveFind(store, id, id);
  }

  /**
   A successful `delete` removes exactly that record: the others stay in their
   order, other keys read as before, and the partition stays valid.
   */
  lemma {:induction false} DeleteEffect(store: seq<Rec>, e: Entity, id: string, i: int)
    requires Valid(store) && 0 <= i < |store| && store[i].sk == id
    ensures var rep := Delete(store, e, id);
            && rep.result == Ok(store[i])
            && rep.store == store[..i] + store[i + 1..]
            && Valid(rep.store)
            && (forall k :: k != id ==> Find(rep.store, k) == Find(store, k))
  {
    FindAt(store, i);
    RemoveAt(store, i);
    var t := store[..i] + store[i + 1..];
    forall k | k != id
      ensures Find(t, k) == Find(store, k)
    {
      RemoveFind(store, id, k);
    }
  }
}
