/**
 The two scaffolded entity kinds and what their mutations mean for listing.

 `Noticia` and `Slider` run the same resolvers (`Crud` for the point
 operations, `Pagination.ListPage` for `listNoticias` / `listSliders`); they
 differ only in the name their error messages use, their partition and their
 content fields. `getPK()` is not part of this model, so the partition key is a
 parameter.
 */
module Resolvers {
  import opened KeyOrder
  import opened Records
  import opened RangeScan
  import opened Pagination
  import opened Crud

  /** The `Noticia` entity under partition key `pk`. */
  function Noticia(pk: string): (e: Entity)
    ensures e.name == "Noticia" && e.partition == pk
    ensures "title" in e.fields && "subtitle" in e.fields
    ensures e.fields !! SystemFields
  {
    Entity("Noticia", pk, {"title", "subtitle", "description", "mainImage"})
  }

  /** The `Slider` entity under partition key `pk`. */
  function Slider(pk: string): (e: Entity)
    ensures e.name == "Slider" && e.partition == pk
    ensures "title" in e.fields && "coverImage" in e.fields
    ensures e.fields !! SystemFields
  {
    Entity("Slider", pk, {"title", "description", "coverImage"})
  }

  /**
   The `Noticia` resolvers on any `NoticiaUpdateInput`: `createNoticia` files
   the record under `pk` and `getNoticia` reads back what it returned;
   `updateNoticia` on a stored id is read back the same way, and on an unknown
   id throws the `Noticia` not-found error.
   */
  lemma {:induction false} NoticiaRoundTrip(store: seq<Rec>, pk: string, data: Input, id: string,
                                            createdOn: string, savedOn: string, version: Option<string>)
    requires Valid(store) && data.Keys <= Noticia(pk).fields
    ensures var c := Create(store, Noticia(pk), data, id, createdOn, savedOn, version);
            c.result.Ok? && c.result.value.pk == pk && Get(c.store, Noticia(pk), id) == c.result
    ensures var u := Update(store, Noticia(pk), id, data);
            && (u.result.Ok? ==> Get(u.store, Noticia(pk), id) == u.result)
            && (u.result.Err? ==> u.result.error == NotFound("Noticia", id))
  {
    CreateThenGet(store, Noticia(pk), data, id, createdOn, savedOn, version);
    UpdateThenGet(store, Noticia(pk), id, data);
  }

  /**
   The `Slider` resolvers on any `SliderUpdateInput`: `createSlider` files the
   record under `pk` and `getSlider` reads back what it returned;
   `updateSlider` on a stored id is read back the same way, and on an unknown
   id throws the `Slider` not-found error.
   */
  lemma {:induction false} SliderRoundTrip(store: seq<Rec>, pk: string, data: Input, id: string,
                                           createdOn: string, savedOn: string, version: Option<string>)
    requires Valid(store) && data.Keys <= Slider(pk).fields
    ensures var c := Create(store, Slider(pk), data, id, createdOn, savedOn, version);
            c.result.Ok? && c.result.value.pk == pk && Get(c.store, Slider(pk), id) == c.result
    ensures var u := Update(store, Slider(pk), id, data);
            && (u.result.Ok? ==> Get(u.store, Slider(pk), id) == u.result)
            && (u.result.Err? ==> u.result.error == NotFound("Slider", id))
  {
    CreateThenGet(store, Slider(pk), data, id, createdOn, savedOn, version);
    UpdateThenGet(store, Slider(pk), id, data);
  }

  /**
   Once `delete` succeeds, no listing shows the deleted record again, whatever
   its limit, sort or cursors, and every record a listing shows is one the
   partition held before.
   */
  lemma {:induction false} DeleteThenList(store: seq<Rec>, e: Entity, id: string,
                                          limit: Option<nat>, sort: Option<Sort>, after: Option<string>, before: Option<string>)
    requires Valid(store)
    ensures var rep := Delete(store, e, id);
            var r := ListPage(rep.store, limit, sort, after, before);
            rep.result.Ok? && r.Ok? ==>
              && rep.result.value !in r.value.data
              && forall x :: x in r.value.data ==> x in store
  {
    var rep := Delete(store, e, id);
    if rep.result.Ok? {
      var i :| 0 <= i < |store| && store[i] == rep.result.value;
      DeleteEffect(store, e, id, i);
      PageFromStore(rep.store, limit, sort, after, before);
      var r := ListPage(rep.store, limit, sort, after, before);
      if r.Ok? {
        forall x | x in r.value.data
          ensures x in store && x.sk != id
        {
          RemoveHas(store, id, x);
        }
      }
    }
  }

  /**
   `mdbid` ids grow with time, so a record just created heads the default
   (newest first) listing, and the rest of that page is what the first page
   held before, shifted down by one.
   */
  lemma {:induction false} CreateListsFirst(store: seq<Rec>, e: Entity, data: Input, id: string,
                                            createdOn: string, savedOn: string, version: Option<string>, l: nat)
    requires Valid(store) && id != "" && l >= 1
    requires forall x :: x in store ==> Less(x.sk, id)
    ensures var rep := Create(store, e, data, id, createdOn, savedOn, version);
            var before := ListPage(store, Some(l), None, None, None);
            var r := ListPage(rep.store, Some(l), None, None, None);
            && r.Ok? && before.Ok?
            && r.value.data == [rep.result.value] + Take(before.value.data, l - 1)
  {
    var rep := Create(store, e, data, id, createdOn, savedOn, version);
    CreateAppends(store, e, data, id, createdOn, savedOn, version);
    NewestFirst(store, l);
    NewestFirst(store + [rep.result.value], l);
    TakeNewest(store, rep.result.value, l);
  }

  /** Reading `s + [n]` backwards starts with `n`, then `s` read backwards. */
  lemma {:induction false} TakeNewest<T>(s: seq<T>, n: T, l: nat)
    requires l >= 1
    ensures Take(Reverse(s + [n]), l) == [n] + Take(Take(Reverse(s), l), l - 1)
  {
    ReverseConcat(s, [n]);
    assert Reverse([n]) == [n] by {
      assert [n][1..] == [];
    }
    var r := Reverse(s);
    assert ([n] + r)[..Min(l, |r| + 1)] == [n] + r[..Min(l - 1, |r|)];
  }

  /** The default listing shows the newest records first: the partition read backwards. */
  lemma {:induction false} NewestFirst(store: seq<Rec>, l: nat)
    requires Valid(store) && l >= 1
    ensures var r := ListPage(store, Some(l), None, None, None);
            r.Ok? && r.value.data == Take(Reverse(store), l)
  {
    FirstPage(store, Some(l), None, None, None);
  }
}
