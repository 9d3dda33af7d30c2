/**
 Records of one partition and the error values the resolvers produce.

 A partition of the single-table design holds the records of one entity kind
 (all `Noticia` records, or all `Slider` records) under one partition key, kept
 by the store in ascending sort-key order. Such a partition is modelled as a
 sequence of records that is strictly ascending by `sk`.
 */
module Records {
  import opened KeyOrder

  datatype Option<T> = None | Some(value: T)

  datatype Error =
    /** `throw new Error(`${Entity} "${id}" not found.`)` of the point operations */
    | NotFound(entity: string, id: string)
    /** A TypeError: the resolver read `.id` of `Items[index]`, which does not exist */
    | MissingItem(index: int)

  datatype Result<T> = Ok(value: T) | Err(error: Error)

  /**
   A stored entity. `pk`/`sk` are the DynamoDB key attributes, `id` the public
   id (equal to `sk` for every record `create` writes), and `attrs` holds the
   entity's own content fields (`title`, `description`, ...) by name.
   */
  datatype Rec = Rec(
    pk: string,
    sk: string,
    id: string,
    createdOn: string,
    savedOn: string,
    webinyVersion: Option<string>,
    attrs: map<string, string>)

  /** `k` lies strictly beyond `c` when scanning descending (`reverse`) or ascending. */
  predicate Ahead(reverse: bool, c: string, k: string) {
    if reverse then Less(k, c) else Less(c, k)
  }

  /**
   Sort keys strictly increase (`!reverse`) or strictly decrease (`reverse`) along `s`.
   The trigger keeps the pairwise fact from being instantiated for every pair
   of positions in sight; a proof asks for a pair by mentioning its `Ahead`.
   */
  predicate Monotone(s: seq<Rec>, reverse: bool) {
    forall i, j {:trigger Ahead(reverse, s[i].sk, s[j].sk)} :: 0 <= i < j < |s| ==> Ahead(reverse, s[i].sk, s[j].sk)
  }

  /** Every record's id is its (non-empty) sort key, as `create` establishes. */
  predicate Keyed(s: seq<Rec>) {
    forall i :: 0 <= i < |s| ==> s[i].id == s[i].sk && s[i].sk != ""
  }

  lemma {:induction false} KeyedHas(s: seq<Rec>, x: Rec)
    requires Keyed(s) && x in s
    ensures x.id == x.sk && x.sk != ""
  {
  }

  /** The shape of a partition as the store keeps it. */
  predicate Valid(s: seq<Rec>) {
    Monotone(s, false) && Keyed(s)
  }

  lemma {:induction false} AheadIrreflexive(reverse: bool, a: string)
    ensures !Ahead(reverse, a, a)
  {
    LessIrreflexive(a);
  }

  lemma {:induction false} AheadAsymmetric(reverse: bool, a: string, b: string)
    requires Ahead(reverse, a, b)
    ensures !Ahead(reverse, b, a)
  {
    if reverse {
      LessAsymmetric(b, a);
    } else {
      LessAsymmetric(a, b);
    }
  }

  lemma {:induction false} MonotoneTail(s: seq<Rec>, reverse: bool)
    requires Monotone(s, reverse) && s != []
    ensures Monotone(s[1..], reverse)
  {
    var tail := s[1..];
    forall i, j | 0 <= i < j < |tail|
      ensures Ahead(reverse, tail[i].sk, tail[j].sk)
    {
      assert tail[i] == s[i + 1] && tail[j] == s[j + 1];
      assert Ahead(reverse, s[i + 1].sk, s[j + 1].sk);
    }
  }

  /** Key lookup: the record stored under sort key `k`, if any (the map view of a partition). */
  function Find(s: seq<Rec>, k: string): (o: Option<Rec>)
    ensures o.Some? ==> o.value in s && o.value.sk == k
    ensures o.None? <==> forall i :: 0 <= i < |s| ==> s[i].sk != k
  {
    if s == [] then None
    else if s[0].sk == k then Some(s[0])
    else Find(s[1..], k)
  }

  /** Sort keys are unique in a partition, so a lookup finds exactly the record holding the key. */
  lemma {:induction false} FindAt(s: seq<Rec>, i: int)
    requires Monotone(s, false) && 0 <= i < |s|
    ensures Find(s, s[i].sk) == Some(s[i])
  {
    if i > 0 {
      assert s[0].sk != s[i].sk by {
        assert Ahead(false, s[0].sk, s[i].sk);
        LessIrreflexive(s[0].sk);
      }
      assert s[1..][i - 1] == s[i];
      MonotoneTail(s, false);
      FindAt(s[1..], i - 1);
    }
  }
}
