/** The product store as a value: the ordered list of records and the id
    counter, with one transition function per repository operation. The
    class in module Repository is proved to follow these transitions. */
module ProductStore {
  import opened Products

  datatype State = State(products: seq<Product>, nextId: int)

  /** The store's invariant: ids are distinct and all below the counter. */
  predicate Valid(st: State)
  {
    IdsDistinct(st.products) && IdsBelow(st.products, st.nextId)
  }

  /** The five seed records and the counter they leave behind. */
  function Seed(): State
  {
    State([Product(1, "Laptop", "High-performance laptop", 1299.99, 50),
           Product(2, "Mouse", "Wireless mouse", 29.99, 200),
           Product(3, "Keyboard", "Mechanical keyboard", 89.99, 150),
           Product(4, "Monitor", "27-inch 4K monitor", 399.99, 75),
           Product(5, "Headphones", "Noise-cancelling headphones", 249.99, 100)],
          6)
  }

  function GetById(st: State, id: int): (r: Option<Product>)
    ensures r.Some? ==> r.value in st.products && r.value.id == id
    ensures r.None? <==> forall x :: x in st.products ==> x.id != id
  {
    Lookup(st.products, id)
  }

  /** The record as stored: the caller's id is replaced by the counter. */
  function Create(st: State, p: Product): (r: (State, Product))
    ensures r.1.id == st.nextId && r.1.(id := p.id) == p
    ensures r.0.products == st.products + [r.1] && r.0.nextId == st.nextId + 1
  {
    var created := p.(id := st.nextId);
    (State(st.products + [created], st.nextId + 1), created)
  }

  /** The existing record with every field but the id taken from `p`. */
  function Overwrite(existing: Product, p: Product): (r: Product)
    ensures r.id == existing.id && r.(id := p.id) == p
  {
    existing.(name := p.name, description := p.description, price := p.price, stock := p.stock)
  }

  function Update(st: State, id: int, p: Product): (r: (State, Option<Product>))
    ensures r.1.None? <==> forall x :: x in st.products ==> x.id != id
    ensures r.1.None? ==> r.0 == st
    ensures r.0.nextId == st.nextId && |r.0.products| == |st.products|
  {
    match IndexOf(st.products, id)
    case None => (st, None)
    case Some(i) =>
      var updated := Overwrite(st.products[i], p);
      (st.(products := st.products[i := updated]), Some(updated))
  }

  function Delete(st: State, id: int): (r: (State, bool))
    ensures r.1 <==> exists x :: x in st.products && x.id == id
    ensures !r.1 ==> r.0 == st
    ensures r.0.nextId == st.nextId
    ensures r.1 ==> |r.0.products| == |st.products| - 1
  {
    match IndexOf(st.products, id)
    case None => (st, false)
    case Some(i) => (st.(products := st.products[..i] + st.products[i + 1..]), true)
  }

  /** The seed holds ids 1..5 in order, the counter is 6, and it is valid. */
  lemma SeedShape()
    ensures |Seed().products| == 5 && Seed().nextId == 6
    ensures forall i :: 0 <= i < 5 ==> Seed().products[i].id == i + 1
    ensures Valid(Seed()) && IdsAscending(Seed().products)
  {
  }

  /** GetById finds each stored record by its id, and nothing for an id no record carries. */
  lemma GetByIdSpec(st: State, id: int)
    requires Valid(st)
    ensures forall k :: 0 <= k < |st.products| && st.products[k].id == id ==>
              GetById(st, id) == Some(st.products[k])
    ensures GetById(st, id).None? <==> forall x :: x in st.products ==> x.id != id
    ensures GetById(st, id).Some? ==> GetById(st, id).value in st.products && GetById(st, id).value.id == id
  {
  }

  /** In a list with distinct ids, a lookup depends only on the records that
      carry the id: two such lists that agree on them agree on the lookup. */
  lemma LookupAgrees(s: seq<Product>, s': seq<Product>, id: int)
    requires IdsDistinct(s) && IdsDistinct(s')
    requires forall x: Product :: x.id == id ==> (x in s <==> x in s')
    ensures Lookup(s', id) == Lookup(s, id)
  {
  }

  /** Create issues the old counter, appends the record, bumps the counter
      by one, keeps the invariant, and the new record can be read back
      while every other id reads as before. */
  lemma CreateSpec(st: State, p: Product)
    requires Valid(st)
    ensures var (st', created) := Create(st, p);
      && created.id == st.nextId
      && created.(id := p.id) == p
      && st'.nextId == st.nextId + 1
      && st'.products == st.products + [created]
      && GetById(st, created.id).None?
      && Valid(st')
      && GetById(st', created.id) == Some(created)
      && forall other :: other != created.id ==> GetById(st', other) == GetById(st, other)
  {
    var (st', created) := Create(st, p);
    var s, s' := st.products, st'.products;
    assert Valid(st');
    LookupUnique(s', created.id, created);
    forall other | other != created.id
      ensures GetById(st', other) == GetById(st, other)
    {
      LookupAgrees(s, s', other);
    }
  }

  /** Update on an absent id changes nothing and reports absence. */
  lemma UpdateAbsent(st: State, id: int, p: Product)
    requires forall x :: x in st.products ==> x.id != id
    ensures Update(st, id, p) == (st, None)
  {
  }

  /** Update on a present id keeps that record's id and position, takes the
      other four fields from `p`, returns the updated record, and leaves
      every other record and the counter as they were. */
  lemma UpdatePresent(st: State, id: int, p: Product, k: nat)
    requires Valid(st)
    requires k < |st.products| && st.products[k].id == id
    ensures var (st', r) := Update(st, id, p);
      && r.Some?
      && r.value.id == id && r.value.name == p.name && r.value.description == p.description
      && r.value.price == p.price && r.value.stock == p.stock
      && |st'.products| == |st.products| && st'.products[k] == r.value
      && (forall j :: 0 <= j < |st.products| && j != k ==> st'.products[j] == st.products[j])
      && st'.nextId == st.nextId
      && Valid(st')
      && GetById(st', id) == r
      && forall other :: other != id ==> GetById(st', other) == GetById(st, other)
  {
  }

  /** Removing position k of a list keeps the other records in their order. */
  lemma RemoveAt(s: seq<Product>, k: nat)
    requires k < |s|
    ensures var s' := s[..k] + s[k + 1..];
      && |s'| == |s| - 1
      && (forall j :: 0 <= j < k ==> s'[j] == s[j])
      && (forall j :: k <= j < |s'| ==> s'[j] == s[j + 1])
      && (forall x :: x in s' <==> exists j :: 0 <= j < |s| && j != k && s[j] == x)
  {
  }

  /** Removing one record of a valid list keeps the remaining ids distinct
      and below the counter, and drops exactly the records with that id. */
  lemma RemoveValid(st: State, k: nat)
    requires Valid(st) && k < |st.products|
    ensures var s' := st.products[..k] + st.products[k + 1..];
      && Valid(State(s', st.nextId))
      && forall x :: x in s' <==> x in st.products && x.id != st.products[k].id
  {
  }

  /** Delete reports whether the id was present; when it was, exactly that
      record goes, the rest keep their order, and the id no longer reads;
      when it was not, nothing changes. A second Delete reports false. */
  lemma DeleteSpec(st: State, id: int)
    requires Valid(st)
    ensures var (st', deleted) := Delete(st, id);
      && (deleted <==> exists x :: x in st.products && x.id == id)
      && (!deleted ==> st' == st)
      && (deleted ==> |st'.products| == |st.products| - 1)
      && (deleted ==> forall x :: x in st'.products <==> x in st.products && x.id != id)
      && (deleted ==> exists k :: 0 <= k < |st.products| && st.products[k].id == id &&
                       st'.products == st.products[..k] + st.products[k + 1..])
      && st'.nextId == st.nextId
      && Valid(st')
      && GetById(st', id).None?
      && !Delete(st', id).1
      && forall other :: other != id ==> GetById(st', other) == GetById(st, other)
  {
    var s := st.products;
    var (st', deleted) := Delete(st, id);
    match IndexOf(s, id)
    case None =>
    case Some(k) =>
      RemoveAt(s, k);
      RemoveValid(st, k);
      var s' := st'.products;
      assert s' == s[..k] + s[k + 1..];
      forall other | other != id
        ensures GetById(st', other) == GetById(st, other)
      {
        LookupAgrees(s, s', other);
      }
  }

  /** One request served by the store, as the process-wide singleton sees them in turn. */
  datatype Request =
    | ListAll
    | Get(id: int)
    | Add(p: Product)
    | Edit(id: int, p: Product)
    | Remove(id: int)

  function Apply(st: State, rq: Request): State
  {
    match rq
    case ListAll => st
    case Get(_) => st
    case Add(p) => Create(st, p).0
    case Edit(id, p) => Update(st, id, p).0
    case Remove(id) => Delete(st, id).0
  }

  /** The state after serving the requests one after another. */
  function Run(st: State, rqs: seq<Request>): State
    decreases |rqs|
  {
    if rqs == [] then st else Run(Apply(st, rqs[0]), rqs[1..])
  }

  /** The ids that the Add requests of a run are given, in order. */
  function Issued(st: State, rqs: seq<Request>): seq<int>
    decreases |rqs|
  {
    if rqs == [] then []
    else (if rqs[0].Add? then [st.nextId] else []) + Issued(Apply(st, rqs[0]), rqs[1..])
  }

  predicate StrictlyIncreasing(s: seq<int>)
  {
    forall i, j :: 0 <= i < j < |s| ==> s[i] < s[j]
  }

  /** Every request keeps the invariant and never lowers the counter. */
  lemma ApplySpec(st: State, rq: Request)
    requires Valid(st)
    ensures Valid(Apply(st, rq))
    ensures Apply(st, rq).nextId == if rq.Add? then st.nextId + 1 else st.nextId
  {
  }

  /** Every state reachable from a valid one is valid; in particular every
      state reachable from the seed. */
  lemma {:induction false} RunValid(st: State, rqs: seq<Request>)
    requires Valid(st)
    ensures Valid(Run(st, rqs))
    decreases |rqs|
  {
    if rqs != [] {
      ApplySpec(st, rqs[0]);
      RunValid(Apply(st, rqs[0]), rqs[1..]);
    }
  }

  /** Ids handed out over any run strictly increase, start at the counter
      the run began with and stay below the counter it ends with. */
  lemma {:induction false} IssuedIncreasing(st: State, rqs: seq<Request>)
    requires Valid(st)
    ensures StrictlyIncreasing(Issued(st, rqs))
    ensures forall k :: 0 <= k < |Issued(st, rqs)| ==>
              st.nextId <= Issued(st, rqs)[k] < Run(st, rqs).nextId
    ensures st.nextId <= Run(st, rqs).nextId
    decreases |rqs|
  {
    if rqs != [] {
      var st1 := Apply(st, rqs[0]);
      ApplySpec(st, rqs[0]);
      IssuedIncreasing(st1, rqs[1..]);
      var head: seq<int> := if rqs[0].Add? then [st.nextId] else [];
      var rest := Issued(st1, rqs[1..]);
      assert Issued(st, rqs) == head + rest;
    }
  }

  /** An id that was ever stored is never handed out again, even after its
      record is deleted: the counter is already past it. */
  lemma DeletedIdNeverReissued(st: State, id: int, rqs: seq<Request>)
    requires Valid(st) && GetById(st, id).Some?
    ensures id !in Issued(Delete(st, id).0, rqs)
  {
    GetByIdSpec(st, id);
    DeleteSpec(st, id);
    IssuedIncreasing(Delete(st, id).0, rqs);
  }

  /** List order is issue order: if the ids ascend along the list they keep
      ascending over any run, as they do in the seed. */
  lemma {:induction false} RunAscending(st: State, rqs: seq<Request>)
    requires Valid(st) && IdsAscending(st.products)
    ensures IdsAscending(Run(st, rqs).products)
    decreases |rqs|
  {
    if rqs != [] {
      var rq := rqs[0];
      ApplySpec(st, rq);
      var st1 := Apply(st, rq);
      var s, s1 := st.products, st1.products;
      match rq {
      case ListAll =>
      case Get(_) =>
      case Add(p) =>
        assert IdsAscending(s1) by {
          forall i, j | 0 <= i < j < |s1| ensures s1[i].id < s1[j].id {
            if j == |s| { assert s1[i] == s[i]; } else { assert s1[i] == s[i] && s1[j] == s[j]; }
          }
        }
      case Edit(id, p) =>
        match IndexOf(s, id) {
          case None =>
          case Some(k) =>
            UpdatePresent(st, id, p, k);
            assert forall j :: 0 <= j < |s| ==> s1[j].id == s[j].id;
        }
      case Remove(id) =>
        match IndexOf(s, id) {
          case None =>
          case Some(k) =>
            RemoveAt(s, k);
            forall i, j | 0 <= i < j < |s1| ensures s1[i].id < s1[j].id {
              var i0 := if i < k then i else i + 1;
              var j0 := if j < k then j else j + 1;
              assert s1[i] == s[i0] && s1[j] == s[j0];
            }
        }
      }
      RunAscending(st1, rqs[1..]);
    }
  }
}
