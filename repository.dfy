/** The in-memory repository: a list of records that its methods change in
    place and an auto-increment counter. Each method is proved to carry out
    the matching transition of module ProductStore. */
module Repository {
  import opened Products
  import ProductStore

  class ProductRepository {
    var products: seq<Product>
    var nextId: int

    /** The repository's contents as a value. */
    function State(): ProductStore.State
      reads this
    {
      ProductStore.State(products, nextId)
    }

    ghost predicate Valid()
      reads this
    {
      ProductStore.Valid(State())
    }

    /** Starts from the five seed records with the counter at 6. */
    constructor ()
      ensures Valid() && State() == ProductStore.Seed()
    {
      products := ProductStore.Seed().products;
      nextId := 6;
    }

    /** A copy of every record, in list order. */
    method GetAll() returns (r: seq<Product>)
      ensures r == products
    {
      r := products;
    }

    /** The linear scan: the position of the first record carrying `id`. */
    method FindIndex(id: int) returns (r: Option<nat>)
      ensures r == IndexOf(products, id)
      ensures r.Some? ==> r.value < |products| && products[r.value].id == id
      ensures r.None? <==> forall x :: x in products ==> x.id != id
    {
      var i := 0;
      while i < |products|
        invariant 0 <= i <= |products|
        invariant forall j :: 0 <= j < i ==> products[j].id != id
      {
        if products[i].id == id {
          return Some(i);
        }
        i := i + 1;
      }
      return None;
    }

    /** The record with id `id`, or None when no record carries it. */
    method GetById(id: int) returns (r: Option<Product>)
      requires Valid()
      ensures r == ProductStore.GetById(State(), id)
      ensures r.Some? <==> exists x :: x in products && x.id == id
      ensures r.Some? ==> r.value in products && r.value.id == id
    {
      ProductStore.GetByIdSpec(State(), id);
      var k := FindIndex(id);
      match k
      case None => r := None;
      case Some(i) => r := Some(products[i]);
    }

    /** Stores `p` under the next id, whatever id `p` carried, and returns
        the stored record. */
    method Create(p: Product) returns (r: Product)
      requires Valid()
      modifies this
      ensures Valid()
      ensures (State(), r) == ProductStore.Create(old(State()), p)
      ensures r == p.(id := old(nextId)) && nextId == old(nextId) + 1
      ensures products == old(products) + [r]
    {
      ProductStore.CreateSpec(State(), p);
      r := p.(id := nextId);
      nextId := nextId + 1;
      products := products + [r];
    }

    /** Overwrites name, description, price and stock of the record with id
        `id` and returns it; None, and no change, when the id is absent. */
    method Update(id: int, p: Product) returns (r: Option<Product>)
      requires Valid()
      modifies this
      ensures Valid()
      ensures (State(), r) == ProductStore.Update(old(State()), id, p)
      ensures nextId == old(nextId) && |products| == |old(products)|
      ensures r.None? <==> forall x :: x in old(products) ==> x.id != id
      ensures r.None? ==> products == old(products)
    {
      var k := FindIndex(id);
      match k
      case None =>
        r := None;
      case Some(i) =>
        ProductStore.UpdatePresent(State(), id, p, i);
        var updated := ProductStore.Overwrite(products[i], p);
        products := products[i := updated];
        r := Some(updated);
    }

    /** Removes the record with id `id`; reports whether there was one. */
    method Delete(id: int) returns (r: bool)
      requires Valid()
      modifies this
      ensures Valid()
      ensures (State(), r) == ProductStore.Delete(old(State()), id)
      ensures nextId == old(nextId)
      ensures r <==> exists x :: x in old(products) && x.id == id
      ensures forall x :: x in products <==> x in old(products) && x.id != id
      ensures r ==> exists k :: 0 <= k < |old(products)| && old(products)[k].id == id &&
                      products == old(products)[..k] + old(products)[k + 1..]
    {
      ProductStore.DeleteSpec(State(), id);
      var k := FindIndex(id);
      match k
      case None =>
        r := false;
      case Some(i) =>
        products := products[..i] + products[i + 1..];
        r := true;
    }
  }
}
