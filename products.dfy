/** The product record and the id search that every store operation starts with. */
module Products {

  datatype Option<T> = None | Some(value: T)

  /** One product. The price is a decimal amount, held exactly as a real;
      neither price nor stock carries a sign constraint. */
  datatype Product = Product(id: int, name: string, description: string, price: real, stock: int)

  /** No two records share an id. */
  predicate IdsDistinct(s: seq<Product>)
  {
    forall i, j :: 0 <= i < j < |s| ==> s[i].id != s[j].id
  }

  /** Every id is strictly below `bound` (the next id the store will issue). */
  predicate IdsBelow(s: seq<Product>, bound: int)
  {
    forall i :: 0 <= i < |s| ==> s[i].id < bound
  }

  /** Ids grow strictly along the list, so list order is issue order. */
  predicate IdsAscending(s: seq<Product>)
  {
    forall i, j :: 0 <= i < j < |s| ==> s[i].id < s[j].id
  }

  /** Position of the first record whose id is `id`, or None when there is none. */
  function IndexOf(s: seq<Product>, id: int): (r: Option<nat>)
    ensures r.Some? ==> r.value < |s| && s[r.value].id == id
    ensures r.Some? ==> forall j :: 0 <= j < r.value ==> s[j].id != id
    ensures r.None? <==> forall j :: 0 <= j < |s| ==> s[j].id != id
  {
    if |s| == 0 then None
    else if s[0].id == id then Some(0)
    else match IndexOf(s[1..], id)
      case None => None
      case Some(k) => Some(k + 1)
  }

  /** The first record whose id is `id` (the record itself, not its position). */
  function Lookup(s: seq<Product>, id: int): (r: Option<Product>)
    ensures r.Some? ==> r.value in s && r.value.id == id
    ensures r.None? <==> forall x :: x in s ==> x.id != id
  {
    match IndexOf(s, id)
    case None => None
    case Some(i) => Some(s[i])
  }

  /** Under distinct ids the lookup finds exactly the record carrying the id. */
  lemma LookupUnique(s: seq<Product>, id: int, x: Product)
    requires IdsDistinct(s)
    ensures Lookup(s, id) == Some(x) <==> x in s && x.id == id
  {
  }
}
