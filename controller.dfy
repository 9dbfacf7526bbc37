/** The HTTP actions over the repository, reduced to the outcome each one
    produces. Model validity, decided by model binding before an action
    runs, is a boolean input. */
module Controller {
  import opened Products
  import ProductStore
  import Repository
  import opened Messages

  /** What an Ok response carries: the whole list or a single record. */
  datatype Payload = Many(items: seq<Product>) | One(item: Product)

  /** The abstract outcome of an action; Created carries the route id of
      the record's GetById location. */
  datatype Outcome =
    | Ok(payload: Payload)
    | Created(routeId: int, product: Product)
    | NoContent
    | NotFound(message: string)
    | BadRequest

  /** An absent record becomes NotFound with the message, a present one Ok. */
  function OkOrNotFound(id: int, found: Option<Product>): (r: Outcome)
    ensures r.Ok? || r.NotFound?
    ensures r.NotFound? <==> found.None?
    ensures r.NotFound? ==> r.message == NotFoundMessage(id)
    ensures r.Ok? ==> r.payload == One(found.value)
  {
    match found
    case None => NotFound(NotFoundMessage(id))
    case Some(p) => Ok(One(p))
  }

  /** A stored record becomes Created, routed to its own id. */
  function CreatedAt(created: Product): (r: Outcome)
    ensures r.Created? && r.product == created && r.routeId == r.product.id
  {
    Created(created.id, created)
  }

  /** A successful delete becomes NoContent, a failed one NotFound. */
  function NoContentOrNotFound(id: int, deleted: bool): (r: Outcome)
    ensures r.NoContent? || r.NotFound?
    ensures r.NoContent? <==> deleted
    ensures r.NotFound? ==> r.message == NotFoundMessage(id)
  {
    if deleted then NoContent else NotFound(NotFoundMessage(id))
  }

  class ProductsController {
    const repository: Repository.ProductRepository

    constructor (repository: Repository.ProductRepository)
      ensures this.repository == repository
    {
      this.repository := repository;
    }

    /** Always Ok, carrying exactly the repository's list. */
    method GetAll() returns (r: Outcome)
      ensures r == Ok(Many(repository.products))
    {
      var products := repository.GetAll();
      r := Ok(Many(products));
    }

    method GetById(id: int) returns (r: Outcome)
      requires repository.Valid()
      ensures r == OkOrNotFound(id, ProductStore.GetById(repository.State(), id))
      ensures r == NotFound(NotFoundMessage(id)) <==> forall x :: x in repository.products ==> x.id != id
      ensures r.Ok? <==> exists x :: x in repository.products && x.id == id && r == Ok(One(x))
    {
      var product := repository.GetById(id);
      r := OkOrNotFound(id, product);
    }

    /** BadRequest, without touching the store, for an invalid model;
        otherwise the record as stored, routed to its new id. */
    method Create(modelValid: bool, p: Product) returns (r: Outcome)
      requires repository.Valid()
      modifies repository
      ensures repository.Valid()
      ensures !modelValid ==> r == BadRequest && repository.State() == old(repository.State())
      ensures modelValid ==>
        var (st', created) := ProductStore.Create(old(repository.State()), p);
        repository.State() == st' && r == CreatedAt(created) && r.routeId == old(repository.nextId)
    {
      if !modelValid {
        return BadRequest;
      }
      var created := repository.Create(p);
      r := CreatedAt(created);
    }

    /** BadRequest, without touching the store, for an invalid model;
        NotFound when the id is absent; otherwise Ok with the updated record. */
    method Update(id: int, modelValid: bool, p: Product) returns (r: Outcome)
      requires repository.Valid()
      modifies repository
      ensures repository.Valid()
      ensures !modelValid ==> r == BadRequest && repository.State() == old(repository.State())
      ensures modelValid ==>
        var (st', updated) := ProductStore.Update(old(repository.State()), id, p);
        repository.State() == st' && r == OkOrNotFound(id, updated)
    {
      if !modelValid {
        return BadRequest;
      }
      var updated := repository.Update(id, p);
      r := OkOrNotFound(id, updated);
    }

    /** NoContent when a record was removed, NotFound when there was none. */
    method Delete(id: int) returns (r: Outcome)
      requires repository.Valid()
      modifies repository
      ensures repository.Valid()
      ensures var (st', deleted) := ProductStore.Delete(old(repository.State()), id);
        repository.State() == st' && r == NoContentOrNotFound(id, deleted)
    {
      var deleted := repository.Delete(id);
      r := NoContentOrNotFound(id, deleted);
    }
  }

  /** GetById is NotFound, with the message naming the id, exactly when no
      record carries the id, and Ok with that record when one does. */
  lemma GetByIdOutcome(st: ProductStore.State, id: int)
    requires ProductStore.Valid(st)
    ensures var r := OkOrNotFound(id, ProductStore.GetById(st, id));
      && (r == NotFound(NotFoundMessage(id)) <==> forall x :: x in st.products ==> x.id != id)
      && (r.Ok? <==> exists x :: x in st.products && x.id == id)
      && forall x :: x in st.products && x.id == id ==> r == Ok(One(x))
  {
  }

  /** An id at or above the counter was never issued: GetById, Update and
      Delete on it are all NotFound, and Update and Delete change nothing. */
  lemma NeverIssuedIsNotFound(st: ProductStore.State, id: int, p: Product)
    requires ProductStore.Valid(st) && id >= st.nextId
    ensures OkOrNotFound(id, ProductStore.GetById(st, id)) == NotFound(NotFoundMessage(id))
    ensures var (st', updated) := ProductStore.Update(st, id, p);
      st' == st && OkOrNotFound(id, updated) == NotFound(NotFoundMessage(id))
    ensures var (st', deleted) := ProductStore.Delete(st, id);
      st' == st && NoContentOrNotFound(id, deleted) == NotFound(NotFoundMessage(id))
  {
  }

  /** The create, read, update, delete, read workflow: the new record reads
      back, the update is visible under the same id, the delete succeeds,
      and afterwards both a read and a second delete are NotFound. */
  lemma CrudWorkflow(st: ProductStore.State, p: Product, edit: Product)
    requires ProductStore.Valid(st)
    ensures var (st1, created) := ProductStore.Create(st, p);
      var id := created.id;
      var (st2, updated) := ProductStore.Update(st1, id, edit);
      var (st3, deleted) := ProductStore.Delete(st2, id);
      && CreatedAt(created) == Created(st.nextId, p.(id := st.nextId))
      && OkOrNotFound(id, ProductStore.GetById(st1, id)) == Ok(One(created))
      && updated == Some(edit.(id := id))
      && OkOrNotFound(id, updated) == Ok(One(edit.(id := id)))
      && OkOrNotFound(id, ProductStore.GetById(st2, id)) == Ok(One(edit.(id := id)))
      && NoContentOrNotFound(id, deleted) == NoContent
      && OkOrNotFound(id, ProductStore.GetById(st3, id)) == NotFound(NotFoundMessage(id))
      && NoContentOrNotFound(id, ProductStore.Delete(st3, id).1) == NotFound(NotFoundMessage(id))
      && ProductStore.Valid(st3) && st3.nextId == st.nextId + 1
  {
    var (st1, created) := ProductStore.Create(st, p);
    var id := created.id;
    ProductStore.CreateSpec(st, p);
    assert st1.products[|st.products|] == created;
    ProductStore.UpdatePresent(st1, id, edit, |st.products|);
    var (st2, updated) := ProductStore.Update(st1, id, edit);
    ProductStore.DeleteSpec(st2, id);
    assert exists x :: x in st2.products && x.id == id by {
      assert updated.value in st2.products;
    }
  }

  /** From the seed state the workflow's record gets id 6, and an id such
      as 999 that was never issued is NotFound. */
  lemma SeedScenario(p: Product, edit: Product)
    ensures ProductStore.Create(ProductStore.Seed(), p).1.id == 6
    ensures OkOrNotFound(999, ProductStore.GetById(ProductStore.Seed(), 999)) == NotFound(NotFoundMessage(999))
    ensures var (st3, deleted) := ProductStore.Delete(ProductStore.Update(ProductStore.Create(
              ProductStore.Seed(), p).0, 6, edit).0, 6);
      deleted && OkOrNotFound(6, ProductStore.GetById(st3, 6)) == NotFound(NotFoundMessage(6))
  {
    ProductStore.SeedShape();
    CrudWorkflow(ProductStore.Seed(), p, edit);
    NeverIssuedIsNotFound(ProductStore.Seed(), 999, p);
  }

  /** The workflow driven through the controller object itself. */
  method CrudScenario(c: ProductsController, p: Product, edit: Product)
    returns (created: Outcome, read: Outcome, updated: Outcome, deleted: Outcome, gone: Outcome)
    requires c.repository.Valid()
    modifies c.repository
    ensures c.repository.Valid()
    ensures created.Created? && created.routeId == old(c.repository.nextId)
    ensures read == Ok(One(created.product))
    ensures updated == Ok(One(edit.(id := created.routeId)))
    ensures deleted == NoContent
    ensures gone == NotFound(NotFoundMessage(created.routeId))
  {
    CrudWorkflow(c.repository.State(), p, edit);
    created := c.Create(true, p);
    var id := created.routeId;
    read := c.GetById(id);
    updated := c.Update(id, true, edit);
    deleted := c.Delete(id);
    gone := c.GetById(id);
  }
}
