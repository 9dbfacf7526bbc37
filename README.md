# ProductApi store and controller, modelled in Dafny

ProductApi is a small CRUD HTTP API over one entity, the product (id, name,
description, price, stock). Its records live in an in-memory, ordered list
owned by `ProductRepository`, together with an auto-increment counter
`_nextId`. The list starts with five seed records (ids 1 to 5) and the
counter starts at 6. `ProductsController` turns each HTTP action into one
repository call and maps the result to an outcome: Ok, Created, NoContent,
NotFound with a message, or BadRequest.

This project models both parts and proves what they promise:

- `products.dfy` (module `Products`) holds the product record and the
  first-match search by id (`FirstOrDefault`), with its characterisation.
- `product_store.dfy` (module `ProductStore`) holds the store as a value
  (`State`: list and counter) and one transition function per operation.
  Its lemmas state what each operation does. They also show that the
  invariant "ids are distinct and all below the counter" holds in every
  state reachable by any sequence of requests. Issued ids strictly
  increase, a deleted id is never issued again, and list order is id order.
- `repository.dfy` (module `Repository`) holds the class
  `ProductRepository`. Its `seq` field and counter are updated in place by
  methods proved to carry out those transitions. The id search is a `while`
  loop, as the linear scan is.
- `messages.dfy` (module `Messages`) renders an id in decimal for the
  not-found message. It proves the rendering can be read back, so the
  message names the id.
- `controller.dfy` (module `Controller`) holds the outcome datatype, the
  pure outcome mappings, and the class `ProductsController`, whose
  mutating actions modify the repository object. Its lemmas cover the
  create → read → update → delete → read workflow of the integration tests.

Price is a C# `decimal`, which is exact, so it is modelled as a `real`.
`ProductRepository` and `ProductsController` check no sign or presence
rule on any field. The `Product` class and its validation attributes are
not modelled, so the model has none. Model validity
(`ModelState.IsValid`) is a boolean input to `Create` and `Update`.

## Model

| member | source | states |
|---|---|---|
| `ProductStore.SeedShape` | ProductApi.Api/Services/ProductRepository.cs:7-15 | the seed holds exactly five records with ids 1..5 in order, the counter is 6, ids are distinct, below the counter and ascending |
| `Repository.ProductRepository.constructor` | ProductApi.Api/Services/ProductRepository.cs:7-15 | a new repository is in the seed state and satisfies the invariant |
| `Repository.ProductRepository.GetAll` | ProductApi.Api/Services/ProductRepository.cs:17-20 | returns every current record in list order and changes nothing |
| `Products.IndexOf` | ProductApi.Api/Services/ProductRepository.cs:24 | the result is the position of the FIRST record with the id (all earlier ones differ), or None exactly when no record has the id |
| `Repository.ProductRepository.FindIndex` | ProductApi.Api/Services/ProductRepository.cs:24 | the loop's result equals the first-match position, and it is None exactly when no record carries the id |
| `Products.LookupUnique` | ProductApi.Api/Services/ProductRepository.cs:22-25 | with distinct ids, the lookup yields x exactly when x is in the list and carries the id |
| `Products.Lookup` | ProductApi.Api/Services/ProductRepository.cs:24 | the record found is in the list and carries the id; the result is empty exactly when no record carries the id (the first match itself is fixed by `Products.IndexOf`) |
| `ProductStore.GetById` | ProductApi.Api/Services/ProductRepository.cs:22-25 | the record returned is stored and carries the id; None exactly when no record carries it (uniqueness: `ProductStore.GetByIdSpec`) |
| `ProductStore.Create` | ProductApi.Api/Services/ProductRepository.cs:27-32 | the stored record is the caller's record with its id replaced by the counter; it is appended and the counter goes up by one (read-back and invariant: `ProductStore.CreateSpec`) |
| `ProductStore.Overwrite` | ProductApi.Api/Services/ProductRepository.cs:40-43 | the result keeps the existing record's id and equals p in every other field |
| `ProductStore.Update` | ProductApi.Api/Services/ProductRepository.cs:34-46 | None exactly when no record carries the id, and then the state is unchanged; the counter and the list length never change (present case: `ProductStore.UpdatePresent`) |
| `ProductStore.Delete` | ProductApi.Api/Services/ProductRepository.cs:48-56 | true exactly when a record carries the id, and then the list is one shorter; false leaves the state unchanged; the counter never changes (survivors and order: `ProductStore.DeleteSpec`) |
| `ProductStore.GetByIdSpec` | ProductApi.Api/Services/ProductRepository.cs:22-25 | in a valid store GetById returns the record at any position carrying the id, and None exactly when none carries it |
| `Repository.ProductRepository.GetById` | ProductApi.Api/Services/ProductRepository.cs:22-25 | returns the stored record with the id if there is one, None otherwise; the store is unchanged |
| `ProductStore.CreateSpec` | ProductApi.Api/Services/ProductRepository.cs:27-32 | ignores the caller's id and assigns the old counter, increments the counter by 1, appends at the end, keeps the invariant; the returned record then reads back by its id and every other id reads as before |
| `Repository.ProductRepository.Create` | ProductApi.Api/Services/ProductRepository.cs:27-32 | the method performs the Create transition: new record is p with the old counter as id, counter + 1, list = old list + [record] |
| `ProductStore.UpdateAbsent` | ProductApi.Api/Services/ProductRepository.cs:34-38 | on an id no record carries, Update returns None and leaves list and counter unchanged |
| `ProductStore.UpdatePresent` | ProductApi.Api/Services/ProductRepository.cs:34-46 | on a present id, the record keeps its id and position and takes name, description, price and stock from p; it is returned and reads back; all other records, every other id's lookup and the counter are unchanged; the invariant holds |
| `Repository.ProductRepository.Update` | ProductApi.Api/Services/ProductRepository.cs:34-46 | the method performs the Update transition; None exactly when the id is absent, and then nothing changes |
| `ProductStore.DeleteSpec` | ProductApi.Api/Services/ProductRepository.cs:48-56 | returns true exactly when the id is present; then exactly that record goes and the rest remain in their relative order (the list is the old one with the found position cut out), otherwise nothing changes; the id no longer reads, a second Delete returns false, other ids read as before, counter unchanged, invariant kept |
| `Repository.ProductRepository.Delete` | ProductApi.Api/Services/ProductRepository.cs:48-56 | the method performs the Delete transition; the remaining records are exactly the old ones without the id, in their old order |
| `ProductStore.ApplySpec` | ProductApi.Api/Services/ProductRepository.cs:17-56 | every operation preserves the invariant; only Create moves the counter, by exactly one |
| `ProductStore.RunValid` | ProductApi.Api/Services/ProductRepository.cs:7-56 | every state reached from a valid state (the seed among them) by any sequence of requests is valid |
| `ProductStore.IssuedIncreasing` | ProductApi.Api/Services/ProductRepository.cs:29 | ids issued by successive Creates strictly increase, start at the initial counter and stay below the final counter; the counter never decreases |
| `ProductStore.DeletedIdNeverReissued` | ProductApi.Api/Services/ProductRepository.cs:48-56 | after a record is deleted, no later Create in any sequence of requests issues its id again |
| `ProductStore.RunAscending` | ProductApi.Api/Services/ProductRepository.cs:7-32 | ids ascend along the list in every state reachable from an ascending one (such as the seed), so list order is creation order |
| `Messages.IntToString` | ProductApi.Api/Controllers/ProductsController.cs:39 | a non-empty rendering that starts with '-' exactly for negative ids and is digits otherwise (read-back: `Messages.ParseIntToString`) |
| `Messages.NotFoundMessage` | ProductApi.Api/Controllers/ProductsController.cs:39 | the message is "Product with id ", then the id's rendering, then " not found" (injectivity: `Messages.NotFoundMessageNamesId`) |
| `Messages.ParseIntToString` | ProductApi.Api/Controllers/ProductsController.cs:39 | the decimal rendering of an id in the message reads back as that id |
| `Messages.NotFoundMessageNamesId` | ProductApi.Api/Controllers/ProductsController.cs:39 | equal not-found messages come from equal ids |
| `Controller.OkOrNotFound` | ProductApi.Api/Controllers/ProductsController.cs:36-42 | the outcome is Ok or NotFound; NotFound, carrying the id's message, exactly when the record is absent; Ok carries the record (the same mapping serves Update at lines 71-77) |
| `Controller.CreatedAt` | ProductApi.Api/Controllers/ProductsController.cs:56 | Created carrying the stored record, with route id equal to that record's id |
| `Controller.NoContentOrNotFound` | ProductApi.Api/Controllers/ProductsController.cs:87-93 | the outcome is NoContent or NotFound; NoContent exactly when the delete succeeded; NotFound carries the id's message |
| `Controller.ProductsController.constructor` | ProductApi.Api/Controllers/ProductsController.cs:14-18 | the controller works over the repository it is given |
| `Controller.ProductsController.GetAll` | ProductApi.Api/Controllers/ProductsController.cs:22-27 | always Ok, carrying exactly the repository's list |
| `Controller.ProductsController.GetById` | ProductApi.Api/Controllers/ProductsController.cs:31-43 | NotFound with "Product with id {id} not found" exactly when no record carries the id, otherwise Ok with that record |
| `Controller.ProductsController.Create` | ProductApi.Api/Controllers/ProductsController.cs:47-57 | an invalid model gives BadRequest and leaves store and counter unchanged; a valid one gives Created with the stored record, routed to its id (the old counter) |
| `Controller.ProductsController.Update` | ProductApi.Api/Controllers/ProductsController.cs:61-78 | an invalid model gives BadRequest with the store untouched; otherwise the store performs Update and the outcome is NotFound with the message for None, Ok with the updated record otherwise |
| `Controller.ProductsController.Delete` | ProductApi.Api/Controllers/ProductsController.cs:82-94 | the store performs Delete; NoContent on true, NotFound with the message on false |
| `Controller.GetByIdOutcome` | ProductApi.Api/Controllers/ProductsController.cs:34-42 | on a valid store the GetById outcome is NotFound exactly when no record carries the id, and Ok with THE record carrying it otherwise |
| `Controller.NeverIssuedIsNotFound` | ProductApi.Tests/ProductsIntegrationTests.cs:46-151 | an id at or above the counter (never issued) is NotFound for GetById, Update and Delete, and Update and Delete leave the store unchanged |
| `Controller.CrudWorkflow` | ProductApi.Tests/ProductsIntegrationTests.cs:154-190 | create gives Created with the counter as id; the record reads back; update returns and stores the edit under the same id; delete is NoContent; then GetById and a second Delete are NotFound |
| `Controller.SeedScenario` | ProductApi.Tests/ProductsIntegrationTests.cs:46-54 | from the seed, the first created record gets id 6, the workflow ends NotFound on id 6, and id 999 is NotFound |
| `Controller.CrudScenario` | ProductApi.Tests/ProductsIntegrationTests.cs:154-190 | the same workflow driven through the controller object: Created, Ok(record), Ok(edit with the new id), NoContent, NotFound with the message |

## Left out

- Host set-up, dependency injection, Swagger, HTTPS redirection and routing (Program.cs): framework plumbing with no logic of its own.
- Logging calls in the controller: side effects that no contract depends on.
- Model binding and `ModelState` internals: validity is a boolean input. The validation attributes are in the product model file, which is not part of this model.
- JSON serialisation, HTTP status codes and the `Location` header: the outcome datatype stands for them. `Created` carries only the route id.
- The `BadRequest` body (the `ModelState` errors) is not modelled: `BadRequest` carries nothing.
- Concurrency: the static list is shared by request threads without locking. The model is single-threaded and each operation is one atomic step.
- Object aliasing: `GetAll` returns a shallow copy of shared `Product` references, `Create` writes the id into the caller's own object, and `Update` mutates the stored object in place. Records are values here, so a later change to a returned record is not seen through an earlier reference.
- `List.Remove` drops the first element equal to the record `FirstOrDefault` found, and that first equal element is the found record itself. So the model removes the element at the found position.
- Repository.ProductRepository.constructor: in the source `_products` and `_nextId` are `static`, so there is one store per process, shared by every instance, and only a construction before any change sees the seed. In the model each object owns its store and every construction yields the seed. The model's object stands for the single instance registered as a singleton at Program.cs:7.
- Repository.ProductRepository.Create: the counter is an unbounded integer. The C# `int` counter would wrap to a negative value after 2^31 - 6 creations; that overflow is not modelled.
- Messages.IntToString: renders ASCII digits with a leading '-' (invariant-culture formatting). Culture-specific digit or sign characters are not modelled.
- The `IProductRepository` interface and the mocks of the controller unit tests are not modelled. The controller is specified against the store transitions, which is what those tests fix.
