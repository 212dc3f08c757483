# Restaurant record service — a Dafny model

This project models the record service of the `crudyrestaurants` backend
(`RestaurantServicesImpl` in `crudyrestaurants_read`). The service keeps a
restaurant table and a payment table. It looks restaurants up by id and by
name. `save` creates a restaurant or fully replaces one. `update` merges a
partial restaurant into a stored one. `delete` and `deleteAllRestaurants`
remove restaurants.

The model has four modules:

- `Entities` (`entities.dfy`) holds the records. Java references that can be
  null become `Option` values. A `RestaurantInput` is a restaurant as a client
  sends it. It carries the `hasvalueforseatcapacity` flag that the partial
  update consults. A `Restaurant` is a stored row with its payments and menus.
  The `EntityNotFoundException` becomes `NotFound`, which names the missing
  restaurant id, restaurant name or payment id.
- `Records` (`records.dfy`) holds the rules that build the persisted record.
  `Resolve` re-resolves payment references and fails on the first unknown id.
  `Rebuilt` makes fresh menu entries owned by the restaurant. `Replacement` is
  the record of a full save and `Merged` is the record of a partial update.
  Lemmas relate the two.
- `Services` (`service.dfy`) holds the class `RestaurantService`. Its fields
  are the restaurant map, the payment map and the next id the store hands out.
  Its methods follow the Java methods step by step: the existence check, the
  scalar setters, then the clear-and-append loops over payments and menus. Each
  method is proved against `Replacement` or `Merged`. The invariant `Valid`
  says three things. Every restaurant is stored under its own positive id.
  Every menu points back at its restaurant. Every payment of a restaurant is a
  row of the payment table.
- `Controller` (`controller.dfy`) holds the two request handlers with logic of
  their own. POST forces the body's id to 0. PUT forces it to the path id.

Each operation is one transaction. A failed operation, including one that
fails on a payment id halfway through the loop, leaves both tables as they
were. When `save` gets id 0, the new row takes the next id the store hands out.
That id is consumed only when the insert succeeds.

Three behaviours of the code are worth knowing:

- `update` overwrites a string field whenever the input value is non-null,
  including an empty string.
- The name lookup is an exact match of the stored name.
- A PUT with path id 0 reaches `save` as "no id". It inserts the body as a new
  restaurant under a fresh id, and fails only when a payment id is unknown.
  `Controller.UpdateFullRestaurant` states this.

## Model

| member | source | states |
|---|---|---|
| `Records.Resolve` | crudyrestaurants_read/src/main/java/com/lambdaschool/crudyrestaurants/services/RestaurantServicesImpl.java:124-131 | succeeds exactly when every input payment id is in the payment table; the result is the table's rows in input order, one per input; otherwise it is NotFound naming the first unknown id |
| `Records.ResolvedAreReferences` | crudyrestaurants_read/src/main/java/com/lambdaschool/crudyrestaurants/services/RestaurantServicesImpl.java:127-130 | over a table keyed by payment id, the resolved payments are rows of the table and keep the input's ids; a write never makes up a payment |
| `Records.RebuiltMenus` | crudyrestaurants_read/src/main/java/com/lambdaschool/crudyrestaurants/services/RestaurantServicesImpl.java:133-140 | rebuilt menus have the input's length and its (dish, price) sequence, and every entry's owner is the saved restaurant |
| `Records.Replacement` | crudyrestaurants_read/src/main/java/com/lambdaschool/crudyrestaurants/services/RestaurantServicesImpl.java:107-140 | the fully saved record keeps the id it is saved under, all its menus point back at it, and its payments are rows of the payment table |
| `Records.ReplacementMatchesInput` | crudyrestaurants_read/src/main/java/com/lambdaschool/crudyrestaurants/services/RestaurantServicesImpl.java:116-140 | after a full save, name, address, city, state, telephone and seat capacity equal the input's, even when null or zero; the payments follow the input's ids in order; the menus have the input's dishes and prices in order |
| `Records.Merged` | crudyrestaurants_read/src/main/java/com/lambdaschool/crudyrestaurants/services/RestaurantServicesImpl.java:169-228 | a partial update never changes the record's id, keeps its menus owned by it and its payments rows of the payment table |
| `Records.MergeFieldByField` | crudyrestaurants_read/src/main/java/com/lambdaschool/crudyrestaurants/services/RestaurantServicesImpl.java:173-228 | each string field takes the input's value exactly when it is non-null; seat capacity exactly when the flag is set; payments and menus are replaced exactly when the input list is non-empty, and otherwise kept |
| `Records.MergeOfNothingIsIdentity` | crudyrestaurants_read/src/main/java/com/lambdaschool/crudyrestaurants/services/RestaurantServicesImpl.java:173-228 | an input with all fields null, the flag unset and both lists empty leaves the record unchanged |
| `Records.MergeOfNameOnly` | crudyrestaurants_read/src/main/java/com/lambdaschool/crudyrestaurants/services/RestaurantServicesImpl.java:173-176 | an input that supplies only a name changes only the name |
| `Records.MergeOfEverythingIsReplacement` | crudyrestaurants_read/src/main/java/com/lambdaschool/crudyrestaurants/services/RestaurantServicesImpl.java:173-228 | a partial update that supplies every field gives the same record as a full save of that input under the same id |
| `Records.MergeIdempotent` | crudyrestaurants_read/src/main/java/com/lambdaschool/crudyrestaurants/services/RestaurantServicesImpl.java:169-228 | applying the same partial update twice gives the record that applying it once gives |
| `Services.RestaurantService.constructor` | crudyrestaurants_read/src/main/java/com/lambdaschool/crudyrestaurants/services/RestaurantServicesImpl.java:30-37 | a service over an empty restaurant table and a given payment table satisfies the invariant |
| `Services.RestaurantService.FindAllRestaurants` | crudyrestaurants_read/src/main/java/com/lambdaschool/crudyrestaurants/services/RestaurantServicesImpl.java:39-51 | the list holds every stored restaurant, holds only stored restaurants, and holds each one once |
| `Services.RestaurantService.FindRestaurantById` | crudyrestaurants_read/src/main/java/com/lambdaschool/crudyrestaurants/services/RestaurantServicesImpl.java:53-59 | returns the stored record, which carries that id, exactly when the id is present; otherwise NotFound naming the id |
| `Services.RestaurantService.FindRestaurantByName` | crudyrestaurants_read/src/main/java/com/lambdaschool/crudyrestaurants/services/RestaurantServicesImpl.java:61-73 | returns the one stored restaurant with that name; NotFound naming the name exactly when no restaurant has it; the single-result query fails exactly when two restaurants share it |
| `Services.RestaurantService.ResolvePayments` | crudyrestaurants_read/src/main/java/com/lambdaschool/crudyrestaurants/services/RestaurantServicesImpl.java:124-131 | the lookup loop computes what `Resolve` specifies over the service's payment table |
| `Services.RestaurantService.CopyMenus` | crudyrestaurants_read/src/main/java/com/lambdaschool/crudyrestaurants/services/RestaurantServicesImpl.java:133-140 | the copying loop computes `Rebuilt`: fresh entries with the input's dishes and prices, owned by the saved restaurant |
| `Services.RestaurantService.Save` | crudyrestaurants_read/src/main/java/com/lambdaschool/crudyrestaurants/services/RestaurantServicesImpl.java:103-143 | succeeds exactly when the id is 0 or stored and every payment resolves; otherwise NotFound for the id, or for the first unknown payment, with both tables unchanged; on success it stores `Replacement` under the input id (a replace), or under the next id of the store's counter, which no restaurant had, advancing the counter (an insert); it changes no other record |
| `Services.RestaurantService.Update` | crudyrestaurants_read/src/main/java/com/lambdaschool/crudyrestaurants/services/RestaurantServicesImpl.java:165-231 | fails NotFound when `restid` is absent, or when given payments do not all resolve, with the table unchanged; otherwise stores `Merged` of the old record under `restid` and changes no other record |
| `Services.RestaurantService.Delete` | crudyrestaurants_read/src/main/java/com/lambdaschool/crudyrestaurants/services/RestaurantServicesImpl.java:152-163 | removes exactly that id when it is present; fails NotFound and changes nothing when it is absent; afterwards a lookup of the id fails NotFound |
| `Services.RestaurantService.DeleteAllRestaurants` | crudyrestaurants_read/src/main/java/com/lambdaschool/crudyrestaurants/services/RestaurantServicesImpl.java:145-150 | the restaurant table is empty and the payment table is unchanged |
| `Controller.AddNewRestaurant` | crudyrestaurants_read/src/main/java/com/lambdaschool/crudyrestaurants/controllers/RestaurantController.java:165-184 | whatever id the body carries, a successful create inserts the body's record under a positive id no restaurant had and returns that id; a payment failure changes nothing |
| `Controller.UpdateFullRestaurant` | crudyrestaurants_read/src/main/java/com/lambdaschool/crudyrestaurants/controllers/RestaurantController.java:186-196 | on success the stored row is the body's `Replacement`, whatever the row held before; with a non-zero path id it succeeds exactly when that id is stored and the payments resolve, and the row under that id is replaced; with path id 0 it succeeds exactly when the payments resolve, and inserts under a positive id no restaurant had; an unknown payment fails NotFound naming the first such id; a failure changes nothing |

## Left out

- The filter and report queries `findByState`, `findByNameLike`, `findByDish` and `getMenuCounts` are left out. Their matching rules are in derived and native queries of the restaurant repository, and that repository is not part of this model.
- The storage layer's own behaviour is left out: the ORM, menu ids and database identity generation. A counter of ids stands for identity generation. Menus carry no id of their own.
- Spring's transactions are modelled only as "a failed operation leaves both tables as they were". Concurrent requests are not modelled.
- Ids are Java `long` and seat capacity is Java `int`. Both are unbounded integers here, so the overflow of the id counter is not modelled.
- Menu prices are Java `double`. They are copied as `real` values and never computed with.
- Bean validation of request bodies (`@Valid`) is left out. Its rules are annotations on the `Restaurant` class, which is not part of this model.
- When two restaurants share a name, the storage layer's single-result query fails. This is modelled as a `NonUniqueResult` error. The exception type and message are not modelled.
- The other request handlers only pass their calls through, and HTTP status codes and headers are transport. They are left out.
- The `crudyrestaurants_initial` service is left out. Each of its methods forwards to a repository that is not part of this model.
- This service only reads the payment table, through `paymentrepos.findById`. The payment table is a parameter of the constructor and never changes here.
