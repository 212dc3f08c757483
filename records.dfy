/**
 * The rules by which the restaurant service builds the record it persists:
 * resolving payment references, rebuilding menus, the full replace of
 * `save` and the field-by-field merge of `update`.
 */
module Records {
  import opened Entities

  /** Every payment in the table is stored under its own id. */
  ghost predicate WellKeyed(table: map<int, Payment>)
  {
    forall id :: id in table ==> table[id].id == id
  }

  /** Every payment of `ps` is the row the table holds under its id. */
  ghost predicate References(ps: seq<Payment>, table: map<int, Payment>)
  {
    forall i :: 0 <= i < |ps| ==> ps[i].id in table && table[ps[i].id] == ps[i]
  }

  /** Every menu of the restaurant points back at the restaurant. */
  ghost predicate Owned(r: Restaurant)
  {
    forall i :: 0 <= i < |r.menus| ==> r.menus[i].owner == r.id
  }

  /**
   * Looks up, in order, the payment row for the id of every payment in `ps`;
   * the first id the table does not hold fails the whole resolution.
   */
  function Resolve(table: map<int, Payment>, ps: seq<Payment>): (r: Result<seq<Payment>>)
    ensures r.Ok? <==> forall i :: 0 <= i < |ps| ==> ps[i].id in table
    ensures r.Ok? ==> |r.value| == |ps| && forall i :: 0 <= i < |ps| ==> r.value[i] == table[ps[i].id]
    ensures r.Err? ==> exists i :: 0 <= i < |ps| && ps[i].id !in table && r.error == NotFound(PaymentId(ps[i].id))
                                   && forall j :: 0 <= j < i ==> ps[j].id in table
  {
    if ps == [] then Ok([])
    else if ps[0].id !in table then Err(NotFound(PaymentId(ps[0].id)))
    else
      match Resolve(table, ps[1..])
      case Ok(rest) => Ok([table[ps[0].id]] + rest)
      case Err(e) =>
        assert exists i :: 1 <= i < |ps| && ps[i].id !in table && e == NotFound(PaymentId(ps[i].id))
                           && forall j :: 1 <= j < i ==> ps[j].id in table;
        Err(e)
  }

  /** Over a well-keyed table, a successful resolution yields rows of that table. */
  lemma ResolvedAreReferences(table: map<int, Payment>, ps: seq<Payment>)
    ensures WellKeyed(table) && Resolve(table, ps).Ok? ==>
      && References(Resolve(table, ps).value, table)
      && forall i :: 0 <= i < |ps| ==> Resolve(table, ps).value[i].id == ps[i].id
  {
  }

  /** The (dish, price) pairs of a menu list, in order. */
  function DishPrices(ms: seq<Menu>): seq<(Option<string>, Price)>
  {
    seq(|ms|, i requires 0 <= i < |ms| => (ms[i].dish, ms[i].price))
  }

  /** Fresh menu entries carrying the dishes and prices of `ms`, all owned by `owner`. */
  function Rebuilt(ms: seq<Menu>, owner: int): seq<Menu>
  {
    seq(|ms|, i requires 0 <= i < |ms| => Menu(ms[i].dish, ms[i].price, owner))
  }

  /** Rebuilding keeps the dishes and prices in order and gives every entry the new owner. */
  lemma RebuiltMenus(ms: seq<Menu>, owner: int)
    ensures |Rebuilt(ms, owner)| == |ms|
    ensures DishPrices(Rebuilt(ms, owner)) == DishPrices(ms)
    ensures forall m :: m in Rebuilt(ms, owner) ==> m.owner == owner
  {
    var r := Rebuilt(ms, owner);
    assert forall i :: 0 <= i < |ms| ==> DishPrices(r)[i] == DishPrices(ms)[i];
  }

  /**
   * The record a full save persists under `id`: every scalar copied from the
   * input whether or not it was supplied, the resolved payments, rebuilt menus.
   */
  function Replacement(id: int, input: RestaurantInput, table: map<int, Payment>): (r: Restaurant)
    requires Resolve(table, input.payments).Ok?
    ensures r.id == id && Owned(r)
    ensures WellKeyed(table) ==> References(r.payments, table)
  {
    ResolvedAreReferences(table, input.payments);
    Restaurant(id, input.name, input.address, input.city, input.state, input.telephone,
               input.seatCapacity, Resolve(table, input.payments).value, Rebuilt(input.menus, id))
  }

  /** A replacement holds the input's scalars, its payments resolved in order and its dishes in order. */
  lemma ReplacementMatchesInput(id: int, input: RestaurantInput, table: map<int, Payment>)
    requires WellKeyed(table) && Resolve(table, input.payments).Ok?
    ensures var r := Replacement(id, input, table);
      && r.name == input.name && r.address == input.address && r.city == input.city
      && r.state == input.state && r.telephone == input.telephone
      && r.seatCapacity == input.seatCapacity
      && |r.payments| == |input.payments|
      && (forall i :: 0 <= i < |r.payments| ==> r.payments[i].id == input.payments[i].id)
      && |r.menus| == |input.menus| && DishPrices(r.menus) == DishPrices(input.menus)
  {
    ResolvedAreReferences(table, input.payments);
    RebuiltMenus(input.menus, id);
  }

  /** A nullable field of the merge: the input's value when it is not null. */
  function Overlay<T>(current: Option<T>, given: Option<T>): Option<T>
  {
    if given.Some? then given else current
  }

  /** The input's payments can be used by a merge: none given, or all of them resolve. */
  predicate MergeResolvable(input: RestaurantInput, table: map<int, Payment>)
  {
    |input.payments| == 0 || Resolve(table, input.payments).Ok?
  }

  /**
   * The record a partial update persists: each string field overwritten only
   * by a non-null input value, the seat capacity only when flagged as sent,
   * payments and menus replaced only by a non-empty input list.
   */
  function Merged(current: Restaurant, input: RestaurantInput, table: map<int, Payment>): (r: Restaurant)
    requires MergeResolvable(input, table)
    ensures r.id == current.id
    ensures Owned(current) ==> Owned(r)
    ensures WellKeyed(table) && References(current.payments, table) ==> References(r.payments, table)
  {
    ResolvedAreReferences(table, input.payments);
    current.(
      name := Overlay(current.name, input.name),
      address := Overlay(current.address, input.address),
      city := Overlay(current.city, input.city),
      state := Overlay(current.state, input.state),
      telephone := Overlay(current.telephone, input.telephone),
      seatCapacity := if input.hasValueForSeatCapacity then input.seatCapacity else current.seatCapacity,
      payments := if |input.payments| > 0 then Resolve(table, input.payments).value else current.payments,
      menus := if |input.menus| > 0 then Rebuilt(input.menus, current.id) else current.menus)
  }

  /** An input that supplies nothing. */
  predicate SuppliesNothing(input: RestaurantInput)
  {
    && input.name.None? && input.address.None? && input.city.None?
    && input.state.None? && input.telephone.None?
    && !input.hasValueForSeatCapacity && |input.payments| == 0 && |input.menus| == 0
  }

  /** Merging an input that supplies nothing leaves the record as it was. */
  lemma MergeOfNothingIsIdentity(current: Restaurant, input: RestaurantInput, table: map<int, Payment>)
    requires SuppliesNothing(input)
    ensures Merged(current, input, table) == current
  {
  }

  /** Merging an input that supplies only a name changes only the name. */
  lemma MergeOfNameOnly(current: Restaurant, input: RestaurantInput, table: map<int, Payment>)
    requires input.name.Some? && SuppliesNothing(input.(name := None))
    ensures Merged(current, input, table) == current.(name := input.name)
  {
  }

  /**
   * Each field of a merge is the input's value exactly when the input supplied
   * it, and the current value otherwise.
   */
  lemma MergeFieldByField(current: Restaurant, input: RestaurantInput, table: map<int, Payment>)
    requires WellKeyed(table) && MergeResolvable(input, table)
    ensures var r := Merged(current, input, table);
      && (input.name.Some? ==> r.name == input.name) && (input.name.None? ==> r.name == current.name)
      && (input.address.Some? ==> r.address == input.address) && (input.address.None? ==> r.address == current.address)
      && (input.city.Some? ==> r.city == input.city) && (input.city.None? ==> r.city == current.city)
      && (input.state.Some? ==> r.state == input.state) && (input.state.None? ==> r.state == current.state)
      && (input.telephone.Some? ==> r.telephone == input.telephone)
      && (input.telephone.None? ==> r.telephone == current.telephone)
      && (input.hasValueForSeatCapacity ==> r.seatCapacity == input.seatCapacity)
      && (!input.hasValueForSeatCapacity ==> r.seatCapacity == current.seatCapacity)
      && (|input.payments| == 0 ==> r.payments == current.payments)
      && (|input.payments| > 0 ==>
            (|r.payments| == |input.payments|
             && forall i :: 0 <= i < |r.payments| ==> r.payments[i].id == input.payments[i].id))
      && (|input.menus| == 0 ==> r.menus == current.menus)
      && (|input.menus| > 0 ==>
            (DishPrices(r.menus) == DishPrices(input.menus)
             && forall m :: m in r.menus ==> m.owner == current.id))
  {
    if |input.payments| > 0 { ResolvedAreReferences(table, input.payments); }
    RebuiltMenus(input.menus, current.id);
  }

  /** A merge of an input that supplies every field is the full replace of the same record. */
  lemma MergeOfEverythingIsReplacement(current: Restaurant, input: RestaurantInput, table: map<int, Payment>)
    requires input.name.Some? && input.address.Some? && input.city.Some?
    requires input.state.Some? && input.telephone.Some? && input.hasValueForSeatCapacity
    requires |input.payments| > 0 && |input.menus| > 0
    requires Resolve(table, input.payments).Ok?
    ensures Merged(current, input, table) == Replacement(current.id, input, table)
  {
  }

  /** Applying the same partial update twice is the same as applying it once. */
  lemma MergeIdempotent(current: Restaurant, input: RestaurantInput, table: map<int, Payment>)
    requires MergeResolvable(input, table)
    ensures Merged(Merged(current, input, table), input, table) == Merged(current, input, table)
  {
  }
}
