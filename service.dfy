/**
 * The restaurant record service: lookups, full save, partial update and
 * delete over a restaurant table and a payment table that the service owns.
 *
 * Each operation is one transaction: when it fails, the tables are as they
 * were before it started.
 */
module Services {
  import opened Entities
  import opened Records

  /** `r` with `acc` put in front of its payments when it succeeded. */
  ghost function Prepended(acc: seq<Payment>, r: Result<seq<Payment>>): Result<seq<Payment>>
  {
    match r
    case Ok(v) => Ok(acc + v)
    case Err(e) => Err(e)
  }

  /** Prepending nothing changes nothing. */
  lemma PrependedNothing(r: Result<seq<Payment>>)
    ensures Prepended([], r) == r
  {
    if r.Ok? {
      assert [] + r.value == r.value;
    }
  }

  /** Prepending `acc` after `[p]` is prepending `acc + [p]`. */
  lemma PrependedTwice(acc: seq<Payment>, p: Payment, r: Result<seq<Payment>>)
    ensures Prepended(acc, Prepended([p], r)) == Prepended(acc + [p], r)
  {
    if r.Ok? {
      assert acc + ([p] + r.value) == (acc + [p]) + r.value;
    }
  }

  /** A non-empty set of ids has a member to pick. */
  lemma NonEmptyHasMember(s: set<int>)
    requires s != {}
    ensures exists id :: id in s
  {
    if forall id :: id !in s {
      assert false;
    }
  }

  class RestaurantService {
    /** The restaurant table, by restaurant id. */
    var restaurants: map<int, Restaurant>
    /** The payment table, by payment id; this service only reads it. */
    var payments: map<int, Payment>
    /** The id the store gives the next restaurant it inserts. */
    var nextId: int

    /**
     * Every restaurant is stored under its own positive id, below the next id
     * to be handed out; its menus point back at it; its payments are rows of
     * the payment table.
     */
    ghost predicate Valid()
      reads this
    {
      && 0 < nextId
      && WellKeyed(payments)
      && forall id :: id in restaurants ==>
           && 0 < id < nextId
           && restaurants[id].id == id
           && Owned(restaurants[id])
           && References(restaurants[id].payments, payments)
    }

    /** A service over an empty restaurant table and the given payment table. */
    constructor (paymentTable: map<int, Payment>)
      requires WellKeyed(paymentTable)
      ensures Valid() && restaurants == map[] && payments == paymentTable
    {
      restaurants := map[];
      payments := paymentTable;
      nextId := 1;
    }

    /** Every stored restaurant, once each, in no particular order. */
    method FindAllRestaurants() returns (list: seq<Restaurant>)
      requires Valid()
      ensures forall id :: id in restaurants ==> restaurants[id] in list
      ensures forall i :: 0 <= i < |list| ==> list[i].id in restaurants && restaurants[list[i].id] == list[i]
      ensures forall i, j :: 0 <= i < j < |list| ==> list[i].id != list[j].id
    {
      list := [];
      var left := restaurants.Keys;
      while left != {}
        invariant left <= restaurants.Keys
        invariant forall id :: id in restaurants && id !in left ==> restaurants[id] in list
        invariant forall i :: 0 <= i < |list| ==>
                    list[i].id in restaurants && restaurants[list[i].id] == list[i] && list[i].id !in left
        invariant forall i, j :: 0 <= i < j < |list| ==> list[i].id != list[j].id
        decreases left
      {
        NonEmptyHasMember(left);
        var key :| key in left;
        list := list + [restaurants[key]];
        left := left - {key};
      }
    }

    /** The restaurant stored under `id`, or NotFound naming that id. */
    function FindRestaurantById(id: int): (r: Result<Restaurant>)
      reads this
      requires Valid()
      ensures r.Ok? <==> id in restaurants
      ensures r.Ok? ==> r.value == restaurants[id] && r.value.id == id
      ensures r.Err? ==> r.error == NotFound(RestaurantId(id))
    {
      if id in restaurants then Ok(restaurants[id]) else Err(NotFound(RestaurantId(id)))
    }

    /**
     * The one restaurant whose name is `name`, or NotFound naming it when
     * none has it; when several have it the single-result query fails.
     */
    method FindRestaurantByName(name: string) returns (r: Result<Restaurant>)
      requires Valid()
      ensures r.Ok? ==> r.value.id in restaurants && restaurants[r.value.id] == r.value && r.value.name == Some(name)
      ensures r.Ok? ==> forall id :: id in restaurants && restaurants[id].name == Some(name) ==> id == r.value.id
      ensures r == Err(NotFound(RestaurantName(name))) <==>
                forall id :: id in restaurants ==> restaurants[id].name != Some(name)
      ensures r == Err(NonUniqueResult(name)) <==>
                exists a, b :: a in restaurants && b in restaurants && a != b
                               && restaurants[a].name == Some(name) && restaurants[b].name == Some(name)
      ensures r.Ok? || r == Err(NotFound(RestaurantName(name))) || r == Err(NonUniqueResult(name))
    {
      var named := set id | id in restaurants && restaurants[id].name == Some(name);
      assert forall id :: id in restaurants && restaurants[id].name == Some(name) ==> id in named;
      if named == {} {
        return Err(NotFound(RestaurantName(name)));
      }
      NonEmptyHasMember(named);
      var id :| id in named;
      var others := set k | k in named && k != id;
      assert forall k :: k in named && k != id ==> k in others;
      if others != {} {
        NonEmptyHasMember(others);
        var other :| other in others;
        return Err(NonUniqueResult(name));
      }
      r := Ok(restaurants[id]);
    }

    /** Looks up the payment row for every payment in `ps`, in order, failing on the first unknown id. */
    method ResolvePayments(ps: seq<Payment>) returns (r: Result<seq<Payment>>)
      ensures r == Resolve(payments, ps)
    {
      var resolved: seq<Payment> := [];
      var i := 0;
      assert ps[i..] == ps;
      PrependedNothing(Resolve(payments, ps));
      while i < |ps|
        invariant 0 <= i <= |ps|
        invariant Resolve(payments, ps) == Prepended(resolved, Resolve(payments, ps[i..]))
      {
        var id := ps[i].id;
        assert ps[i..][0] == ps[i] && ps[i..][1..] == ps[i + 1..];
        if id !in payments {
          assert Resolve(payments, ps[i..]) == Err(NotFound(PaymentId(id)));
          return Err(NotFound(PaymentId(id)));
        }
        assert Resolve(payments, ps[i..]) == Prepended([payments[id]], Resolve(payments, ps[i + 1..]));
        PrependedTwice(resolved, payments[id], Resolve(payments, ps[i + 1..]));
        resolved := resolved + [payments[id]];
        i := i + 1;
      }
      assert ps[i..] == [];
      assert resolved + [] == resolved;
      r := Ok(resolved);
    }

    /** Fresh menu entries with the dishes and prices of `ms`, in order, owned by `owner`. */
    static method CopyMenus(ms: seq<Menu>, owner: int) returns (r: seq<Menu>)
      ensures r == Rebuilt(ms, owner)
    {
      r := [];
      for i := 0 to |ms|
        invariant |r| == i
        invariant forall j :: 0 <= j < i ==> r[j] == Menu(ms[j].dish, ms[j].price, owner)
      {
        r := r + [Menu(ms[i].dish, ms[i].price, owner)];
      }
    }

    /**
     * Full save. A non-zero input id must name a stored restaurant, which is
     * then replaced under that id; id 0 inserts under the next id the store
     * hands out, which no restaurant has had. Every scalar is copied,
     * payments are re-resolved, menus rebuilt.
     */
    method Save(input: RestaurantInput) returns (r: Result<Restaurant>)
      requires Valid()
      modifies this
      ensures Valid() && payments == old(payments)
      ensures r.Ok? <==> (input.id == 0 || input.id in old(restaurants)) && Resolve(payments, input.payments).Ok?
      ensures input.id != 0 && input.id !in old(restaurants) ==> r == Err(NotFound(RestaurantId(input.id)))
      ensures (input.id == 0 || input.id in old(restaurants)) && Resolve(payments, input.payments).Err? ==>
                r == Err(Resolve(payments, input.payments).error)
      ensures r.Err? ==> restaurants == old(restaurants) && nextId == old(nextId)
      ensures r.Ok? ==> && r.value == Replacement(r.value.id, input, payments)
                        && restaurants == old(restaurants)[r.value.id := r.value]
                        && FindRestaurantById(r.value.id) == r
      ensures r.Ok? && input.id != 0 ==> r.value.id == input.id && nextId == old(nextId)
      ensures r.Ok? && input.id == 0 ==> && 0 < r.value.id && r.value.id !in old(restaurants)
                                         && r.value.id == old(nextId) && nextId == old(nextId) + 1
    {
      var id := input.id;
      if id != 0 {
        var found := FindRestaurantById(id);
        if found.Err? {
          return Err(found.error);
        }
      } else {
        // the identity the store gives the row when it inserts it
        id := nextId;
      }
      var saved := Restaurant(id, input.name, input.address, input.city, input.state,
                              input.telephone, input.seatCapacity, [], []);
      var resolved := ResolvePayments(input.payments);
      if resolved.Err? {
        return Err(resolved.error);
      }
      saved := saved.(payments := resolved.value);
      var menus := CopyMenus(input.menus, id);
      saved := saved.(menus := menus);
      ResolvedAreReferences(payments, input.payments);
      restaurants := restaurants[id := saved];
      if input.id == 0 {
        nextId := nextId + 1;
      }
      r := Ok(saved);
    }

    /**
     * Partial update of the stored restaurant `restid`: only the fields the
     * input supplies are overwritten; the input's own id is ignored.
     */
    method Update(input: RestaurantInput, restid: int) returns (r: Result<Restaurant>)
      requires Valid()
      modifies this
      ensures Valid() && payments == old(payments) && nextId == old(nextId)
      ensures r.Ok? <==> restid in old(restaurants) && MergeResolvable(input, payments)
      ensures restid !in old(restaurants) ==> r == Err(NotFound(RestaurantId(restid)))
      ensures restid in old(restaurants) && !MergeResolvable(input, payments) ==>
                r == Err(Resolve(payments, input.payments).error)
      ensures r.Err? ==> restaurants == old(restaurants)
      ensures r.Ok? ==> && r.value == Merged(old(restaurants)[restid], input, payments)
                        && restaurants == old(restaurants)[restid := r.value]
                        && FindRestaurantById(restid) == r
    {
      var found := FindRestaurantById(restid);
      if found.Err? {
        return Err(found.error);
      }
      var rec := found.value;
      ghost var current := rec;
      if input.name.Some? {
        rec := rec.(name := input.name);
      }
      if input.address.Some? {
        rec := rec.(address := input.address);
      }
      if input.city.Some? {
        rec := rec.(city := input.city);
      }
      if input.state.Some? {
        rec := rec.(state := input.state);
      }
      if input.telephone.Some? {
        rec := rec.(telephone := input.telephone);
      }
      if input.hasValueForSeatCapacity {
        rec := rec.(seatCapacity := input.seatCapacity);
      }
      assert rec.id == current.id && rec.payments == current.payments && rec.menus == current.menus;
      if |input.payments| > 0 {
        var resolved := ResolvePayments(input.payments);
        if resolved.Err? {
          return Err(resolved.error);
        }
        rec := rec.(payments := resolved.value);
      }
      if |input.menus| > 0 {
        var menus := CopyMenus(input.menus, rec.id);
        rec := rec.(menus := menus);
      }
      assert rec == Merged(current, input, payments);
      restaurants := restaurants[restid := rec];
      r := Ok(rec);
    }

    /** Removes the restaurant `restaurantid`, or fails NotFound when there is none. */
    method Delete(restaurantid: int) returns (r: Outcome)
      requires Valid()
      modifies this
      ensures Valid() && payments == old(payments) && nextId == old(nextId)
      ensures restaurantid in old(restaurants) ==> r == Done && restaurants == old(restaurants) - {restaurantid}
      ensures restaurantid !in old(restaurants) ==>
                r == Fail(NotFound(RestaurantId(restaurantid))) && restaurants == old(restaurants)
      ensures FindRestaurantById(restaurantid) == Err(NotFound(RestaurantId(restaurantid)))
    {
      if restaurantid in restaurants {
        restaurants := restaurants - {restaurantid};
        r := Done;
      } else {
        r := Fail(NotFound(RestaurantId(restaurantid)));
      }
    }

    /** Removes every restaurant; payments stay. */
    method DeleteAllRestaurants()
      requires Valid()
      modifies this
      ensures Valid() && payments == old(payments) && nextId == old(nextId)
      ensures restaurants == map[]
    {
      restaurants := map[];
    }
  }
}
