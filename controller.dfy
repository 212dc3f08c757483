/**
 * The two request handlers that do more than pass a call through: creating a
 * restaurant forces the body's id to 0, and the full update forces it to the
 * id in the path, before both hand the body to the service's save.
 */
module Controller {
  import opened Entities
  import opened Records
  import opened Services

  /**
   * POST of a new restaurant: whatever id the body carries, a new row is
   * inserted under an id no stored restaurant had; the id is what the
   * response's location names.
   */
  method AddNewRestaurant(service: RestaurantService, body: RestaurantInput) returns (r: Result<int>)
    requires service.Valid()
    modifies service
    ensures service.Valid() && service.payments == old(service.payments)
    ensures r.Ok? <==> Resolve(service.payments, body.payments).Ok?
    ensures r.Err? ==> && r.error == Resolve(service.payments, body.payments).error
                       && service.restaurants == old(service.restaurants)
    ensures r.Ok? ==> && 0 < r.value && r.value !in old(service.restaurants)
                      && service.restaurants == old(service.restaurants)[r.value := Replacement(r.value, body, service.payments)]
  {
    var saved := service.Save(body.(id := 0));
    if saved.Err? {
      return Err(saved.error);
    }
    r := Ok(saved.value.id);
  }

  /**
   * PUT of a whole restaurant under the path id: a full replace of the row
   * with that id, which must exist. A path id of 0 reaches the service as
   * "no id" and inserts a new row instead.
   */
  method UpdateFullRestaurant(service: RestaurantService, restaurantid: int, body: RestaurantInput)
    returns (r: Result<Restaurant>)
    requires service.Valid()
    modifies service
    ensures service.Valid() && service.payments == old(service.payments)
    ensures restaurantid != 0 ==>
              (r.Ok? <==> restaurantid in old(service.restaurants) && Resolve(service.payments, body.payments).Ok?)
    ensures restaurantid != 0 && restaurantid !in old(service.restaurants) ==>
              r == Err(NotFound(RestaurantId(restaurantid)))
    ensures restaurantid == 0 ==> (r.Ok? <==> Resolve(service.payments, body.payments).Ok?)
    ensures (restaurantid == 0 || restaurantid in old(service.restaurants))
            && Resolve(service.payments, body.payments).Err? ==>
              r == Err(Resolve(service.payments, body.payments).error)
    ensures r.Err? ==> service.restaurants == old(service.restaurants)
    ensures r.Ok? ==> r.value == Replacement(r.value.id, body, service.payments)
    ensures r.Ok? && restaurantid != 0 ==>
              && r.value == Replacement(restaurantid, body, service.payments)
              && service.restaurants == old(service.restaurants)[restaurantid := r.value]
    ensures r.Ok? && restaurantid == 0 ==>
              && 0 < r.value.id && r.value.id !in old(service.restaurants)
              && service.restaurants == old(service.restaurants)[r.value.id := r.value]
  {
    r := service.Save(body.(id := restaurantid));
  }
}
