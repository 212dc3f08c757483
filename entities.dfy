/**
 * The records the restaurant service reads and writes, and the outcomes of
 * its operations.
 *
 * Java references that may be null (the string columns of a restaurant, the
 * dish of a menu) are `Option` values. Ids are Java `long`s and seat
 * capacity a Java `int`; both are unbounded integers here.
 */
module Entities {

  datatype Option<+T> = None | Some(value: T)

  /** The key a failed lookup names in its "not found" message. */
  datatype Missing =
    | RestaurantId(id: int)
    | RestaurantName(name: string)
    | PaymentId(id: int)

  datatype Error =
    /** The service's `EntityNotFoundException`. */
    | NotFound(missing: Missing)
    /** The storage layer's single-result name query matched more than one row. */
    | NonUniqueResult(name: string)

  datatype Result<+T> = Ok(value: T) | Err(error: Error)

  /** The outcome of an operation that returns nothing on success. */
  datatype Outcome = Done | Fail(error: Error)

  /** A menu price: copied from the request, never computed with. */
  type Price = real

  /** A payment method, kept in its own table and only referenced by restaurants. */
  datatype Payment = Payment(id: int, paymentType: Option<string>)

  /** A menu entry; `owner` is the id of the restaurant it belongs to. */
  datatype Menu = Menu(dish: Option<string>, price: Price, owner: int)

  /** A restaurant row together with its payment references and its menus. */
  datatype Restaurant = Restaurant(
    id: int,
    name: Option<string>,
    address: Option<string>,
    city: Option<string>,
    state: Option<string>,
    telephone: Option<string>,
    seatCapacity: int,
    payments: seq<Payment>,
    menus: seq<Menu>)

  /**
   * A restaurant as a client sends it. `hasValueForSeatCapacity` tells a seat
   * capacity of zero that was sent from one that was left out; of a payment
   * only its id is used, of a menu only its dish and price.
   */
  datatype RestaurantInput = RestaurantInput(
    id: int,
    name: Option<string>,
    address: Option<string>,
    city: Option<string>,
    state: Option<string>,
    telephone: Option<string>,
    seatCapacity: int,
    hasValueForSeatCapacity: bool,
    payments: seq<Payment>,
    menus: seq<Menu>)
}
