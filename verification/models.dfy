/**
 The entities of the reservation application: restaurants, their tables,
 reservations with a closed set of statuses, and the permission checks the
 restaurant and reservation records expose to the views and templates.
 */
module Models {
  import opened Wrappers

  /** Reservation status. The database column holds one of three string codes. */
  datatype Status = Confirmed | Pending | Cancelled

  /** A newly created reservation starts out pending. */
  const DefaultStatus: Status := Pending

  /** The string code stored in the database for each status. */
  function StatusCode(s: Status): string
  {
    match s
    case Confirmed => "confirmed"
    case Pending => "pending"
    case Cancelled => "cancelled"
  }

  /** Reads a stored status code back; any other string is not a status. */
  function ParseStatus(code: string): (r: Option<Status>)
    ensures r.Some? ==> StatusCode(r.value) == code
    ensures r.None? ==> code != "confirmed" && code != "pending" && code != "cancelled"
  {
    if code == "confirmed" then Some(Confirmed)
    else if code == "pending" then Some(Pending)
    else if code == "cancelled" then Some(Cancelled)
    else None
  }

  /** Every status survives a trip through its stored code. */
  lemma StatusCodeRoundTrip(s: Status)
    ensures ParseStatus(StatusCode(s)) == Some(s)
  {
  }

  /** Exactly the three declared codes parse, and no two statuses share a code. */
  lemma StatusCodesAreTheChoices(code: string)
    ensures ParseStatus(code).Some? <==> code in ["confirmed", "pending", "cancelled"]
    ensures forall s, t :: StatusCode(s) == StatusCode(t) ==> s == t
  {
  }

  /** Pending and confirmed reservations hold their slot; cancelled ones do not. */
  predicate IsActive(s: Status)
  {
    s == Confirmed || s == Pending
  }

  /** The conflict queries filter on the codes "confirmed" and "pending". */
  lemma ActiveIsConfirmedOrPendingCode(s: Status)
    ensures IsActive(s) <==> StatusCode(s) in ["confirmed", "pending"]
  {
  }

  datatype Cuisine = Italian | Japanese | Russian | French | Chinese | Georgian | American

  /** An account, compared with other accounts by its primary key. */
  datatype User = User(id: nat, isAuthenticated: bool, isStaff: bool)

  datatype Restaurant = Restaurant(
    id: nat,
    name: string,
    description: string,
    address: string,
    phone: string,
    cuisine: Cuisine,
    openingHours: string,
    createdBy: Option<nat>)

  /** A table of one restaurant; `number` is free text and need not be unique. */
  datatype Table = Table(id: nat, restaurant: nat, number: string, capacity: int)

  /** The time of day, in whole minutes since midnight. */
  type MinuteOfDay = m: int | 0 <= m < 24 * 60

  /** A reservation: who booked which table for which day (a day number) and time. */
  datatype Reservation = Reservation(
    id: nat,
    user: nat,
    table: nat,
    date: int,
    time: MinuteOfDay,
    guests: int,
    requests: string,
    status: Status)

  /** Only signed-in staff may edit a restaurant. */
  function RestaurantCanEdit(user: Option<User>): (ok: bool)
    ensures user.None? || !user.value.isAuthenticated ==> !ok
    ensures user.Some? && user.value.isAuthenticated ==> (ok <==> user.value.isStaff)
  {
    match user
    case None => false
    case Some(u) => if !u.isAuthenticated then false else u.isStaff
  }

  /** Only signed-in staff may delete a restaurant. */
  function RestaurantCanDelete(user: Option<User>): (ok: bool)
    ensures user.None? || !user.value.isAuthenticated ==> !ok
    ensures user.Some? && user.value.isAuthenticated ==> (ok <==> user.value.isStaff)
  {
    match user
    case None => false
    case Some(u) => if !u.isAuthenticated then false else u.isStaff
  }

  /** Only signed-in staff may create a restaurant. */
  function RestaurantCanCreate(user: Option<User>): (ok: bool)
    ensures user.None? || !user.value.isAuthenticated ==> !ok
    ensures user.Some? && user.value.isAuthenticated ==> (ok <==> user.value.isStaff)
  {
    match user
    case None => false
    case Some(u) => if !u.isAuthenticated then false else u.isStaff
  }

  function ShowEditButton(user: Option<User>): bool
  {
    RestaurantCanEdit(user)
  }

  function ShowDeleteButton(user: Option<User>): bool
  {
    RestaurantCanDelete(user)
  }

  function ShowCreateButton(user: Option<User>): bool
  {
    RestaurantCanCreate(user)
  }

  /** Each button is shown exactly to those who hold the matching permission. */
  lemma ButtonsFollowPermissions(user: Option<User>)
    ensures ShowEditButton(user) == RestaurantCanEdit(user)
    ensures ShowDeleteButton(user) == RestaurantCanDelete(user)
    ensures ShowCreateButton(user) == RestaurantCanCreate(user)
  {
  }

  /** A reservation may be edited by signed-in staff or by the user who made it. */
  function ReservationCanEdit(res: Reservation, user: Option<User>): (ok: bool)
    ensures ok <==> user.Some? && user.value.isAuthenticated
                    && (user.value.isStaff || user.value.id == res.user)
  {
    match user
    case None => false
    case Some(u) => if !u.isAuthenticated then false else u.isStaff || u.id == res.user
  }

  /** The three restaurant permissions always agree with one another. */
  lemma RestaurantPermissionsCoincide(user: Option<User>)
    ensures RestaurantCanEdit(user) == RestaurantCanDelete(user) == RestaurantCanCreate(user)
  {
  }

  /**
   Whoever may edit restaurants may edit every reservation, and a signed-in
   owner may always edit their own one; nobody signed out may edit any.
   */
  lemma ReservationEditRights(res: Reservation, user: Option<User>)
    ensures RestaurantCanEdit(user) ==> ReservationCanEdit(res, user)
    ensures user.Some? && user.value.isAuthenticated && user.value.id == res.user
            ==> ReservationCanEdit(res, user)
    ensures ReservationCanEdit(res, user) && !RestaurantCanEdit(user) ==> user.value.id == res.user
  {
  }
}
