/**
 The booking workflow: the admission check run before a new reservation is
 saved, and the owner-guarded cancellation. The reservation table of the
 database is a sequence of records; every operation returns a new store.
 */
module Booking {
  import opened Wrappers
  import opened Models

  type Store = seq<Reservation>

  /** The cleaned booking form: day, time, party size and free-text wishes. */
  datatype Request = Request(date: int, time: MinuteOfDay, guests: int, requests: string)

  /** Outcome of a booking attempt; only `Booked` changes the store. */
  datatype BookingResult =
    | TableNotFound
    | Conflict
    | CapacityExceeded
    | Booked(store: Store, reservation: Reservation)

  /** Outcome of a cancellation attempt. */
  datatype CancelResult = NotFound | Released(store: Store)

  /** Two reservations are for the same table, day and time. */
  predicate SameSlot(a: Reservation, b: Reservation)
  {
    a.table == b.table && a.date == b.date && a.time == b.time
  }

  /** `r` holds the slot (table, date, time) and is not cancelled. */
  predicate Occupies(r: Reservation, table: nat, date: int, time: MinuteOfDay)
  {
    r.table == table && r.date == date && r.time == time && IsActive(r.status)
  }

  /** Some pending or confirmed reservation already holds the slot. */
  predicate SlotTaken(store: Store, table: nat, date: int, time: MinuteOfDay)
  {
    exists i :: 0 <= i < |store| && Occupies(store[i], table, date, time)
  }

  /** The business rule: at most one active reservation per (table, date, time). */
  predicate OneActivePerSlot(store: Store)
  {
    forall i, j :: 0 <= i < j < |store| && IsActive(store[i].status) && IsActive(store[j].status)
      ==> !SameSlot(store[i], store[j])
  }

  /** Primary keys are distinct. */
  predicate IdsUnique(store: Store)
  {
    forall i, j :: 0 <= i < j < |store| ==> store[i].id != store[j].id
  }

  /** The key the database gives the next saved row: larger than every key in use. */
  function NextId(store: Store): (id: nat)
    ensures id > 0
    ensures forall i :: 0 <= i < |store| ==> store[i].id < id
  {
    if |store| == 0 then 1
    else
      var earlier := NextId(store[..|store| - 1]);
      var last := store[|store| - 1].id + 1;
      if earlier < last then last else earlier
  }

  /**
   The admission check for one table: a slot conflict is reported first, then
   a party larger than the table; otherwise a pending reservation for the
   requesting user is appended and every existing record is kept as it was.
   */
  function Book(store: Store, user: nat, table: Table, req: Request): (r: BookingResult)
    ensures !r.TableNotFound?
    ensures r.Conflict? <==> SlotTaken(store, table.id, req.date, req.time)
    ensures r.CapacityExceeded? <==>
              !SlotTaken(store, table.id, req.date, req.time) && req.guests > table.capacity
    ensures r.Booked? <==>
              !SlotTaken(store, table.id, req.date, req.time) && req.guests <= table.capacity
    ensures r.Booked? ==>
              && |r.store| == |store| + 1
              && r.store[..|store|] == store
              && r.store[|store|] == r.reservation
              && r.reservation.user == user
              && r.reservation.table == table.id
              && r.reservation.date == req.date
              && r.reservation.time == req.time
              && r.reservation.guests == req.guests
              && r.reservation.requests == req.requests
              && r.reservation.status == DefaultStatus
              && (forall i :: 0 <= i < |store| ==> store[i].id != r.reservation.id)
  {
    if SlotTaken(store, table.id, req.date, req.time) then Conflict
    else if req.guests > table.capacity then CapacityExceeded
    else
      var made := Reservation(NextId(store), user, table.id, req.date, req.time,
                              req.guests, req.requests, DefaultStatus);
      Booked(store + [made], made)
  }

  /** The first table with the given key, as a primary-key lookup returns it. */
  function FindTable(tables: seq<Table>, id: nat): (r: Option<Table>)
    ensures r.Some? ==> r.value in tables && r.value.id == id
    ensures r.None? ==> forall i :: 0 <= i < |tables| ==> tables[i].id != id
  {
    if |tables| == 0 then None
    else if tables[0].id == id then Some(tables[0])
    else FindTable(tables[1..], id)
  }

  /**
   The booking view: an unknown table key is a lookup failure; otherwise the
   admission check runs against the table the key names.
   */
  function MakeReservation(tables: seq<Table>, store: Store, user: nat, tableId: nat, req: Request)
    : (r: BookingResult)
    ensures r.TableNotFound? <==> forall i :: 0 <= i < |tables| ==> tables[i].id != tableId
    ensures r.Booked? ==> exists t :: t in tables && t.id == tableId && req.guests <= t.capacity
    ensures !r.TableNotFound? ==> exists t :: t in tables && t.id == tableId && r == Book(store, user, t, req)
  {
    match FindTable(tables, tableId)
    case None => TableNotFound
    case Some(t) => Book(store, user, t, req)
  }

  /** `r` is reservation `id` and belongs to `user`. */
  predicate OwnedBy(r: Reservation, id: nat, user: nat)
  {
    r.id == id && r.user == user
  }

  /** Index of the first reservation with the given key owned by the given user. */
  function FindOwned(store: Store, id: nat, user: nat): (k: Option<nat>)
    ensures k.Some? ==> k.value < |store| && OwnedBy(store[k.value], id, user)
    ensures k.None? ==> forall i :: 0 <= i < |store| ==> !OwnedBy(store[i], id, user)
  {
    if |store| == 0 then None
    else if OwnedBy(store[0], id, user) then Some(0)
    else
      match FindOwned(store[1..], id, user)
      case None => None
      case Some(k) => Some(k + 1)
  }

  /**
   Cancelling: the reservation is looked up by key AND owner, so another
   user's reservation is not found. On success only the status of that one
   record changes, to cancelled, whatever it was before.
   */
  function Cancel(store: Store, id: nat, user: nat): (r: CancelResult)
    requires IdsUnique(store)
    ensures r.NotFound? <==> forall i :: 0 <= i < |store| ==> !OwnedBy(store[i], id, user)
    ensures r.Released? ==>
              && |r.store| == |store|
              && forall i :: 0 <= i < |store| ==>
                   if store[i].id == id
                   then store[i].user == user && r.store[i] == store[i].(status := Cancelled)
                   else r.store[i] == store[i]
  {
    match FindOwned(store, id, user)
    case None => NotFound
    case Some(k) => Released(store[k := store[k].(status := Cancelled)])
  }

  /** Booking never produces a second active reservation for a slot. */
  lemma BookKeepsOneActivePerSlot(store: Store, user: nat, table: Table, req: Request)
    requires OneActivePerSlot(store)
    ensures Book(store, user, table, req).Booked? ==> OneActivePerSlot(Book(store, user, table, req).store)
  {
  }

  /** Booking hands out a key no other record has. */
  lemma BookKeepsIdsUnique(store: Store, user: nat, table: Table, req: Request)
    requires IdsUnique(store)
    ensures Book(store, user, table, req).Booked? ==> IdsUnique(Book(store, user, table, req).store)
  {
  }

  /** Cancelling keeps both store invariants. */
  lemma CancelKeepsInvariants(store: Store, id: nat, user: nat)
    requires IdsUnique(store)
    ensures Cancel(store, id, user).Released? ==> IdsUnique(Cancel(store, id, user).store)
    ensures OneActivePerSlot(store) && Cancel(store, id, user).Released? ==>
              OneActivePerSlot(Cancel(store, id, user).store)
  {
  }

  /** Cancelling the same reservation twice leaves the store as cancelling once. */
  lemma CancelIdempotent(store: Store, id: nat, user: nat)
    requires IdsUnique(store)
    requires Cancel(store, id, user).Released?
    ensures Cancel(Cancel(store, id, user).store, id, user) == Cancel(store, id, user)
  {
  }

  /**
   A slot whose only reservations are cancelled accepts any party that fits
   the table.
   */
  lemma CancelledNeverBlock(store: Store, user: nat, table: Table, req: Request)
    requires forall i :: 0 <= i < |store| ==>
               (store[i].table == table.id && store[i].date == req.date && store[i].time == req.time
                ==> store[i].status == Cancelled)
    requires req.guests <= table.capacity
    ensures Book(store, user, table, req).Booked?
  {
  }

  /**
   Cancelling a reservation frees its slot at once: in a store that obeys the
   slot rule, a booking of the same table, day and time that fits the table
   succeeds afterwards, whoever makes it.
   */
  lemma CancelFreesSlot(store: Store, id: nat, owner: nat, k: nat, booker: nat, table: Table, req: Request)
    requires IdsUnique(store) && OneActivePerSlot(store)
    requires k < |store| && store[k].id == id && IsActive(store[k].status)
    requires Cancel(store, id, owner).Released?
    requires table.id == store[k].table && req.date == store[k].date && req.time == store[k].time
    requires req.guests <= table.capacity
    ensures Book(Cancel(store, id, owner).store, booker, table, req).Booked?
  {
  }

  /**
   A table for four on 1 June 2024 (day 19875 counted from 1 January 1970) at
   19:00: the first booking is pending, a second one for the same slot is a
   conflict, and once the first is cancelled the slot can be booked again.
   */
  lemma BookCancelRebookScenario()
    ensures var table := Table(1, 1, "1", 4);
            var req := Request(19875, 19 * 60, 2, "");
            var first := Book([], 7, table, req);
            && first.Booked? && first.reservation.status == Pending
            && Book(first.store, 8, table, req).Conflict?
            && var cancelled := Cancel(first.store, first.reservation.id, 7);
               && cancelled.Released? && cancelled.store[0].status == Cancelled
               && Book(cancelled.store, 8, table, req).Booked?
  {
  }

  /**
   A slot conflict is reported even when the party is also too large for the
   table: the capacity check only runs on a free slot.
   */
  lemma ConflictBeforeCapacity(store: Store, user: nat, table: Table, req: Request)
    requires SlotTaken(store, table.id, req.date, req.time) && req.guests > table.capacity
    ensures Book(store, user, table, req) == Conflict
  {
  }

  /** A party of five at a table for two is turned away and nothing is stored. */
  lemma OverCapacityScenario(store: Store, user: nat)
    requires forall i :: 0 <= i < |store| ==> store[i].table != 1
    ensures Book(store, user, Table(1, 1, "1", 2), Request(19875, 19 * 60, 5, "")).CapacityExceeded?
  {
  }
}
