/**
  The event schema: required and bounded fields, the `remainingCapacity`
  virtual, the pre-save capacity hook, and the price step applied on each
  registration.
 */
module EventModel {
  import opened Wrappers
  import opened Text
  import opened UserModel

  /** An event's `_id`; only compared for equality. */
  type EventId = nat

  /** An event document. `owner` is the schema's `user` reference. */
  datatype Event = Event(
    eventName: string,
    price: int,
    capacity: int,
    owner: UserId,
    registeredUsers: seq<UserId>)

  const MinPrice: int := 0
  const MinCapacity: int := 1
  const CapacityMessage: string := "Registered users cannot exceed event capacity"

  /** The `remainingCapacity` virtual. */
  function RemainingCapacity(e: Event): int {
    e.capacity - |e.registeredUsers|
  }

  /** The pre-save hook: rejects an event with more registered users than seats. */
  function PreSave(e: Event): Result<(), string> {
    if |e.registeredUsers| > e.capacity then Err(CapacityMessage) else Ok(())
  }

  /** The hook rejects exactly the events whose remaining capacity is negative;
      a full event (no seat left) is still accepted. */
  lemma PreSaveIff(e: Event)
    ensures PreSave(e).Err? <==> RemainingCapacity(e) < 0
    ensures |e.registeredUsers| == e.capacity ==> PreSave(e).Ok? && RemainingCapacity(e) == 0
  {
  }

  /** The field validators: a trimmed non-empty name, a non-negative price and
      at least one seat (the owner reference is always present in this model). */
  predicate FieldsValid(e: Event) {
    && e.eventName != []
    && IsTrimmed(e.eventName)
    && e.price >= MinPrice
    && e.capacity >= MinCapacity
  }

  /** What `save()` accepts: the validators and then the hook. */
  predicate Saveable(e: Event) {
    FieldsValid(e) && PreSave(e).Ok?
  }

  /** Every saved event has between zero and `capacity` seats left. */
  lemma SavedRemainingCapacity(e: Event)
    requires Saveable(e)
    ensures 0 <= RemainingCapacity(e) <= e.capacity
    ensures |e.registeredUsers| <= e.capacity
  {
  }

  /** A field of the create request whose validator can reject. */
  datatype EventField = NameField | PriceField | CapacityField

  /** Casting and validation of a create request: the name is trimmed and then
      required, the price is required and at least 0, the capacity is required
      and at least 1; the new event is owned by `owner` and has no registrations. */
  function NewEvent(name: Option<string>, price: Option<int>, capacity: Option<int>, owner: UserId)
    : Result<Event, set<EventField>>
  {
    var nameOk := name.Some? && Trim(name.value) != [];
    var priceOk := price.Some? && price.value >= MinPrice;
    var capacityOk := capacity.Some? && capacity.value >= MinCapacity;
    if nameOk && priceOk && capacityOk then
      Ok(Event(Trim(name.value), price.value, capacity.value, owner, []))
    else
      Err((if nameOk then {} else {NameField})
        + (if priceOk then {} else {PriceField})
        + (if capacityOk then {} else {CapacityField}))
  }

  /** An accepted create request yields a saveable event, owned by the caller,
      with the trimmed name and no registrations; a rejected one names at least
      one field. */
  lemma NewEventSpec(name: Option<string>, price: Option<int>, capacity: Option<int>, owner: UserId)
    ensures NewEvent(name, price, capacity, owner).Ok? <==>
      && name.Some? && Trim(name.value) != []
      && price.Some? && price.value >= 0
      && capacity.Some? && capacity.value >= 1
    ensures NewEvent(name, price, capacity, owner).Ok? ==>
      var e := NewEvent(name, price, capacity, owner).value;
      && Saveable(e) && RemainingCapacity(e) == e.capacity
      && e.owner == owner && e.registeredUsers == []
      && e.eventName == Trim(name.value)
      && e.price == price.value && e.capacity == capacity.value
    ensures NewEvent(name, price, capacity, owner).Err? ==>
      NewEvent(name, price, capacity, owner).error != {}
  {
    if name.Some? {
      TrimSpec(name.value);
    }
  }

  /** The price after one registration: `ceil(price * 1.1)` over the integers. */
  function Bump(p: int): int {
    (11 * p + 9) / 10
  }

  /** Bump is the least integer at or above eleven tenths of the price, and a
      non-negative price never decreases (a positive one strictly grows). */
  lemma BumpSpec(p: int)
    ensures 10 * Bump(p) >= 11 * p
    ensures 10 * (Bump(p) - 1) < 11 * p
    ensures p >= 0 ==> Bump(p) >= p
    ensures p > 0 ==> Bump(p) > p
  {
  }

  /** The price after `n` registrations. */
  function BumpTimes(p: int, n: nat): int {
    if n == 0 then p else Bump(BumpTimes(p, n - 1))
  }

  /** Prices only rise: after more registrations the price is at least as high,
      and never below the starting price. */
  lemma {:induction false} BumpTimesMonotone(p: int, m: nat, n: nat)
    requires p >= 0
    requires m <= n
    ensures p <= BumpTimes(p, m) <= BumpTimes(p, n)
  {
    if n > m {
      BumpTimesMonotone(p, m, n - 1);
      BumpSpec(BumpTimes(p, n - 1));
    } else if m > 0 {
      BumpTimesMonotone(p, m - 1, m - 1);
      BumpSpec(BumpTimes(p, m - 1));
    }
  }
}
