/**
  The event routes: list the caller's events, list everybody else's, create,
  delete (owner only) and register, over a store of event documents keyed by id.
  Each handler is specified by a function from the store before the request to
  the reply and the store after it; the class below performs the same steps in
  place on its `events` field.
 */
module EventRoute {
  import opened Wrappers
  import opened UserModel
  import opened EventModel
  import opened Text

  /** The events collection. */
  type Store = map<EventId, Event>

  /** The status code and body (or error message) a handler answers with. */
  datatype Reply<T> = Success(status: int, body: T) | Failure(status: int, message: string)

  const NotFoundMessage: string := "Event not found"
  const NotOwnerMessage: string := "Unauthorized to delete this event"
  const AlreadyRegisteredMessage: string := "You are already registered for this event"
  const FullMessage: string := "Event is already at full capacity"
  const InternalErrorMessage: string := "Internal server error"

  predicate NoDuplicates(s: seq<UserId>) {
    forall i, j :: 0 <= i < j < |s| ==> s[i] != s[j]
  }

  /** The collection invariant: every event passes save-time validation and
      lists each registered user once. */
  ghost predicate StoreValid(store: Store) {
    forall id :: id in store ==> Saveable(store[id]) && NoDuplicates(store[id].registeredUsers)
  }

  /** `find({ user: caller })`. */
  function Mine(store: Store, caller: UserId): Store {
    map id | id in store && store[id].owner == caller :: store[id]
  }

  /** `find({ user: { $ne: caller } })`. */
  function Others(store: Store, caller: UserId): Store {
    map id | id in store && store[id].owner != caller :: store[id]
  }

  /** `find({ registeredUsers: caller })`. */
  function RegisteredFor(store: Store, caller: UserId): Store {
    map id | id in store && caller in store[id].registeredUsers :: store[id]
  }

  /** The two listings split the store: the caller's own events and everyone
      else's are disjoint, together they are the whole store, and each holds
      only events of the right owner, unchanged. */
  lemma ListingsPartition(store: Store, caller: UserId)
    ensures Mine(store, caller).Keys !! Others(store, caller).Keys
    ensures Mine(store, caller).Keys + Others(store, caller).Keys == store.Keys
    ensures Mine(store, caller) + Others(store, caller) == store
    ensures forall id :: id in Mine(store, caller) ==>
      Mine(store, caller)[id] == store[id] && store[id].owner == caller
    ensures forall id :: id in Others(store, caller) ==>
      Others(store, caller)[id] == store[id] && store[id].owner != caller
  {
    var m, o := Mine(store, caller), Others(store, caller);
    assert (m + o).Keys == store.Keys;
    forall id | id in store
      ensures (m + o)[id] == store[id]
    {
      if store[id].owner == caller {
        assert id in m && id !in o;
      }
    }
  }

  /** POST /: validate and insert a new event under the id allocated for it.
      Validation failures and an id already in use both end in the handler's
      generic 500. */
  function CreateResult(store: Store, caller: UserId, id: EventId,
                        name: Option<string>, price: Option<int>, capacity: Option<int>)
    : (Reply<Event>, Store)
  {
    match NewEvent(name, price, capacity, caller)
    case Err(_) => (Failure(500, InternalErrorMessage), store)
    case Ok(e) =>
      if PreSave(e).Err? || id in store then (Failure(500, InternalErrorMessage), store)
      else (Success(201, e), store[id := e])
  }

  /** A create succeeds exactly when the request is valid and the id is new; it
      then adds one event, owned by the caller with the request's trimmed name,
      price and capacity and no registrations, and changes nothing else. A failed create leaves the store as it was. */
  lemma CreateSpec(store: Store, caller: UserId, id: EventId,
                   name: Option<string>, price: Option<int>, capacity: Option<int>)
    ensures var (reply, after) := CreateResult(store, caller, id, name, price, capacity);
      && (reply.Success? <==> NewEvent(name, price, capacity, caller).Ok? && id !in store)
      && (reply.Success? ==>
            && reply.status == 201
            && reply.body.owner == caller && reply.body.registeredUsers == []
            && reply.body.eventName == Trim(name.value)
            && reply.body.price == price.value && reply.body.capacity == capacity.value
            && Saveable(reply.body)
            && after.Keys == store.Keys + {id} && after[id] == reply.body
            && forall other :: other in store ==> after[other] == store[other])
      && (reply.Failure? ==> reply.status == 500 && after == store)
  {
    NewEventSpec(name, price, capacity, caller);
    var made := NewEvent(name, price, capacity, caller);
    if made.Ok? {
      assert PreSave(made.value).Ok?;
    }
  }

  /** DELETE /:id: 404 for an unknown id, 403 for a caller who is not the owner,
      otherwise the event is removed. */
  function DeleteResult(store: Store, caller: UserId, id: EventId): (Reply<()>, Store) {
    if id !in store then (Failure(404, NotFoundMessage), store)
    else if store[id].owner != caller then (Failure(403, NotOwnerMessage), store)
    else (Success(200, ()), store - {id})
  }

  /** Delete answers 404 exactly for an unknown id and 403 exactly for a caller
      who does not own the event, leaving the store as it was; the owner's delete
      removes that one event and leaves every other event untouched. */
  lemma DeleteSpec(store: Store, caller: UserId, id: EventId)
    ensures var (reply, after) := DeleteResult(store, caller, id);
      && (reply.status == 404 <==> id !in store)
      && (reply.status == 403 <==> id in store && store[id].owner != caller)
      && (reply.Success? <==> id in store && store[id].owner == caller)
      && (reply.Failure? ==> after == store)
      && (reply.Success? ==>
            && reply.status == 200
            && after.Keys == store.Keys - {id}
            && forall other :: other in after ==> after[other] == store[other])
  {
  }

  /** POST /register-event/:id: the guards in order (unknown event, caller
      already registered, no seat left), then the caller is appended, the price
      bumped, the event saved, and the caller's registrations returned. */
  function RegisterResult(store: Store, caller: UserId, id: EventId): (Reply<Store>, Store) {
    if id !in store then (Failure(404, NotFoundMessage), store)
    else
      var event := store[id];
      if caller in event.registeredUsers then (Failure(400, AlreadyRegisteredMessage), store)
      else if |event.registeredUsers| >= event.capacity then (Failure(400, FullMessage), store)
      else
        var joined := event.(registeredUsers := event.registeredUsers + [caller], price := Bump(event.price));
        if !Saveable(joined) then (Failure(500, InternalErrorMessage), store)
        else
          var after := store[id := joined];
          (Success(200, RegisteredFor(after, caller)), after)
  }

  /** The guards: 404 exactly for an unknown event; "already registered"
      exactly when the caller is in the list, even when the event is also full;
      "full" exactly when the caller is new and no seat is left. Every failure
      leaves the store as it was. */
  lemma RegisterGuards(store: Store, caller: UserId, id: EventId)
    ensures var (reply, after) := RegisterResult(store, caller, id);
      && (reply.Failure? ==> after == store)
      && (reply.status == 404 <==> id !in store)
      && (reply == Failure(400, AlreadyRegisteredMessage) <==>
            id in store && caller in store[id].registeredUsers)
      && (reply == Failure(400, FullMessage) <==>
            && id in store && caller !in store[id].registeredUsers
            && |store[id].registeredUsers| >= store[id].capacity)
  {
  }

  /** On a valid store a registration that passes the guards always succeeds:
      the save never rejects it. */
  lemma RegisterSucceedsPastGuards(store: Store, caller: UserId, id: EventId)
    requires StoreValid(store)
    ensures RegisterResult(store, caller, id).0.Success? <==>
      && id in store && caller !in store[id].registeredUsers
      && |store[id].registeredUsers| < store[id].capacity
  {
    if id in store {
      var event := store[id];
      var joined := event.(registeredUsers := event.registeredUsers + [caller], price := Bump(event.price));
      BumpSpec(event.price);
      assert FieldsValid(joined);
    }
  }

  /** A successful registration appends the caller at the end of the list, once;
      the list grows by exactly one and stays within capacity; the price becomes
      Bump(price); name, capacity and owner stay; every other event is
      untouched; and the reply holds exactly the stored documents of the events
      the caller is now registered for, the joined one among them. */
  lemma RegisterSuccess(store: Store, caller: UserId, id: EventId)
    requires RegisterResult(store, caller, id).0.Success?
    ensures var (reply, after) := RegisterResult(store, caller, id);
      && id in store && after.Keys == store.Keys
      && var old_e, new_e := store[id], after[id];
      && new_e.registeredUsers == old_e.registeredUsers + [caller]
      && |new_e.registeredUsers| == |old_e.registeredUsers| + 1
      && multiset(new_e.registeredUsers)[caller] == 1
      && |new_e.registeredUsers| <= new_e.capacity
      && new_e.price == Bump(old_e.price)
      && new_e.eventName == old_e.eventName
      && new_e.capacity == old_e.capacity && new_e.owner == old_e.owner
      && (forall other :: other in store && other != id ==> after[other] == store[other])
      && reply.status == 200
      && id in reply.body
      && (forall e :: e in reply.body <==> e in after && caller in after[e].registeredUsers)
      && (forall e :: e in reply.body ==> reply.body[e] == after[e])
  {
    var old_e := store[id];
    assert multiset(old_e.registeredUsers)[caller] == 0;
  }

  /** Creating keeps the collection invariant. */
  lemma CreateKeepsStoreValid(store: Store, caller: UserId, id: EventId,
                              name: Option<string>, price: Option<int>, capacity: Option<int>)
    requires StoreValid(store)
    ensures StoreValid(CreateResult(store, caller, id, name, price, capacity).1)
  {
    CreateSpec(store, caller, id, name, price, capacity);
    var (reply, after) := CreateResult(store, caller, id, name, price, capacity);
    if reply.Success? {
      forall k | k in after
        ensures Saveable(after[k]) && NoDuplicates(after[k].registeredUsers)
      {
        if k != id {
          assert after[k] == store[k];
        }
      }
    }
  }

  /** Deleting keeps the collection invariant. */
  lemma DeleteKeepsStoreValid(store: Store, caller: UserId, id: EventId)
    requires StoreValid(store)
    ensures StoreValid(DeleteResult(store, caller, id).1)
  {
  }

  /** Registering keeps the collection invariant: the caller was not in the
      list, so the list stays free of duplicates. */
  lemma RegisterKeepsStoreValid(store: Store, caller: UserId, id: EventId)
    requires StoreValid(store)
    ensures StoreValid(RegisterResult(store, caller, id).1)
  {
    var (reply, after) := RegisterResult(store, caller, id);
    if reply.Success? {
      var regs := store[id].registeredUsers;
      var regs' := regs + [caller];
      assert after[id].registeredUsers == regs';
      forall i, j | 0 <= i < j < |regs'|
        ensures regs'[i] != regs'[j]
      {
        if j == |regs| {
          assert regs'[i] == regs[i];
        }
      }
      assert NoDuplicates(after[id].registeredUsers);
    }
  }

  /** Two users race for the last seat of an event priced 5, one after the
      other: the first gets it and the price becomes 6, the second is told the
      event is full and nothing changes. */
  lemma LastSeatScenario()
    ensures var store := map[7 := Event("Launch", 5, 1, 1, [])];
      var (first, afterFirst) := RegisterResult(store, 2, 7);
      var (second, afterSecond) := RegisterResult(afterFirst, 3, 7);
      && first.Success? && afterFirst[7] == Event("Launch", 6, 1, 1, [2])
      && second == Failure(400, FullMessage) && afterSecond == afterFirst
  {
    var store := map[7 := Event("Launch", 5, 1, 1, [])];
    var joined := Event("Launch", 6, 1, 1, [2]);
    assert Bump(5) == 6;
    assert [] + [2] == [2];
    assert Saveable(joined);
    assert RegisterResult(store, 2, 7).1 == store[7 := joined];
  }

  /** The store after `callers` register for event `id` one after another,
      in order. */
  function RegisterAll(store: Store, callers: seq<UserId>, id: EventId): Store
    decreases |callers|
  {
    if callers == [] then store
    else RegisterResult(RegisterAll(store, callers[..|callers| - 1], id), callers[|callers| - 1], id).1
  }

  /** One registration past the guards on a valid store: the event gains the
      caller and a bumped price, the collection stays valid and nothing else
      changes. */
  lemma RegisterStep(store: Store, caller: UserId, id: EventId)
    requires StoreValid(store) && id in store
    requires caller !in store[id].registeredUsers
    requires |store[id].registeredUsers| < store[id].capacity
    ensures var after := RegisterResult(store, caller, id).1;
      && StoreValid(after) && after.Keys == store.Keys
      && after[id] == store[id].(registeredUsers := store[id].registeredUsers + [caller],
                                 price := Bump(store[id].price))
      && forall other :: other in store && other != id ==> after[other] == store[other]
  {
    RegisterSucceedsPastGuards(store, caller, id);
    RegisterKeepsStoreValid(store, caller, id);
  }

  /** Successive registrations by distinct new users, as many as there are free
      seats, all succeed: the users are appended in order, the price has been
      bumped once per registration (name, capacity and owner stay), the
      collection stays valid and no other event changes. */
  lemma {:induction false} SuccessiveRegistrations(store: Store, callers: seq<UserId>, id: EventId)
    requires StoreValid(store) && id in store
    requires NoDuplicates(callers)
    requires forall c :: c in callers ==> c !in store[id].registeredUsers
    requires |store[id].registeredUsers| + |callers| <= store[id].capacity
    ensures var after := RegisterAll(store, callers, id);
      && StoreValid(after) && after.Keys == store.Keys
      && after[id] == store[id].(registeredUsers := store[id].registeredUsers + callers,
                                 price := BumpTimes(store[id].price, |callers|))
      && forall other :: other in store && other != id ==> after[other] == store[other]
    decreases |callers|
  {
    if callers == [] {
      assert store[id].registeredUsers + callers == store[id].registeredUsers;
    } else {
      var init, c := callers[..|callers| - 1], callers[|callers| - 1];
      DropLast(callers, store[id].registeredUsers);
      SuccessiveRegistrations(store, init, id);
      var mid := RegisterAll(store, init, id);
      RegisterStep(mid, c, id);
      ComposeRegistrations(store, mid, RegisterAll(store, callers, id), id, init, c);
    }
  }

  /** Chaining one more registration onto a run of registrations. */
  lemma ComposeRegistrations(store: Store, mid: Store, after: Store, id: EventId,
                             init: seq<UserId>, c: UserId)
    requires id in store
    requires mid.Keys == store.Keys
    requires mid[id] == store[id].(registeredUsers := store[id].registeredUsers + init,
                                   price := BumpTimes(store[id].price, |init|))
    requires forall other :: other in store && other != id ==> mid[other] == store[other]
    requires after.Keys == mid.Keys
    requires after[id] == mid[id].(registeredUsers := mid[id].registeredUsers + [c],
                                   price := Bump(mid[id].price))
    requires forall other :: other in mid && other != id ==> after[other] == mid[other]
    ensures after.Keys == store.Keys
    ensures after[id] == store[id].(registeredUsers := store[id].registeredUsers + (init + [c]),
                                    price := BumpTimes(store[id].price, |init + [c]|))
    ensures forall other :: other in store && other != id ==> after[other] == store[other]
  {
    assert store[id].registeredUsers + init + [c] == store[id].registeredUsers + (init + [c]);
  }

  /** Distinct users none of whom is in `regs`: so are all but the last, and
      the last is neither among them nor in `regs`. */
  lemma DropLast(callers: seq<UserId>, regs: seq<UserId>)
    requires callers != [] && NoDuplicates(callers)
    requires forall c :: c in callers ==> c !in regs
    ensures var init, last := callers[..|callers| - 1], callers[|callers| - 1];
      && callers == init + [last]
      && NoDuplicates(init) && (forall x :: x in init ==> x !in regs)
      && last !in init && last !in regs
  {
    var init, last := callers[..|callers| - 1], callers[|callers| - 1];
    assert callers == init + [last];
    forall i | 0 <= i < |init|
      ensures init[i] == callers[i] && init[i] != last
    {
    }
  }

  /** The events collection and the request handlers, run one request at a time. */
  class EventStore {
    var events: Store

    ghost predicate Valid()
      reads this
    {
      StoreValid(events)
    }

    constructor ()
      ensures Valid() && events == map[]
    {
      events := map[];
    }

    /** GET /: the caller's events. */
    method ListMine(caller: UserId) returns (reply: Reply<Store>)
      ensures reply == Success(200, Mine(events, caller))
    {
      reply := Success(200, map id | id in events && events[id].owner == caller :: events[id]);
    }

    /** GET /all: everybody else's events. */
    method ListAll(caller: UserId) returns (reply: Reply<Store>)
      ensures reply == Success(200, Others(events, caller))
    {
      reply := Success(200, map id | id in events && events[id].owner != caller :: events[id]);
    }

    /** POST /: build the document, validate it, insert it. */
    method Create(caller: UserId, id: EventId, name: Option<string>, price: Option<int>, capacity: Option<int>)
      returns (reply: Reply<Event>)
      requires Valid()
      modifies this
      ensures Valid()
      ensures (reply, events) == CreateResult(old(events), caller, id, name, price, capacity)
    {
      CreateKeepsStoreValid(events, caller, id, name, price, capacity);
      var built := NewEvent(name, price, capacity, caller);
      if built.Err? {
        return Failure(500, InternalErrorMessage);
      }
      var event := built.value;
      if PreSave(event).Err? || id in events {
        return Failure(500, InternalErrorMessage);
      }
      events := events[id := event];
      reply := Success(201, event);
    }

    /** DELETE /:id: look the event up, check the owner, remove it. */
    method Delete(caller: UserId, id: EventId) returns (reply: Reply<()>)
      requires Valid()
      modifies this
      ensures Valid()
      ensures (reply, events) == DeleteResult(old(events), caller, id)
    {
      DeleteKeepsStoreValid(events, caller, id);
      if id !in events {
        return Failure(404, NotFoundMessage);
      }
      if events[id].owner != caller {
        return Failure(403, NotOwnerMessage);
      }
      events := events - {id};
      reply := Success(200, ());
    }

    /** POST /register-event/:id: load the event, run the guards, push the
        caller, raise the price, save, then query the caller's registrations. */
    method Register(caller: UserId, id: EventId) returns (reply: Reply<Store>)
      requires Valid()
      modifies this
      ensures Valid()
      ensures (reply, events) == RegisterResult(old(events), caller, id)
    {
      RegisterKeepsStoreValid(events, caller, id);
      if id !in events {
        return Failure(404, NotFoundMessage);
      }
      var event := events[id];
      if caller in event.registeredUsers {
        return Failure(400, AlreadyRegisteredMessage);
      }
      if |event.registeredUsers| >= event.capacity {
        return Failure(400, FullMessage);
      }
      event := event.(registeredUsers := event.registeredUsers + [caller]);
      event := event.(price := Bump(event.price));
      if !Saveable(event) {
        return Failure(500, InternalErrorMessage);
      }
      events := events[id := event];
      reply := Success(200, map e | e in events && caller in events[e].registeredUsers :: events[e]);
    }
  }
}
