/**
  The entity subscription as the code is written: the set of entity ids kept
  for one aspect, updated by the entity manager's added / removed / changed
  notifications and lazily rebuilt when it is read.

  The entity manager's `GetComponentBits` and the aspect's `IsInterested` are
  not part of this model; they are the parameters `bits` and `aspect`. The
  event registration of the constructor and its removal in `Dispose` are the
  `subscribed` flag, which decides whether `Notify` delivers an event.
 */
module EntitySubscription {
  import Bags

  type EntityId = Bags.EntityId

  /** Which component types an entity has; the bit encoding is not modelled. */
  type ComponentMask = set<nat>

  /** The entity manager's current component mask of every entity id. */
  type ComponentBits = EntityId -> ComponentMask

  /** An aspect: which component masks it is interested in. */
  type Aspect = ComponentMask -> bool

  datatype Subscription = Subscription(
    active: seq<EntityId>,     // _activeEntities
    changed: seq<EntityId>,    // _changedEntities
    rebuildActives: bool,      // _rebuildActives
    subscribed: bool)          // the three handlers are registered

  /** What every state reachable from `Create` satisfies: the active bag is
      duplicate-free and the changed bag is empty. */
  predicate Valid(s: Subscription) {
    Bags.NoDuplicates(s.active) && s.changed == []
  }

  /** The constructor: both bags empty, a rebuild pending, handlers registered. */
  function Create(): (s: Subscription)
    ensures Valid(s)
    ensures forall id :: id !in s.active
    ensures s.rebuildActives && s.subscribed
  {
    Subscription([], [], true, true)
  }

  /** The added handler. A member stays only while the aspect is interested;
      a non-member is added only when the aspect is NOT interested. */
  function OnEntityAdded(s: Subscription, bits: ComponentBits, aspect: Aspect, id: EntityId): (r: Subscription)
    ensures Bags.NoDuplicates(s.active) ==> Bags.NoDuplicates(r.active)
    ensures Bags.NoDuplicates(s.active) ==> (id in r.active <==> (id in s.active <==> aspect(bits(id))))
    ensures forall y :: y != id ==> (y in r.active <==> y in s.active)
    ensures r.changed == s.changed && r.rebuildActives == s.rebuildActives && r.subscribed == s.subscribed
  {
    if id in s.active then
      if aspect(bits(id)) then s
      else s.(active := Bags.Remove(s.active, id))
    else
      if !aspect(bits(id)) then s.(active := Bags.Add(s.active, id))
      else s
  }

  /** The removed handler: drops `id` from the active bag, if it is there. */
  function OnEntityRemoved(s: Subscription, id: EntityId): (r: Subscription)
    ensures Bags.NoDuplicates(s.active) ==> Bags.NoDuplicates(r.active) && id !in r.active
    ensures forall y :: y != id ==> (y in r.active <==> y in s.active)
    ensures id !in s.active ==> r == s
    ensures r.changed == s.changed && r.rebuildActives == s.rebuildActives && r.subscribed == s.subscribed
  {
    s.(active := Bags.Remove(s.active, id))
  }

  /** The changed handler: it requests a rebuild but never queues `id`. */
  function OnEntityChanged(s: Subscription, id: EntityId): (r: Subscription)
    ensures r.rebuildActives
    ensures r.active == s.active && r.changed == s.changed && r.subscribed == s.subscribed
  {
    s.(rebuildActives := true)
  }

  /** Disposal deregisters the handlers; disposing twice changes nothing more. */
  function Dispose(s: Subscription): (r: Subscription)
    ensures !r.subscribed
    ensures r.active == s.active && r.changed == s.changed && r.rebuildActives == s.rebuildActives
    ensures !s.subscribed ==> r == s
  {
    s.(subscribed := false)
  }

  /** The added handler applied to each of `ids` in turn. */
  function AddEach(s: Subscription, bits: ComponentBits, aspect: Aspect, ids: seq<EntityId>): (r: Subscription)
    ensures Bags.NoDuplicates(s.active) ==> Bags.NoDuplicates(r.active)
    ensures Bags.NoDuplicates(s.active) && Bags.NoDuplicates(ids) ==>
              forall y :: y in ids ==> (y in r.active <==> (y in s.active <==> aspect(bits(y))))
    ensures forall y :: y !in ids ==> (y in r.active <==> y in s.active)
    ensures r.changed == s.changed && r.rebuildActives == s.rebuildActives && r.subscribed == s.subscribed
    decreases |ids|
  {
    if ids == [] then s
    else
      Bags.NoDuplicatesTail(ids);
      AddEach(OnEntityAdded(s, bits, aspect, ids[0]), bits, aspect, ids[1..])
  }

  /** Replays the changed bag through the added handler, then clears the bag
      and the rebuild flag. */
  function RebuildActives(s: Subscription, bits: ComponentBits, aspect: Aspect): (r: Subscription)
    ensures r.changed == [] && !r.rebuildActives && r.subscribed == s.subscribed
    ensures Bags.NoDuplicates(s.active) ==> Bags.NoDuplicates(r.active)
    ensures Bags.NoDuplicates(s.active) && Bags.NoDuplicates(s.changed) ==>
              forall y :: y in s.changed ==> (y in r.active <==> (y in s.active <==> aspect(bits(y))))
    ensures forall y :: y !in s.changed ==> (y in r.active <==> y in s.active)
    ensures s.changed == [] ==> r.active == s.active
  {
    AddEach(s, bits, aspect, s.changed).(changed := [], rebuildActives := false)
  }

  /** The `ActiveEntities` getter: rebuilds first when a rebuild is pending,
      and answers the state after the read together with the active bag. */
  function ActiveEntities(s: Subscription, bits: ComponentBits, aspect: Aspect): (r: (Subscription, seq<EntityId>))
    ensures r.1 == r.0.active
    ensures !r.0.rebuildActives && r.0.subscribed == s.subscribed
    ensures !s.rebuildActives ==> r.0 == s
    ensures s.rebuildActives || s.changed == [] ==> r.0.changed == []
    ensures Valid(s) ==> Valid(r.0) && r.1 == s.active
    ensures s.rebuildActives && Bags.NoDuplicates(s.active) && Bags.NoDuplicates(s.changed) ==>
              forall y :: y in s.changed ==> (y in r.1 <==> (y in s.active <==> aspect(bits(y))))
    ensures forall y :: y !in s.changed ==> (y in r.1 <==> y in s.active)
  {
    var t := if s.rebuildActives then RebuildActives(s, bits, aspect) else s;
    (t, t.active)
  }

  /** The three notifications the entity manager raises. */
  datatype Event =
    | EntityAdded(id: EntityId)
    | EntityRemoved(id: EntityId)
    | EntityChanged(id: EntityId)

  /** Delivers one notification: handled while subscribed, ignored after disposal. */
  function Notify(s: Subscription, bits: ComponentBits, aspect: Aspect, e: Event): (r: Subscription)
    ensures !s.subscribed ==> r == s
    ensures r.subscribed == s.subscribed
    ensures Valid(s) ==> Valid(r)
    ensures forall y :: y != e.id ==> (y in r.active <==> y in s.active)
    ensures s.subscribed && Valid(s) && e.EntityAdded? ==>
              (e.id in r.active <==> (e.id in s.active <==> aspect(bits(e.id))))
    ensures s.subscribed && Valid(s) && e.EntityRemoved? ==> e.id !in r.active
    ensures s.subscribed && e.EntityChanged? ==> r.rebuildActives && r.active == s.active
    ensures r.changed == s.changed
    ensures !e.EntityChanged? ==> r.rebuildActives == s.rebuildActives
  {
    if !s.subscribed then s
    else match e
      case EntityAdded(id) => OnEntityAdded(s, bits, aspect, id)
      case EntityRemoved(id) => OnEntityRemoved(s, id)
      case EntityChanged(id) => OnEntityChanged(s, id)
  }

  /** One thing that can happen to a subscription. Each notification and each
      read sees the component masks of its own moment. */
  datatype Step =
    | Raise(e: Event, bits: ComponentBits)
    | Read(bits: ComponentBits)
    | Close

  /** The state after `s` has gone through `steps`, one aspect throughout. */
  function Run(s: Subscription, aspect: Aspect, steps: seq<Step>): Subscription
    decreases |steps|
  {
    if steps == [] then s
    else
      var t := match steps[0]
        case Raise(e, bits) => Notify(s, bits, aspect, e)
        case Read(bits) => ActiveEntities(s, bits, aspect).0
        case Close => Dispose(s);
      Run(t, aspect, steps[1..])
  }
}
