/**
  The subscription with its two defects corrected, for comparison with the
  code as written: an added notification makes membership follow the aspect
  (as the member branch of the added handler already does), a
  changed notification queues the entity for the next read, and a removed
  notification also drops the entity from the queue. With these three
  handlers every read answers exactly the live entities the aspect accepts.
 */
module IntendedSubscription {
  import Bags
  import opened EntitySubscription

  /** Re-evaluates one entity: member afterwards exactly when interested. */
  function Reconcile(s: Subscription, bits: ComponentBits, aspect: Aspect, id: EntityId): (r: Subscription)
    ensures Bags.NoDuplicates(s.active) ==> Bags.NoDuplicates(r.active)
    ensures Bags.NoDuplicates(s.active) ==> (id in r.active <==> aspect(bits(id)))
    ensures forall y :: y != id ==> (y in r.active <==> y in s.active)
    ensures r.changed == s.changed && r.rebuildActives == s.rebuildActives && r.subscribed == s.subscribed
  {
    if aspect(bits(id)) then
      if id in s.active then s else s.(active := Bags.Add(s.active, id))
    else s.(active := Bags.Remove(s.active, id))
  }

  /** Reconciling twice with unchanged masks is the same as reconciling once. */
  lemma ReconcileIdempotent(s: Subscription, bits: ComponentBits, aspect: Aspect, id: EntityId)
    requires Bags.NoDuplicates(s.active)
    ensures Reconcile(Reconcile(s, bits, aspect, id), bits, aspect, id) == Reconcile(s, bits, aspect, id)
  {
  }

  /** The changed handler queues `id` (once) and requests a rebuild. */
  function OnEntityChangedQueued(s: Subscription, id: EntityId): (r: Subscription)
    ensures r.rebuildActives && r.active == s.active && r.subscribed == s.subscribed
    ensures forall y :: y in r.changed <==> y == id || y in s.changed
    ensures Bags.NoDuplicates(s.changed) ==> Bags.NoDuplicates(r.changed)
  {
    if id in s.changed then s.(rebuildActives := true)
    else s.(changed := Bags.Add(s.changed, id), rebuildActives := true)
  }

  /** The removed handler drops `id` from both bags. */
  function OnEntityRemovedPurging(s: Subscription, id: EntityId): (r: Subscription)
    ensures Bags.NoDuplicates(s.active) ==> Bags.NoDuplicates(r.active) && id !in r.active
    ensures Bags.NoDuplicates(s.changed) ==> Bags.NoDuplicates(r.changed) && id !in r.changed
    ensures forall y :: y != id ==> (y in r.active <==> y in s.active) && (y in r.changed <==> y in s.changed)
    ensures r.rebuildActives == s.rebuildActives && r.subscribed == s.subscribed
  {
    s.(active := Bags.Remove(s.active, id), changed := Bags.Remove(s.changed, id))
  }

  /** Reconciles each of `ids` in turn: each of them ends up a member exactly
      when interested, every other id keeps its membership. */
  function ReconcileEach(s: Subscription, bits: ComponentBits, aspect: Aspect, ids: seq<EntityId>): (r: Subscription)
    ensures Bags.NoDuplicates(s.active) ==> Bags.NoDuplicates(r.active)
    ensures Bags.NoDuplicates(s.active) ==> forall y :: y in ids ==> (y in r.active <==> aspect(bits(y)))
    ensures forall y :: y !in ids ==> (y in r.active <==> y in s.active)
    ensures r.changed == s.changed && r.rebuildActives == s.rebuildActives && r.subscribed == s.subscribed
    decreases |ids|
  {
    if ids == [] then s
    else ReconcileEach(Reconcile(s, bits, aspect, ids[0]), bits, aspect, ids[1..])
  }

  /** The read: when a rebuild is pending, reconcile every queued id against
      the current masks and empty the queue. */
  function ReadActive(s: Subscription, bits: ComponentBits, aspect: Aspect): (r: (Subscription, seq<EntityId>))
    ensures r.1 == r.0.active && !r.0.rebuildActives && r.0.subscribed == s.subscribed
    ensures s.rebuildActives ==> r.0.changed == []
    ensures !s.rebuildActives ==> r.0 == s
    ensures Bags.NoDuplicates(s.active) ==> Bags.NoDuplicates(r.1)
    ensures Bags.NoDuplicates(s.active) && s.rebuildActives ==>
              forall y :: y in s.changed ==> (y in r.1 <==> aspect(bits(y)))
    ensures forall y :: y !in s.changed ==> (y in r.1 <==> y in s.active)
  {
    if s.rebuildActives then
      var t := ReconcileEach(s, bits, aspect, s.changed).(changed := [], rebuildActives := false);
      (t, t.active)
    else (s, s.active)
  }

  /** Delivers a notification to the intended handlers while subscribed. */
  function NotifyIntended(s: Subscription, bits: ComponentBits, aspect: Aspect, e: Event): (r: Subscription)
    ensures !s.subscribed ==> r == s
    ensures r.subscribed == s.subscribed
    ensures s.subscribed && Bags.NoDuplicates(s.active) && e.EntityAdded? ==>
              (e.id in r.active <==> aspect(bits(e.id))) && r.changed == s.changed
    ensures s.subscribed && Bags.NoDuplicates(s.active) && Bags.NoDuplicates(s.changed) && e.EntityRemoved? ==>
              e.id !in r.active && e.id !in r.changed
    ensures s.subscribed && e.EntityChanged? ==> e.id in r.changed && r.rebuildActives && r.active == s.active
    ensures forall y :: y != e.id ==> (y in r.active <==> y in s.active)
  {
    if !s.subscribed then s
    else match e
      case EntityAdded(id) => Reconcile(s, bits, aspect, id)
      case EntityRemoved(id) => OnEntityRemovedPurging(s, id)
      case EntityChanged(id) => OnEntityChangedQueued(s, id)
  }

  /** The consistency invariant for the set `live` of entities that exist and
      the masks `bits` they have now: both bags are duplicate-free and hold
      only live ids, a non-empty queue means a rebuild is pending, and every
      live id that is not queued is a member exactly when interested. */
  ghost predicate Consistent(s: Subscription, bits: ComponentBits, aspect: Aspect, live: set<EntityId>) {
    && Bags.NoDuplicates(s.active)
    && Bags.NoDuplicates(s.changed)
    && (forall y :: y in s.active ==> y in live)
    && (forall y :: y in s.changed ==> y in live)
    && (s.changed != [] ==> s.rebuildActives)
    && (forall y :: y in live && y !in s.changed ==> (y in s.active <==> aspect(bits(y))))
  }

  /** A new subscription on an entity manager with no entities is consistent. */
  lemma CreateConsistent(bits: ComponentBits, aspect: Aspect)
    ensures Consistent(Create(), bits, aspect, {})
  {
  }

  /** A new entity `id` appears; no other live entity changes its mask. */
  lemma AddedKeepsConsistent(s: Subscription, bits: ComponentBits, bits': ComponentBits, aspect: Aspect,
                             live: set<EntityId>, id: EntityId)
    requires s.subscribed && Consistent(s, bits, aspect, live)
    requires id !in live
    requires forall y :: y in live ==> bits'(y) == bits(y)
    ensures Consistent(NotifyIntended(s, bits', aspect, EntityAdded(id)), bits', aspect, live + {id})
  {
  }

  /** The live entity `id` is destroyed; the others keep their masks. */
  lemma RemovedKeepsConsistent(s: Subscription, bits: ComponentBits, bits': ComponentBits, aspect: Aspect,
                               live: set<EntityId>, id: EntityId)
    requires s.subscribed && Consistent(s, bits, aspect, live)
    requires id in live
    requires forall y :: y in live && y != id ==> bits'(y) == bits(y)
    ensures Consistent(NotifyIntended(s, bits', aspect, EntityRemoved(id)), bits', aspect, live - {id})
  {
  }

  /** The live entity `id` changes its mask; the others keep theirs. */
  lemma ChangedKeepsConsistent(s: Subscription, bits: ComponentBits, bits': ComponentBits, aspect: Aspect,
                               live: set<EntityId>, id: EntityId)
    requires s.subscribed && Consistent(s, bits, aspect, live)
    requires id in live
    requires forall y :: y in live && y != id ==> bits'(y) == bits(y)
    ensures Consistent(NotifyIntended(s, bits', aspect, EntityChanged(id)), bits', aspect, live)
  {
  }

  /** A read of a consistent subscription answers exactly the live entities
      the aspect is interested in, and leaves nothing queued. */
  lemma ReadAnswersInterestedLive(s: Subscription, bits: ComponentBits, aspect: Aspect, live: set<EntityId>)
    requires Consistent(s, bits, aspect, live)
    ensures var r := ReadActive(s, bits, aspect);
            r.0.changed == [] && Consistent(r.0, bits, aspect, live) &&
            forall y :: y in r.1 <==> y in live && aspect(bits(y))
  {
  }

  /** The scenario the code gets wrong, answered as intended: entity 1 is
      created with the interesting component, then loses it. */
  lemma IntendedScenario()
    ensures var aspect: Aspect := m => 0 in m;
            var bits0: ComponentBits := id => {0};
            var bits1: ComponentBits := id => {};
            var s1 := NotifyIntended(Create(), bits0, aspect, EntityAdded(1));
            var r1 := ReadActive(s1, bits0, aspect);
            var s2 := NotifyIntended(r1.0, bits1, aspect, EntityChanged(1));
            r1.1 == [1] && ReadActive(s2, bits1, aspect).1 == []
  {
  }
}
