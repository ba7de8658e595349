/**
  Properties of the subscription as written, relating several operations or a
  whole run of notifications and reads.
 */
module SubscriptionProperties {
  import Bags
  import opened EntitySubscription

  /** Two added notifications in a row, masks unchanged, give every id its
      original membership back: the second call undoes the first. */
  lemma AddTwiceRestoresMembership(s: Subscription, bits: ComponentBits, aspect: Aspect, id: EntityId)
    requires Bags.NoDuplicates(s.active)
    ensures var r := OnEntityAdded(OnEntityAdded(s, bits, aspect, id), bits, aspect, id);
            forall y :: y in r.active <==> y in s.active
  {
  }

  /** An added notification for an interested non-member changes nothing. */
  lemma AddInterestedNonMemberIsNoOp(s: Subscription, bits: ComponentBits, aspect: Aspect, id: EntityId)
    requires id !in s.active && aspect(bits(id))
    ensures OnEntityAdded(s, bits, aspect, id) == s
  {
  }

  /** Every run of notifications, reads and disposals keeps the active bag
      duplicate-free and the changed bag empty. */
  lemma {:induction false} RunPreservesValid(s: Subscription, aspect: Aspect, steps: seq<Step>)
    requires Valid(s)
    ensures Valid(Run(s, aspect, steps))
    decreases |steps|
  {
    if steps != [] {
      var t := match steps[0]
        case Raise(e, bits) => Notify(s, bits, aspect, e)
        case Read(bits) => ActiveEntities(s, bits, aspect).0
        case Close => Dispose(s);
      RunPreservesValid(t, aspect, steps[1..]);
    }
  }

  /** Whatever happened since construction, the changed bag is empty and a
      read hands back the active bag exactly as it was held before the read:
      the rebuild never changes anything. */
  lemma ReadAfterAnyRunReturnsHeldSet(aspect: Aspect, steps: seq<Step>, bits: ComponentBits)
    ensures var s := Run(Create(), aspect, steps);
            s.changed == [] && Bags.NoDuplicates(s.active) &&
            ActiveEntities(s, bits, aspect).1 == s.active
  {
    RunPreservesValid(Create(), aspect, steps);
  }

  /** No step other than a read can follow disposal and change the state. */
  lemma {:induction false} DisposedIgnoresNotifications(s: Subscription, aspect: Aspect, steps: seq<Step>)
    requires !s.subscribed
    requires forall i :: 0 <= i < |steps| ==> !steps[i].Read?
    ensures Run(s, aspect, steps) == s
    decreases |steps|
  {
    if steps != [] {
      DisposedIgnoresNotifications(s, aspect, steps[1..]);
    }
  }

  /** Disposing a disposed subscription is a no-op. */
  lemma DisposeTwice(s: Subscription)
    ensures Dispose(Dispose(s)) == Dispose(s)
  {
  }

  /** The inverted test: on a subscribed state, an added notification for an
      interested entity that is not yet a member leaves it out, and one for an
      uninterested entity puts it in. */
  lemma AddedNotificationInvertsInterest(s: Subscription, bits: ComponentBits, aspect: Aspect, id: EntityId)
    requires s.subscribed && id !in s.active
    ensures id in Notify(s, bits, aspect, EntityAdded(id)).active <==> !aspect(bits(id))
  {
  }

  /** Example: aspect "component 0 present", entity 1 created with component 0.
      After its added notification the read answers the empty bag, not [1]. */
  lemma InterestedEntityIsNeverAdded()
    ensures var aspect: Aspect := m => 0 in m;
            var bits: ComponentBits := id => {0};
            var s := Run(Create(), aspect, [Raise(EntityAdded(1), bits)]);
            aspect(bits(1)) && ActiveEntities(s, bits, aspect).1 == []
  {
  }

  /** A changed notification never makes the next read look at the entity:
      a member whose mask the aspect no longer accepts stays a member,
      although the added handler itself would remove it. */
  lemma ChangeIsNeverReconciled(s: Subscription, bits: ComponentBits, bits': ComponentBits, aspect: Aspect, id: EntityId)
    requires Valid(s) && s.subscribed && id in s.active && !aspect(bits'(id))
    ensures var r := ActiveEntities(Notify(s, bits, aspect, EntityChanged(id)), bits', aspect);
            id in r.1 && r.1 == s.active
    ensures id !in OnEntityAdded(s, bits', aspect, id).active
  {
  }
}
