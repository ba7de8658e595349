# EntitySubscription: a Dafny model

This project models `EntitySubscription` from MonoGame.Extended's entity
component system. A subscription keeps the ids of the entities that match one
`Aspect`. It updates them when the `EntityManager` raises its added, removed
and changed notifications, and rebuilds them lazily when `ActiveEntities` is
read.

The model follows the code as it is written. In two places the code works
against what its own structure shows it is for, and the model keeps the
code's behaviour in both:

- The added handler inserts a non-member only when the aspect is *not*
  interested (lines 38-39). Its member branch (lines 31-34) drops a member
  the aspect rejects, which shows that membership is meant to follow the
  aspect: an id should be active exactly when the aspect is interested.
- The changed handler only sets the rebuild flag (line 44). The
  `_changedEntities` bag and the `RebuildActives` loop over it (lines 64-73)
  exist to re-examine changed entities on the next read, but nothing is ever
  put in that bag, so the loop runs over an empty bag.

Both are listed under "## Findings". The module `IntendedSubscription` gives
the corrected behaviour: membership follows the aspect and changed entities
are queued. It proves that, with these corrections, a read returns exactly
the live entities the aspect is interested in.

Files:

- `bags.dfy` (module `Bags`): the `Bag<int>` id collection, written as a
  sequence. It provides add, remove by value and the no-duplicates predicate.
- `subscription.dfy` (module `EntitySubscription`): the subscription state is
  the active bag, the changed bag, the rebuild flag and whether the handlers
  are registered. The handlers, the getter, the rebuild, disposal, event
  delivery and runs of steps are pure functions on that state.
- `properties.dfy` (module `SubscriptionProperties`): lemmas about the code as
  written.
- `intended.dfy` (module `IntendedSubscription`): the corrected handlers and
  the consistency invariant they keep.

`GetComponentBits` becomes the parameter `bits: EntityId -> ComponentMask`.
`Aspect.IsInterested` becomes the parameter `aspect: ComponentMask -> bool`.
A component mask is a set of component indices. Registering the three handlers
in the constructor, and removing them in `Dispose`, becomes the `subscribed`
flag. `Notify` delivers an event only while that flag is set.

## Model

| member | source | states |
|---|---|---|
| Bags.Add | src/dotnet/MonoGame.Extended.Entities/EntitySubscription.cs:39 | adding puts exactly one more copy of the id in the bag and removes nothing; adding an absent id to a duplicate-free bag keeps it duplicate-free |
| Bags.Remove | src/dotnet/MonoGame.Extended.Entities/EntitySubscription.cs:34 | removing takes away one copy of the id, or nothing if it is absent; every other id keeps its membership; in a duplicate-free bag the id is gone afterwards |
| EntitySubscription.Create | src/dotnet/MonoGame.Extended.Entities/EntitySubscription.cs:14-25 | a new subscription has no active ids, an empty changed bag, a pending rebuild and registered handlers |
| EntitySubscription.OnEntityAdded | src/dotnet/MonoGame.Extended.Entities/EntitySubscription.cs:27-41 | afterwards the id is active exactly when (it was active before) ⇔ (the aspect is interested in its mask); every other id keeps its membership; no duplicates are introduced |
| EntitySubscription.OnEntityRemoved | src/dotnet/MonoGame.Extended.Entities/EntitySubscription.cs:43 | the id is no longer active and every other id keeps its membership; removing an absent id changes nothing |
| EntitySubscription.OnEntityChanged | src/dotnet/MonoGame.Extended.Entities/EntitySubscription.cs:44 | a rebuild is requested; the active bag and the changed bag are left as they were |
| EntitySubscription.Dispose | src/dotnet/MonoGame.Extended.Entities/EntitySubscription.cs:46-51 | the handlers are no longer registered and the bags and flag are untouched; disposing twice is the same as disposing once |
| EntitySubscription.AddEach | src/dotnet/MonoGame.Extended.Entities/EntitySubscription.cs:66-69 | passing a duplicate-free list of ids through the added handler leaves each listed id active exactly when (it was active before) ⇔ (the aspect is interested in its mask); ids outside the list keep their membership; the active bag stays duplicate-free |
| EntitySubscription.RebuildActives | src/dotnet/MonoGame.Extended.Entities/EntitySubscription.cs:64-73 | each id in a duplicate-free changed bag goes through the added handler: afterwards it is active exactly when (it was active before) ⇔ (the aspect is interested in its mask); ids outside the changed bag keep their membership, so with an empty changed bag the active bag is unchanged; the changed bag is then empty and no rebuild is pending |
| EntitySubscription.ActiveEntities | src/dotnet/MonoGame.Extended.Entities/EntitySubscription.cs:53-62 | a read leaves no rebuild pending and returns the active bag; when a rebuild is pending, each id in a duplicate-free changed bag comes back active exactly when (it was active before) ⇔ (the aspect is interested in its mask), and other ids keep their membership; with no rebuild pending the state is untouched; on a valid state the read returns the active bag held before it |
| EntitySubscription.Notify | src/dotnet/MonoGame.Extended.Entities/EntitySubscription.cs:22-24 | while subscribed, an added notification leaves the id active exactly when (it was active) ⇔ (the aspect is interested), a removed one leaves it inactive, and a changed one requests a rebuild without touching the active bag; after disposal a notification changes nothing; no notification touches the changed bag, added and removed ones leave the rebuild flag alone, and every notification keeps the state valid and leaves the membership of other ids alone |
| SubscriptionProperties.AddTwiceRestoresMembership | src/dotnet/MonoGame.Extended.Entities/EntitySubscription.cs:29-40 | two added notifications in a row with unchanged masks give every id its original membership back |
| SubscriptionProperties.AddInterestedNonMemberIsNoOp | src/dotnet/MonoGame.Extended.Entities/EntitySubscription.cs:36-40 | an added notification for an interested non-member leaves the state unchanged |
| SubscriptionProperties.AddedNotificationInvertsInterest | src/dotnet/MonoGame.Extended.Entities/EntitySubscription.cs:36-40 | for an id that is not yet active, the added notification makes it active exactly when the aspect is NOT interested |
| SubscriptionProperties.RunPreservesValid | src/dotnet/MonoGame.Extended.Entities/EntitySubscription.cs:27-73 | any sequence of notifications, reads and disposals keeps the active bag duplicate-free and the changed bag empty |
| SubscriptionProperties.ReadAfterAnyRunReturnsHeldSet | src/dotnet/MonoGame.Extended.Entities/EntitySubscription.cs:53-73 | in every state reachable from construction, the changed bag is empty and a read returns the active bag exactly as it was held before the read |
| SubscriptionProperties.DisposedIgnoresNotifications | src/dotnet/MonoGame.Extended.Entities/EntitySubscription.cs:46-51 | once disposed, any run of notifications and further disposals leaves the state unchanged |
| SubscriptionProperties.DisposeTwice | src/dotnet/MonoGame.Extended.Entities/EntitySubscription.cs:46-51 | a second disposal is a no-op |
| SubscriptionProperties.InterestedEntityIsNeverAdded | src/dotnet/MonoGame.Extended.Entities/EntitySubscription.cs:38-39 | with the aspect "component 0 present", entity 1 created with component 0 and announced, the read returns the empty bag |
| SubscriptionProperties.ChangeIsNeverReconciled | src/dotnet/MonoGame.Extended.Entities/EntitySubscription.cs:44-73 | after a changed notification, the next read keeps an active id whose new mask the aspect rejects, although the added handler run on that id would remove it |
| IntendedSubscription.Reconcile | src/dotnet/MonoGame.Extended.Entities/EntitySubscription.cs:27-41 | corrected added handler: afterwards the id is active exactly when the aspect is interested; other ids keep their membership |
| IntendedSubscription.ReconcileIdempotent | src/dotnet/MonoGame.Extended.Entities/EntitySubscription.cs:27-41 | corrected added handler: applying it twice with unchanged masks equals applying it once |
| IntendedSubscription.OnEntityChangedQueued | src/dotnet/MonoGame.Extended.Entities/EntitySubscription.cs:44 | corrected changed handler: the id is in the changed bag, once, and a rebuild is requested |
| IntendedSubscription.OnEntityRemovedPurging | src/dotnet/MonoGame.Extended.Entities/EntitySubscription.cs:43 | corrected removed handler: the id leaves both the active and the changed bag, and nothing else changes |
| IntendedSubscription.ReconcileEach | src/dotnet/MonoGame.Extended.Entities/EntitySubscription.cs:66-69 | corrected rebuild loop: each listed id ends up active exactly when interested, and unlisted ids keep their membership |
| IntendedSubscription.ReadActive | src/dotnet/MonoGame.Extended.Entities/EntitySubscription.cs:53-73 | corrected getter: every queued id is active exactly when interested in its current mask; the queue is emptied |
| IntendedSubscription.NotifyIntended | src/dotnet/MonoGame.Extended.Entities/EntitySubscription.cs:22-24 | corrected handlers, delivered only while subscribed: an added id ends up active exactly when the aspect is interested, a removed id leaves both bags, a changed id is queued with a rebuild requested; other ids keep their membership; after disposal nothing changes |
| IntendedSubscription.CreateConsistent | src/dotnet/MonoGame.Extended.Entities/EntitySubscription.cs:14-25 | a new subscription over an entity manager with no entities satisfies the consistency invariant |
| IntendedSubscription.AddedKeepsConsistent | src/dotnet/MonoGame.Extended.Entities/EntitySubscription.cs:27-41 | corrected added notification for a new entity keeps the invariant |
| IntendedSubscription.RemovedKeepsConsistent | src/dotnet/MonoGame.Extended.Entities/EntitySubscription.cs:43 | corrected removed notification for a live entity keeps the invariant |
| IntendedSubscription.ChangedKeepsConsistent | src/dotnet/MonoGame.Extended.Entities/EntitySubscription.cs:44 | corrected changed notification keeps the invariant, even though the entity's mask changed |
| IntendedSubscription.ReadAnswersInterestedLive | src/dotnet/MonoGame.Extended.Entities/EntitySubscription.cs:53-73 | corrected read: an id is returned exactly when it is live and the aspect is interested in its current mask |
| IntendedSubscription.IntendedScenario | src/dotnet/MonoGame.Extended.Entities/EntitySubscription.cs:27-73 | corrected model: entity 1 with the interesting component is returned, and no longer returned after losing it |

## Left out

- The `Capacity` sizing hint passed to both bags (lines 18-19). It has no behavioural effect.
- `Bag<int>` internals from `MonoGame.Extended.Collections`: capacity, growth and storage order. That file is not part of this model. Add appends. Remove deletes the first copy and keeps the order of the rest, whereas the real bag may move its last element into the gap. Every property is stated about membership, or about whole bags where any removal in between is of an absent id, which changes no bag.
- The C# event and multicast-delegate machinery (`+=` / `-=`). It is the `subscribed` flag that `Notify` checks.
- `EntityManager` and `Aspect` internals: how component bits are stored and what the mask encoding is. Both are function parameters.
- EntitySubscription.ActiveEntities: the getter hands out the live `_activeEntities` bag itself (line 60), not a copy. A caller that keeps it sees later handler updates, and a caller that adds to or removes from it can break the duplicate-free property. The model returns a value instead. `Valid` and `RunPreservesValid` therefore assume that callers never change the returned bag.
- Reads after `Dispose`: the getter runs as usual after disposal, because it does not look at the `subscribed` flag. The general read properties, including `ReadAfterAnyRunReturnsHeldSet`, also cover such reads. No property specific to them, such as an error or a frozen snapshot, is stated.
- Thread safety. The code has none, and the model is single-threaded.
- EntitySubscription.ActiveEntities: "a read leaves the changed bag empty" is stated only when a rebuild was pending or the bag was already empty. When no rebuild is pending, the getter does not touch the changed bag. Every reachable state has an empty changed bag, as `RunPreservesValid` shows.
- IntendedSubscription.CreateConsistent: states the invariant only for an entity manager that has no entities at construction. Even the corrected rebuild only reconciles queued ids, so entities that already exist are never picked up.

## Findings

| source | as written | input that shows it | evidently intended | confidence | as-written member | corrected member |
|---|---|---|---|---|---|---|
| src/dotnet/MonoGame.Extended.Entities/EntitySubscription.cs:38-39 | a non-member is added when the aspect is NOT interested (`!IsInterested`) | aspect "component 0 present", entity 1 created with component 0, added notification, then a read: returns the empty bag | a non-member is added when the aspect is interested, so a read returns the interested live entities | high (not executed) | SubscriptionProperties.InterestedEntityIsNeverAdded | IntendedSubscription.Reconcile |
| src/dotnet/MonoGame.Extended.Entities/EntitySubscription.cs:44 | the changed handler sets the rebuild flag but never adds the id to `_changedEntities`, so the rebuild loop at lines 66-69 never runs | an active entity whose new mask the aspect rejects, a changed notification, then a read: the entity is still returned | the changed handler queues the id, and the next read re-evaluates it against its current mask | high (not executed) | SubscriptionProperties.ChangeIsNeverReconciled | IntendedSubscription.ReadAnswersInterestedLive |
