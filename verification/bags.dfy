/**
  The unordered growable id collection (`Bag<int>`) the subscription keeps its
  entity ids in. A bag is modelled as a sequence of ids; the storage order,
  capacity and growth of the real collection are not modelled. Only the four
  operations the subscription uses appear here: membership (`in`), add,
  remove by value and clear (the empty sequence).
 */
module Bags {

  type EntityId = int

  /** A bag holds every id at most once. */
  predicate NoDuplicates(b: seq<EntityId>) {
    forall y :: y in b ==> multiset(b)[y] == 1
  }

  /** Appends `x`: the bag gains exactly one copy of it and loses nothing. */
  function Add(b: seq<EntityId>, x: EntityId): (r: seq<EntityId>)
    ensures multiset(r) == multiset(b) + multiset{x}
    ensures forall y :: y in r <==> y == x || y in b
    ensures NoDuplicates(b) && x !in b ==> NoDuplicates(r)
  {
    b + [x]
  }

  /** Removes the first copy of `x`, if there is one; no-op otherwise. */
  function Remove(b: seq<EntityId>, x: EntityId): (r: seq<EntityId>)
    ensures multiset(r) == multiset(b) - multiset{x}
    ensures x !in b ==> r == b
    ensures forall y :: y != x ==> (y in r <==> y in b)
    ensures NoDuplicates(b) ==> NoDuplicates(r) && x !in r
  {
    if |b| == 0 then b
    else if b[0] == x then
      assert b == [b[0]] + b[1..];
      b[1..]
    else
      assert b == [b[0]] + b[1..];
      [b[0]] + Remove(b[1..], x)
  }

  /** The tail of a duplicate-free bag is duplicate-free and lacks the head. */
  lemma NoDuplicatesTail(b: seq<EntityId>)
    requires |b| > 0
    ensures NoDuplicates(b) ==> b[0] !in b[1..] && NoDuplicates(b[1..])
  {
    if NoDuplicates(b) {
      var h, t := b[0], b[1..];
      assert h in b;
      assert multiset(b)[h] == 1;
      assert b == [h] + t;
      assert multiset(b) == multiset{h} + multiset(t);
      forall y | y in t
        ensures multiset(t)[y] == 1
      {
        assert y in b;
        assert multiset(b)[y] == 1;
      }
    }
  }
}
