/**
  The friendships table as a value: a map from the directed edge
  (user_id, friend_id) to its status_id, and the set-level effect of the
  statements the two friendship variants run on it.
 */
module Friendships {
  import opened Domain

  type Relation = map<(int, int), int>

  /** friend_id of every edge from userId whose status is CONFIRMED. */
  function ConfirmedFrom(rel: Relation, userId: int): (targets: set<int>)
    ensures forall f :: f in targets <==> (userId, f) in rel && rel[(userId, f)] == CONFIRMED
  {
    var targets := set p | p in rel && p.0 == userId && rel[p] == CONFIRMED :: p.1;
    assert forall f :: (userId, f) in rel && rel[(userId, f)] == CONFIRMED ==> f in targets by {
      forall f | (userId, f) in rel && rel[(userId, f)] == CONFIRMED ensures f in targets {
        var p := (userId, f);
        assert p in rel && p.0 == userId && rel[p] == CONFIRMED;
      }
    }
    targets
  }

  /**
    `UPDATE friendships SET status_id = 2 WHERE (user_id = u AND friend_id = f)
    OR (user_id = f AND friend_id = u)`: only rows that exist change.
   */
  function ConfirmEither(rel: Relation, u: int, f: int): (after: Relation)
    ensures after.Keys == rel.Keys
    ensures (u, f) in rel ==> after[(u, f)] == CONFIRMED
    ensures (f, u) in rel ==> after[(f, u)] == CONFIRMED
    ensures forall p :: p in rel && p != (u, f) && p != (f, u) ==> after[p] == rel[p]
  {
    map p | p in rel :: if p == (u, f) || p == (f, u) then CONFIRMED else rel[p]
  }

  /** A new PENDING edge makes nobody anyone's confirmed friend. */
  lemma PendingEdgeListsNobody(rel: Relation, u: int, f: int, x: int)
    requires (u, f) !in rel
    ensures ConfirmedFrom(rel[(u, f) := PENDING], x) == ConfirmedFrom(rel, x)
  {
    var after := rel[(u, f) := PENDING];
    forall g ensures g in ConfirmedFrom(after, x) <==> g in ConfirmedFrom(rel, x) {
      assert (x, g) in after && after[(x, g)] == CONFIRMED <==> (x, g) in rel && rel[(x, g)] == CONFIRMED;
    }
  }

  /** A new CONFIRMED edge (u, f) adds f to u's friends and changes no one else's. */
  lemma ConfirmedEdgeListsTarget(rel: Relation, u: int, f: int, x: int)
    requires (u, f) !in rel
    ensures ConfirmedFrom(rel[(u, f) := CONFIRMED], x)
         == if x == u then ConfirmedFrom(rel, x) + {f} else ConfirmedFrom(rel, x)
  {
    var after := rel[(u, f) := CONFIRMED];
    forall g ensures g in ConfirmedFrom(after, x) <==> g in (if x == u then ConfirmedFrom(rel, x) + {f} else ConfirmedFrom(rel, x)) {
      assert (x, g) in after && after[(x, g)] == CONFIRMED
        <==> (x, g) == (u, f) || ((x, g) in rel && rel[(x, g)] == CONFIRMED);
    }
  }

  /** Deleting the edge (u, f) removes f from u's friends only: the reverse edge is untouched. */
  lemma DeletedEdgeUnlistsTarget(rel: Relation, u: int, f: int, x: int)
    ensures ConfirmedFrom(rel - {(u, f)}, x)
         == if x == u then ConfirmedFrom(rel, x) - {f} else ConfirmedFrom(rel, x)
  {
    var after := rel - {(u, f)};
    forall g ensures g in ConfirmedFrom(after, x) <==> g in (if x == u then ConfirmedFrom(rel, x) - {f} else ConfirmedFrom(rel, x)) {
      assert (x, g) in after <==> (x, g) in rel && (x, g) != (u, f);
    }
  }

  /**
    Confirming both existing edges between u and f: the requester f now lists u,
    u lists f exactly when the edge (u, f) already existed, and nobody else changes.
   */
  lemma ConfirmEitherLists(rel: Relation, u: int, f: int, x: int)
    requires (f, u) in rel
    ensures u in ConfirmedFrom(ConfirmEither(rel, u, f), f)
    ensures f in ConfirmedFrom(ConfirmEither(rel, u, f), u) <==> (u, f) in rel
    ensures x != u && x != f ==> ConfirmedFrom(ConfirmEither(rel, u, f), x) == ConfirmedFrom(rel, x)
  {
    var after := ConfirmEither(rel, u, f);
    if x != u && x != f {
      forall g ensures g in ConfirmedFrom(after, x) <==> g in ConfirmedFrom(rel, x) {
        assert (x, g) != (u, f) && (x, g) != (f, u);
      }
    }
  }
}
