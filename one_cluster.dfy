/** The baseline that puts all mentions of a document in one entity. */
module OneCluster {
  import opened Coref

  /** After the first `i` mentions: they link to `E`, and the entities of
      `P0` hold only later mentions, each still linked as in `L0`. */
  ghost predicate JoinedUpTo(P: map<nat, set<nat>>, L: map<nat, nat>, P0: map<nat, set<nat>>, L0: map<nat, nat>, E: nat, i: nat) {
    (forall e :: e in P0 ==> e in P)
    && (forall e, m :: e in P0 && m in P[e] ==> i <= m)
    && (forall e, m :: e in P0 && m in P[e] ==> m in L0 && L0[m] == e)
    && (forall k :: 0 <= k < i ==> k in L && L[k] == E)
    && (forall k :: k in L0 && i <= k ==> k in L && L[k] == L0[k])
  }

  lemma JoinStep(P: map<nat, set<nat>>, L: map<nat, nat>, P0: map<nat, set<nat>>, L0: map<nat, nat>, E: nat, i: nat)
    requires JoinedUpTo(P, L, P0, L0, E, i) && E in P && E !in P0
    ensures JoinedUpTo(Reassigned(P, L, i, E), L[i := E], P0, L0, E, i + 1)
  {
    var Q := Reassigned(P, L, i, E);
    var L1 := L[i := E];
    forall e | e in P0 ensures e in Q {
    }
    forall k | 0 <= k < i + 1 ensures k in L1 && L1[k] == E {
    }
    forall k | k in L0 && i + 1 <= k ensures k in L1 && L1[k] == L0[k] {
    }
    forall e, m | e in P0 && m in Q[e]
      ensures i + 1 <= m && m in L0 && L0[m] == e
    {
      assert e != E && e in P;
      assert Q[e] == if i in L && L[i] == e then P[e] - {i} else P[e];
      assert m in P[e];
      assert i <= m && m in L0 && L0[m] == e;
      assert i in L0 ==> L[i] == L0[i];
    }
  }

  /** One turn of the loop: mention `i` is marked coreferent with `e`. */
  method JoinOne(g: EntityGraph, i: nat, e: nat, ghost P0: map<nat, set<nat>>, ghost L0: map<nat, nat>) returns (cm: ClusteredMention)
    requires g.Valid() && i < |g.mentions| && e in g.members && e !in P0
    requires JoinedUpTo(g.members, g.entityOf, P0, L0, e, i)
    modifies g
    ensures g.Valid() && g.nextEntity == old(g.nextEntity)
    ensures g.members[e] == old(g.members)[e] + {i}
    ensures JoinedUpTo(g.members, g.entityOf, P0, L0, e, i + 1)
    ensures cm == ClusteredMention(i, e)
  {
    JoinStep(g.members, g.entityOf, P0, L0, e, i);
    cm := g.ChangeCoreference(i, e);
  }

  /** runCoreference: a new entity is created over the whole mention list, and
      then every mention is marked coreferent with it, in document order. The
      result lists each mention with that one entity; the entities that
      existed before are left without members. */
  method RunCoreference(g: EntityGraph) returns (cms: seq<ClusteredMention>, e: nat)
    requires g.Valid() && g.Partitioned()
    modifies g
    ensures g.Valid() && g.Partitioned()
    ensures e == old(g.nextEntity) && g.nextEntity == e + 1
    ensures |cms| == |g.mentions|
    ensures forall k :: 0 <= k < |cms| ==> cms[k] == ClusteredMention(k, e)
    ensures g.members[e] == Below(|g.mentions|)
    ensures forall k :: 0 <= k < |cms| ==> k in g.entityOf && g.entityOf[k] == e
    ensures forall x :: x in old(g.members) ==> g.members[x] == {}
  {
    ghost var P0, L0 := g.members, g.entityOf;
    var all := Below(|g.mentions|);
    e := g.NewEntity(all);
    cms := [];
    for i := 0 to |g.mentions|
      invariant g.Valid() && g.nextEntity == e + 1 && e !in P0
      invariant |cms| == i && forall k :: 0 <= k < i ==> cms[k] == ClusteredMention(k, e)
      invariant e in g.members && g.members[e] == all
      invariant JoinedUpTo(g.members, g.entityOf, P0, L0, e, i)
    {
      var cm := JoinOne(g, i, e, P0, L0);
      cms := cms + [cm];
    }
    Finish(g.members, g.entityOf, P0, L0, e, |g.mentions|);
  }

  /** At the end every member is linked to the entity holding it. */
  lemma Finish(P: map<nat, set<nat>>, L: map<nat, nat>, P0: map<nat, set<nat>>, L0: map<nat, nat>, E: nat, n: nat)
    requires JoinedUpTo(P, L, P0, L0, E, n)
    requires P.Keys == P0.Keys + {E} && E !in P0 && P[E] == Below(n)
    requires forall x, m :: x in P && m in P[x] ==> m < n
    ensures Exclusive(P, L)
    ensures forall x :: x in P0 ==> P[x] == {}
  {
    forall x | x in P0
      ensures P[x] == {}
    {
      if m: nat :| m in P[x] {
        assert false;
      }
    }
  }
}
