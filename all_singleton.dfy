/** The baseline that puts every mention of a document in an entity of its own. */
module AllSingleton {
  import opened Coref

  /** After the first `i` mentions: mention k alone in entity N0 + k, and the
      entities that existed before (those of `P0`) hold only later mentions. */
  ghost predicate SinglesUpTo(P: map<nat, set<nat>>, P0: map<nat, set<nat>>, N0: nat, i: nat) {
    (forall e :: N0 <= e < N0 + i ==> e in P && P[e] == {e - N0})
    && (forall e :: e in P0 ==> e in P)
    && (forall e, m :: e in P0 && m in P[e] ==> i <= m)
  }

  /** After the first `i` mentions: mention k links to entity N0 + k. */
  ghost predicate LinksUpTo(L: map<nat, nat>, N0: nat, i: nat) {
    forall k :: 0 <= k < i ==> k in L && L[k] == N0 + k
  }

  lemma LinksStep(L: map<nat, nat>, N0: nat, i: nat)
    requires LinksUpTo(L, N0, i)
    ensures LinksUpTo(L[i := N0 + i], N0, i + 1)
  {
  }

  lemma SinglesStep(P: map<nat, set<nat>>, P0: map<nat, set<nat>>, N0: nat, i: nat)
    requires SinglesUpTo(P, P0, N0, i)
    requires forall e :: e in P0 ==> e < N0
    ensures SinglesUpTo(Relink(P[N0 + i := {}], i, N0 + i), P0, N0, i + 1)
  {
    var P1 := P[N0 + i := {}];
    var Q := Relink(P1, i, N0 + i);
    assert Q.Keys == P1.Keys;
    forall e | N0 <= e < N0 + i + 1
      ensures e in Q && Q[e] == {e - N0}
    {
      if e < N0 + i {
        assert Q[e] == P1[e] - {i};
      } else {
        assert Q[e] == P1[e] + {i};
      }
    }
    forall e, m | e in P0 && m in Q[e]
      ensures i + 1 <= m
    {
      assert e != N0 + i && e in P1;
      assert Q[e] == P1[e] - {i};
    }
  }

  /** Once every mention has had its turn, the old entities are empty. */
  lemma OldEntitiesEmptied(P: map<nat, set<nat>>, P0: map<nat, set<nat>>, N0: nat, n: nat)
    requires SinglesUpTo(P, P0, N0, n)
    requires forall e, m :: e in P && m in P[e] ==> m < n
    ensures forall e :: e in P0 ==> P[e] == {}
  {
    forall e | e in P0
      ensures P[e] == {}
    {
      if m :| m in P[e] {
        assert false;
      }
    }
  }

  /** One turn of the loop: mention `i` is marked singleton, and the loop's
      invariant moves on by one mention. */
  method SingletonStep(g: EntityGraph, i: nat, ghost P0: map<nat, set<nat>>, ghost N0: nat) returns (cm: ClusteredMention)
    requires g.Valid() && g.Partitioned() && i < |g.mentions| && g.nextEntity == N0 + i
    requires forall e :: e in P0 ==> e < N0
    requires LinksUpTo(g.entityOf, N0, i) && SinglesUpTo(g.members, P0, N0, i)
    modifies g
    ensures g.Valid() && g.Partitioned() && g.nextEntity == N0 + i + 1
    ensures LinksUpTo(g.entityOf, N0, i + 1) && SinglesUpTo(g.members, P0, N0, i + 1)
    ensures cm == ClusteredMention(i, N0 + i)
  {
    ghost var P, L := g.members, g.entityOf;
    cm := g.MarkSingleton(i);
    assert g.members == Relink(P[N0 + i := {}], i, N0 + i);
    assert g.entityOf == L[i := N0 + i];
    SinglesStep(P, P0, N0, i);
    LinksStep(L, N0, i);
  }

  /** runCoreference: `markSingleton` on each mention in document order. Each
      mention ends up alone in a fresh entity; the entities that existed
      before are left without members. */
  method RunCoreference(g: EntityGraph) returns (cms: seq<ClusteredMention>)
    requires g.Valid() && g.Partitioned()
    modifies g
    ensures g.Valid() && g.Partitioned()
    ensures g.nextEntity == old(g.nextEntity) + |g.mentions|
    ensures |cms| == |g.mentions|
    ensures forall k :: 0 <= k < |cms| ==> cms[k] == ClusteredMention(k, old(g.nextEntity) + k)
    ensures forall k :: 0 <= k < |cms| ==> g.members[cms[k].entity] == {k}
    ensures forall k :: 0 <= k < |cms| ==> k in g.entityOf && g.entityOf[k] == cms[k].entity
    ensures forall e :: e in old(g.members) ==> g.members[e] == {}
    ensures g.members == Singletons(old(g.nextEntity), |g.mentions|)
  {
    ghost var N0, P0 := g.nextEntity, g.members;
    cms := [];
    for i := 0 to |g.mentions|
      invariant g.Valid() && g.Partitioned()
      invariant g.nextEntity == N0 + i && |cms| == i
      invariant forall k :: 0 <= k < i ==> cms[k] == ClusteredMention(k, N0 + k)
      invariant LinksUpTo(g.entityOf, N0, i)
      invariant SinglesUpTo(g.members, P0, N0, i)
    {
      var cm := SingletonStep(g, i, P0, N0);
      cms := cms + [cm];
    }
    OldEntitiesEmptied(g.members, P0, N0, |g.mentions|);
    SinglesAre(g.members, P0, N0, |g.mentions|);
  }

  /** The entities after runCoreference on a document with `n` mentions, when
      `N0` entities existed before: the old ones empty, the new ones
      singletons in document order. */
  function Singletons(N0: nat, n: nat): map<nat, set<nat>> {
    map e | e in Below(N0 + n) :: MembersOf(N0, e)
  }

  /** The members runCoreference leaves entity `e`: none for an old entity,
      mention e - N0 for a new one. */
  function MembersOf(N0: nat, e: nat): set<nat> {
    if e < N0 then {} else {e - N0}
  }

  lemma SinglesAre(P: map<nat, set<nat>>, P0: map<nat, set<nat>>, N0: nat, n: nat)
    requires SinglesUpTo(P, P0, N0, n)
    requires forall e: nat :: e in P <==> e < N0 + n
    requires forall e: nat :: e in P0 <==> e < N0
    requires forall e :: e in P0 ==> P[e] == {}
    ensures P == Singletons(N0, n)
  {
    var S := Singletons(N0, n);
    forall e: nat ensures e in S <==> e in P {
      assert e in S <==> e in Below(N0 + n);
    }
    assert S.Keys == P.Keys;
    forall e | e in P ensures P[e] == S[e] {
      assert S[e] == MembersOf(N0, e);
    }
  }
}
