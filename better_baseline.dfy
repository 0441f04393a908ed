/** The improved string baseline: a mention joins the entity of an earlier
    mention with the same lower-cased gloss, or else of one whose gloss
    shares enough of its words; otherwise it starts an entity of its own and
    registers its lower-cased gloss. */
module BetterBaseline {
  import opened JavaString
  import opened Coref
  import RuleBased
  import ClassifierBased

  type Ratio = RuleBased.Ratio

  /** The similarity threshold 0.67, compared exactly. */
  const SimilarThreshold: Ratio := RuleBased.Ratio(67, 100)

  /** The word occurs, ignoring case, inside `short`. */
  predicate Occurs(w: string, short: string) {
    Contains(Lower(short), Lower(w))
  }

  /** hasSameWords(a, b): of the words of the longer string (by length, `b`
      on a tie), how many occur, ignoring case, in the shorter one. The
      source's `word != "the"` compares references and excludes no word. */
  function SameWords(a: string, b: string): (r: Ratio)
    ensures r.common <= r.total
    ensures r.total == |Split(if |a| > |b| then a else b)|
  {
    var long, short := (if |a| > |b| then a else b), (if |a| > |b| then b else a);
    ClassifierBased.PositionsBound(Split(long), w => Occurs(w, short));
    RuleBased.Ratio(|ClassifierBased.Positions(Split(long), w => Occurs(w, short))|, |Split(long)|)
  }

  /** The ratio of hasSameWords never exceeds 1, and with no word at all
      (NaN) it is not above the threshold. */
  lemma SameWordsAtMostOne(a: string, b: string)
    ensures !RuleBased.Exceeds(SameWords(a, b), RuleBased.Ratio(1, 1))
    ensures SameWords(a, b).total == 0 ==> !Similar(a, b)
  {
    RuleBased.ExceedsMeans(SameWords(a, b), RuleBased.Ratio(1, 1));
  }

  /** The counting loop of hasSameWords. */
  method HasSameWords(a: string, b: string) returns (r: Ratio)
    ensures r == SameWords(a, b)
  {
    var longStr, shortStr := b, a;
    if |a| > |b| {
      longStr, shortStr := a, b;
    }
    var words := Split(longStr);
    var nword, ncommon := 0, 0;
    for k := 0 to |words|
      invariant nword == k
      invariant ncommon == |ClassifierBased.Positions(words[..k], w => Occurs(w, shortStr))|
    {
      ClassifierBased.PositionsNext(words, k, w => Occurs(w, shortStr));
      nword := nword + 1;
      if Contains(Lower(shortStr), Lower(words[k])) {
        ncommon := ncommon + 1;
      }
    }
    assert words[..|words|] == words;
    r := RuleBased.Ratio(ncommon, nword);
  }

  /** `hasSameWords(key, a) > 0.67`. */
  predicate Similar(key: string, a: string) {
    RuleBased.Exceeds(SameWords(key, a), SimilarThreshold)
  }

  /** containSameWords(stringSet, a): null for a null set; otherwise the
      lower-cased form of a key similar to `a`, met first in the set's
      iteration order, which is left open here, or null when no key is. */
  method ContainSameWords(stringSet: Option<set<string>>, a: string) returns (r: Option<string>)
    ensures r.Some? ==> stringSet.Some? && exists s :: s in stringSet.value && Similar(s, a) && r.value == Lower(s)
    ensures r.None? ==> stringSet.None? || forall s :: s in stringSet.value ==> !Similar(s, a)
  {
    if stringSet.Some? {
      var rest := stringSet.value;
      while rest != {}
        invariant rest <= stringSet.value
        invariant forall s :: s in stringSet.value && s !in rest ==> !Similar(s, a)
        decreases |rest|
      {
        var s :| s in rest;
        var ratio := HasSameWords(s, a);
        if RuleBased.Exceeds(ratio, SimilarThreshold) {
          return Some(Lower(s));
        }
        rest := rest - {s};
      }
    }
    return None;
  }

  // ---------------------------------------------------------------------
  // runCoreference
  // ---------------------------------------------------------------------

  /** A mention's key: its lower-cased gloss. */
  function Key(m: Mention): string {
    Lower(Gloss(m))
  }

  /** Entry `j` started an entity: no earlier entry has its entity. */
  predicate Starts(rtn: seq<ClusteredMention>, j: nat)
    requires j < |rtn|
  {
    forall k :: 0 <= k < j ==> rtn[k].entity != rtn[j].entity
  }

  /** The map from keys to entities after the entries `rtn`: the key of each
      entry that started an entity, mapped to that entity. */
  function Registry(ms: seq<Mention>, rtn: seq<ClusteredMention>): map<string, nat>
    requires |rtn| <= |ms|
    decreases |rtn|
  {
    if rtn == [] then map[]
    else
      var n := |rtn| - 1;
      var R := Registry(ms, rtn[..n]);
      if Starts(rtn, n) then R[Key(ms[n]) := rtn[n].entity] else R
  }

  /** How entry `i` was linked: to the entity of its own key when that is
      registered; else to the entity of some registered key similar to it
      when there is one; else to an entity it starts. */
  predicate KeyChoice(ms: seq<Mention>, rtn: seq<ClusteredMention>, N0: nat, i: nat)
    requires i < |rtn| <= |ms|
  {
    var R := Registry(ms, rtn[..i]);
    var key := Key(ms[i]);
    if key in R then rtn[i].entity == R[key]
    else if exists s :: s in R && Similar(s, key) then exists s :: s in R && Similar(s, key) && rtn[i].entity == R[s]
    else Starts(rtn, i) && N0 <= rtn[i].entity
  }

  /** Entry i is mention i, linked by its key. */
  predicate FollowsKeys(ms: seq<Mention>, rtn: seq<ClusteredMention>, N0: nat)
    requires |rtn| <= |ms|
  {
    (forall i :: 0 <= i < |rtn| ==> rtn[i].mention == i)
    && forall i :: 0 <= i < |rtn| ==> KeyChoice(ms, rtn, N0, i)
  }

  /** Every registered key is a lower-cased gloss, and its entity is that of
      an entry. */
  lemma {:induction false} RegistryShape(ms: seq<Mention>, rtn: seq<ClusteredMention>)
    requires |rtn| <= |ms|
    ensures forall s :: s in Registry(ms, rtn) ==> Lower(s) == s
    ensures forall s :: s in Registry(ms, rtn) ==> exists j :: 0 <= j < |rtn| && Registry(ms, rtn)[s] == rtn[j].entity
    decreases |rtn|
  {
    if rtn != [] {
      var n := |rtn| - 1;
      RegistryShape(ms, rtn[..n]);
      var R := Registry(ms, rtn[..n]);
      forall s | s in Registry(ms, rtn)
        ensures Lower(s) == s
        ensures exists j :: 0 <= j < |rtn| && Registry(ms, rtn)[s] == rtn[j].entity
      {
        if Starts(rtn, n) && s == Key(ms[n]) {
          LowerIdempotent(Gloss(ms[n]));
        } else {
          var j :| 0 <= j < n && R[s] == rtn[..n][j].entity;
          assert rtn[..n][j] == rtn[j];
        }
      }
    }
  }

  /** An entry whose entity is registered under some key starts nothing. */
  lemma JoinedStartsNothing(ms: seq<Mention>, rtn: seq<ClusteredMention>, i: nat, s: string)
    requires i < |rtn| <= |ms|
    requires s in Registry(ms, rtn[..i]) && rtn[i].entity == Registry(ms, rtn[..i])[s]
    ensures !Starts(rtn, i)
  {
    RegistryShape(ms, rtn[..i]);
    var j :| 0 <= j < i && Registry(ms, rtn[..i])[s] == rtn[..i][j].entity;
    assert rtn[..i][j] == rtn[j];
  }

  /** An entry joins only entities that earlier entries have, so it starts
      an entity exactly when neither its own key nor a similar one is
      registered. */
  lemma StartsIffUnregistered(ms: seq<Mention>, rtn: seq<ClusteredMention>, N0: nat, i: nat)
    requires i < |rtn| <= |ms| && KeyChoice(ms, rtn, N0, i)
    ensures Starts(rtn, i) <==>
      var R := Registry(ms, rtn[..i]);
      Key(ms[i]) !in R && forall s :: s in R ==> !Similar(s, Key(ms[i]))
  {
    var R := Registry(ms, rtn[..i]);
    var key := Key(ms[i]);
    if key in R {
      JoinedStartsNothing(ms, rtn, i, key);
    } else if exists s :: s in R && Similar(s, key) {
      var s :| s in R && Similar(s, key) && rtn[i].entity == R[s];
      JoinedStartsNothing(ms, rtn, i, s);
    }
  }

  lemma FollowsStep(ms: seq<Mention>, rtn: seq<ClusteredMention>, N0: nat, cm: ClusteredMention)
    requires |rtn| < |ms| && FollowsKeys(ms, rtn, N0)
    requires cm.mention == |rtn| && KeyChoice(ms, rtn + [cm], N0, |rtn|)
    ensures FollowsKeys(ms, rtn + [cm], N0)
  {
    var r := rtn + [cm];
    forall i | 0 <= i < |rtn|
      ensures KeyChoice(ms, r, N0, i)
    {
      assert r[..i] == rtn[..i];
      assert KeyChoice(ms, rtn, N0, i);
    }
  }

  /** The registry after one more entry. */
  lemma RegistryNext(ms: seq<Mention>, rtn: seq<ClusteredMention>, cm: ClusteredMention)
    requires |rtn| < |ms|
    ensures var r := rtn + [cm];
      Registry(ms, r) == if Starts(r, |rtn|) then Registry(ms, rtn)[Key(ms[|rtn|]) := cm.entity] else Registry(ms, rtn)
  {
    assert (rtn + [cm])[..|rtn|] == rtn;
  }

  /** Mention |rtn| joins the entity of a registered key: it starts nothing,
      and the registry stays as it is. */
  lemma JoinKeepsRegistry(ms: seq<Mention>, rtn: seq<ClusteredMention>, s: string, cm: ClusteredMention)
    requires |rtn| < |ms| && s in Registry(ms, rtn) && cm.entity == Registry(ms, rtn)[s]
    ensures !Starts(rtn + [cm], |rtn|)
    ensures Registry(ms, rtn + [cm]) == Registry(ms, rtn)
  {
    RegistryShape(ms, rtn);
    var j :| 0 <= j < |rtn| && Registry(ms, rtn)[s] == rtn[j].entity;
    assert (rtn + [cm])[j] == rtn[j];
    RegistryNext(ms, rtn, cm);
  }

  /** One turn of the loop of runCoreference. */
  method KeyStep(g: EntityGraph, rtn: seq<ClusteredMention>, clusters: map<string, nat>,
                 ghost P0: map<nat, set<nat>>, ghost N0: nat)
    returns (cm: ClusteredMention, clusters': map<string, nat>)
    requires g.Valid() && g.Partitioned() && |rtn| < |g.mentions| && N0 <= g.nextEntity
    requires forall e :: e in P0 ==> e < N0
    requires ClassifierBased.RecordedSoFar(g.members, P0, N0, rtn) && FollowsKeys(g.mentions, rtn, N0)
    requires clusters == Registry(g.mentions, rtn)
    modifies g
    ensures g.Valid() && g.Partitioned() && N0 <= g.nextEntity
    ensures ClassifierBased.RecordedSoFar(g.members, P0, N0, rtn + [cm])
    ensures FollowsKeys(g.mentions, rtn + [cm], N0)
    ensures clusters' == Registry(g.mentions, rtn + [cm])
  {
    var i := |rtn|;
    var mentionString := Lower(Gloss(g.mentions[i]));
    var similarWord := ContainSameWords(Some(clusters.Keys), mentionString);
    ghost var P := g.members;
    RegistryShape(g.mentions, rtn);
    if similarWord.Some? || mentionString in clusters {
      ghost var s: string;
      if mentionString in clusters {
        s := mentionString;
      } else {
        s :| s in clusters && Similar(s, mentionString) && similarWord.value == Lower(s);
      }
      var target := if mentionString in clusters then mentionString else similarWord.value;
      assert target == s;
      ghost var j :| 0 <= j < i && clusters[s] == rtn[j].entity;
      cm := g.ChangeCoreference(i, clusters[target]);
      ClassifierBased.RecordedJoin(P, P0, N0, rtn, j);
      JoinKeepsRegistry(g.mentions, rtn, s, cm);
      clusters' := clusters;
    } else {
      ghost var N := g.nextEntity;
      cm := g.MarkSingleton(i);
      ClassifierBased.RecordedSingleton(P, P0, N0, rtn, N);
      forall k | 0 <= k < i ensures (rtn + [cm])[k].entity != cm.entity {
        assert (rtn + [cm])[k] == rtn[k];
      }
      RegistryNext(g.mentions, rtn, cm);
      clusters' := clusters[mentionString := cm.entity];
    }
    assert (rtn + [cm])[..i] == rtn;
    FollowsStep(g.mentions, rtn, N0, cm);
  }

  /** runCoreference: each mention in document order joins the entity
      registered under its lower-cased gloss, or else one registered under a
      similar key, or else starts an entity and registers its key. The
      entities end up as the groups of entries with a common recorded
      entity; the entities that existed before are left empty. */
  method RunCoreference(g: EntityGraph) returns (rtn: seq<ClusteredMention>)
    requires g.Valid() && g.Partitioned()
    modifies g
    ensures g.Valid() && g.Partitioned()
    ensures |rtn| == |g.mentions|
    ensures FollowsKeys(g.mentions, rtn, old(g.nextEntity))
    ensures forall k :: 0 <= k < |rtn| ==> rtn[k].entity in g.members && k in g.members[rtn[k].entity]
    ensures forall e, m :: e in g.members && m in g.members[e] ==> m < |rtn| && rtn[m].entity == e
    ensures forall e :: e in old(g.members) ==> e in g.members && g.members[e] == {}
  {
    ghost var N0, P0 := g.nextEntity, g.members;
    rtn := [];
    var clusters: map<string, nat> := map[];
    for i := 0 to |g.mentions|
      invariant g.Valid() && g.Partitioned() && N0 <= g.nextEntity
      invariant |rtn| == i
      invariant ClassifierBased.RecordedSoFar(g.members, P0, N0, rtn)
      invariant FollowsKeys(g.mentions, rtn, N0)
      invariant clusters == Registry(g.mentions, rtn)
    {
      var cm;
      cm, clusters := KeyStep(g, rtn, clusters, P0, N0);
      rtn := rtn + [cm];
    }
    ClassifierBased.AllRecorded(g.members, g.entityOf, P0, N0, rtn);
  }
}
