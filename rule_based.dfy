/** The rule-based system: exact lower-cased gloss matching builds the first
    clustering, then a series of phases moves each listed mention into the
    recorded entity of the last list entry that passes the phase's test. */
module RuleBased {
  import opened JavaString
  import opened Coref
  import opened EntityCentric

  /** ALL_PRONOUNS, ALL_ARTICLES and ALL_PARSE_NOUNS. */
  const Pronouns: set<string> := {"i", "you", "he", "she", "it", "me", "us", "we", "them",
    "him", "her", "his", "hers", "my", "yours", "ours", "our"}
  const Articles: set<string> := {"a", "an", "the"}
  const ParseNouns: set<string> := {"NN", "NNS", "NNP", "NNPS"}

  /** isPronoun: the lower-cased word is in the pronoun set. */
  predicate IsPronoun(word: string) {
    Lower(word) in Pronouns
  }

  /** isArticle: the lower-cased word is an article. */
  predicate IsArticle(word: string) {
    Lower(word) in Articles
  }

  /** parseIsNoun: the lower-cased tag is in the (upper-case) noun-tag set. */
  predicate ParseIsNoun(tag: string) {
    Lower(tag) in ParseNouns
  }

  /** isPronoun and isArticle ignore case. */
  lemma WordTestsIgnoreCase(word: string)
    ensures IsPronoun(Lower(word)) == IsPronoun(word)
    ensures IsArticle(Lower(word)) == IsArticle(word)
  {
    LowerIdempotent(word);
  }

  /** parseIsNoun never holds: a lower-cased tag has no 'N' in it. */
  lemma ParseIsNounNever(tag: string)
    ensures !ParseIsNoun(tag)
  {
    LowerHasNoUpper(tag);
    if |Lower(tag)| > 0 {
      assert !IsUpperLetter(Lower(tag)[0]);
    }
  }

  // ---------------------------------------------------------------------
  // Lower-cased glosses

  function LowerAll(ws: seq<string>): (r: seq<string>)
    ensures |r| == |ws|
    ensures forall k :: 0 <= k < |ws| ==> r[k] == Lower(ws[k])
  {
    seq(|ws|, k requires 0 <= k < |ws| => Lower(ws[k]))
  }

  lemma LowerAppend(a: string, b: string)
    ensures Lower(a + b) == Lower(a) + Lower(b)
  {
    assert forall i :: 0 <= i < |a + b| ==> Lower(a + b)[i] == (Lower(a) + Lower(b))[i];
  }

  /** Lower-casing a gloss lower-cases each of its words. */
  lemma {:induction false} LowerJoin(ws: seq<string>)
    ensures Lower(Join(ws)) == Join(LowerAll(ws))
    decreases |ws|
  {
    if |ws| > 1 {
      LowerJoin(ws[1..]);
      assert LowerAll(ws[1..]) == LowerAll(ws)[1..];
      LowerAppend(ws[0], " " + Join(ws[1..]));
      LowerAppend(" ", Join(ws[1..]));
      assert ws[0] + " " + Join(ws[1..]) == ws[0] + (" " + Join(ws[1..]));
    }
  }

  /** The words of `gloss().toLowerCase().split(" ")`: the mention's tokens,
      lower-cased; each is non-empty and holds no space. */
  lemma LowerGlossWords(m: Mention)
    ensures Split(Lower(Gloss(m))) == LowerAll(m.text)
    ensures AreTokens(LowerAll(m.text))
  {
    LowerJoin(m.text);
    forall k | 0 <= k < |m.text|
      ensures LowerAll(m.text)[k] != "" && ' ' !in LowerAll(m.text)[k]
    {
      var w := m.text[k];
      assert |Lower(w)| == |w| > 0;
      forall i | 0 <= i < |w| ensures Lower(w)[i] != ' ' {
        assert w[i] != ' ';
      }
    }
    SplitJoin(LowerAll(m.text));
  }

  // ---------------------------------------------------------------------
  // Phase 1: exactMatch

  /** The key exactMatch files a mention under. */
  function GlossKey(m: Mention): string {
    Lower(Gloss(m))
  }

  /** The keys of the document's mentions, in document order. */
  function KeyList(ms: seq<Mention>): (keys: seq<string>)
    ensures |keys| == |ms|
  {
    seq(|ms|, k requires 0 <= k < |ms| => GlossKey(ms[k]))
  }

  /** exactMatch's HashMap from key to entity, and the next fresh entity. */
  datatype Registry = Registry(ids: map<string, nat>, next: nat)

  /** The registry after the first `n` keys: a key seen for the first time
      is filed under a freshly created entity. */
  function ExactFold(keys: seq<string>, N0: nat, n: nat): (r: Registry)
    requires n <= |keys|
    decreases n
  {
    if n == 0 then Registry(map[], N0)
    else
      var r := ExactFold(keys, N0, n - 1);
      if keys[n - 1] in r.ids then r else Registry(r.ids[keys[n - 1] := r.next], r.next + 1)
  }

  /** Some key is filed under entity `e`. */
  predicate Issued(ids: map<string, nat>, e: nat) {
    exists key :: key in ids && ids[key] == e
  }

  /** The registry hands out the entities N0 .. next - 1, one per key. */
  predicate Numbered(r: Registry, N0: nat) {
    N0 <= r.next
    && (forall key :: key in r.ids ==> N0 <= r.ids[key] < r.next)
    && (forall a, b :: a in r.ids && b in r.ids && r.ids[a] == r.ids[b] ==> a == b)
    && (forall e :: N0 <= e < r.next ==> Issued(r.ids, e))
  }

  /** The registry's keys are the first `n` keys of the list. */
  predicate KeysOf(r: Registry, keys: seq<string>, n: nat)
    requires n <= |keys|
  {
    (forall k :: 0 <= k < n ==> keys[k] in r.ids)
    && (forall key :: key in r.ids ==> exists k :: 0 <= k < n && keys[k] == key)
  }

  /** The registry files exactly the keys read so far. */
  lemma {:induction false} ExactFoldKeys(keys: seq<string>, N0: nat, n: nat)
    requires n <= |keys|
    ensures KeysOf(ExactFold(keys, N0, n), keys, n)
    decreases n
  {
    if n > 0 {
      ExactFoldKeys(keys, N0, n - 1);
    }
  }

  /** Each key is filed under its own entity, and the entities created are
      N0 up to `next`. */
  lemma {:induction false} ExactFoldNumbered(keys: seq<string>, N0: nat, n: nat)
    requires n <= |keys|
    ensures Numbered(ExactFold(keys, N0, n), N0)
    decreases n
  {
    if n > 0 {
      ExactFoldNumbered(keys, N0, n - 1);
      var r := ExactFold(keys, N0, n - 1);
      var key := keys[n - 1];
      if key !in r.ids {
        var ids := r.ids[key := r.next];
        assert ExactFold(keys, N0, n) == Registry(ids, r.next + 1);
        forall e | N0 <= e < r.next + 1 ensures Issued(ids, e) {
          if e < r.next {
            assert Issued(r.ids, e);
            var k0 :| k0 in r.ids && r.ids[k0] == e;
            assert ids[k0] == e;
          } else {
            assert ids[key] == e;
          }
        }
      }
    }
  }

  /** Filing keeps what is filed: a key keeps its entity as more keys are
      read. */
  lemma {:induction false} ExactFoldStable(keys: seq<string>, N0: nat, n: nat, n': nat, key: string)
    requires n <= n' <= |keys| && key in ExactFold(keys, N0, n).ids
    ensures key in ExactFold(keys, N0, n').ids
    ensures ExactFold(keys, N0, n').ids[key] == ExactFold(keys, N0, n).ids[key]
    decreases n' - n
  {
    if n < n' {
      ExactFoldStable(keys, N0, n, n' - 1, key);
    }
  }

  /** The entity exactMatch assigns mention `k`. */
  function EntityFor(ms: seq<Mention>, N0: nat, k: nat): nat
    requires k < |ms|
  {
    var keys := KeyList(ms);
    ExactFoldKeys(keys, N0, |ms|);
    ExactFold(keys, N0, |ms|).ids[keys[k]]
  }

  /** exactMatch's output list: entry k is mention k with its entity. */
  function ExactEntries(ms: seq<Mention>, N0: nat): (cms: seq<ClusteredMention>)
    ensures |cms| == |ms|
  {
    seq(|ms|, k requires 0 <= k < |ms| => ClusteredMention(k, EntityFor(ms, N0, k)))
  }

  /** The mentions exactMatch puts in entity `e`. */
  function GroupOf(ms: seq<Mention>, N0: nat, e: nat): set<nat> {
    set k: nat | k < |ms| && EntityFor(ms, N0, k) == e
  }

  /** The entities after exactMatch: the old ones emptied, one new entity per
      distinct key holding the mentions with that key. */
  function ExactGroups(ms: seq<Mention>, N0: nat): map<nat, set<nat>> {
    map e | e in Below(ExactFold(KeyList(ms), N0, |ms|).next) :: GroupOf(ms, N0, e)
  }

  /** Two mentions share an entity exactly when their lower-cased glosses
      are equal, and every entity exactMatch assigns is a fresh one. */
  lemma ExactEntitiesByKey(ms: seq<Mention>, N0: nat, k: nat, l: nat)
    requires k < |ms| && l < |ms|
    ensures EntityFor(ms, N0, k) == EntityFor(ms, N0, l) <==> GlossKey(ms[k]) == GlossKey(ms[l])
    ensures N0 <= EntityFor(ms, N0, k)
  {
    var keys := KeyList(ms);
    ExactFoldKeys(keys, N0, |ms|);
    ExactFoldNumbered(keys, N0, |ms|);
    var r := ExactFold(keys, N0, |ms|);
    assert EntityFor(ms, N0, k) == r.ids[keys[k]];
    assert EntityFor(ms, N0, l) == r.ids[keys[l]];
  }

  /** The first mention with a key gets the entity created on its turn,
      which no earlier mention has. */
  lemma FirstOfKeyIsFresh(ms: seq<Mention>, N0: nat, k: nat)
    requires k < |ms|
    requires forall l :: 0 <= l < k ==> GlossKey(ms[l]) != GlossKey(ms[k])
    ensures EntityFor(ms, N0, k) == ExactFold(KeyList(ms), N0, k).next
    ensures forall l :: 0 <= l < k ==> EntityFor(ms, N0, l) != EntityFor(ms, N0, k)
  {
    var keys := KeyList(ms);
    var key := keys[k];
    ExactFoldKeys(keys, N0, k);
    assert key !in ExactFold(keys, N0, k).ids;
    assert ExactFold(keys, N0, k + 1).ids[key] == ExactFold(keys, N0, k).next;
    ExactFoldStable(keys, N0, k + 1, |ms|, key);
    assert EntityFor(ms, N0, k) == ExactFold(keys, N0, |ms|).ids[key];
    forall l | 0 <= l < k ensures EntityFor(ms, N0, l) != EntityFor(ms, N0, k) {
      ExactEntitiesByKey(ms, N0, k, l);
    }
  }

  /** Filing mention `i`: it joins the entity registered under its key, or
      becomes a singleton whose entity is registered. */
  method FileMention(g: EntityGraph, i: nat, clusters: map<string, nat>, ghost keys: seq<string>, ghost N0: nat)
      returns (cm: ClusteredMention, clusters': map<string, nat>)
    requires g.Valid() && g.Partitioned() && i < |g.mentions| && keys == KeyList(g.mentions)
    requires Registry(clusters, g.nextEntity) == ExactFold(keys, N0, i)
    modifies g
    ensures g.Valid() && g.Partitioned()
    ensures Registry(clusters', g.nextEntity) == ExactFold(keys, N0, i + 1)
    ensures keys[i] in clusters' && cm == ClusteredMention(i, clusters'[keys[i]])
    ensures forall key :: key in clusters ==> key in clusters' && clusters'[key] == clusters[key]
    ensures g.entityOf == old(g.entityOf)[i := cm.entity]
  {
    ExactFoldNumbered(keys, N0, i);
    var key := Lower(Gloss(g.mentions[i]));
    assert key == keys[i];
    if key in clusters {
      cm := g.ChangeCoreference(i, clusters[key]);
      clusters' := clusters;
    } else {
      cm := g.MarkSingleton(i);
      clusters' := clusters[key := cm.entity];
    }
  }

  lemma FiledStep(cms: seq<ClusteredMention>, clusters: map<string, nat>, clusters': map<string, nat>,
                  keys: seq<string>, i: nat, cm: ClusteredMention)
    requires i < |keys| && Filed(cms, clusters, keys, i)
    requires keys[i] in clusters' && cm == ClusteredMention(i, clusters'[keys[i]])
    requires forall key :: key in clusters ==> key in clusters' && clusters'[key] == clusters[key]
    ensures Filed(cms + [cm], clusters', keys, i + 1)
  {
    assert forall k :: 0 <= k < i ==> (cms + [cm])[k] == cms[k];
  }

  lemma LinkedStep(L: map<nat, nat>, cms: seq<ClusteredMention>, i: nat, cm: ClusteredMention)
    requires i == |cms| && LinkedAsListed(L, cms, i)
    ensures LinkedAsListed(L[i := cm.entity], cms + [cm], i + 1)
  {
    assert forall k :: 0 <= k < i ==> (cms + [cm])[k] == cms[k];
  }

  /** One turn of exactMatch's loop: mention `i` is filed, and the entry
      made for it is appended. */
  method ExactStep(g: EntityGraph, i: nat, clusters: map<string, nat>, cms: seq<ClusteredMention>,
                   ghost keys: seq<string>, ghost N0: nat)
      returns (clusters': map<string, nat>, cms': seq<ClusteredMention>)
    requires g.Valid() && g.Partitioned() && i < |g.mentions| && keys == KeyList(g.mentions)
    requires Registry(clusters, g.nextEntity) == ExactFold(keys, N0, i)
    requires Filed(cms, clusters, keys, i) && LinkedAsListed(g.entityOf, cms, i)
    modifies g
    ensures g.Valid() && g.Partitioned()
    ensures Registry(clusters', g.nextEntity) == ExactFold(keys, N0, i + 1)
    ensures Filed(cms', clusters', keys, i + 1) && LinkedAsListed(g.entityOf, cms', i + 1)
  {
    ghost var L := g.entityOf;
    var cm;
    cm, clusters' := FileMention(g, i, clusters, keys, N0);
    FiledStep(cms, clusters, clusters', keys, i, cm);
    LinkedStep(L, cms, i, cm);
    cms' := cms + [cm];
  }

  /** The links determine the members of an exclusive graph: after
      exactMatch every mention links to its key's entity. */
  lemma GroupsAre(P: map<nat, set<nat>>, L: map<nat, nat>, ms: seq<Mention>, N0: nat)
    requires Linked(P, L) && Exclusive(P, L)
    requires forall e: nat :: e in P <==> e < ExactFold(KeyList(ms), N0, |ms|).next
    requires forall e, m :: e in P && m in P[e] ==> m < |ms|
    requires forall k :: 0 <= k < |ms| ==> k in L && L[k] == EntityFor(ms, N0, k)
    ensures P == ExactGroups(ms, N0)
  {
    var G := ExactGroups(ms, N0);
    var next := ExactFold(KeyList(ms), N0, |ms|).next;
    forall e: nat ensures e in G <==> e in P {
      assert e in G <==> e in Below(next);
    }
    assert G.Keys == P.Keys;
    forall e | e in P ensures P[e] == G[e] {
      assert G[e] == GroupOf(ms, N0, e);
      forall m | m in P[e] ensures m in GroupOf(ms, N0, e) {
        assert L[m] == e;
      }
      forall m | m in GroupOf(ms, N0, e) ensures m in P[e] {
        assert L[m] == e;
      }
    }
  }

  /** At the end of exactMatch's loop the entries are those of ExactEntries. */
  lemma EntriesAre(cms: seq<ClusteredMention>, ms: seq<Mention>, N0: nat, ids: map<string, nat>)
    requires ids == ExactFold(KeyList(ms), N0, |ms|).ids
    requires |cms| == |ms|
    requires forall k :: 0 <= k < |ms| ==> KeyList(ms)[k] in ids && cms[k] == ClusteredMention(k, ids[KeyList(ms)[k]])
    ensures cms == ExactEntries(ms, N0)
  {
  }

  /** Entries 0 .. i - 1 hold the entities filed for their keys. */
  predicate Filed(cms: seq<ClusteredMention>, clusters: map<string, nat>, keys: seq<string>, i: nat)
    requires i <= |keys|
  {
    |cms| == i && forall k :: 0 <= k < i ==> keys[k] in clusters && cms[k] == ClusteredMention(k, clusters[keys[k]])
  }

  /** Mentions 0 .. i - 1 link to their entries' entities. */
  predicate LinkedAsListed(L: map<nat, nat>, cms: seq<ClusteredMention>, i: nat)
    requires i <= |cms|
  {
    forall k :: 0 <= k < i ==> k in L && L[k] == cms[k].entity
  }

  /** exactMatch(null, doc): each mention in document order is filed under
      its lower-cased gloss; the first one with a key becomes a singleton
      whose entity is registered under the key, the later ones join it. */
  method ExactMatch(g: EntityGraph) returns (cms: seq<ClusteredMention>)
    requires g.Valid() && g.Partitioned()
    modifies g
    ensures g.Valid() && g.Partitioned()
    ensures cms == ExactEntries(g.mentions, old(g.nextEntity))
    ensures g.members == ExactGroups(g.mentions, old(g.nextEntity))
    ensures g.nextEntity == ExactFold(KeyList(g.mentions), old(g.nextEntity), |g.mentions|).next
  {
    ghost var N0 := g.nextEntity;
    ghost var keys := KeyList(g.mentions);
    var clusters: map<string, nat> := map[];
    cms := [];
    for i := 0 to |g.mentions|
      invariant g.Valid() && g.Partitioned()
      invariant Registry(clusters, g.nextEntity) == ExactFold(keys, N0, i)
      invariant Filed(cms, clusters, keys, i) && LinkedAsListed(g.entityOf, cms, i)
    {
      clusters, cms := ExactStep(g, i, clusters, cms, keys, N0);
    }
    EntriesAre(cms, g.mentions, N0, clusters);
    GroupsAre(g.members, g.entityOf, g.mentions, N0);
  }

  // ---------------------------------------------------------------------
  // The cluster tests of the phases

  /** isClusterHeadMatch: some member of the entity has exactly the new
      mention's head word. */
  predicate HeadShared(ms: seq<Mention>, S: set<nat>, m: Mention) {
    exists x :: x in S && x < |ms| && HeadWord(ms[x]) == HeadWord(m)
  }

  /** isRelaxedClusterHeadMatch: the lower-cased gloss of some member of the
      entity contains the new mention's lower-cased head word. */
  predicate HeadInGloss(ms: seq<Mention>, S: set<nat>, m: Mention) {
    exists x :: x in S && x < |ms| && Contains(GlossKey(ms[x]), Lower(HeadWord(m)))
  }

  /** Some member's lower-cased gloss contains `w`. */
  predicate InSomeGloss(ms: seq<Mention>, S: set<nat>, w: string) {
    exists x :: x in S && x < |ms| && Contains(GlossKey(ms[x]), w)
  }

  /** isWordInclusion: every lower-cased word of the new mention that is not
      an article occurs in the lower-cased gloss of some member. */
  predicate WordsIncluded(ms: seq<Mention>, S: set<nat>, m: Mention) {
    var ws := LowerAll(m.text);
    forall k :: 0 <= k < |ws| && !IsArticle(ws[k]) ==> InSomeGloss(ms, S, ws[k])
  }

  /** Adding members to an entity never falsifies word inclusion. */
  lemma WordsIncludedGrows(ms: seq<Mention>, S: set<nat>, S': set<nat>, m: Mention)
    requires S <= S' && WordsIncluded(ms, S, m)
    ensures WordsIncluded(ms, S', m)
  {
    var ws := LowerAll(m.text);
    forall k | 0 <= k < |ws| && !IsArticle(ws[k]) ensures InSomeGloss(ms, S', ws[k]) {
      assert InSomeGloss(ms, S, ws[k]);
    }
  }

  /** The scan of isClusterHeadMatch over the entity's members. */
  method IsClusterHeadMatch(g: EntityGraph, e: nat, m: Mention) returns (r: bool)
    requires g.Valid() && e in g.members
    ensures r == HeadShared(g.mentions, g.members[e], m)
  {
    var cluster := g.members[e];
    var rest := cluster;
    while rest != {}
      invariant rest <= cluster
      invariant forall x :: x in cluster && x !in rest ==> HeadWord(g.mentions[x]) != HeadWord(m)
      decreases rest
    {
      var x :| x in rest;
      if HeadWord(g.mentions[x]) == HeadWord(m) {
        return true;
      }
      rest := rest - {x};
    }
    return false;
  }

  /** The scan of isRelaxedClusterHeadMatch over the entity's members. */
  method IsRelaxedClusterHeadMatch(g: EntityGraph, e: nat, m: Mention) returns (r: bool)
    requires g.Valid() && e in g.members
    ensures r == HeadInGloss(g.mentions, g.members[e], m)
  {
    var cluster := g.members[e];
    var rest := cluster;
    while rest != {}
      invariant rest <= cluster
      invariant forall x :: x in cluster && x !in rest ==> !Contains(GlossKey(g.mentions[x]), Lower(HeadWord(m)))
      decreases rest
    {
      var x :| x in rest;
      if Contains(Lower(Gloss(g.mentions[x])), Lower(HeadWord(m))) {
        return true;
      }
      rest := rest - {x};
    }
    return false;
  }

  /** The glosses appended to the cluster string, in the order `order` the
      members were visited. */
  predicate Visited(ms: seq<Mention>, order: seq<nat>, gs: seq<string>) {
    |order| == |gs| && forall k :: 0 <= k < |order| ==> order[k] < |ms| && gs[k] == GlossKey(ms[order[k]])
  }

  /** A word of the new mention occurs in the cluster string exactly when it
      occurs in one member's gloss, whatever order the members came in. */
  lemma InClusterString(ms: seq<Mention>, S: set<nat>, order: seq<nat>, gs: seq<string>, w: string)
    requires Visited(ms, order, gs)
    requires forall k :: 0 <= k < |order| ==> order[k] in S
    requires forall x :: x in S && x < |ms| ==> x in order
    requires ' ' !in w && w != ""
    ensures Contains(Spaced(gs), w) <==> InSomeGloss(ms, S, w)
  {
    ContainsInSpaced(gs, w);
    if InSomeGloss(ms, S, w) {
      var x :| x in S && x < |ms| && Contains(GlossKey(ms[x]), w);
      var k :| 0 <= k < |order| && order[k] == x;
      assert Contains(gs[k], w);
    }
    if exists k :: 0 <= k < |gs| && Contains(gs[k], w) {
      var k :| 0 <= k < |gs| && Contains(gs[k], w);
      assert order[k] in S && Contains(GlossKey(ms[order[k]]), w);
    }
  }

  /** The first loop of isWordInclusion: " " and the lower-cased gloss of
      each member, in the set's iteration order `order`. */
  method ClusterString(g: EntityGraph, e: nat) returns (clusterString: string, ghost order: seq<nat>, ghost gs: seq<string>)
    requires g.Valid() && e in g.members
    ensures clusterString == Spaced(gs) && Visited(g.mentions, order, gs)
    ensures forall k :: 0 <= k < |order| ==> order[k] in g.members[e]
    ensures forall x :: x in g.members[e] ==> x in order
    ensures |order| == |g.members[e]|
    ensures forall k, l :: 0 <= k < l < |order| ==> order[k] != order[l]
  {
    var cluster := g.members[e];
    clusterString := "";
    order, gs := [], [];
    var rest := cluster;
    while rest != {}
      invariant rest <= cluster
      invariant clusterString == Spaced(gs) && Visited(g.mentions, order, gs)
      invariant forall k :: 0 <= k < |order| ==> order[k] in cluster
      invariant forall x :: x in cluster && x !in rest ==> x in order
      invariant forall k :: 0 <= k < |order| ==> order[k] !in rest
      invariant forall k, l :: 0 <= k < l < |order| ==> order[k] != order[l]
      invariant |order| + |rest| == |cluster|
      decreases rest
    {
      var x :| x in rest;
      SpacedSnoc(gs, GlossKey(g.mentions[x]));
      clusterString := clusterString + " " + Lower(Gloss(g.mentions[x]));
      order, gs := order + [x], gs + [GlossKey(g.mentions[x])];
      rest := rest - {x};
    }
  }

  /** isWordInclusion: the members' lower-cased glosses are joined into one
      string, each after a space, and every non-article word of the new
      lower-cased gloss is looked up in it. The set's iteration order does
      not change the answer. */
  method IsWordInclusion(g: EntityGraph, e: nat, m: Mention) returns (r: bool)
    requires g.Valid() && e in g.members
    ensures r == WordsIncluded(g.mentions, g.members[e], m)
  {
    var clusterString, order, gs := ClusterString(g, e);
    LowerGlossWords(m);
    var words := Split(Lower(Gloss(m)));
    for k := 0 to |words|
      invariant forall l :: 0 <= l < k && !IsArticle(words[l]) ==> InSomeGloss(g.mentions, g.members[e], words[l])
    {
      InClusterString(g.mentions, g.members[e], order, gs, words[k]);
      if !IsArticle(words[k]) && !Contains(clusterString, words[k]) {
        return false;
      }
    }
    return true;
  }

  /** isCompatibleModifiers: each word of the new gloss tagged NN, JJ, JJS or
      JJR must occur in the other gloss. The tag looked at only advances past
      such words, and both exits return false, so it never holds. */
  method IsCompatibleModifiers(mention: Mention, newMention: Mention) returns (r: bool)
    ensures !r
  {
    GlossSplitsIntoText(newMention);
    var words := Split(Gloss(newMention));
    var index := 0;
    for k := 0 to |words|
      invariant index <= k
    {
      var posTag := newMention.posTags[index];
      if posTag == "NN" || posTag == "JJ" || posTag == "JJS" || posTag == "JJR" {
        if !Contains(Gloss(mention), words[k]) {
          return false;
        }
        index := index + 1;
      }
    }
    return false;
  }

  /** isPronounMatch: gender, number and person agree, and the head tokens
      carry the same NER tag and the same lemma. */
  predicate PronounAgree(a: Mention, b: Mention) {
    GenderMatch(a, b) && NumberMatch(a, b) && PersonMatch(a, b)
    && HeadNer(a) == HeadNer(b) && HeadLemma(a) == HeadLemma(b)
  }

  /** Every mention agrees with itself. */
  lemma PronounAgreeReflexive(a: Mention)
    ensures PronounAgree(a, a)
  {
  }

  // ---------------------------------------------------------------------
  // Overlap ratios: countOverlapPercent and getBestMatch

  /** The double `common * 1.0 / total` as the pair of counts; it is NaN
      when `total` is 0. */
  datatype Ratio = Ratio(common: nat, total: nat)

  /** a * b, by repeated addition. Quotients are compared by their cross
      products; a product that is a recursive function stays an opaque term
      in the proofs about scans, and ExceedsMeans turns it into arithmetic
      where a proof needs it. */
  function Times(a: nat, b: nat): nat
    decreases b
  {
    if b == 0 then 0 else a + Times(a, b - 1)
  }

  lemma {:induction false} TimesIsMul(a: nat, b: nat)
    ensures Times(a, b) == a * b
    decreases b
  {
    if b > 0 {
      TimesIsMul(a, b - 1);
    }
  }

  /** x > y between two quotients; every comparison with NaN is false. */
  predicate Exceeds(x: Ratio, y: Ratio) {
    x.total > 0 && y.total > 0 && Times(x.common, y.total) > Times(y.common, x.total)
  }

  /** Exceeds is the comparison of the cross products. */
  lemma ExceedsMeans(x: Ratio, y: Ratio)
    ensures Exceeds(x, y) <==> x.total > 0 && y.total > 0 && x.common * y.total > y.common * x.total
  {
    TimesIsMul(x.common, y.total);
    TimesIsMul(y.common, x.total);
  }

  /** MATCH_THRESHOLD = 0.66. */
  const MatchThreshold: Ratio := Ratio(66, 100)

  lemma MulMono(a: int, b: int, c: int)
    requires a > b && c > 0
    ensures a * c > b * c
  {
  }

  lemma MulMonoWeak(a: int, b: int, c: int)
    requires a >= b && c > 0
    ensures a * c >= b * c
  {
  }

  lemma MulCancel(a: int, b: int, c: int)
    requires a * c > b * c && c > 0
    ensures a > b
  {
    if a <= b {
      MulMonoWeak(b, a, c);
    }
  }

  /** (a * b) * c == (a * c) * b. */
  lemma MulSwap(a: int, b: int, c: int)
    ensures (a * b) * c == (a * c) * b
  {
  }

  /** The cross-product step shared by the two lemmas below: from
      xc/xt > yc/yt and zc/zt <= yc/yt follows xc/xt > zc/zt. */
  lemma CrossPast(xc: int, xt: int, yc: int, yt: int, zc: int, zt: int)
    requires xt > 0 && yt > 0 && zt > 0
    requires xc * yt > yc * xt && zc * yt <= yc * zt
    ensures xc * zt > zc * xt
  {
    MulMono(xc * yt, yc * xt, zt);
    MulMonoWeak(yc * zt, zc * yt, xt);
    MulSwap(yc, xt, zt);
    MulSwap(xc, yt, zt);
    MulSwap(zc, yt, xt);
    MulCancel(xc * zt, zc * xt, yt);
  }

  /** `Exceeds` is transitive. */
  lemma ExceedsTransitive(x: Ratio, y: Ratio, z: Ratio)
    requires Exceeds(x, y) && Exceeds(y, z)
    ensures Exceeds(x, z)
  {
    ExceedsMeans(x, y);
    ExceedsMeans(y, z);
    ExceedsMeans(x, z);
    CrossPast(x.common, x.total, y.common, y.total, z.common, z.total);
  }

  /** What exceeds y exceeds everything y is not exceeded by. */
  lemma ExceedsPast(x: Ratio, y: Ratio, z: Ratio)
    requires Exceeds(x, y) && z.total > 0 && !Exceeds(z, y)
    ensures Exceeds(x, z)
  {
    ExceedsMeans(x, y);
    ExceedsMeans(z, y);
    ExceedsMeans(x, z);
    CrossPast(x.common, x.total, y.common, y.total, z.common, z.total);
  }

  /** An overlap above the threshold is above 0.0, getBestMatch's starting
      best. */
  lemma AboveThresholdAboveZero(o: Ratio)
    requires Exceeds(o, MatchThreshold)
    ensures Exceeds(o, Ratio(0, 1))
  {
    ExceedsMeans(o, MatchThreshold);
    ExceedsMeans(o, Ratio(0, 1));
  }

  /** The non-article words of `ws`, and how many of them occur,
      case-insensitively, in `short`. */
  function Tally(ws: seq<string>, short: string): (r: Ratio)
    ensures r.common <= r.total <= |ws|
    decreases |ws|
  {
    if ws == [] then Ratio(0, 0)
    else
      var t := Tally(ws[..|ws| - 1], short);
      var w := ws[|ws| - 1];
      if IsArticle(w) then t
      else Ratio(t.common + (if Contains(Lower(short), Lower(w)) then 1 else 0), t.total + 1)
  }

  /** Tallying one more word. */
  lemma TallyNext(ws: seq<string>, k: nat, short: string)
    requires k < |ws|
    ensures var t := Tally(ws[..k], short);
      Tally(ws[..k + 1], short) ==
        if IsArticle(ws[k]) then t
        else Ratio(t.common + (if Contains(Lower(short), Lower(ws[k])) then 1 else 0), t.total + 1)
  {
    assert ws[..k + 1][..k] == ws[..k];
  }

  /** countOverlapPercent(a, b): the words of the longer string (by length,
      `b` on a tie) tallied against the shorter one. */
  function OverlapOf(a: string, b: string): Ratio {
    if |a| > |b| then Tally(Split(a), b) else Tally(Split(b), a)
  }

  /** The overlap never exceeds 1, and it is NaN only when the longer
      string has no word but articles. */
  lemma OverlapAtMostOne(a: string, b: string)
    ensures !Exceeds(OverlapOf(a, b), Ratio(1, 1))
    ensures OverlapOf(a, b).total == 0 ==> !Exceeds(OverlapOf(a, b), MatchThreshold)
  {
    ExceedsMeans(OverlapOf(a, b), Ratio(1, 1));
  }

  /** The counting loop of countOverlapPercent. */
  method CountOverlapPercent(a: string, b: string) returns (r: Ratio)
    ensures r == OverlapOf(a, b)
  {
    var longStr, shortStr := b, a;
    if |a| > |b| {
      longStr, shortStr := a, b;
    }
    var words := Split(longStr);
    var nWord, nCommon := 0, 0;
    for k := 0 to |words|
      invariant Ratio(nCommon, nWord) == Tally(words[..k], shortStr)
    {
      TallyNext(words, k, shortStr);
      if !IsArticle(words[k]) {
        nWord := nWord + 1;
        if Contains(Lower(shortStr), Lower(words[k])) {
          nCommon := nCommon + 1;
        }
      }
    }
    assert words[..|words|] == words;
    r := Ratio(nCommon, nWord);
  }

  /** The overlap of each entry's gloss with `text`. */
  function Overlaps(ms: seq<Mention>, cms: seq<ClusteredMention>, text: string): (ovs: seq<Ratio>)
    requires InDocument(cms, |ms|)
    ensures |ovs| == |cms|
    decreases |cms|
  {
    if cms == [] then []
    else Overlaps(ms, cms[..|cms| - 1], text) + [OverlapOf(Gloss(ms[cms[|cms| - 1].mention]), text)]
  }

  /** Entry `k`'s overlap is that of its mention's gloss with `text`. */
  lemma {:induction false} OverlapsAt(ms: seq<Mention>, cms: seq<ClusteredMention>, text: string, k: nat)
    requires InDocument(cms, |ms|) && k < |cms|
    ensures Overlaps(ms, cms, text)[k] == OverlapOf(Gloss(ms[cms[k].mention]), text)
    decreases |cms|
  {
    if k < |cms| - 1 {
      OverlapsAt(ms, cms[..|cms| - 1], text, k);
    }
  }

  /** The position of getBestMatch's pick, if any, and the best overlap so far. */
  datatype Pick = Pick(at: Option<nat>, best: Ratio)

  /** getBestMatch's scan after the first `k` overlaps, starting from no pick
      and 0.0: an entry replaces the pick when it is above the threshold and
      strictly above the best so far. */
  function Scan(ovs: seq<Ratio>, k: nat): (p: Pick)
    requires k <= |ovs|
    ensures p.at.Some? ==> p.at.value < k
    decreases k
  {
    if k == 0 then Pick(None, Ratio(0, 1))
    else
      var p := Scan(ovs, k - 1);
      if Exceeds(ovs[k - 1], MatchThreshold) && Exceeds(ovs[k - 1], p.best)
      then Pick(Some(k - 1), ovs[k - 1]) else p
  }

  /** The best overlap the scan holds is its pick's, or 0.0 before any
      pick, and the pick is above the threshold. */
  lemma {:induction false} ScanHoldsPick(ovs: seq<Ratio>, k: nat)
    requires k <= |ovs|
    ensures Scan(ovs, k).at.None? ==> Scan(ovs, k).best == Ratio(0, 1)
    ensures Scan(ovs, k).at.Some? ==>
      var b := Scan(ovs, k).at.value;
      Exceeds(ovs[b], MatchThreshold) && Scan(ovs, k).best == ovs[b]
    decreases k
  {
    if k > 0 {
      ScanHoldsPick(ovs, k - 1);
    }
  }

  /** The scan finds nothing exactly when no entry is above the threshold. */
  lemma {:induction false} ScanFound(ovs: seq<Ratio>, k: nat)
    requires k <= |ovs|
    ensures Scan(ovs, k).at.None? <==> forall l :: 0 <= l < k ==> !Exceeds(ovs[l], MatchThreshold)
    decreases k
  {
    if k > 0 {
      ScanFound(ovs, k - 1);
      ScanHoldsPick(ovs, k - 1);
      if Exceeds(ovs[k - 1], MatchThreshold) {
        AboveThresholdAboveZero(ovs[k - 1]);
      }
    }
  }

  /** Every entry above the threshold is at most as large as the pick. */
  lemma {:induction false} PickIsLargest(ovs: seq<Ratio>, k: nat)
    requires k <= |ovs| && Scan(ovs, k).at.Some?
    ensures var b := Scan(ovs, k).at.value;
      forall l :: 0 <= l < k && Exceeds(ovs[l], MatchThreshold) ==> !Exceeds(ovs[l], ovs[b])
    decreases k
  {
    var r := Scan(ovs, k - 1).at;
    var b := Scan(ovs, k).at.value;
    if r.None? {
      ScanFound(ovs, k - 1);
    } else {
      PickIsLargest(ovs, k - 1);
      ScanHoldsPick(ovs, k - 1);
      if b == k - 1 {
        NewPickIsLargest(ovs, k - 1, r.value);
      }
    }
  }

  /** When entry `k` beats the pick `r`, which is at most as large as every
      earlier entry above the threshold, those entries are at most as large
      as entry `k`. */
  lemma NewPickIsLargest(ovs: seq<Ratio>, k: nat, r: nat)
    requires r < k < |ovs| && Exceeds(ovs[k], ovs[r])
    requires forall l :: 0 <= l < k && Exceeds(ovs[l], MatchThreshold) ==> !Exceeds(ovs[l], ovs[r])
    ensures forall l :: 0 <= l <= k && Exceeds(ovs[l], MatchThreshold) ==> !Exceeds(ovs[l], ovs[k])
  {
    forall l | 0 <= l <= k && Exceeds(ovs[l], MatchThreshold)
      ensures !Exceeds(ovs[l], ovs[k])
    {
      if l < k && Exceeds(ovs[l], ovs[k]) {
        ExceedsTransitive(ovs[l], ovs[k], ovs[r]);
      }
    }
  }

  /** The pick is larger than every earlier entry above the threshold: of
      several equally large overlaps, the first is kept. */
  lemma {:induction false} PickIsFirst(ovs: seq<Ratio>, k: nat)
    requires k <= |ovs| && Scan(ovs, k).at.Some?
    ensures var b := Scan(ovs, k).at.value;
      forall l :: 0 <= l < b && Exceeds(ovs[l], MatchThreshold) ==> Exceeds(ovs[b], ovs[l])
    decreases k
  {
    var r := Scan(ovs, k - 1).at;
    var b := Scan(ovs, k).at.value;
    ScanFound(ovs, k - 1);
    ScanHoldsPick(ovs, k - 1);
    if b != k - 1 {
      PickIsFirst(ovs, k - 1);
    } else if r.Some? {
      PickIsLargest(ovs, k - 1);
      forall l | 0 <= l < b && Exceeds(ovs[l], MatchThreshold)
        ensures Exceeds(ovs[b], ovs[l])
      {
        ExceedsPast(ovs[b], ovs[r.value], ovs[l]);
      }
    }
  }

  /** The entity recorded at position `at`, if any. */
  function EntityAt(cms: seq<ClusteredMention>, at: Option<nat>): Option<nat>
    requires at.Some? ==> at.value < |cms|
  {
    if at.Some? then Some(cms[at.value].entity) else None
  }

  /** The entity getBestMatch returns, if any. */
  function BestEntity(ms: seq<Mention>, cms: seq<ClusteredMention>, text: string): Option<nat>
    requires InDocument(cms, |ms|)
  {
    EntityAt(cms, Scan(Overlaps(ms, cms, text), |cms|).at)
  }

  /** countOverlapPercent of entry `k`'s gloss and `text`. */
  method EntryOverlap(ms: seq<Mention>, cms: seq<ClusteredMention>, k: nat, text: string) returns (overlap: Ratio)
    requires InDocument(cms, |ms|) && k < |cms|
    ensures overlap == Overlaps(ms, cms, text)[k]
  {
    overlap := CountOverlapPercent(Gloss(ms[cms[k].mention]), text);
    OverlapsAt(ms, cms, text, k);
  }

  /** getBestMatch: null for a null list; otherwise the entity recorded for
      the entry BestUpTo picks, found by a scan that keeps the best overlap
      so far, starting from 0.0. */
  method GetBestMatch(ms: seq<Mention>, clusters: Option<seq<ClusteredMention>>, newText: string) returns (bestEntity: Option<nat>)
    requires clusters.Some? ==> InDocument(clusters.value, |ms|)
    ensures clusters.None? ==> bestEntity.None?
    ensures clusters.Some? ==> bestEntity == BestEntity(ms, clusters.value, newText)
  {
    bestEntity := None;
    if clusters.None? {
      return;
    }
    var cms := clusters.value;
    ghost var ovs := Overlaps(ms, cms, newText);
    var bestOverlap := Ratio(0, 1);
    ghost var at: Option<nat> := None;
    for k := 0 to |cms|
      invariant at == Scan(ovs, k).at && bestOverlap == Scan(ovs, k).best
      invariant bestEntity == EntityAt(cms, at)
    {
      var overlap := EntryOverlap(ms, cms, k, newText);
      bestEntity, bestOverlap, at := ScanEntry(cms, ovs, k, overlap, bestEntity, bestOverlap, at);
    }
  }

  /** One turn of getBestMatch's loop, given entry `k`'s overlap. */
  method ScanEntry(cms: seq<ClusteredMention>, ghost ovs: seq<Ratio>, k: nat, overlap: Ratio,
                   bestEntity: Option<nat>, bestOverlap: Ratio, ghost at: Option<nat>)
    returns (bestEntity': Option<nat>, bestOverlap': Ratio, ghost at': Option<nat>)
    requires k < |ovs| == |cms| && overlap == ovs[k]
    requires at == Scan(ovs, k).at && bestOverlap == Scan(ovs, k).best
    requires bestEntity == EntityAt(cms, at)
    ensures at' == Scan(ovs, k + 1).at && bestOverlap' == Scan(ovs, k + 1).best
    ensures bestEntity' == EntityAt(cms, at')
  {
    bestEntity', bestOverlap', at' := bestEntity, bestOverlap, at;
    if Exceeds(overlap, MatchThreshold) && Exceeds(overlap, bestOverlap) {
      bestOverlap' := overlap;
      bestEntity' := Some(cms[k].entity);
      at' := Some(k);
    }
  }

  // ---------------------------------------------------------------------
  // The phases

  /** The test each get*Match scanner applies to a list entry. */
  datatype Test = StrictHead | StrictHeadVar1 | StrictHeadVar2 | RelaxedHead | PronounTest

  /** The list entry `cm` passes `test` for the new mention `m`, the entry's
      recorded entity having the members `P[cm.entity]` now. The strict head
      test and its second variant end with isCompatibleModifiers, which never
      holds (IsCompatibleModifiers), so they never pass. */
  predicate Hit(test: Test, ms: seq<Mention>, P: map<nat, set<nat>>, cm: ClusteredMention, m: Mention)
    requires cm.entity in P && cm.mention < |ms|
  {
    var S := P[cm.entity];
    match test
    case StrictHead => false
    case StrictHeadVar1 => HeadShared(ms, S, m) && WordsIncluded(ms, S, m)
    case StrictHeadVar2 => false
    case RelaxedHead => HeadInGloss(ms, S, m) && NerMatch(ms[cm.mention], m) && WordsIncluded(ms, S, m)
    case PronounTest => PronounAgree(ms[cm.mention], m)
  }

  /** The condition of the scanners' `if`, evaluated left to right. */
  method HitTest(g: EntityGraph, test: Test, cm: ClusteredMention, m: Mention) returns (r: bool)
    requires g.Valid() && cm.entity in g.members && cm.mention < |g.mentions|
    ensures r == Hit(test, g.mentions, g.members, cm, m)
  {
    var mention := g.mentions[cm.mention];
    match test
    case StrictHead =>
      r := IsClusterHeadMatch(g, cm.entity, m);
      if r {
        r := IsWordInclusion(g, cm.entity, m);
      }
      if r {
        r := IsCompatibleModifiers(mention, m);
      }
    case StrictHeadVar1 =>
      r := IsClusterHeadMatch(g, cm.entity, m);
      if r {
        r := IsWordInclusion(g, cm.entity, m);
      }
    case StrictHeadVar2 =>
      r := IsClusterHeadMatch(g, cm.entity, m);
      if r {
        r := IsCompatibleModifiers(mention, m);
      }
    case RelaxedHead =>
      r := IsRelaxedClusterHeadMatch(g, cm.entity, m);
      if r {
        r := NerMatch(mention, m);
      }
      if r {
        r := IsWordInclusion(g, cm.entity, m);
      }
    case PronounTest =>
      r := PronounAgree(mention, m);
  }

  /** The recorded entity of the last of the first `k` entries that passes
      `test`: later hits overwrite bestEntity. */
  function LastHit(test: Test, ms: seq<Mention>, P: map<nat, set<nat>>, cms: seq<ClusteredMention>, m: Mention, k: nat): (r: Option<nat>)
    requires k <= |cms| && Recorded(cms, |ms|, P)
    ensures r.Some? ==> r.value in P
    decreases k
  {
    if k == 0 then None
    else if Hit(test, ms, P, cms[k - 1], m) then Some(cms[k - 1].entity)
    else LastHit(test, ms, P, cms, m, k - 1)
  }

  /** The scan returns null exactly when no entry passes; otherwise it returns
      the recorded entity of a passing entry after which none passes. */
  lemma {:induction false} LastHitIsLast(test: Test, ms: seq<Mention>, P: map<nat, set<nat>>, cms: seq<ClusteredMention>, m: Mention, k: nat)
    requires k <= |cms| && Recorded(cms, |ms|, P)
    ensures LastHit(test, ms, P, cms, m, k).None? <==> forall j :: 0 <= j < k ==> !Hit(test, ms, P, cms[j], m)
    ensures LastHit(test, ms, P, cms, m, k).Some? ==>
      exists j :: 0 <= j < k && Hit(test, ms, P, cms[j], m) && LastHit(test, ms, P, cms, m, k).value == cms[j].entity
        && forall l :: j < l < k ==> !Hit(test, ms, P, cms[l], m)
    decreases k
  {
    if k > 0 {
      LastHitIsLast(test, ms, P, cms, m, k - 1);
      if !Hit(test, ms, P, cms[k - 1], m) && LastHit(test, ms, P, cms, m, k - 1).Some? {
        var j :| 0 <= j < k - 1 && Hit(test, ms, P, cms[j], m)
          && LastHit(test, ms, P, cms, m, k - 1).value == cms[j].entity
          && forall l :: j < l < k - 1 ==> !Hit(test, ms, P, cms[l], m);
        assert forall l :: j < l < k ==> !Hit(test, ms, P, cms[l], m);
      }
    }
  }

  /** getStrictHeadMatch, getStrictHeadMatchVar1, getStrictHeadMatchVar2,
      getRelaxedHeadMatch and getPronounMatch: null for a null list, else
      the entity of the last entry passing the test. */
  method GetMatch(g: EntityGraph, test: Test, clusters: Option<seq<ClusteredMention>>, m: Mention) returns (bestEntity: Option<nat>)
    requires g.Valid()
    requires clusters.Some? ==> Recorded(clusters.value, |g.mentions|, g.members)
    ensures clusters.None? ==> bestEntity.None?
    ensures clusters.Some? ==> bestEntity == LastHit(test, g.mentions, g.members, clusters.value, m, |clusters.value|)
  {
    bestEntity := None;
    if clusters.None? {
      return;
    }
    var cms := clusters.value;
    for k := 0 to |cms|
      invariant bestEntity == LastHit(test, g.mentions, g.members, cms, m, k)
    {
      var hit := HitTest(g, test, cms[k], m);
      if hit {
        bestEntity := Some(cms[k].entity);
      }
    }
  }

  /** A test that no entry passes finds nothing. */
  lemma {:induction false} NeverHitFindsNothing(test: Test, ms: seq<Mention>, P: map<nat, set<nat>>, cms: seq<ClusteredMention>, m: Mention, k: nat)
    requires test == StrictHead || test == StrictHeadVar2
    requires k <= |cms| && Recorded(cms, |ms|, P)
    ensures LastHit(test, ms, P, cms, m, k) == None
    decreases k
  {
    if k > 0 {
      NeverHitFindsNothing(test, ms, P, cms, m, k - 1);
    }
  }

  /** getStrictHeadMatch always returns null. */
  method GetStrictHeadMatch(g: EntityGraph, clusters: Option<seq<ClusteredMention>>, m: Mention) returns (bestEntity: Option<nat>)
    requires g.Valid()
    requires clusters.Some? ==> Recorded(clusters.value, |g.mentions|, g.members)
    ensures bestEntity.None?
  {
    bestEntity := GetMatch(g, StrictHead, clusters, m);
    if clusters.Some? {
      NeverHitFindsNothing(StrictHead, g.mentions, g.members, clusters.value, m, |clusters.value|);
    }
  }

  /** getStrictHeadMatchVar2 always returns null. */
  method GetStrictHeadMatchVar2(g: EntityGraph, clusters: Option<seq<ClusteredMention>>, m: Mention) returns (bestEntity: Option<nat>)
    requires g.Valid()
    requires clusters.Some? ==> Recorded(clusters.value, |g.mentions|, g.members)
    ensures bestEntity.None?
  {
    bestEntity := GetMatch(g, StrictHeadVar2, clusters, m);
    if clusters.Some? {
      NeverHitFindsNothing(StrictHeadVar2, g.mentions, g.members, clusters.value, m, |clusters.value|);
    }
  }

  /** Every listed mention passes the pronoun test against its own entry, so
      getPronounMatch finds an entity for it. */
  lemma PronounAlwaysMatches(ms: seq<Mention>, P: map<nat, set<nat>>, cms: seq<ClusteredMention>, i: nat)
    requires i < |cms| && Recorded(cms, |ms|, P)
    ensures LastHit(PronounTest, ms, P, cms, ms[cms[i].mention], |cms|).Some?
  {
    var m := ms[cms[i].mention];
    PronounAgreeReflexive(m);
    assert Hit(PronounTest, ms, P, cms[i], m);
    LastHitIsLast(PronounTest, ms, P, cms, m, |cms|);
  }

  /** What a phase looks for: the last entry passing a test, or (partialMatch)
      the entry whose gloss overlaps best with the mention's gloss. */
  datatype Phase = ByTest(test: Test) | ByOverlap

  /** The entity a phase moves the mention `m` to, if any. */
  function Chosen(phase: Phase, ms: seq<Mention>, P: map<nat, set<nat>>, cms: seq<ClusteredMention>, m: Mention): (r: Option<nat>)
    requires Recorded(cms, |ms|, P)
    ensures r.Some? ==> r.value in P
  {
    match phase
    case ByTest(test) => LastHit(test, ms, P, cms, m, |cms|)
    case ByOverlap => BestEntity(ms, cms, Gloss(m))
  }

  /** The phase's turn for entry `i`: its mention changes coreference to the
      chosen entity, if one is found. */
  function PhaseStep(phase: Phase, ms: seq<Mention>, cms: seq<ClusteredMention>, P: map<nat, set<nat>>, i: nat): (r: map<nat, set<nat>>)
    requires i < |cms| && Recorded(cms, |ms|, P)
    ensures r.Keys == P.Keys
  {
    var c := Chosen(phase, ms, P, cms, ms[cms[i].mention]);
    if c.Some? then Relink(P, cms[i].mention, c.value) else P
  }

  /** The entities after the phase's turns for the first `i` entries. */
  function PhaseUpTo(phase: Phase, ms: seq<Mention>, cms: seq<ClusteredMention>, P: map<nat, set<nat>>, i: nat): (r: map<nat, set<nat>>)
    requires i <= |cms| && Recorded(cms, |ms|, P)
    ensures r.Keys == P.Keys
    decreases i
  {
    if i == 0 then P
    else PhaseStep(phase, ms, cms, PhaseUpTo(phase, ms, cms, P, i - 1), i - 1)
  }

  /** One turn of a test phase's loop: the scanner, then changeCoreference
      when it found an entity. */
  method TestEntry(g: EntityGraph, test: Test, cms: seq<ClusteredMention>, i: nat, ghost P0: map<nat, set<nat>>)
    requires g.Valid() && g.Partitioned() && i < |cms| && Recorded(cms, |g.mentions|, P0)
    requires g.members == PhaseUpTo(ByTest(test), g.mentions, cms, P0, i)
    modifies g
    ensures g.Valid() && g.Partitioned() && g.nextEntity == old(g.nextEntity)
    ensures g.members == PhaseUpTo(ByTest(test), g.mentions, cms, P0, i + 1)
  {
    var bestMatch := GetMatch(g, test, Some(cms), g.mentions[cms[i].mention]);
    if bestMatch.Some? {
      var _ := g.ChangeCoreference(cms[i].mention, bestMatch.value);
    }
  }

  /** strictHeadMatch, strictHeadMatchVar1, strictHeadMatchVar2,
      relaxedHeadMatch and pronounMatch: each listed mention in turn moves to
      the entity the scanner finds for it; the list itself is returned
      unchanged. */
  method TestPhase(g: EntityGraph, test: Test, cms: seq<ClusteredMention>) returns (output: seq<ClusteredMention>)
    requires g.Valid() && g.Partitioned() && Recorded(cms, |g.mentions|, g.members)
    modifies g
    ensures g.Valid() && g.Partitioned() && g.nextEntity == old(g.nextEntity)
    ensures g.members == PhaseUpTo(ByTest(test), g.mentions, cms, old(g.members), |cms|)
    ensures output == cms
  {
    ghost var P0 := g.members;
    output := [];
    for i := 0 to |cms|
      invariant g.Valid() && g.Partitioned() && g.nextEntity == old(g.nextEntity)
      invariant g.members == PhaseUpTo(ByTest(test), g.mentions, cms, P0, i)
      invariant output == cms[..i]
    {
      TestEntry(g, test, cms, i, P0);
      output := output + [cms[i]];
    }
  }

  /** One turn of partialMatch's loop: getBestMatch with the mention's
      gloss, then changeCoreference when it found an entity. */
  method OverlapEntry(g: EntityGraph, cms: seq<ClusteredMention>, i: nat, ghost P0: map<nat, set<nat>>)
    requires g.Valid() && g.Partitioned() && i < |cms| && Recorded(cms, |g.mentions|, P0)
    requires g.members == PhaseUpTo(ByOverlap, g.mentions, cms, P0, i)
    modifies g
    ensures g.Valid() && g.Partitioned() && g.nextEntity == old(g.nextEntity)
    ensures g.members == PhaseUpTo(ByOverlap, g.mentions, cms, P0, i + 1)
  {
    var bestMatch := GetBestMatch(g.mentions, Some(cms), Gloss(g.mentions[cms[i].mention]));
    if bestMatch.Some? {
      var _ := g.ChangeCoreference(cms[i].mention, bestMatch.value);
    }
  }

  /** partialMatch: each listed mention in turn moves to the entity of the
      entry whose gloss overlaps best with its own; the list itself is
      returned unchanged. */
  method PartialMatch(g: EntityGraph, cms: seq<ClusteredMention>) returns (output: seq<ClusteredMention>)
    requires g.Valid() && g.Partitioned() && Recorded(cms, |g.mentions|, g.members)
    modifies g
    ensures g.Valid() && g.Partitioned() && g.nextEntity == old(g.nextEntity)
    ensures g.members == PhaseUpTo(ByOverlap, g.mentions, cms, old(g.members), |cms|)
    ensures output == cms
  {
    ghost var P0 := g.members;
    output := [];
    for i := 0 to |cms|
      invariant g.Valid() && g.Partitioned() && g.nextEntity == old(g.nextEntity)
      invariant g.members == PhaseUpTo(ByOverlap, g.mentions, cms, P0, i)
      invariant output == cms[..i]
    {
      OverlapEntry(g, cms, i, P0);
      output := output + [cms[i]];
    }
  }

  /** Phases 2 and 4 (the strict head test and its second variant) change
      no membership. */
  lemma {:induction false} NeverHitPhaseIsNoop(test: Test, ms: seq<Mention>, cms: seq<ClusteredMention>, P: map<nat, set<nat>>, i: nat)
    requires test == StrictHead || test == StrictHeadVar2
    requires i <= |cms| && Recorded(cms, |ms|, P)
    ensures PhaseUpTo(ByTest(test), ms, cms, P, i) == P
    decreases i
  {
    if i > 0 {
      NeverHitPhaseIsNoop(test, ms, cms, P, i - 1);
      NeverHitFindsNothing(test, ms, P, cms, ms[cms[i - 1].mention], |cms|);
    }
  }

  /** strictHeadMatch: leaves every entity as it was. */
  method StrictHeadMatch(g: EntityGraph, cms: seq<ClusteredMention>) returns (output: seq<ClusteredMention>)
    requires g.Valid() && g.Partitioned() && Recorded(cms, |g.mentions|, g.members)
    modifies g
    ensures g.Valid() && g.Partitioned() && g.nextEntity == old(g.nextEntity)
    ensures g.members == old(g.members)
    ensures output == cms
  {
    output := TestPhase(g, StrictHead, cms);
    NeverHitPhaseIsNoop(StrictHead, g.mentions, cms, old(g.members), |cms|);
  }

  /** strictHeadMatchVar2: leaves every entity as it was. */
  method StrictHeadMatchVar2(g: EntityGraph, cms: seq<ClusteredMention>) returns (output: seq<ClusteredMention>)
    requires g.Valid() && g.Partitioned() && Recorded(cms, |g.mentions|, g.members)
    modifies g
    ensures g.Valid() && g.Partitioned() && g.nextEntity == old(g.nextEntity)
    ensures g.members == old(g.members)
    ensures output == cms
  {
    output := TestPhase(g, StrictHeadVar2, cms);
    NeverHitPhaseIsNoop(StrictHeadVar2, g.mentions, cms, old(g.members), |cms|);
  }

  /** In the pronoun phase every listed mention moves to the entity of the
      last entry it agrees with (its own entry at the latest). */
  lemma PronounPhaseMovesEveryEntry(ms: seq<Mention>, cms: seq<ClusteredMention>, P: map<nat, set<nat>>, i: nat)
    requires i < |cms| && Recorded(cms, |ms|, P)
    ensures LastHit(PronounTest, ms, P, cms, ms[cms[i].mention], |cms|).Some?
    ensures var m := ms[cms[i].mention];
      PhaseStep(ByTest(PronounTest), ms, cms, P, i)
        == Relink(P, cms[i].mention, LastHit(PronounTest, ms, P, cms, m, |cms|).value)
  {
    PronounAlwaysMatches(ms, P, cms, i);
  }

  /** A phase moves only listed mentions: a mention with no entry keeps its
      entities. */
  lemma {:induction false} PhaseMovesOnlyListed(phase: Phase, ms: seq<Mention>, cms: seq<ClusteredMention>, P: map<nat, set<nat>>, i: nat, x: nat)
    requires i <= |cms| && Recorded(cms, |ms|, P)
    requires forall k :: 0 <= k < |cms| ==> cms[k].mention != x
    ensures forall e :: e in P ==> (x in PhaseUpTo(phase, ms, cms, P, i)[e] <==> x in P[e])
    decreases i
  {
    if i > 0 {
      PhaseMovesOnlyListed(phase, ms, cms, P, i - 1, x);
    }
  }

  /** exactMatch's entries name the document's mentions and the entities it
      created. */
  lemma ExactEntriesRecorded(ms: seq<Mention>, N0: nat)
    ensures Recorded(ExactEntries(ms, N0), |ms|, ExactGroups(ms, N0))
  {
    var keys := KeyList(ms);
    ExactFoldKeys(keys, N0, |ms|);
    ExactFoldNumbered(keys, N0, |ms|);
    var cms := ExactEntries(ms, N0);
    forall k | 0 <= k < |cms| ensures cms[k].entity in ExactGroups(ms, N0) {
      assert cms[k].entity == ExactFold(keys, N0, |ms|).ids[keys[k]];
    }
  }

  /** The entities after phases 2 to 6, starting from `P`. */
  function Pipeline(ms: seq<Mention>, cms: seq<ClusteredMention>, P: map<nat, set<nat>>): (r: map<nat, set<nat>>)
    requires Recorded(cms, |ms|, P)
    ensures r.Keys == P.Keys
  {
    var n := |cms|;
    var P2 := PhaseUpTo(ByTest(StrictHead), ms, cms, P, n);
    var P3 := PhaseUpTo(ByTest(StrictHeadVar1), ms, cms, P2, n);
    var P4 := PhaseUpTo(ByTest(StrictHeadVar2), ms, cms, P3, n);
    var P5 := PhaseUpTo(ByTest(RelaxedHead), ms, cms, P4, n);
    PhaseUpTo(ByTest(PronounTest), ms, cms, P5, n)
  }

  /** Only the first variant of the strict head test, the relaxed head test
      and the pronoun test can change the clustering. */
  lemma PipelineSkipsNoops(ms: seq<Mention>, cms: seq<ClusteredMention>, P: map<nat, set<nat>>)
    requires Recorded(cms, |ms|, P)
    ensures var n := |cms|;
      Pipeline(ms, cms, P) ==
        PhaseUpTo(ByTest(PronounTest), ms, cms,
          PhaseUpTo(ByTest(RelaxedHead), ms, cms,
            PhaseUpTo(ByTest(StrictHeadVar1), ms, cms, P, n), n), n)
  {
    var n := |cms|;
    NeverHitPhaseIsNoop(StrictHead, ms, cms, P, n);
    var P3 := PhaseUpTo(ByTest(StrictHeadVar1), ms, cms, P, n);
    NeverHitPhaseIsNoop(StrictHeadVar2, ms, cms, P3, n);
  }

  /** Entries recorded against one set of entities are recorded against any
      set with the same entities. */
  lemma RecordedKeepsKeys(cms: seq<ClusteredMention>, n: nat, P: map<nat, set<nat>>, Q: map<nat, set<nat>>)
    requires Recorded(cms, n, P) && Q.Keys == P.Keys
    ensures Recorded(cms, n, Q)
  {
    forall k | 0 <= k < |cms| ensures cms[k].entity in Q {
      assert cms[k].entity in P.Keys;
    }
  }

  /** Phases 2 to 6 of runCoreference, each reading the same list. */
  method Phases(g: EntityGraph, cms: seq<ClusteredMention>) returns (output: seq<ClusteredMention>)
    requires g.Valid() && g.Partitioned() && Recorded(cms, |g.mentions|, g.members)
    modifies g
    ensures g.Valid() && g.Partitioned() && g.nextEntity == old(g.nextEntity)
    ensures g.members == Pipeline(g.mentions, cms, old(g.members))
    ensures output == cms
  {
    ghost var P := g.members;
    output := StrictHeadMatch(g, cms);
    output := TestPhase(g, StrictHeadVar1, output);
    ghost var P3 := g.members;
    RecordedKeepsKeys(cms, |g.mentions|, P, P3);
    output := StrictHeadMatchVar2(g, output);
    output := TestPhase(g, RelaxedHead, output);
    ghost var P5 := g.members;
    RecordedKeepsKeys(cms, |g.mentions|, P, P5);
    output := TestPhase(g, PronounTest, output);
    PipelineSkipsNoops(g.mentions, cms, P);
  }

  /** runCoreference: exactMatch, then the strict head phase, its two
      variants, the relaxed head phase and the pronoun phase, each reading
      the list exactMatch produced. */
  method RunCoreference(g: EntityGraph) returns (output: seq<ClusteredMention>)
    requires g.Valid() && g.Partitioned()
    modifies g
    ensures g.Valid() && g.Partitioned()
    ensures output == ExactEntries(g.mentions, old(g.nextEntity))
    ensures Recorded(output, |g.mentions|, ExactGroups(g.mentions, old(g.nextEntity)))
    ensures g.members == Pipeline(g.mentions, output, ExactGroups(g.mentions, old(g.nextEntity)))
  {
    output := ExactMatch(g);
    ExactEntriesRecorded(g.mentions, old(g.nextEntity));
    output := Phases(g, output);
  }

  // ---------------------------------------------------------------------
  // trainSynonyms

  /** The words trainSynonyms keeps: neither a pronoun nor an article. */
  predicate Kept(w: string) {
    !IsPronoun(w) && !IsArticle(w)
  }

  /** The kept words of one gloss, in order. */
  function KeptWords(ws: seq<string>): (r: seq<string>)
    ensures forall k :: 0 <= k < |r| ==> Kept(r[k])
  {
    if ws == [] then []
    else KeptWords(ws[..|ws| - 1]) + (if Kept(ws[|ws| - 1]) then [ws[|ws| - 1]] else [])
  }

  /** The list mentionWords holds for an entity whose mentions come in the
      order `ms`: the kept words of each gloss, mention after mention. */
  function MentionWords(ms: seq<Mention>): (r: seq<string>)
    ensures forall k :: 0 <= k < |r| ==> Kept(r[k])
  {
    if ms == [] then []
    else MentionWords(ms[..|ms| - 1]) + KeptWords(Split(Gloss(ms[|ms| - 1])))
  }

  /** The position of the `k`-th word other than word `i`. */
  function Other(i: nat, k: nat): (r: nat)
    ensures r != i
  {
    if k < i then k else k + 1
  }

  /** One row of the co-occurrence count, in the order the inner loop
      counts it: word `i` paired with each other word. */
  function RowPairs<T>(ws: seq<T>, i: nat): seq<(T, T)>
    requires i < |ws|
  {
    seq(|ws| - 1, k requires 0 <= k < |ws| - 1 => (ws[i], ws[Other(i, k)]))
  }

  /** How many pairs of row `i` the inner loop has counted once it has
      passed the first `j` words. */
  function Seen(i: nat, j: nat): nat {
    if j <= i then j else j - 1
  }

  /** The rows of the first `n` words, one after the other. */
  function AllPairs<T>(ws: seq<T>, n: nat): seq<(T, T)>
    requires n <= |ws|
  {
    if n == 0 then [] else AllPairs(ws, n - 1) + RowPairs(ws, n - 1)
  }

  /** Every ordered pair of words at two different positions, once per pair
      of positions. */
  function Cooccurrences(ws: seq<string>): multiset<(string, string)> {
    multiset(AllPairs(ws, |ws|))
  }

  /** What trainSynonyms adds to the counts for entities whose mentions come
      in the orders `clusters`. */
  function TrainedPairs(clusters: seq<seq<Mention>>): multiset<(string, string)> {
    if clusters == [] then multiset{}
    else TrainedPairs(clusters[..|clusters| - 1]) + Cooccurrences(MentionWords(clusters[|clusters| - 1]))
  }

  /** A word is among the kept words of a gloss exactly when it is a word of
      the gloss that is neither a pronoun nor an article. */
  lemma {:induction false} KeptWordsAre(ws: seq<string>, w: string)
    ensures w in KeptWords(ws) <==> w in ws && Kept(w)
  {
    if ws != [] {
      KeptWordsAre(ws[..|ws| - 1], w);
      assert ws == ws[..|ws| - 1] + [ws[|ws| - 1]];
    }
  }

  /** Some mention among `ms` has `w` among the words of its gloss. */
  ghost predicate InSomeSplit(ms: seq<Mention>, w: string) {
    exists m :: m in ms && w in Split(Gloss(m))
  }

  lemma InSomeSplitSnoc(ms: seq<Mention>, w: string)
    requires ms != []
    ensures InSomeSplit(ms, w) <==>
      InSomeSplit(ms[..|ms| - 1], w) || w in Split(Gloss(ms[|ms| - 1]))
  {
    var last := |ms| - 1;
    assert ms == ms[..last] + [ms[last]];
    if InSomeSplit(ms, w) {
      var m :| m in ms && w in Split(Gloss(m));
      assert m in ms[..last] || m == ms[last];
    }
  }

  /** A word is in mentionWords exactly when some mention's gloss has it
      and it is neither a pronoun nor an article. */
  lemma {:induction false} MentionWordsAre(ms: seq<Mention>, w: string)
    ensures w in MentionWords(ms) <==> Kept(w) && InSomeSplit(ms, w)
  {
    if ms != [] {
      var last := |ms| - 1;
      MentionWordsAre(ms[..last], w);
      KeptWordsAre(Split(Gloss(ms[last])), w);
      InSomeSplitSnoc(ms, w);
    }
  }

  /** A row pairs word `i` with exactly the words at the other positions. */
  lemma RowPairsAre<T>(ws: seq<T>, i: nat, p: (T, T))
    requires i < |ws|
    ensures p in RowPairs(ws, i) <==> exists j :: 0 <= j < |ws| && j != i && p == (ws[i], ws[j])
  {
    if p in RowPairs(ws, i) {
      var k :| 0 <= k < |ws| - 1 && RowPairs(ws, i)[k] == p;
      assert 0 <= Other(i, k) < |ws| && p == (ws[i], ws[Other(i, k)]);
    }
    if exists j :: 0 <= j < |ws| && j != i && p == (ws[i], ws[j]) {
      var j :| 0 <= j < |ws| && j != i && p == (ws[i], ws[j]);
      var k := if j < i then j else j - 1;
      assert Other(i, k) == j;
      assert RowPairs(ws, i)[k] == p;
    }
  }

  /** The first `n` rows pair a word among the first `n` with a word at any
      other position. */
  lemma {:induction false} AllPairsAre<T>(ws: seq<T>, n: nat, p: (T, T))
    requires n <= |ws|
    ensures p in AllPairs(ws, n) <==>
      exists i, j :: 0 <= i < n && 0 <= j < |ws| && i != j && p == (ws[i], ws[j])
  {
    if n > 0 {
      AllPairsAre(ws, n - 1, p);
      RowPairsAre(ws, n - 1, p);
      if p in AllPairs(ws, n) && p !in AllPairs(ws, n - 1) {
        var j :| 0 <= j < |ws| && j != n - 1 && p == (ws[n - 1], ws[j]);
        assert 0 <= n - 1 < n && 0 <= j < |ws| && n - 1 != j && p == (ws[n - 1], ws[j]);
      }
      if exists i, j :: 0 <= i < n && 0 <= j < |ws| && i != j && p == (ws[i], ws[j]) {
        var i, j :| 0 <= i < n && 0 <= j < |ws| && i != j && p == (ws[i], ws[j]);
        if i == n - 1 {
          assert p in RowPairs(ws, n - 1);
        }
      }
    }
  }

  /** The first `n` rows hold `n` times `|ws| - 1` pairs. */
  lemma {:induction false} AllPairsSize<T>(ws: seq<T>, n: nat)
    requires 0 < |ws| && n <= |ws|
    ensures |AllPairs(ws, n)| == Times(|ws| - 1, n)
  {
    if n > 0 {
      AllPairsSize(ws, n - 1);
    }
  }

  lemma PairListSize<T>(ws: seq<T>)
    ensures |AllPairs(ws, |ws|)| == |ws| * (|ws| - 1)
  {
    if ws != [] {
      AllPairsSize(ws, |ws|);
      TimesIsMul(|ws| - 1, |ws|);
    }
  }

  /** The counts grow by |ws| * (|ws| - 1) for an entity with |ws| kept words. */
  lemma CooccurrencesSize(ws: seq<string>)
    ensures |Cooccurrences(ws)| == |ws| * (|ws| - 1)
  {
    PairListSize(ws);
    assert |Cooccurrences(ws)| == |AllPairs(ws, |ws|)|;
  }

  /** A pair is counted exactly when its words sit at two different
      positions; so the pair is counted both ways round or not at all. */
  lemma CooccurrencesAre(ws: seq<string>, a: string, b: string)
    ensures (a, b) in Cooccurrences(ws) <==>
      exists i, j :: 0 <= i < |ws| && 0 <= j < |ws| && i != j && a == ws[i] && b == ws[j]
    ensures (a, b) in Cooccurrences(ws) <==> (b, a) in Cooccurrences(ws)
  {
    AllPairsAre(ws, |ws|, (a, b));
    AllPairsAre(ws, |ws|, (b, a));
  }

  /** No counted pair holds a pronoun or an article, and both of its words
      come from glosses of one entity. */
  lemma {:induction false} TrainedPairsKept(clusters: seq<seq<Mention>>, a: string, b: string)
    requires (a, b) in TrainedPairs(clusters)
    ensures Kept(a) && Kept(b)
    ensures exists c :: 0 <= c < |clusters| && a in MentionWords(clusters[c]) && b in MentionWords(clusters[c])
  {
    var last := |clusters| - 1;
    if (a, b) in TrainedPairs(clusters[..last]) {
      TrainedPairsKept(clusters[..last], a, b);
      var c :| 0 <= c < last && a in MentionWords(clusters[..last][c]) && b in MentionWords(clusters[..last][c]);
      assert clusters[..last][c] == clusters[c];
    } else {
      var ws := MentionWords(clusters[last]);
      CooccurrencesAre(ws, a, b);
      var i, j :| 0 <= i < |ws| && 0 <= j < |ws| && i != j && a == ws[i] && b == ws[j];
      assert a in ws && b in ws;
    }
  }

  /** One pass of the inner loop of trainSynonyms adds the pair it counts
      to both the counts and the row. */
  lemma PairCounted(before: multiset<(string, string)>, row: multiset<(string, string)>, after: multiset<(string, string)>,
                    ws: seq<string>, i: nat, j: nat)
    requires i < |ws| && j < |ws|
    requires row == before + multiset(RowPairs(ws, i)[..Seen(i, j)])
    requires after == if i != j then row + multiset{(ws[i], ws[j])} else row
    ensures after == before + multiset(RowPairs(ws, i)[..Seen(i, j + 1)])
  {
    if i != j {
      var r := RowPairs(ws, i);
      var d := Seen(i, j);
      assert Other(i, d) == j;
      assert r[..d + 1] == r[..d] + [r[d]];
    }
  }

  /** One pass of the outer loop of trainSynonyms adds one row. */
  lemma RowCounted(start: multiset<(string, string)>, before: multiset<(string, string)>, after: multiset<(string, string)>,
                   ws: seq<string>, i: nat)
    requires i < |ws|
    requires before == start + multiset(AllPairs(ws, i))
    requires after == before + multiset(RowPairs(ws, i))
    ensures after == start + multiset(AllPairs(ws, i + 1))
  {
  }

  /** The RuleBased system's own state: the co-occurrence counts of words
      within one entity. */
  class RuleBasedSystem {
    var synonyms: multiset<(string, string)>

    constructor ()
      ensures synonyms == multiset{}
    {
      synonyms := multiset{};
    }

    /** trainSynonyms: for each entity, count every ordered pair of kept
        words at two different positions of its mentionWords list. */
    method TrainSynonyms(clusters: seq<seq<Mention>>)
      modifies this
      ensures synonyms == old(synonyms) + TrainedPairs(clusters)
    {
      for c := 0 to |clusters|
        invariant synonyms == old(synonyms) + TrainedPairs(clusters[..c])
      {
        var words := CollectWords(clusters[c]);
        CountCooccurrences(words);
        assert clusters[..c + 1][..c] == clusters[..c];
      }
      assert clusters[..|clusters|] == clusters;
    }

    /** The double loop over mentionWords. */
    method CountCooccurrences(ws: seq<string>)
      modifies this
      ensures synonyms == old(synonyms) + Cooccurrences(ws)
    {
      for i := 0 to |ws|
        invariant synonyms == old(synonyms) + multiset(AllPairs(ws, i))
      {
        ghost var before := synonyms;
        CountRow(ws, i);
        RowCounted(old(synonyms), before, synonyms, ws, i);
      }
    }

    /** The inner loop: word `i` against every other word. */
    method CountRow(ws: seq<string>, i: nat)
      requires i < |ws|
      modifies this
      ensures synonyms == old(synonyms) + multiset(RowPairs(ws, i))
    {
      for j := 0 to |ws|
        invariant synonyms == old(synonyms) + multiset(RowPairs(ws, i)[..Seen(i, j)])
      {
        ghost var row := synonyms;
        if i != j {
          synonyms := synonyms + multiset{(ws[i], ws[j])};
        }
        PairCounted(old(synonyms), row, synonyms, ws, i, j);
      }
      assert RowPairs(ws, i)[..Seen(i, |ws|)] == RowPairs(ws, i);
    }
  }

  lemma KeptWordsNext(ws: seq<string>, l: nat)
    requires l < |ws|
    ensures KeptWords(ws[..l + 1]) == KeptWords(ws[..l]) + if Kept(ws[l]) then [ws[l]] else []
  {
    assert ws[..l + 1][..l] == ws[..l];
  }

  /** One pass of the loop over a gloss's words files the word when it is kept. */
  lemma WordFiled(before: seq<string>, prev: seq<string>, after: seq<string>, ws: seq<string>, l: nat)
    requires l < |ws|
    requires prev == before + KeptWords(ws[..l])
    requires after == if Kept(ws[l]) then prev + [ws[l]] else prev
    ensures after == before + KeptWords(ws[..l + 1])
  {
    KeptWordsNext(ws, l);
  }

  lemma MentionWordsNext(ms: seq<Mention>, k: nat)
    requires k < |ms|
    ensures MentionWords(ms[..k + 1]) == MentionWords(ms[..k]) + KeptWords(Split(Gloss(ms[k])))
  {
    assert ms[..k + 1][..k] == ms[..k];
  }

  /** The loop that fills mentionWords for one entity. */
  method CollectWords(ms: seq<Mention>) returns (words: seq<string>)
    ensures words == MentionWords(ms)
  {
    words := [];
    for k := 0 to |ms|
      invariant words == MentionWords(ms[..k])
    {
      var pieces := Split(Gloss(ms[k]));
      ghost var before := words;
      for l := 0 to |pieces|
        invariant words == before + KeptWords(pieces[..l])
      {
        ghost var prev := words;
        if Kept(pieces[l]) {
          words := words + [pieces[l]];
        }
        WordFiled(before, prev, words, pieces, l);
      }
      assert pieces[..|pieces|] == pieces;
      MentionWordsNext(ms, k);
    }
    assert ms[..|ms|] == ms;
  }
}
