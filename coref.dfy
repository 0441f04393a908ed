/** The mention/entity graph all coreference systems of the package work on.
    Mentions are immutable, with their per-token annotations precomputed; an
    entity owns a mutable set of mentions; each mention keeps a link to its
    current entity. A document's mentions are identified by their index in the
    document's mention list, entities by an integer handed out on creation. */
module Coref {
  import opened JavaString

  datatype Option<T> = None | Some(value: T)

  /** The unchecked Java exceptions the modelled code can raise. */
  datatype Exception = NullPointer | IndexOutOfBounds | IllegalArgument

  /** A value, or the exception that ends the computation instead. */
  datatype Result<T> = Ok(value: T) | Fail(error: Exception)

  /** A mention's span in its sentence and what the tagger, the lemmatizer and
      the Pronoun/Util helpers say about it. `head` is the head token's offset
      inside the span; the tag lists are aligned with `text`. */
  datatype MentionData = MentionData(
    sentence: nat,
    text: seq<string>,
    head: nat,
    posTags: seq<string>,
    nerTags: seq<string>,
    lemmas: seq<string>,
    glossIsPronoun: bool,      // Pronoun.isSomePronoun(gloss())
    headIsPronoun: bool,       // Pronoun.isSomePronoun(headWord())
    quoted: bool,              // headToken().isQuoted()
    speaker: Option<string>,   // Pronoun.valueOrNull(gloss()).speaker; None for null
    gender: Option<string>,    // None: no gender known
    number: Option<string>)    // None: no number known

  /** A non-empty span of tokens, each token non-empty and without spaces, the
      head inside the span, one tag of each kind per token. */
  predicate WellFormed(m: MentionData) {
    m.text != [] && AreTokens(m.text) && m.head < |m.text|
    && |m.posTags| == |m.text| && |m.nerTags| == |m.text| && |m.lemmas| == |m.text|
  }

  type Mention = m: MentionData | WellFormed(m)
    witness MentionData(0, ["it"], 0, ["PRP"], ["O"], ["it"], true, true, false, None, None, None)

  /** Mention.gloss(): the tokens joined by single spaces. */
  function Gloss(m: Mention): string {
    Join(m.text)
  }

  function HeadWord(m: Mention): string {
    m.text[m.head]
  }

  function HeadLemma(m: Mention): string {
    m.lemmas[m.head]
  }

  function HeadNer(m: Mention): string {
    m.nerTags[m.head]
  }

  /** The NER tag of the span's first token (`nerTags.get(beginIndexInclusive)`). */
  function FirstNer(m: Mention): string {
    m.nerTags[0]
  }

  /** `gloss().split(" ")` gives back the mention's tokens. */
  lemma GlossSplitsIntoText(m: Mention)
    ensures Split(Gloss(m)) == m.text
  {
    SplitJoin(m.text);
  }

  /** isGenderMatch: the genders agree, or at least one of them is unknown. */
  predicate GenderMatch(a: Mention, b: Mention) {
    a.gender.None? || b.gender.None? || a.gender == b.gender
  }

  /** isNumberMatch: the numbers agree, or at least one of them is unknown. */
  predicate NumberMatch(a: Mention, b: Mention) {
    a.number.None? || b.number.None? || a.number == b.number
  }

  /** isPersonMatch: two unquoted pronoun glosses with known speakers must have
      the same speaker; every other pair agrees. */
  predicate PersonMatch(a: Mention, b: Mention) {
    if a.glossIsPronoun && b.glossIsPronoun && !(a.quoted || b.quoted)
       && a.speaker.Some? && b.speaker.Some?
    then a.speaker == b.speaker
    else true
  }

  /** isNerMatch: the first tokens carry the same NER tag. The source also tests
      `nerTag != "0"`, a reference comparison that holds for every tag read
      from a sentence, so it filters nothing. */
  predicate NerMatch(a: Mention, b: Mention) {
    FirstNer(a) == FirstNer(b)
  }

  /** The (mention, entity at the time of assignment) pair every assignment
      returns. The entity is recorded, never refreshed. */
  datatype ClusteredMention = ClusteredMention(mention: nat, entity: nat)

  /** Each linked mention is a member of the entity it links to. */
  predicate Linked(P: map<nat, set<nat>>, L: map<nat, nat>) {
    forall m :: m in L ==> L[m] in P && m in P[L[m]]
  }

  /** Each member of an entity links to that entity, so no mention is in two
      entities. */
  predicate Exclusive(P: map<nat, set<nat>>, L: map<nat, nat>) {
    forall e, m :: e in P && m in P[e] ==> m in L && L[m] == e
  }

  /** Mention.changeCoreference(e): `m` leaves the entity it links to and joins `e`. */
  function Reassigned(P: map<nat, set<nat>>, L: map<nat, nat>, m: nat, e: nat): (r: map<nat, set<nat>>)
    requires e in P
    ensures r.Keys == P.Keys
  {
    var Q := if m in L && L[m] in P then P[L[m] := P[L[m]] - {m}] else P;
    Q[e := Q[e] + {m}]
  }

  /** `m` is in `e` and in no other entity. */
  function Relink(P: map<nat, set<nat>>, m: nat, e: nat): (r: map<nat, set<nat>>)
    ensures r.Keys == P.Keys
    ensures e in P ==> m in r[e]
    ensures forall x :: x in P && x != e ==> m !in r[x]
  {
    map x | x in P :: if x == e then P[x] + {m} else P[x] - {m}
  }

  /** mergeClusters(e1, e2): every member of `e1` moves to `e2`; `e1` is left
      empty. Merging an entity with itself changes nothing. */
  function Merged(P: map<nat, set<nat>>, e1: nat, e2: nat): (r: map<nat, set<nat>>)
    requires e1 in P && e2 in P
    ensures r.Keys == P.Keys
    ensures e1 != e2 ==> r[e1] == {}
    ensures r[e2] == P[e1] + P[e2]
    ensures forall e :: e in P && e != e1 && e != e2 ==> r[e] == P[e]
  {
    if e1 == e2 then P else P[e1 := {}][e2 := P[e2] + P[e1]]
  }

  /** The members of `e1` in `moved` have been moved to `e2`, the others not yet. */
  function PartlyMerged(P: map<nat, set<nat>>, e1: nat, e2: nat, moved: set<nat>): map<nat, set<nat>>
    requires e1 in P && e2 in P
  {
    if e1 == e2 then P else P[e1 := P[e1] - moved][e2 := P[e2] + moved]
  }

  /** The links after mergeClusters(e1, e2): whoever linked to `e1` links to `e2`. */
  function Redirected(L: map<nat, nat>, e1: nat, e2: nat): (r: map<nat, nat>)
    ensures r.Keys == L.Keys
    ensures forall m :: m in L ==> r[m] != e1 || e1 == e2
  {
    map m | m in L :: if L[m] == e1 then e2 else L[m]
  }

  /** The links part-way through mergeClusters: the members already moved
      link to `e2`, the others as before. */
  ghost predicate PartlyRedirected(L: map<nat, nat>, L0: map<nat, nat>, e2: nat, moved: set<nat>) {
    L.Keys == L0.Keys && forall m :: m in L0 ==> L[m] == if m in moved then e2 else L0[m]
  }

  /** Once every member of `e1` has moved, the part-way states are the
      merged ones. */
  lemma MergeFinished(P: map<nat, set<nat>>, L0: map<nat, nat>, e1: nat, e2: nat, L: map<nat, nat>)
    requires e1 in P && e2 in P && Exclusive(P, L0) && Linked(P, L0)
    requires PartlyRedirected(L, L0, e2, P[e1])
    ensures PartlyMerged(P, e1, e2, P[e1]) == Merged(P, e1, e2)
    ensures L == Redirected(L0, e1, e2)
  {
    assert P[e1] - P[e1] == {};
    forall m | m in L0 ensures L[m] == Redirected(L0, e1, e2)[m] {
      assert m in P[L0[m]];
    }
  }

  /** The indexes below `n`: the mentions of a document with `n` mentions,
      or the entities created so far when `n` is the next fresh one. */
  function Below(n: nat): (r: set<nat>)
    ensures forall m: nat :: m in r <==> m < n
  {
    if n == 0 then {} else Below(n - 1) + {n - 1}
  }

  /** Two mentions are in one entity. */
  predicate Together(P: map<nat, set<nat>>, x: nat, y: nat) {
    exists e :: e in P && x in P[e] && y in P[e]
  }

  /** The partition of the mentions into the non-empty entities. */
  function Blocks(P: map<nat, set<nat>>): set<set<nat>> {
    set e | e in P && P[e] != {} :: P[e]
  }

  /** On an exclusive graph, changeCoreference puts the mention in the target
      entity and in no other, and the graph stays exclusive. */
  lemma ReassignedIsRelink(P: map<nat, set<nat>>, L: map<nat, nat>, m: nat, e: nat)
    requires e in P && Linked(P, L) && Exclusive(P, L)
    ensures Reassigned(P, L, m, e) == Relink(P, m, e)
    ensures Linked(Relink(P, m, e), L[m := e]) && Exclusive(Relink(P, m, e), L[m := e])
  {
    var R := Relink(P, m, e);
    var Q := if m in L && L[m] in P then P[L[m] := P[L[m]] - {m}] else P;
    forall x | x in P
      ensures Reassigned(P, L, m, e)[x] == R[x]
    {
      if x != e && !(m in L && L[m] == x) {
        assert m !in P[x];
      }
    }
  }

  /** Merging an entity that has no members changes nothing. */
  lemma MergeEmptyIsNoop(P: map<nat, set<nat>>, e1: nat, e2: nat)
    requires e1 in P && e2 in P && P[e1] == {}
    ensures Merged(P, e1, e2) == P
  {
    if e1 != e2 {
      assert P[e1 := {}] == P;
      assert P[e2] + P[e1] == P[e2];
    }
  }

  /** Merging the same pair twice has the effect of merging it once. */
  lemma MergeTwice(P: map<nat, set<nat>>, a: nat, b: nat)
    requires a in P && b in P
    ensures Merged(Merged(P, a, b), a, b) == Merged(P, a, b)
  {
    if a != b {
      MergeEmptyIsNoop(Merged(P, a, b), a, b);
    }
  }

  /** Merging A into B and then B into A leaves the same partition as merging
      A into B once: only which entity holds the united block differs. */
  lemma MergeBackSamePartition(P: map<nat, set<nat>>, a: nat, b: nat)
    requires a in P && b in P
    ensures Blocks(Merged(Merged(P, a, b), b, a)) == Blocks(Merged(P, a, b))
  {
    if a != b {
      var Q := Merged(P, a, b);
      var R := Merged(Q, b, a);
      assert Q[a] == {};
      assert Q[a] + Q[b] == Q[b];
      assert R == Q[b := {}][a := Q[b]];
      forall s | s in Blocks(R) ensures s in Blocks(Q) {
        var e :| e in R && R[e] != {} && R[e] == s;
        if e == a {
          assert Q[b] == s;
        } else {
          assert Q[e] == s;
        }
      }
      forall s | s in Blocks(Q) ensures s in Blocks(R) {
        var e :| e in Q && Q[e] != {} && Q[e] == s;
        if e == b {
          assert R[a] == s;
        } else {
          assert e != a;
          assert R[e] == s;
        }
      }
    }
  }

  /** A merge never separates two mentions, and it unites the members of the
      two entities. */
  lemma MergeCoarsens(P: map<nat, set<nat>>, a: nat, b: nat, x: nat, y: nat)
    requires a in P && b in P
    ensures Together(P, x, y) ==> Together(Merged(P, a, b), x, y)
    ensures x in P[a] + P[b] && y in P[a] + P[b] ==> Together(Merged(P, a, b), x, y)
  {
    var Q := Merged(P, a, b);
    if Together(P, x, y) {
      var e :| e in P && x in P[e] && y in P[e];
      if a != b && e == a {
        assert x in Q[b] && y in Q[b];
      } else {
        assert x in Q[e] && y in Q[e];
      }
    }
    if x in P[a] + P[b] && y in P[a] + P[b] {
      assert x in Q[b] && y in Q[b];
    }
  }

  /** A merge unites nothing but the two entities' members. */
  lemma MergeJoinsOnlyThePair(P: map<nat, set<nat>>, a: nat, b: nat, x: nat, y: nat)
    requires a in P && b in P
    requires Together(Merged(P, a, b), x, y)
    ensures Together(P, x, y) || (x in P[a] + P[b] && y in P[a] + P[b])
  {
    var Q := Merged(P, a, b);
    var e :| e in Q && x in Q[e] && y in Q[e];
    if a != b && e != a && e != b {
      assert x in P[e] && y in P[e];
    } else if a == b {
      assert x in P[e] && y in P[e];
    }
  }

  /** One step of mergeClusters: moving one more member `m` of `e1` to `e2`. */
  lemma PartlyMergedStep(P: map<nat, set<nat>>, L: map<nat, nat>, e1: nat, e2: nat, moved: set<nat>, m: nat)
    requires e1 in P && e2 in P && Exclusive(P, L)
    requires m in P[e1] && m !in moved && moved <= P[e1]
    ensures Relink(PartlyMerged(P, e1, e2, moved), m, e2) == PartlyMerged(P, e1, e2, moved + {m})
  {
    var before := PartlyMerged(P, e1, e2, moved);
    forall x | x in P
      ensures Relink(before, m, e2)[x] == PartlyMerged(P, e1, e2, moved + {m})[x]
    {
      if x != e1 && x != e2 {
        assert L[m] == e1;
        assert m !in P[x];
      }
    }
  }

  /** The mention/entity graph of one document. */
  class EntityGraph {
    const mentions: seq<Mention>
    var entityOf: map<nat, nat>
    var members: map<nat, set<nat>>
    var nextEntity: nat

    /** Every entity ever created is in `members`, members are mentions of the
        document, and each link points at an entity holding the mention. */
    ghost predicate Valid()
      reads this
    {
      (forall e: nat :: e in members <==> e < nextEntity)
      && (forall e, m :: e in members && m in members[e] ==> m < |mentions|)
      && (forall m :: m in entityOf ==> m < |mentions|)
      && Linked(members, entityOf)
    }

    /** No mention belongs to two entities. */
    ghost predicate Partitioned()
      reads this
    {
      Exclusive(members, entityOf)
    }

    constructor (ms: seq<Mention>)
      ensures Valid() && Partitioned()
      ensures mentions == ms && entityOf == map[] && members == map[] && nextEntity == 0
    {
      mentions := ms;
      entityOf := map[];
      members := map[];
      nextEntity := 0;
    }

    /** `new Entity(initial)`: a fresh entity holding `initial`; the mentions'
        links are not touched. */
    method NewEntity(initial: set<nat>) returns (e: nat)
      requires Valid()
      requires forall m :: m in initial ==> m < |mentions|
      modifies this
      ensures Valid()
      ensures e == old(nextEntity) && nextEntity == e + 1
      ensures members == old(members)[e := initial] && entityOf == old(entityOf)
      ensures initial == {} && old(Partitioned()) ==> Partitioned()
    {
      e := nextEntity;
      assert e !in members;
      members := members[e := initial];
      nextEntity := nextEntity + 1;
    }

    /** Mention.changeCoreference(e), and markCoreferent(e) likewise: `m`
        leaves its entity, joins `e`, and links to `e`. */
    method ChangeCoreference(m: nat, e: nat) returns (cm: ClusteredMention)
      requires Valid() && m < |mentions| && e in members
      modifies this
      ensures Valid() && nextEntity == old(nextEntity)
      ensures members == Reassigned(old(members), old(entityOf), m, e)
      ensures entityOf == old(entityOf)[m := e]
      ensures old(Partitioned()) ==> Partitioned() && members == Relink(old(members), m, e)
      ensures cm == ClusteredMention(m, e)
    {
      ghost var P, L := members, entityOf;
      if Partitioned() {
        ReassignedIsRelink(P, L, m, e);
      }
      if m in entityOf {
        var was := entityOf[m];
        members := members[was := members[was] - {m}];
      }
      members := members[e := members[e] + {m}];
      entityOf := entityOf[m := e];
      assert members == Reassigned(P, L, m, e);
      cm := ClusteredMention(m, e);
    }

    /** Mention.markSingleton(): `m` moves into a fresh entity of its own. */
    method MarkSingleton(m: nat) returns (cm: ClusteredMention)
      requires Valid() && m < |mentions|
      modifies this
      ensures Valid() && nextEntity == old(nextEntity) + 1
      ensures cm == ClusteredMention(m, old(nextEntity))
      ensures members == Reassigned(old(members)[old(nextEntity) := {}], old(entityOf), m, old(nextEntity))
      ensures members[cm.entity] == {m}
      ensures entityOf == old(entityOf)[m := cm.entity]
      ensures old(Partitioned()) ==> Partitioned()
      ensures old(Partitioned()) ==> members == Relink(old(members)[old(nextEntity) := {}], m, old(nextEntity))
    {
      var e := NewEntity({});
      cm := ChangeCoreference(m, e);
    }

    /** mergeClusters(e1, e2): the members of `e1` are copied out first, then
        each is moved to `e2` in turn (in the set's iteration order). */
    method MergeClusters(e1: nat, e2: nat)
      requires Valid() && Partitioned() && e1 in members && e2 in members
      modifies this
      ensures Valid() && Partitioned() && nextEntity == old(nextEntity)
      ensures members == Merged(old(members), e1, e2)
      ensures entityOf == Redirected(old(entityOf), e1, e2)
    {
      ghost var P0, L0 := members, entityOf;
      var pending := members[e1];
      assert P0[e1] - pending == {};
      assert P0[e1] - {} == P0[e1] && P0[e2] + {} == P0[e2];
      while pending != {}
        invariant Valid() && Partitioned() && nextEntity == old(nextEntity)
        invariant pending <= P0[e1]
        invariant members == PartlyMerged(P0, e1, e2, P0[e1] - pending)
        invariant PartlyRedirected(entityOf, L0, e2, P0[e1] - pending)
        decreases pending
      {
        var m :| m in pending;
        MoveMember(m, e1, e2, P0, L0, P0[e1] - pending);
        assert P0[e1] - (pending - {m}) == (P0[e1] - pending) + {m};
        pending := pending - {m};
      }
      MergeFinished(P0, L0, e1, e2, entityOf);
    }

    /** One turn of mergeClusters' loop: member `m` of `e1` moves to `e2`. */
    method MoveMember(m: nat, e1: nat, e2: nat, ghost P0: map<nat, set<nat>>, ghost L0: map<nat, nat>, ghost moved: set<nat>)
      requires Valid() && Partitioned() && e1 in P0 && e2 in P0 && Exclusive(P0, L0)
      requires m in P0[e1] && m !in moved && moved <= P0[e1]
      requires members == PartlyMerged(P0, e1, e2, moved) && PartlyRedirected(entityOf, L0, e2, moved)
      modifies this
      ensures Valid() && Partitioned() && nextEntity == old(nextEntity)
      ensures members == PartlyMerged(P0, e1, e2, moved + {m})
      ensures PartlyRedirected(entityOf, L0, e2, moved + {m})
    {
      PartlyMergedStep(P0, L0, e1, e2, moved, m);
      var _ := ChangeCoreference(m, e2);
    }
  }
}
