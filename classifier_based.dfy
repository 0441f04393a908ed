/** The learned system: a trained pairwise classifier decides, for each
    mention, which earlier entry it is coreferent with. The classifier and its
    feature extraction are a parameter; what is modelled is the nearest-previous
    linking loop, the loop that builds the training data, and the string and
    agreement helpers the features use. */
module ClassifierBased {
  import opened JavaString
  import opened Coref
  import RuleBased

  /** classifier.classOf on the features of (mention i, an earlier entry). */
  type Classifier = (nat, ClusteredMention) -> bool

  // ---------------------------------------------------------------------
  // runCoreference
  // ---------------------------------------------------------------------

  /** The entry the classifier accepts for mention `i`, scanning `cands` from
      the last entry down to the first. */
  function NearestAccepted(classOf: Classifier, i: nat, cands: seq<ClusteredMention>): (r: Option<nat>)
    ensures r.Some? ==> r.value < |cands| && classOf(i, cands[r.value])
    ensures r.Some? ==> forall k :: r.value < k < |cands| ==> !classOf(i, cands[k])
    ensures r.None? <==> forall k :: 0 <= k < |cands| ==> !classOf(i, cands[k])
    decreases |cands|
  {
    if cands == [] then None
    else if classOf(i, cands[|cands| - 1]) then Some(|cands| - 1)
    else NearestAccepted(classOf, i, cands[..|cands| - 1])
  }

  /** Entry `i` shares the entity of the nearest earlier entry the classifier
      accepts; when it accepts none, entry `i` has an entity created during
      the run (numbered from `N0`) that no earlier entry has. */
  predicate Chosen(classOf: Classifier, rtn: seq<ClusteredMention>, N0: nat, i: nat)
    requires i < |rtn|
  {
    match NearestAccepted(classOf, i, rtn[..i])
    case Some(j) => rtn[i].entity == rtn[j].entity
    case None => N0 <= rtn[i].entity && forall k :: 0 <= k < i ==> rtn[k].entity != rtn[i].entity
  }

  /** Entry i is mention i, linked as the classifier chose. */
  predicate FollowsClassifier(classOf: Classifier, rtn: seq<ClusteredMention>, N0: nat) {
    (forall i :: 0 <= i < |rtn| ==> rtn[i].mention == i)
    && forall i :: 0 <= i < |rtn| ==> Chosen(classOf, rtn, N0, i)
  }

  lemma FollowsStep(classOf: Classifier, rtn: seq<ClusteredMention>, N0: nat, cm: ClusteredMention)
    requires FollowsClassifier(classOf, rtn, N0)
    requires cm.mention == |rtn| && Chosen(classOf, rtn + [cm], N0, |rtn|)
    ensures FollowsClassifier(classOf, rtn + [cm], N0)
  {
    var r := rtn + [cm];
    forall i | 0 <= i < |rtn|
      ensures Chosen(classOf, r, N0, i)
    {
      assert r[..i] == rtn[..i];
      assert Chosen(classOf, rtn, N0, i);
    }
  }

  /** The graph as the loop leaves it after the entries `rtn`: each entry's
      recorded entity (one created during the run) still holds its mention,
      the entities created during the run hold only mentions already
      processed, and the entities of `P0`, which existed before, only
      mentions not yet processed. */
  ghost predicate RecordedSoFar(P: map<nat, set<nat>>, P0: map<nat, set<nat>>, N0: nat, rtn: seq<ClusteredMention>) {
    (forall k :: 0 <= k < |rtn| ==> N0 <= rtn[k].entity)
    && (forall k :: 0 <= k < |rtn| ==> rtn[k].entity in P && k in P[rtn[k].entity])
    && (forall e, m :: e in P && N0 <= e && m in P[e] ==> m < |rtn|)
    && (forall e :: e in P0 ==> e in P)
    && (forall e, m :: e in P0 && e in P && m in P[e] ==> |rtn| <= m)
  }

  /** Mention |rtn| joins the entity recorded for entry `j`. */
  lemma RecordedJoin(P: map<nat, set<nat>>, P0: map<nat, set<nat>>, N0: nat, rtn: seq<ClusteredMention>, j: nat)
    requires RecordedSoFar(P, P0, N0, rtn) && j < |rtn|
    requires forall e :: e in P0 ==> e < N0
    ensures RecordedSoFar(Relink(P, |rtn|, rtn[j].entity), P0, N0, rtn + [ClusteredMention(|rtn|, rtn[j].entity)])
  {
    var i, e := |rtn|, rtn[j].entity;
    var Q := Relink(P, i, e);
    var r := rtn + [ClusteredMention(i, e)];
    forall k | 0 <= k < |r|
      ensures r[k].entity in Q && k in Q[r[k].entity]
    {
      if k < i {
        assert r[k] == rtn[k];
      }
    }
    forall x, m | x in Q && N0 <= x && m in Q[x]
      ensures m < i + 1
    {
      assert m == i || m in P[x];
    }
    forall x, m | x in P0 && m in Q[x]
      ensures i + 1 <= m
    {
      assert x != e;
      assert Q[x] == P[x] - {i};
    }
  }

  /** Mention |rtn| is alone in the fresh entity `N`. */
  lemma RecordedSingleton(P: map<nat, set<nat>>, P0: map<nat, set<nat>>, N0: nat, rtn: seq<ClusteredMention>, N: nat)
    requires RecordedSoFar(P, P0, N0, rtn) && N0 <= N && N !in P
    requires forall e :: e in P0 ==> e < N0
    ensures RecordedSoFar(Relink(P[N := {}], |rtn|, N), P0, N0, rtn + [ClusteredMention(|rtn|, N)])
  {
    var i := |rtn|;
    var P1 := P[N := {}];
    var Q := Relink(P1, i, N);
    var r := rtn + [ClusteredMention(i, N)];
    forall k | 0 <= k < |r|
      ensures r[k].entity in Q && k in Q[r[k].entity]
    {
      if k < i {
        assert r[k] == rtn[k];
        assert rtn[k].entity != N;
      }
    }
    forall x, m | x in Q && N0 <= x && m in Q[x]
      ensures m < i + 1
    {
      assert m == i || m in P1[x];
    }
    forall x, m | x in P0 && m in Q[x]
      ensures i + 1 <= m
    {
      assert x != N;
      assert Q[x] == P[x] - {i};
    }
  }

  /** The fresh entity of a singleton differs from every recorded one. */
  lemma FreshEntityNew(classOf: Classifier, rtn: seq<ClusteredMention>, N0: nat, P: map<nat, set<nat>>, N: nat)
    requires forall k :: 0 <= k < |rtn| ==> rtn[k].entity in P
    requires N !in P && N0 <= N
    requires NearestAccepted(classOf, |rtn|, rtn).None?
    ensures Chosen(classOf, rtn + [ClusteredMention(|rtn|, N)], N0, |rtn|)
  {
    var r := rtn + [ClusteredMention(|rtn|, N)];
    assert r[..|rtn|] == rtn;
    forall k | 0 <= k < |rtn| ensures r[k].entity != N {
      assert r[k] == rtn[k];
    }
  }

  /** The inner loop: j = i - 1 down to 0, stopping at the first entry the
      classifier accepts; -1 when it accepts none. */
  method FindCoreferent(classOf: Classifier, i: nat, rtn: seq<ClusteredMention>) returns (coreferentWith: int)
    requires |rtn| == i
    ensures coreferentWith == match NearestAccepted(classOf, i, rtn) case Some(j) => j case None => -1
  {
    coreferentWith := -1;
    var j: int := i - 1;
    while j >= 0
      invariant -1 <= j < i
      invariant NearestAccepted(classOf, i, rtn) == NearestAccepted(classOf, i, rtn[..j + 1])
      decreases j
    {
      if classOf(i, rtn[j]) {
        coreferentWith := j;
        return;
      }
      assert rtn[..j + 1][..j] == rtn[..j];
      j := j - 1;
    }
  }

  /** One turn of the outer loop: mention |rtn| joins the entity of the entry
      the classifier picks, or is marked singleton. */
  method LinkMention(g: EntityGraph, classOf: Classifier, rtn: seq<ClusteredMention>, ghost P0: map<nat, set<nat>>, ghost N0: nat)
    returns (cm: ClusteredMention)
    requires g.Valid() && g.Partitioned() && |rtn| < |g.mentions| && N0 <= g.nextEntity
    requires forall e :: e in P0 ==> e < N0
    requires RecordedSoFar(g.members, P0, N0, rtn) && FollowsClassifier(classOf, rtn, N0)
    modifies g
    ensures g.Valid() && g.Partitioned() && N0 <= g.nextEntity
    ensures RecordedSoFar(g.members, P0, N0, rtn + [cm]) && FollowsClassifier(classOf, rtn + [cm], N0)
  {
    var i := |rtn|;
    var coreferentWith := FindCoreferent(classOf, i, rtn);
    ghost var P := g.members;
    if coreferentWith < 0 {
      ghost var N := g.nextEntity;
      cm := g.MarkSingleton(i);
      RecordedSingleton(P, P0, N0, rtn, N);
      FreshEntityNew(classOf, rtn, N0, P, N);
    } else {
      var j := coreferentWith;
      cm := g.ChangeCoreference(i, rtn[j].entity);
      RecordedJoin(P, P0, N0, rtn, j);
      assert (rtn + [cm])[..i] == rtn;
    }
    FollowsStep(classOf, rtn, N0, cm);
  }

  /** Once every mention is processed, the entities are exactly the groups of
      entries that share a recorded entity. */
  lemma AllRecorded(P: map<nat, set<nat>>, L: map<nat, nat>, P0: map<nat, set<nat>>, N0: nat, rtn: seq<ClusteredMention>)
    requires RecordedSoFar(P, P0, N0, rtn) && Exclusive(P, L)
    requires forall e, m :: e in P && m in P[e] ==> m < |rtn|
    ensures forall e, m :: e in P && m in P[e] ==> rtn[m].entity == e
    ensures forall e :: e in P0 ==> P[e] == {}
  {
    forall e | e in P0 ensures P[e] == {} {
      if m :| m in P[e] {
        assert false;
      }
    }
    forall e, m | e in P && m in P[e]
      ensures rtn[m].entity == e
    {
      assert L[m] == e;
      assert m in P[rtn[m].entity];
    }
  }

  /** runCoreference: each mention in document order joins the entity of the
      nearest earlier entry the classifier accepts, or starts a singleton.
      Afterwards the entities are the groups of entries with a common
      recorded entity; the entities that existed before are left empty. */
  method RunCoreference(g: EntityGraph, classOf: Classifier) returns (rtn: seq<ClusteredMention>)
    requires g.Valid() && g.Partitioned()
    modifies g
    ensures g.Valid() && g.Partitioned()
    ensures |rtn| == |g.mentions|
    ensures FollowsClassifier(classOf, rtn, old(g.nextEntity))
    ensures forall k :: 0 <= k < |rtn| ==> rtn[k].entity in g.members && k in g.members[rtn[k].entity]
    ensures forall e, m :: e in g.members && m in g.members[e] ==> m < |rtn| && rtn[m].entity == e
    ensures forall e :: e in old(g.members) ==> e in g.members && g.members[e] == {}
  {
    ghost var N0, P0 := g.nextEntity, g.members;
    rtn := [];
    for i := 0 to |g.mentions|
      invariant g.Valid() && g.Partitioned() && N0 <= g.nextEntity
      invariant |rtn| == i
      invariant RecordedSoFar(g.members, P0, N0, rtn)
      invariant FollowsClassifier(classOf, rtn, N0)
    {
      var cm := LinkMention(g, classOf, rtn, P0, N0);
      rtn := rtn + [cm];
    }
    AllRecorded(g.members, g.entityOf, P0, N0, rtn);
  }

  // ---------------------------------------------------------------------
  // train
  // ---------------------------------------------------------------------

  /** A training document: its number of mentions, and the index of each
      mention's gold entity where it has one (mentionToEntityMap). */
  datatype TrainingDocument = TrainingDocument(mentionCount: nat, gold: map<nat, nat>)

  /** One training datum: mention `mention` of document `document` against
      the earlier mention `candidate`, labelled with whether the two have the
      same gold entity. The features are left out. */
  datatype Datum = Datum(document: nat, mention: nat, candidate: nat, coreferent: bool)

  /** The data appended to `ds`, unless the scan failed. */
  function Appended(ds: seq<Datum>, r: Result<seq<Datum>>): Result<seq<Datum>> {
    match r
    case Fail(e) => Fail(e)
    case Ok(more) => Ok(ds + more)
  }

  /** The data mention `i` yields against the candidates below `j`, scanned
      from j - 1 down and stopping right after the first one with the same
      gold entity; a scanned candidate without a gold entity is an error. */
  function CandidateData(d: nat, gold: map<nat, nat>, i: nat, j: nat): Result<seq<Datum>>
    requires i in gold
    decreases j
  {
    if j == 0 then Ok([])
    else if j - 1 !in gold then Fail(IllegalArgument)
    else if gold[j - 1] == gold[i] then Ok([Datum(d, i, j - 1, true)])
    else Appended([Datum(d, i, j - 1, false)], CandidateData(d, gold, i, j - 1))
  }

  /** The data of the first `n` mentions of a document, each against its own
      earlier candidates; a mention without a gold entity is an error. */
  function DocumentData(d: nat, gold: map<nat, nat>, n: nat): Result<seq<Datum>>
    decreases n
  {
    if n == 0 then Ok([])
    else match DocumentData(d, gold, n - 1)
      case Fail(e) => Fail(e)
      case Ok(ds) =>
        if n - 1 !in gold then Fail(IllegalArgument)
        else Appended(ds, CandidateData(d, gold, n - 1, n - 1))
  }

  /** The dataset of the first `n` training documents. */
  function TrainingData(docs: seq<TrainingDocument>, n: nat): Result<seq<Datum>>
    requires n <= |docs|
  {
    if n == 0 then Ok([])
    else match TrainingData(docs, n - 1)
      case Fail(e) => Fail(e)
      case Ok(ds) => Appended(ds, DocumentData(n - 1, docs[n - 1].gold, docs[n - 1].mentionCount))
  }

  lemma AppendedAssoc(a: seq<Datum>, b: seq<Datum>, r: Result<seq<Datum>>)
    ensures Appended(a, Appended(b, r)) == Appended(a + b, r)
  {
    if r.Ok? {
      assert a + (b + r.value) == (a + b) + r.value;
    }
  }

  /** The candidate loop of train for mention `i`: j = i - 1 down to 0,
      appending one datum per candidate and stopping after the first
      positive. */
  method MentionDatums(d: nat, gold: map<nat, nat>, i: nat) returns (r: Result<seq<Datum>>)
    requires i in gold
    ensures r == CandidateData(d, gold, i, i)
  {
    var added: seq<Datum> := [];
    var j: int := i - 1;
    assert Appended([], CandidateData(d, gold, i, i)) == CandidateData(d, gold, i, i) by {
      if CandidateData(d, gold, i, i).Ok? {
        assert [] + CandidateData(d, gold, i, i).value == CandidateData(d, gold, i, i).value;
      }
    }
    while j >= 0
      invariant -1 <= j < i
      invariant Appended(added, CandidateData(d, gold, i, j + 1)) == CandidateData(d, gold, i, i)
      decreases j
    {
      if j !in gold {
        return Fail(IllegalArgument);
      }
      var coreferent := gold[j] == gold[i];
      if coreferent {
        return Ok(added + [Datum(d, i, j, true)]);
      }
      AppendedAssoc(added, [Datum(d, i, j, false)], CandidateData(d, gold, i, j));
      added := added + [Datum(d, i, j, false)];
      j := j - 1;
    }
    assert added + [] == added;
    r := Ok(added);
  }

  /** Once train has failed on a document, later mentions change nothing. */
  lemma {:induction false} DocumentFailPersists(d: nat, gold: map<nat, nat>, i: nat, n: nat)
    requires i <= n && DocumentData(d, gold, i).Fail?
    ensures DocumentData(d, gold, n) == DocumentData(d, gold, i)
    decreases n
  {
    if n > i {
      DocumentFailPersists(d, gold, i, n - 1);
    }
  }

  /** Once train has failed, later documents change nothing. */
  lemma {:induction false} TrainingFailPersists(docs: seq<TrainingDocument>, i: nat, n: nat)
    requires i <= n <= |docs| && TrainingData(docs, i).Fail?
    ensures TrainingData(docs, n) == TrainingData(docs, i)
    decreases n
  {
    if n > i {
      TrainingFailPersists(docs, i, n - 1);
    }
  }

  /** The mention loop of train over one document. */
  method DocumentDatums(d: nat, doc: TrainingDocument) returns (r: Result<seq<Datum>>)
    ensures r == DocumentData(d, doc.gold, doc.mentionCount)
  {
    var ds: seq<Datum> := [];
    for i := 0 to doc.mentionCount
      invariant DocumentData(d, doc.gold, i) == Ok(ds)
    {
      if i !in doc.gold {
        DocumentFailPersists(d, doc.gold, i + 1, doc.mentionCount);
        return Fail(IllegalArgument);
      }
      var more := MentionDatums(d, doc.gold, i);
      if more.Fail? {
        DocumentFailPersists(d, doc.gold, i + 1, doc.mentionCount);
        return Fail(more.error);
      }
      ds := ds + more.value;
    }
    r := Ok(ds);
  }

  /** train, up to the dataset handed to the classifier factory: the data of
      every document in turn, or the IllegalArgumentException that aborts
      training. */
  method Train(docs: seq<TrainingDocument>) returns (r: Result<seq<Datum>>)
    ensures r == TrainingData(docs, |docs|)
  {
    var dataset: seq<Datum> := [];
    for n := 0 to |docs|
      invariant TrainingData(docs, n) == Ok(dataset)
    {
      var more := DocumentDatums(n, docs[n]);
      if more.Fail? {
        TrainingFailPersists(docs, n + 1, |docs|);
        return Fail(more.error);
      }
      dataset := dataset + more.value;
    }
    r := Ok(dataset);
  }

  /** With every scanned candidate in the gold map, the scan succeeds. */
  lemma {:induction false} CandidatesSucceed(d: nat, gold: map<nat, nat>, i: nat, j: nat)
    requires i in gold && forall k :: 0 <= k < j ==> k in gold
    ensures CandidateData(d, gold, i, j).Ok?
    decreases j
  {
    if j > 0 && gold[j - 1] != gold[i] {
      CandidatesSucceed(d, gold, i, j - 1);
    }
  }

  /** The scan only ever fails with IllegalArgumentException. */
  lemma {:induction false} CandidatesFailIllegal(d: nat, gold: map<nat, nat>, i: nat, j: nat)
    requires i in gold
    ensures CandidateData(d, gold, i, j).Fail? ==> CandidateData(d, gold, i, j).error == IllegalArgument
    decreases j
  {
    if j > 0 && j - 1 in gold && gold[j - 1] != gold[i] {
      CandidatesFailIllegal(d, gold, i, j - 1);
    }
  }

  /** train fails on a document exactly when one of its mentions has no gold
      entity, and then with IllegalArgumentException. */
  lemma {:induction false} DocumentFailsIff(d: nat, gold: map<nat, nat>, n: nat)
    ensures DocumentData(d, gold, n).Fail? <==> exists i :: 0 <= i < n && i !in gold
    ensures DocumentData(d, gold, n).Fail? ==> DocumentData(d, gold, n).error == IllegalArgument
    decreases n
  {
    if n > 0 {
      DocumentFailsIff(d, gold, n - 1);
      if n - 1 in gold {
        CandidatesFailIllegal(d, gold, n - 1, n - 1);
        if forall i :: 0 <= i < n ==> i in gold {
          CandidatesSucceed(d, gold, n - 1, n - 1);
        }
      }
    }
  }

  /** train aborts exactly when some training document has a mention
      without a gold entity. */
  lemma {:induction false} TrainingFailsIff(docs: seq<TrainingDocument>, n: nat)
    requires n <= |docs|
    ensures TrainingData(docs, n).Fail? <==>
      exists k, i :: 0 <= k < n && 0 <= i < docs[k].mentionCount && i !in docs[k].gold
    ensures TrainingData(docs, n).Fail? ==> TrainingData(docs, n).error == IllegalArgument
    decreases n
  {
    if n > 0 {
      TrainingFailsIff(docs, n - 1);
      DocumentFailsIff(n - 1, docs[n - 1].gold, docs[n - 1].mentionCount);
    }
  }

  /** The data of mention `i` against the candidates below `j`: candidates
      j - 1, j - 2, ... in turn, each labelled with whether its gold entity is
      that of `i`; only the last datum can be positive, and the scan stops
      before candidate 0 only at a positive. */
  lemma {:induction false} CandidateDataShape(d: nat, gold: map<nat, nat>, i: nat, j: nat, ds: seq<Datum>)
    requires i in gold && CandidateData(d, gold, i, j) == Ok(ds)
    ensures |ds| <= j
    ensures forall k :: 0 <= k < |ds| ==> ds[k].document == d && ds[k].mention == i && ds[k].candidate + k + 1 == j
    ensures forall k :: 0 <= k < |ds| ==> ds[k].candidate in gold && ds[k].coreferent == (gold[ds[k].candidate] == gold[i])
    ensures forall k :: 0 <= k < |ds| - 1 ==> !ds[k].coreferent
    ensures |ds| < j ==> ds != [] && ds[|ds| - 1].coreferent
    decreases j
  {
    if j > 0 && j - 1 in gold && gold[j - 1] == gold[i] {
      assert ds == [Datum(d, i, j - 1, true)];
    } else if j > 0 && j - 1 in gold {
      var rest := CandidateData(d, gold, i, j - 1).value;
      CandidateDataShape(d, gold, i, j - 1, rest);
      assert ds == [Datum(d, i, j - 1, false)] + rest;
      forall k | 0 <= k < |ds|
        ensures ds[k].document == d && ds[k].mention == i && ds[k].candidate + k + 1 == j
        ensures ds[k].candidate in gold && ds[k].coreferent == (gold[ds[k].candidate] == gold[i])
      {
        if k > 0 {
          assert ds[k] == rest[k - 1];
        }
      }
      forall k | 0 <= k < |ds| - 1 ensures !ds[k].coreferent {
        if k > 0 {
          assert ds[k] == rest[k - 1];
        }
      }
      if |ds| < j {
        assert ds[|ds| - 1] == rest[|rest| - 1];
      }
    }
  }

  /** Facts about a document's data: every datum pairs a mention with an
      earlier one and carries the gold label; the data come mention by
      mention in document order; and a positive datum is the last of its
      mention's, so each mention yields at most one. */
  ghost predicate WellOrdered(d: nat, gold: map<nat, nat>, n: nat, ds: seq<Datum>) {
    (forall k :: 0 <= k < |ds| ==> ds[k].document == d && ds[k].candidate < ds[k].mention < n)
    && (forall k :: 0 <= k < |ds| ==> ds[k].mention in gold && ds[k].candidate in gold)
    && (forall k :: 0 <= k < |ds| ==> ds[k].coreferent == (gold[ds[k].candidate] == gold[ds[k].mention]))
    && (forall k, k' :: 0 <= k < k' < |ds| ==> ds[k].mention <= ds[k'].mention)
    && (forall k, k' :: 0 <= k < k' < |ds| && ds[k].coreferent ==> ds[k].mention < ds[k'].mention)
  }

  lemma WellOrderedAppend(d: nat, gold: map<nat, nat>, n: nat, ds: seq<Datum>, more: seq<Datum>)
    requires WellOrdered(d, gold, n, ds) && n in gold && CandidateData(d, gold, n, n) == Ok(more)
    ensures WellOrdered(d, gold, n + 1, ds + more)
  {
    CandidateDataShape(d, gold, n, n, more);
    var all := ds + more;
    forall k | 0 <= k < |all|
      ensures all[k].document == d && all[k].candidate < all[k].mention < n + 1
      ensures all[k].mention in gold && all[k].candidate in gold
      ensures all[k].coreferent == (gold[all[k].candidate] == gold[all[k].mention])
    {
      if k >= |ds| {
        assert all[k] == more[k - |ds|];
      } else {
        assert all[k] == ds[k];
      }
    }
    forall k, k' | 0 <= k < k' < |all|
      ensures all[k].mention <= all[k'].mention
      ensures all[k].coreferent ==> all[k].mention < all[k'].mention
    {
      if k' < |ds| {
        assert all[k] == ds[k] && all[k'] == ds[k'];
      } else if k < |ds| {
        assert all[k] == ds[k] && all[k'] == more[k' - |ds|];
      } else {
        assert all[k] == more[k - |ds|] && all[k'] == more[k' - |ds|];
        assert k - |ds| < |more| - 1;
      }
    }
  }

  /** A document's data, when train gets through it, are well ordered: at
      most one positive per mention, and it is that mention's last datum. */
  lemma {:induction false} DocumentDataOrdered(d: nat, gold: map<nat, nat>, n: nat)
    requires DocumentData(d, gold, n).Ok?
    ensures WellOrdered(d, gold, n, DocumentData(d, gold, n).value)
    decreases n
  {
    if n > 0 {
      DocumentDataOrdered(d, gold, n - 1);
      var ds := DocumentData(d, gold, n - 1).value;
      WellOrderedAppend(d, gold, n - 1, ds, CandidateData(d, gold, n - 1, n - 1).value);
    }
  }

  // ---------------------------------------------------------------------
  // Feature helpers
  // ---------------------------------------------------------------------

  /** The word is no article and occurs, ignoring case, inside `short`. */
  predicate Shared(w: string, short: string) {
    !RuleBased.IsArticle(w) && Contains(Lower(short), Lower(w))
  }

  /** The positions of the words of `ws` that satisfy `p`. */
  function Positions(ws: seq<string>, p: string -> bool): set<nat> {
    set k: nat | k < |ws| && p(ws[k])
  }

  /** The positions of the words of `ws` shared with `short`. */
  function SharedWords(ws: seq<string>, short: string): set<nat> {
    Positions(ws, w => Shared(w, short))
  }

  /** Counting one more word. */
  lemma PositionsNext(ws: seq<string>, k: nat, p: string -> bool)
    requires k < |ws|
    ensures |Positions(ws[..k + 1], p)| == |Positions(ws[..k], p)| + if p(ws[k]) then 1 else 0
  {
    var a, b := ws[..k + 1], ws[..k];
    var A, B := Positions(a, p), Positions(b, p);
    assert k !in B;
    forall x: nat ensures x in A <==> x in B || (x == k && p(ws[k])) {
      if x < k {
        assert a[x] == b[x];
      }
    }
    if p(ws[k]) {
      assert A == B + {k};
    } else {
      assert A == B;
    }
  }

  /** At most one position per word. */
  lemma {:induction false} PositionsBound(ws: seq<string>, p: string -> bool)
    ensures |Positions(ws, p)| <= |ws|
    decreases |ws|
  {
    if ws != [] {
      var k := |ws| - 1;
      PositionsBound(ws[..k], p);
      PositionsNext(ws, k, p);
      assert ws[..k + 1] == ws;
    }
  }

  /** countOverlap(a, b): how many non-article words of the longer string
      (by length, `b` on a tie) occur, ignoring case, in the shorter one; at
      most the longer string's word count. */
  method CountOverlap(a: string, b: string) returns (r: nat)
    ensures var long, short := (if |a| > |b| then a else b), (if |a| > |b| then b else a);
      r == |SharedWords(Split(long), short)| && r <= |Split(long)|
  {
    var longStr, shortStr := b, a;
    if |a| > |b| {
      longStr, shortStr := a, b;
    }
    var words := Split(longStr);
    var nCommon := 0;
    for k := 0 to |words|
      invariant nCommon == |SharedWords(words[..k], shortStr)| && nCommon <= k
    {
      PositionsNext(words, k, w => Shared(w, shortStr));
      if !RuleBased.IsArticle(words[k]) {
        if Contains(Lower(shortStr), Lower(words[k])) {
          nCommon := nCommon + 1;
        }
      }
    }
    assert words[..|words|] == words;
    r := nCommon;
  }

  /** countOverlap counts what countOverlapPercent of the rule-based system
      puts in its numerator. */
  lemma {:induction false} TallyCountsShared(ws: seq<string>, short: string)
    ensures RuleBased.Tally(ws, short).common == |SharedWords(ws, short)|
    decreases |ws|
  {
    if ws != [] {
      var k := |ws| - 1;
      TallyCountsShared(ws[..k], short);
      PositionsNext(ws, k, w => Shared(w, short));
      assert ws[..k + 1] == ws;
    }
  }

  /** The word starts with a character that upper-casing leaves alone. */
  predicate StartsUnchanged(w: string) {
    w != "" && UpperChar(w[0]) == w[0]
  }

  /** containUppercase over a word list: true at the first word whose first
      character upper-casing leaves alone; charAt(0) on an empty word met
      before that raises StringIndexOutOfBoundsException. */
  function UppercaseIn(ws: seq<string>): Result<bool> {
    if ws == [] then Ok(false)
    else if ws[0] == "" then Fail(IndexOutOfBounds)
    else if UpperChar(ws[0][0]) == ws[0][0] then Ok(true)
    else UppercaseIn(ws[1..])
  }

  /** What the scan answers: true iff some word starts unchanged and no
      empty word comes before it; false iff no word is empty and none starts
      unchanged; otherwise the exception. */
  lemma {:induction false} UppercaseInMeans(ws: seq<string>)
    ensures UppercaseIn(ws) == Ok(true) <==>
      exists k :: 0 <= k < |ws| && StartsUnchanged(ws[k]) && forall k' :: 0 <= k' < k ==> ws[k'] != ""
    ensures UppercaseIn(ws) == Ok(false) <==>
      forall k :: 0 <= k < |ws| ==> ws[k] != "" && !StartsUnchanged(ws[k])
    ensures UppercaseIn(ws).Fail? ==> UppercaseIn(ws).error == IndexOutOfBounds
  {
    if ws != [] && ws[0] != "" && UpperChar(ws[0][0]) != ws[0][0] {
      var tl := ws[1..];
      UppercaseInMeans(tl);
      assert forall k :: 1 <= k < |ws| ==> ws[k] == tl[k - 1];
      if exists k :: 0 <= k < |tl| && StartsUnchanged(tl[k]) && forall k' :: 0 <= k' < k ==> tl[k'] != "" {
        var k :| 0 <= k < |tl| && StartsUnchanged(tl[k]) && forall k' :: 0 <= k' < k ==> tl[k'] != "";
        assert StartsUnchanged(ws[k + 1]) && forall k' :: 0 <= k' < k + 1 ==> ws[k'] != "";
      }
      if exists k :: 0 <= k < |ws| && StartsUnchanged(ws[k]) && forall k' :: 0 <= k' < k ==> ws[k'] != "" {
        var k :| 0 <= k < |ws| && StartsUnchanged(ws[k]) && forall k' :: 0 <= k' < k ==> ws[k'] != "";
        assert k > 0;
        assert StartsUnchanged(tl[k - 1]) && forall k' :: 0 <= k' < k - 1 ==> tl[k'] != "";
      }
    }
  }

  /** containUppercase(a): the words of `a` scanned in order. */
  method ContainUppercase(a: string) returns (r: Result<bool>)
    ensures r == UppercaseIn(Split(a))
  {
    var words := Split(a);
    for k := 0 to |words|
      invariant UppercaseIn(words[k..]) == UppercaseIn(words)
    {
      assert words[k..][1..] == words[k + 1..];
      if words[k] == "" {
        return Fail(IndexOutOfBounds);
      }
      var firstLetter := words[k][0];
      if UpperChar(firstLetter) == firstLetter {
        return Ok(true);
      }
    }
    r := Ok(false);
  }

  /** On a mention's gloss, whose words are its non-empty tokens,
      containUppercase never raises: it tells whether some token starts with
      a character upper-casing leaves alone (a capital, a digit, a
      punctuation mark). */
  lemma GlossUppercase(m: Mention)
    ensures UppercaseIn(Split(Gloss(m))) == Ok(exists k :: 0 <= k < |m.text| && StartsUnchanged(m.text[k]))
  {
    GlossSplitsIntoText(m);
    UppercaseInMeans(m.text);
  }

  /** isStrictGenderMatch: both genders are known and equal. */
  function StrictGenderMatch(a: Mention, b: Mention): (r: bool)
    ensures r ==> GenderMatch(a, b)
  {
    a.gender.Some? && b.gender.Some? && a.gender == b.gender
  }

  /** isStrictNumberMatch: both numbers are known and equal. */
  function StrictNumberMatch(a: Mention, b: Mention): (r: bool)
    ensures r ==> NumberMatch(a, b)
  {
    a.number.Some? && b.number.Some? && a.number == b.number
  }

  /** isStrictPersonMatch: two unquoted pronoun glosses with known and equal
      speakers; every other pair fails. */
  function StrictPersonMatch(a: Mention, b: Mention): (r: bool)
    ensures r ==> PersonMatch(a, b)
    ensures r ==> a.glossIsPronoun && b.glossIsPronoun
  {
    a.glossIsPronoun && b.glossIsPronoun && !(a.quoted || b.quoted)
    && a.speaker.Some? && b.speaker.Some? && a.speaker == b.speaker
  }

  /** Relaxed person agreement holds whenever either gloss is not a pronoun,
      and there the strict one fails. */
  lemma PersonOutsidePronouns(a: Mention, b: Mention)
    requires !a.glossIsPronoun || !b.glossIsPronoun
    ensures PersonMatch(a, b) && !StrictPersonMatch(a, b)
  {
  }
}
