# Coreference systems of cs224n-pa3, modelled in Dafny

The repository resolves coreference. Every noun-phrase mention of a document
ends up in an `Entity`, a cluster of mentions that refer to the same thing.
Each system in `java/src/cs224n/corefsystems/` turns a document's mention list
into a list of `ClusteredMention`s, one (mention, entity) pair per mention.
This project models those systems and proves what each one promises:

- `AllSingleton` puts every mention in its own entity. `OneCluster` puts all
  mentions in one entity.
- `BetterBaseline` keys entities by lower-cased gloss. A mention whose gloss
  shares most of its words with a registered key joins that key's entity.
- `EntityCentric` starts from singletons. It runs a sieve of string rules over
  all pairs of the recorded list (exact gloss, acronym, stop-word-free words,
  words up to the head, head word, lower-cased head, head lemma), then
  attaches pronouns to their closest compatible antecedent.
- `RuleBased` starts from exact lower-cased gloss matching. Its phases move
  each listed mention into the entity of the last entry that passes the
  phase's test. Its synonym training counts word co-occurrences.
- `HobbsAlgorithm` implements Hobbs's naive pronoun search over parse trees
  whose nodes carry unique integer ids.
- `ClassifierBased` links each mention to the nearest earlier entry that a
  classifier accepts. Its training turns gold clusters into labelled pairs.

The classes the systems share are not part of this model. `Mention`,
`Entity`, `ClusteredMention`, `Document`, `Tree`, `Pronoun` and `Util` are
declared in `coref.dfy` and `hobbs.dfy` with the behaviour the systems rely on:

- `Coref.EntityGraph` is one document's mention/entity graph. Mentions are
  document indices and entities are integer ids.
  - `entityOf` is each mention's link to its entity.
  - `members` is each entity's member set.
  - `nextEntity` supplies fresh entities.
  - `changeCoreference` and `markCoreferent` move a mention into an entity;
    `markSingleton` creates a fresh entity holding only the mention.
- A `ClusteredMention` is an immutable (mention, entity at creation) pair.
  Later merges do not rewrite it, so rules keep reading the recorded entity,
  as in the source.
- Each mention's attributes are precomputed fields: its words, head, lemma,
  NER tag, gender/number/person agreement and pronoun flags.
- `Tree.pathToIndex` is a function parameter (`Hobbs.PathTo`).

Files: `java_string.dfy` holds Java's `toLowerCase` (ASCII), `split(" ")` and
`contains`. `coref.dfy` holds the shared graph. There is one file per system.

Where the prose description of the Hobbs search and the code differ, the model
follows the code:

- In the climbing loop, an NP X reached through a non-head child proposes
  that child, which is position 1 of X's path, not X itself.
- The step-7 search passes the token index `startIndex` as its bound, not the
  smallest uid on the path.
- Step 8 proposes the first breadth-first NP whose uid is at least X's uid.
  The exclusion list is consulted only after the NP test, so it never blocks
  an NP.
- The search of earlier sentences calls `getAntecedent(root, MAX_VALUE)`. An
  NP therefore qualifies only when some NP or S of the tree has a larger uid;
  it is not simply the first NP met.
- A null subtree raises `NullPointerException`, and a one-entry NP path
  raises `IndexOutOfBoundsException`. Both are results of `Hobbs.ParseOf`.

## Model

All paths are under `java/src/cs224n/corefsystems/`; the source column gives
them in full.

| member | source | states |
|---|---|---|
| Coref.Relink | java/src/cs224n/corefsystems/EntityCentric.java:634 | after changeCoreference(e) the mention is a member of `e` and of no other entity; the set of entities is unchanged |
| Coref.Merged | java/src/cs224n/corefsystems/EntityCentric.java:628-636 | merging e1 into e2: e2 holds the members of both, e1 is left empty (when distinct), every other entity keeps its members |
| Coref.ReassignedIsRelink | java/src/cs224n/corefsystems/EntityCentric.java:634 | in a graph where each mention is in exactly its linked entity, removing it from its linked entity equals removing it from all, and the graph stays so |
| Coref.MergeEmptyIsNoop | java/src/cs224n/corefsystems/EntityCentric.java:629-635 | merging an entity with no mentions changes nothing (the relink loop runs zero times) |
| Coref.MergeTwice | java/src/cs224n/corefsystems/EntityCentric.java:628-636 | merging the same pair a second time changes nothing |
| Coref.MergeBackSamePartition | java/src/cs224n/corefsystems/EntityCentric.java:628-636 | merging e2 back into e1 after e1 into e2 leaves the same grouping of mentions |
| Coref.MergeCoarsens | java/src/cs224n/corefsystems/EntityCentric.java:628-636 | mentions that share an entity still do after a merge, and all members of the two entities end up together |
| Coref.MergeJoinsOnlyThePair | java/src/cs224n/corefsystems/EntityCentric.java:628-636 | two mentions together after a merge were together before, or both were members of the merged pair |
| Coref.EntityGraph.NewEntity | java/src/cs224n/corefsystems/OneCluster.java:30 | `new Entity(list)`: a fresh id holding the given mentions; links and other entities unchanged |
| Coref.EntityGraph.ChangeCoreference | java/src/cs224n/corefsystems/EntityCentric.java:634 | the mention's link becomes `e` and it moves from its old entity into `e`; every mention stays in exactly its linked entity |
| Coref.EntityGraph.MarkSingleton | java/src/cs224n/corefsystems/AllSingleton.java:27 | a fresh entity is created holding only the mention, which leaves its old entity; the returned pair names them |
| Coref.EntityGraph.MergeClusters | java/src/cs224n/corefsystems/EntityCentric.java:628-636 | every member of e1 moves to e2 (the copy of the member list makes the loop run over the original members); links of e1's members now name e2; the ClassifierBased copy is identical |
| AllSingleton.RunCoreference | java/src/cs224n/corefsystems/AllSingleton.java:23-30 | one entry per mention in document order, entry k in a fresh entity holding exactly mention k; earlier entities end empty; the whole clustering is one singleton per mention (also EntityCentric.allSingleton) |
| AllSingleton.SinglesAre | java/src/cs224n/corefsystems/AllSingleton.java:26-28 | after the loop the entities are exactly the old ones emptied plus one singleton per mention |
| OneCluster.JoinOne | java/src/cs224n/corefsystems/OneCluster.java:33 | marking mention i coreferent with the shared entity adds i to it and keeps the earlier mentions linked to it |
| OneCluster.RunCoreference | java/src/cs224n/corefsystems/OneCluster.java:27-36 | one new entity; one entry per mention in document order, all naming that entity; it holds exactly all mentions, earlier entities end empty |
| OneCluster.Finish | java/src/cs224n/corefsystems/OneCluster.java:32-34 | after the loop each mention is in exactly the entity it links to and the earlier entities are empty |
| EntityCentric.AcronymOf | java/src/cs224n/corefsystems/EntityCentric.java:560-569 | the acronym has at most one character per word, each an upper-case letter |
| EntityCentric.AcronymOfAppend | java/src/cs224n/corefsystems/EntityCentric.java:563-567 | the acronym of two word lists joined is the two acronyms joined (in-order first letters) |
| EntityCentric.AcronymOfWord | java/src/cs224n/corefsystems/EntityCentric.java:564-566 | a word contributes its first character exactly when that is an upper-case letter |
| EntityCentric.Acronym | java/src/cs224n/corefsystems/EntityCentric.java:560-569 | the loop builds exactly the acronym of the space-split words |
| EntityCentric.MatchWithoutStopWords | java/src/cs224n/corefsystems/EntityCentric.java:429-441 | holds iff every non-stop word (tested lower-cased) of each list occurs, case-sensitively, in the other |
| EntityCentric.NoStopMatchIsSameWords | java/src/cs224n/corefsystems/EntityCentric.java:429-441 | that test holds iff both lists have the same set of non-stop words, so it is symmetric and reflexive |
| EntityCentric.HeadPrefixNonEmpty | java/src/cs224n/corefsystems/EntityCentric.java:444-463 | the words up to the head glued together are never empty, so the `!s1.equals("")` guard always passes |
| EntityCentric.HeadPrefixString | java/src/cs224n/corefsystems/EntityCentric.java:444-463 | the gluing loop yields the words from the span start through the head |
| EntityCentric.SharedWords | java/src/cs224n/corefsystems/EntityCentric.java:468-494 | the overlap count never exceeds the shorter mention's word count |
| EntityCentric.LargeOverlapNeedsComparableLength | java/src/cs224n/corefsystems/EntityCentric.java:468-494 | a partial-overlap match needs each mention above 66% of the other's length and one of them longer than 3 words |
| EntityCentric.PartialOverlap | java/src/cs224n/corefsystems/EntityCentric.java:468-494 | the counting loop decides exactly the overlap-above-0.66 relation |
| EntityCentric.RuleHolds | java/src/cs224n/corefsystems/EntityCentric.java:215-298 | the inner-loop test of each rule decides exactly that rule's match relation |
| EntityCentric.KeyedMatches | java/src/cs224n/corefsystems/EntityCentric.java:215-298 | the exact, stop-word, head-prefix, head, lower-head and lemma rules match iff neither gloss is a pronoun and the two mentions' keys are equal |
| EntityCentric.MentionSelection | java/src/cs224n/corefsystems/EntityCentric.java:328-335 | true iff no member of the recorded entity has a smaller document index than the mention (vacuous for an emptied entity) |
| EntityCentric.Sweep | java/src/cs224n/corefsystems/EntityCentric.java:215-230 | a rule's nested loops leave the entities as the in-order fold of merges of recorded entities over the accepted pairs |
| EntityCentric.ExactMatch | java/src/cs224n/corefsystems/EntityCentric.java:215-230 | exactMatch merges recorded entities of pairs (i, j ≥ i) in scan order exactly where the exact-gloss rule accepts |
| EntityCentric.AcronymMatch | java/src/cs224n/corefsystems/EntityCentric.java:341-357 | acronymMatch merges over all ordered pairs of selected entries exactly where the acronym rule accepts |
| EntityCentric.NoStopWordMatch | java/src/cs224n/corefsystems/EntityCentric.java:410-425 | noStopWordMatch merges over pairs (i, j > i) of selected entries exactly where the stop-word rule accepts |
| EntityCentric.DropAfterHeadMatch | java/src/cs224n/corefsystems/EntityCentric.java:444-463 | dropAfterHeadMatch merges over pairs (i, j > i) of selected entries exactly where the head-prefix rule accepts |
| EntityCentric.HeadExactMatch | java/src/cs224n/corefsystems/EntityCentric.java:236-249 | headExactMatch merges over pairs (i, j ≥ i) of selected entries exactly where the head words are equal |
| EntityCentric.HeadLowcaseMatch | java/src/cs224n/corefsystems/EntityCentric.java:255-269 | headLowcaseMatch merges over pairs of selected entries exactly where the lower-cased heads are equal |
| EntityCentric.HeadLemmaMatch | java/src/cs224n/corefsystems/EntityCentric.java:275-298 | headLemmaMatch merges over pairs (i, j ≥ i) exactly where the head lemmas are equal |
| EntityCentric.PartialOverlapMatch | java/src/cs224n/corefsystems/EntityCentric.java:468-494 | partialOverlapMatch merges over pairs (i, j > i) exactly where the overlap rule accepts |
| EntityCentric.StepJoinsOnlyMatches | java/src/cs224n/corefsystems/EntityCentric.java:224-228 | one step of a rule joins two mentions only if they were together or the rule accepted the pair and both belong to its two recorded entities |
| EntityCentric.SweepCoarsens | java/src/cs224n/corefsystems/EntityCentric.java:215-230 | no rule sweep ever separates two mentions |
| EntityCentric.KeyedSweepSound | java/src/cs224n/corefsystems/EntityCentric.java:215-298 | from singletons, a keyed rule's sweep puts two distinct mentions together only if neither gloss is a pronoun and their keys are equal ("merges only when") |
| EntityCentric.PickedMembers | java/src/cs224n/corefsystems/EntityCentric.java:500-508 | the pronoun list and the other list hold exactly the (selected) entries whose head is, resp. is not, a pronoun, in list order |
| EntityCentric.SplitByPronoun | java/src/cs224n/corefsystems/EntityCentric.java:498-508 | the first loop builds exactly those two lists, consulting mentionSelection in the starting state |
| EntityCentric.ClosestUpTo | java/src/cs224n/corefsystems/EntityCentric.java:515-539 | the chosen antecedent precedes the pronoun and agrees in NER, gender and number; none later in the document agrees; none is chosen iff none agrees; the earliest listed wins a tie |
| EntityCentric.ClosestIsUnique | java/src/cs224n/corefsystems/EntityCentric.java:526 | any entry that is a closest agreeing antecedent and strictly beats every earlier-listed one is the one chosen |
| EntityCentric.ClosestAntecedent | java/src/cs224n/corefsystems/EntityCentric.java:511-539 | the bestDistance/bestMatch loop returns the recorded entity of the closest agreeing antecedent, or null when there is none |
| EntityCentric.AssignPronoun | java/src/cs224n/corefsystems/EntityCentric.java:511-541 | one pronoun's turn merges its recorded entity into its closest antecedent's, or changes nothing |
| EntityCentric.AssignPronouns | java/src/cs224n/corefsystems/EntityCentric.java:511-542 | the pronouns take their turns in list order |
| EntityCentric.PronounMatch | java/src/cs224n/corefsystems/EntityCentric.java:496-543 | pronounMatch with mentionSelection; with `select` false it is ClassifierBased.pronounMatch (ClassifierBased.java lines 535-567) |
| EntityCentric.PronounFoldCoarsens | java/src/cs224n/corefsystems/EntityCentric.java:511-542 | pronoun resolution never separates two mentions |
| EntityCentric.PronounStepJoins | java/src/cs224n/corefsystems/EntityCentric.java:540-541 | a pronoun's turn joins two mentions only if they were together or both lie in the pronoun's entity and its closest antecedent's entity |
| EntityCentric.StringListMatch | java/src/cs224n/corefsystems/EntityCentric.java:654-663 | holds iff the two word lists are equal (same length, same word at each position) |
| EntityCentric.HobbsToMention | java/src/cs224n/corefsystems/EntityCentric.java:641-648 | the first entry whose mention is in the sentence and reads exactly the words; null iff there is none |
| EntityCentric.RuleSweepCoarsens | java/src/cs224n/corefsystems/EntityCentric.java:215-230 | a rule method, run from any state, never separates two mentions |
| EntityCentric.SievedCoarsens | java/src/cs224n/corefsystems/EntityCentric.java:150-158 | the whole string sieve never separates two mentions |
| EntityCentric.RunCoreference | java/src/cs224n/corefsystems/EntityCentric.java:147-168 | singletons in document order, then the seven enabled rules in order, then pronounMatch with selection |
| RuleBased.WordTestsIgnoreCase | java/src/cs224n/corefsystems/RuleBased.java:579-597 | isPronoun and isArticle give the same answer for a word and its lower-cased form |
| RuleBased.ParseIsNounNever | java/src/cs224n/corefsystems/RuleBased.java:567-573 | parseIsNoun is false for every tag: the lower-cased tag never matches the upper-case set |
| RuleBased.LowerGlossWords | java/src/cs224n/corefsystems/RuleBased.java:361 | splitting a lower-cased gloss gives the mention's words lower-cased |
| RuleBased.ExactEntitiesByKey | java/src/cs224n/corefsystems/RuleBased.java:138-153 | two mentions get the same entity iff their lower-cased glosses are equal; every entity is new |
| RuleBased.FirstOfKeyIsFresh | java/src/cs224n/corefsystems/RuleBased.java:138-153 | the first mention with a key gets a fresh entity shared with no earlier mention |
| RuleBased.ExactMatch | java/src/cs224n/corefsystems/RuleBased.java:138-153 | one entry per mention in document order; the entities are exactly the groups of equal lower-cased glosses; the argument list is ignored |
| RuleBased.IsClusterHeadMatch | java/src/cs224n/corefsystems/RuleBased.java:344-350 | true iff some member of the entity has exactly the new mention's head word |
| RuleBased.IsRelaxedClusterHeadMatch | java/src/cs224n/corefsystems/RuleBased.java:390-396 | true iff some member's lower-cased gloss contains the new mention's lower-cased head |
| RuleBased.ClusterString | java/src/cs224n/corefsystems/RuleBased.java:357-359 | the cluster string is the space-prefixed lower-cased glosses of the members, in a visiting order that lists every member exactly once |
| RuleBased.InClusterString | java/src/cs224n/corefsystems/RuleBased.java:356-366 | a word without spaces is in the cluster string iff it is in some single member's lower-cased gloss |
| RuleBased.IsWordInclusion | java/src/cs224n/corefsystems/RuleBased.java:356-366 | true iff every non-article word of the lower-cased new gloss occurs in some member's lower-cased gloss |
| RuleBased.WordsIncludedGrows | java/src/cs224n/corefsystems/RuleBased.java:356-366 | adding members to an entity never falsifies word inclusion |
| RuleBased.IsCompatibleModifiers | java/src/cs224n/corefsystems/RuleBased.java:371-385 | never true: both exits return false |
| RuleBased.PronounAgreeReflexive | java/src/cs224n/corefsystems/RuleBased.java:443-449 | every mention passes isPronounMatch against itself |
| RuleBased.ExceedsMeans | java/src/cs224n/corefsystems/RuleBased.java:482 | `x > y` on the two ratios holds iff both denominators are positive and the cross products compare (false on NaN) |
| RuleBased.ExceedsTransitive | java/src/cs224n/corefsystems/RuleBased.java:482 | the ratio comparison is transitive |
| RuleBased.OverlapAtMostOne | java/src/cs224n/corefsystems/RuleBased.java:495-518 | the overlap ratio never exceeds 1, and with no counted word (NaN) it never passes the threshold |
| RuleBased.CountOverlapPercent | java/src/cs224n/corefsystems/RuleBased.java:495-518 | the loop counts the longer string's non-article words and those occurring case-insensitively in the shorter |
| RuleBased.ScanFound | java/src/cs224n/corefsystems/RuleBased.java:474-489 | getBestMatch finds nothing iff no entry's overlap exceeds 0.66 |
| RuleBased.PickIsLargest | java/src/cs224n/corefsystems/RuleBased.java:474-489 | no entry above the threshold has a larger overlap than the chosen one |
| RuleBased.PickIsFirst | java/src/cs224n/corefsystems/RuleBased.java:474-489 | the chosen entry strictly beats every earlier entry above the threshold: the first of the maxima wins |
| RuleBased.GetBestMatch | java/src/cs224n/corefsystems/RuleBased.java:474-489 | null for a null list; otherwise the recorded entity of the first entry with the largest overlap above 0.66, or null |
| RuleBased.LastHitIsLast | java/src/cs224n/corefsystems/RuleBased.java:327-339 | the scanners find nothing iff no entry passes; otherwise the found entity is that of an entry that passes with no later entry passing |
| RuleBased.GetMatch | java/src/cs224n/corefsystems/RuleBased.java:289-301 | each get*Match scanner returns null for a null list, else the recorded entity of the last passing entry (later hits overwrite) |
| RuleBased.NeverHitFindsNothing | java/src/cs224n/corefsystems/RuleBased.java:180-192 | the strict head scanner and its second variant never find anything |
| RuleBased.GetStrictHeadMatch | java/src/cs224n/corefsystems/RuleBased.java:180-192 | always null |
| RuleBased.GetStrictHeadMatchVar2 | java/src/cs224n/corefsystems/RuleBased.java:253-265 | always null |
| RuleBased.PronounAlwaysMatches | java/src/cs224n/corefsystems/RuleBased.java:327-339 | for a listed mention the pronoun scanner always finds an entity (the mention's own entry passes) |
| RuleBased.TestPhase | java/src/cs224n/corefsystems/RuleBased.java:197-210 | a phase relinks each listed mention, in list order, to its scanner's choice in the current state, and returns the list unchanged |
| RuleBased.PartialMatch | java/src/cs224n/corefsystems/RuleBased.java:453-466 | partialMatch relinks each listed mention to its best-overlap entity, if any, and returns the list unchanged |
| RuleBased.NeverHitPhaseIsNoop | java/src/cs224n/corefsystems/RuleBased.java:160-173 | phases 2 and 4 change no membership |
| RuleBased.StrictHeadMatch | java/src/cs224n/corefsystems/RuleBased.java:160-173 | phase 2 leaves every entity as it was |
| RuleBased.StrictHeadMatchVar2 | java/src/cs224n/corefsystems/RuleBased.java:234-246 | phase 4 leaves every entity as it was |
| RuleBased.PronounPhaseMovesEveryEntry | java/src/cs224n/corefsystems/RuleBased.java:306-319 | in phase 6 every listed mention is relinked, to the entity of the last entry agreeing with it |
| RuleBased.PhaseMovesOnlyListed | java/src/cs224n/corefsystems/RuleBased.java:309-317 | a phase never moves a mention that is not on the list |
| RuleBased.PipelineSkipsNoops | java/src/cs224n/corefsystems/RuleBased.java:42-67 | the six phases amount to phases 3, 5 and 6 alone |
| RuleBased.Phases | java/src/cs224n/corefsystems/RuleBased.java:46-60 | phases 2 to 6 run in order over the exact-match list |
| RuleBased.RunCoreference | java/src/cs224n/corefsystems/RuleBased.java:42-67 | the output is exactMatch's list; the entities are the exact groups after phases 2 to 6 |
| RuleBased.KeptWordsAre | java/src/cs224n/corefsystems/RuleBased.java:530-534 | a word is collected from a gloss iff it occurs there and is neither a pronoun nor an article |
| RuleBased.MentionWordsAre | java/src/cs224n/corefsystems/RuleBased.java:527-535 | an entity's word list holds exactly the kept words of its members' glosses |
| RuleBased.CollectWords | java/src/cs224n/corefsystems/RuleBased.java:527-535 | the collecting loop builds that word list in member order |
| RuleBased.AllPairsAre | java/src/cs224n/corefsystems/RuleBased.java:538-546 | the counted pairs are exactly (w[i], w[j]) for distinct positions i, j |
| RuleBased.CooccurrencesSize | java/src/cs224n/corefsystems/RuleBased.java:538-546 | n words give exactly n·(n−1) increments |
| RuleBased.CooccurrencesAre | java/src/cs224n/corefsystems/RuleBased.java:538-546 | a word pair is counted iff the words sit at two distinct positions; the counted pairs are symmetric |
| RuleBased.TrainedPairsKept | java/src/cs224n/corefsystems/RuleBased.java:524-548 | every counted pair consists of two kept words of one and the same entity |
| RuleBased.RuleBasedSystem.TrainSynonyms | java/src/cs224n/corefsystems/RuleBased.java:524-548 | the counter map grows by exactly one increment per ordered pair of distinct positions in each entity's word list |
| Hobbs.ReturnSubtreeIsFirst | java/src/cs224n/corefsystems/HobbsAlgorithm.java:220-232 | returnSubtree finds the first pre-order node with the target uid |
| Hobbs.ReturnSubtreeSpec | java/src/cs224n/corefsystems/HobbsAlgorithm.java:220-232 | null iff no node carries the uid; otherwise a node of the tree with that uid |
| Hobbs.TagUidsInPreOrder | java/src/cs224n/corefsystems/HobbsAlgorithm.java:197-210 | getTagUIDs lists, in pre-order, exactly the uids of the nodes carrying the tag |
| Hobbs.BfsIsPermutation | java/src/cs224n/corefsystems/HobbsAlgorithm.java:167-188 | the breadth-first listing holds every node exactly as often as the pre-order |
| Hobbs.AddLevel | java/src/cs224n/corefsystems/HobbsAlgorithm.java:180-184 | BFSHelper's loop appends the level and gathers the children lists left to right |
| Hobbs.BfsHelper | java/src/cs224n/corefsystems/HobbsAlgorithm.java:177-188 | appends the level and then each following level, until a level has no children |
| Hobbs.GetBreadthFirstTraversal | java/src/cs224n/corefsystems/HobbsAlgorithm.java:167-172 | the root first, then level by level; every node appears exactly once |
| Hobbs.HasBetweenSpec | java/src/cs224n/corefsystems/HobbsAlgorithm.java:152-159 | holds iff some element lies strictly between min and max; false for an empty list or max ≤ min+1 |
| Hobbs.IsHead | java/src/cs224n/corefsystems/HobbsAlgorithm.java:144-146 | true iff the tag is NN, NNS, NNP or NNPS |
| Hobbs.LastTaggedBeforeSpec | java/src/cs224n/corefsystems/HobbsAlgorithm.java:242-281 | the best guess is a tagged entry before the stop uid with no tagged entry between them, and -1 when none exists |
| Hobbs.GetX | java/src/cs224n/corefsystems/HobbsAlgorithm.java:242-257 | the last NP or S on the path before the first node with the stop uid, or -1 |
| Hobbs.GetDominatingNP | java/src/cs224n/corefsystems/HobbsAlgorithm.java:267-281 | the last NP on the path before the first node with the stop uid, or -1 |
| Hobbs.HighestSUid | java/src/cs224n/corefsystems/HobbsAlgorithm.java:112-119 | the uid of the first S on the path, -1 when there is none |
| Hobbs.MinUid | java/src/cs224n/corefsystems/HobbsAlgorithm.java:302-307 | a lower bound of every uid on the path that is one of them, or Integer.MAX_VALUE |
| Hobbs.GetMinPathUid | java/src/cs224n/corefsystems/HobbsAlgorithm.java:302-307 | the loop computes that minimum |
| Hobbs.CommonParentIndex | java/src/cs224n/corefsystems/HobbsAlgorithm.java:317-332 | ignores indexB; the uid of the last node on the path to indexA, -1 for an empty path |
| Hobbs.ScanSeparated | java/src/cs224n/corefsystems/HobbsAlgorithm.java:127-137 | the first NP of the listing with a matching uid strictly between its uid and the bound, or -1 |
| Hobbs.GetAntecedent | java/src/cs224n/corefsystems/HobbsAlgorithm.java:121-138 | getAntecedent's result, NullPointerException when no subtree has X's uid |
| Hobbs.SeparatedByMatching | java/src/cs224n/corefsystems/HobbsAlgorithm.java:122-131 | the uid list test holds iff the subtree has an NP or S node strictly between the two bounds |
| Hobbs.AntecedentProposes | java/src/cs224n/corefsystems/HobbsAlgorithm.java:121-138 | the result is -1 or an NP of X's subtree separated from the bound by an NP or S; whenever such an NP exists, one is found |
| Hobbs.ScanRightOfPath | java/src/cs224n/corefsystems/HobbsAlgorithm.java:69-88 | step 8 proposes the first breadth-first NP with uid at least X's, or nothing; exclusions never block an NP |
| Hobbs.ClimbRises | java/src/cs224n/corefsystems/HobbsAlgorithm.java:41-44 | each new X lies strictly above the previous one on the path, so the climbing loop ends |
| Hobbs.ClimbOnce | java/src/cs224n/corefsystems/HobbsAlgorithm.java:42-88 | one pass: the new X, and the proposal of steps 6, 7 or 8 or the exception raised |
| Hobbs.ClimbLoop | java/src/cs224n/corefsystems/HobbsAlgorithm.java:41-91 | passes until X is the highest S, stopping at the first proposal or exception |
| Hobbs.Fallback | java/src/cs224n/corefsystems/HobbsAlgorithm.java:97-106 | the most recent earlier sentence whose root search proposes something, with that proposal; (-1, -1) iff none does |
| Hobbs.SearchEarlier | java/src/cs224n/corefsystems/HobbsAlgorithm.java:97-106 | the loop over earlier sentences computes that fallback |
| Hobbs.FirstSearch | java/src/cs224n/corefsystems/HobbsAlgorithm.java:24-37 | steps 1 to 3: X above the dominating NP and the first breadth-first proposal below it |
| Hobbs.Parse | java/src/cs224n/corefsystems/HobbsAlgorithm.java:18-107 | the antecedent uid and sentence number, (-1, -1) when none, or the exception the search runs into |
| ClassifierBased.NearestAccepted | java/src/cs224n/corefsystems/ClassifierBased.java:497-508 | the nearest earlier entry the classifier accepts, all later ones rejected; none iff every entry is rejected |
| ClassifierBased.FindCoreferent | java/src/cs224n/corefsystems/ClassifierBased.java:495-508 | the downward loop with break yields that entry's index, or -1 |
| ClassifierBased.LinkMention | java/src/cs224n/corefsystems/ClassifierBased.java:494-516 | mention i joins the accepted entry's entity or becomes a fresh singleton |
| ClassifierBased.RunCoreference | java/src/cs224n/corefsystems/ClassifierBased.java:484-523 | one entry per mention in order; each joins the nearest accepted earlier entry's entity or starts a fresh one; every entity holds exactly the entries naming it; earlier entities end empty |
| ClassifierBased.MentionDatums | java/src/cs224n/corefsystems/ClassifierBased.java:446-458 | the candidate loop for one mention yields its data or the IllegalArgumentException |
| ClassifierBased.DocumentDatums | java/src/cs224n/corefsystems/ClassifierBased.java:440-460 | one document's data, in mention order, or the first exception |
| ClassifierBased.Train | java/src/cs224n/corefsystems/ClassifierBased.java:425-482 | the dataset over all documents, or the first exception |
| ClassifierBased.CandidatesSucceed | java/src/cs224n/corefsystems/ClassifierBased.java:447-458 | the candidate scan never throws when all earlier mentions have gold entities |
| ClassifierBased.CandidatesFailIllegal | java/src/cs224n/corefsystems/ClassifierBased.java:450-451 | the only exception the candidate scan raises is IllegalArgumentException |
| ClassifierBased.DocumentFailsIff | java/src/cs224n/corefsystems/ClassifierBased.java:440-460 | a document throws iff some mention has no gold entity, and then with IllegalArgumentException |
| ClassifierBased.TrainingFailsIff | java/src/cs224n/corefsystems/ClassifierBased.java:432-462 | training throws iff some mention of some document has no gold entity |
| ClassifierBased.CandidateDataShape | java/src/cs224n/corefsystems/ClassifierBased.java:447-458 | candidates j = i−1 downward, labelled by equal gold entities; at most one positive, always the last; a stop before 0 means a positive |
| ClassifierBased.DocumentDataOrdered | java/src/cs224n/corefsystems/ClassifierBased.java:440-460 | a document's data are grouped by mention in order, with at most one positive per mention, last in its group |
| ClassifierBased.CountOverlap | java/src/cs224n/corefsystems/ClassifierBased.java:252-274 | the number of non-article words of the longer string (b on ties) contained case-insensitively in the shorter; at most its word count |
| ClassifierBased.TallyCountsShared | java/src/cs224n/corefsystems/ClassifierBased.java:252-274 | that count equals RuleBased's overlap numerator |
| ClassifierBased.UppercaseInMeans | java/src/cs224n/corefsystems/ClassifierBased.java:313-323 | true iff some word starts with a character unchanged by upper-casing before any empty word; false iff no word does and none is empty; an empty word first throws |
| ClassifierBased.ContainUppercase | java/src/cs224n/corefsystems/ClassifierBased.java:313-323 | the loop with early return computes exactly that |
| ClassifierBased.GlossUppercase | java/src/cs224n/corefsystems/ClassifierBased.java:313-323 | on a gloss it never throws, and is true iff some word starts unchanged |
| ClassifierBased.StrictGenderMatch | java/src/cs224n/corefsystems/ClassifierBased.java:335-338 | strict gender agreement implies relaxed agreement |
| ClassifierBased.StrictNumberMatch | java/src/cs224n/corefsystems/ClassifierBased.java:351-354 | strict number agreement implies relaxed agreement |
| ClassifierBased.StrictPersonMatch | java/src/cs224n/corefsystems/ClassifierBased.java:374-386 | strict person agreement implies relaxed agreement, and needs both glosses to be pronouns |
| ClassifierBased.PersonOutsidePronouns | java/src/cs224n/corefsystems/ClassifierBased.java:358-386 | when a gloss is not a pronoun, relaxed person agreement holds and strict does not |
| BetterBaseline.SameWords | java/src/cs224n/corefsystems/BetterBaseline.java:104-127 | the common count never exceeds the word count of the longer string (b on ties) |
| BetterBaseline.SameWordsAtMostOne | java/src/cs224n/corefsystems/BetterBaseline.java:104-127 | the ratio never exceeds 1, and with no words (NaN) no key is similar |
| BetterBaseline.HasSameWords | java/src/cs224n/corefsystems/BetterBaseline.java:104-127 | the counting loop computes that ratio |
| BetterBaseline.ContainSameWords | java/src/cs224n/corefsystems/BetterBaseline.java:93-101 | a key scoring above 0.67, lower-cased; null iff the set is null or no key scores above 0.67 |
| BetterBaseline.RegistryShape | java/src/cs224n/corefsystems/BetterBaseline.java:55-68 | every key is lower-case and maps to the entity of some entry |
| BetterBaseline.StartsIffUnregistered | java/src/cs224n/corefsystems/BetterBaseline.java:57-68 | a mention starts an entity iff its key is unregistered and no registered key is similar to it |
| BetterBaseline.RegistryNext | java/src/cs224n/corefsystems/BetterBaseline.java:63-68 | only an entry that starts an entity registers its key |
| BetterBaseline.JoinKeepsRegistry | java/src/cs224n/corefsystems/BetterBaseline.java:57-62 | a mention joining a registered entity adds no key |
| BetterBaseline.KeyStep | java/src/cs224n/corefsystems/BetterBaseline.java:52-68 | one mention: its own key's entity first, else a similar key's, else a fresh singleton registered under its key |
| BetterBaseline.RunCoreference | java/src/cs224n/corefsystems/BetterBaseline.java:46-90 | one entry per mention in order, each linked by its key as above; every entity holds exactly the entries naming it; earlier entities end empty |

## Left out

- Weka and Stanford classifier code: `EntityCentric` feature extraction, `modeling` and `scoring`, and `ClassifierBased`'s feature extractor and `Feature` classes. This is foreign-library code on doubles. `scoring`'s result is discarded.
- ClassifierBased.RunCoreference: the trained classifier is a parameter `classOf(i, entry)`, a pure function of the mention index and the candidate entry. A feature that reads an entity's current membership is not distinguished from one that does not.
- ClassifierBased.Train: stops at the labelled dataset (document, mention, candidate, label). Feature vectors, `trainClassifier` and the weight dump are left out. Gold clusters are a map from mention index to gold entity, and the `markCoreferent(target)` side effect on the gold entities is not modelled.
- `ClassifierBased.isWordInclusion`, `isCompatibleModifiers` and `countOverlapCount`: these feature helpers only feed the classifier. `RuleBased` models the first two, and the same overlap count is `ClassifierBased.CountOverlap`.
- `isNerMatch`, `isGenderMatch`, `isNumberMatch` and `isPersonMatch`: plain predicates (`Coref.NerMatch` and its siblings). `Util`'s gender/number lookups and `Pronoun.valueOrNull(..).speaker` are precomputed mention attributes.
- Doubles: overlap ratios are exact (common, total) pairs. `>` compares cross products and is false when either total is 0 (NaN). The thresholds 0.66 and 0.67 are the exact fractions 66/100 and 67/100.
- Reference comparisons with string literals (`nerTag != "0"`, `word != "the"`): treated as filtering nothing.
- Hash iteration order: `containSameWords`'s `keySet()` and entities' mention sets are visited in an unspecified order (a nondeterministic choice). Results whose order can matter are stated for every order.
- Case mapping: `toLowerCase` and `toUpperCase` are modelled for ASCII letters only. In the same way, the `Character.isLetter(c) && Character.isUpperCase(c)` test in `acronym` (EntityCentric.java:565) is `JavaString.IsUpperLetter`, true for 'A' to 'Z' only; a non-ASCII upper-case letter such as 'É' is not counted into the acronym.
- Coref.Mention: a mention's span is assumed non-empty, and every token non-empty and free of spaces (`Coref.WellFormed`, `AreTokens`); the Java code assumes neither. As a result the model does not capture: the `StringIndexOutOfBoundsException` that `word.charAt(0)` raises on an empty piece in `acronym` (EntityCentric.java:564) and `containUppercase` (ClassifierBased.java:317), so `ClassifierBased.GlossUppercase` never throws; a `split(" ")` of a gloss that gives back anything but the mention's own words, which `RuleBased.LowerGlossWords` and `RuleBased.InClusterString` rely on; and an empty prefix from `dropAfterHeadMatch`'s gluing loop, which `EntityCentric.HeadPrefixNonEmpty` rules out.
- BetterBaseline, OneCluster and AllSingleton `train`: no observable effect, not modelled.
- `RuleBased.train` and `hobbsMatch` and `EntityCentric.hobbsMatch` and `getHobbsParse`: disabled or commented out; `getHobbsParse` calls a two-argument `parse` that does not exist.
- `EntityCentric.appositiveMatch`, `predicateNominativeMatch`, `headLooseMatch` and `containUppercase`: not enabled in `runCoreference`.
- `HobbsAlgorithm.main`: debug printing and tree decoding.
- Hobbs tree internals: `pathToIndex` is a parameter, and uids are assumed non-negative so that the climbing loop terminates. The boxed `Integer` comparison in `commonParentIndex` is modelled as a value comparison. The unused `minUID` recomputation at step 7 is dropped. `d.sentences.get(sentenceNum)` is required to be in range.
- Hobbs.BfsHelper: the in-place output list is a returned sequence.
- `System.err` output, Redwood tracking and all I/O.
- EntityCentric.PronounMatch: requires at most Integer.MAX_VALUE mentions, so the starting `bestDistance` is larger than every distance.
- `RuleBased.stringListMatch` and `hobbsToMention`: the same code as EntityCentric's, modelled once (EntityCentric.StringListMatch, EntityCentric.HobbsToMention).
- `getEntities`, `containsUnorderredWords` and EntityCentric's copies of the RuleBased head and word-inclusion helpers: no enabled rule calls them.
