/** The entity-centric sieve: after every mention has been made a singleton,
    an ordered list of string-matching rules scans all pairs of the recorded
    mention list and merges the recorded entities of each matching pair; a
    last rule attaches each pronoun to its closest compatible antecedent. */
module EntityCentric {
  import opened JavaString
  import opened Coref
  import AllSingleton

  /** STOP_WORDS. */
  const StopWords: set<string> := {"a", "an", "and", "are", "as", "at", "be", "by", "for",
    "from", "has", "in", "is", "it", "its", "of", "on", "that", "the", "to", "was", "were",
    "will", "with"}

  /** Integer.MAX_VALUE, the starting "best distance" of the pronoun rule. */
  const IntMax: int := 0x7fff_ffff

  // ---------------------------------------------------------------------
  // Acronyms

  /** The first characters of the words that are upper-case letters, in order. */
  function AcronymOf(ws: seq<string>): (r: string)
    requires forall k :: 0 <= k < |ws| ==> ws[k] != ""
    ensures |r| <= |ws|
    ensures forall k :: 0 <= k < |r| ==> IsUpperLetter(r[k])
  {
    if ws == [] then ""
    else (if IsUpperLetter(ws[0][0]) then [ws[0][0]] else "") + AcronymOf(ws[1..])
  }

  /** The acronym of words put one after the other is the acronyms put one
      after the other. */
  lemma {:induction false} AcronymOfAppend(a: seq<string>, b: seq<string>)
    requires forall k :: 0 <= k < |a| ==> a[k] != ""
    requires forall k :: 0 <= k < |b| ==> b[k] != ""
    ensures AcronymOf(a + b) == AcronymOf(a) + AcronymOf(b)
    decreases |a|
  {
    if a != [] {
      assert (a + b)[1..] == a[1..] + b;
      AcronymOfAppend(a[1..], b);
    } else {
      assert a + b == b;
    }
  }

  /** A word starting with an upper-case letter contributes that letter,
      any other word contributes nothing. */
  lemma AcronymOfWord(w: string)
    requires w != ""
    ensures AcronymOf([w]) == if IsUpperLetter(w[0]) then [w[0]] else ""
  {
    assert [w][1..] == [];
  }

  /** acronym(in): split on single spaces and keep the upper-case initials.
      `word.charAt(0)` fails on an empty word, so the words must not be empty. */
  method Acronym(s: string) returns (out: string)
    requires forall k :: 0 <= k < |Split(s)| ==> Split(s)[k] != ""
    ensures out == AcronymOf(Split(s))
  {
    var words := Split(s);
    out := "";
    for i := 0 to |words|
      invariant out == AcronymOf(words[..i])
    {
      var c := words[i][0];
      AcronymOfAppend(words[..i], [words[i]]);
      AcronymOfWord(words[i]);
      assert words[..i + 1] == words[..i] + [words[i]];
      if IsUpperLetter(c) {
        out := out + [c];
      }
    }
    assert words[..|words|] == words;
  }

  // ---------------------------------------------------------------------
  // Stop-word-free word lists

  /** Every word of `a` that is not a stop word (tested lowercased) occurs,
      exactly, in `b`. */
  predicate CoveredBy(a: seq<string>, b: seq<string>) {
    forall k :: 0 <= k < |a| ==> Lower(a[k]) in StopWords || a[k] in b
  }

  /** The words of a list that are not stop words. */
  function NonStopWords(ws: seq<string>): set<string> {
    set w | w in ws && Lower(w) !in StopWords
  }

  /** matchWithoutStopWords(a, b). */
  method MatchWithoutStopWords(a: seq<string>, b: seq<string>) returns (r: bool)
    ensures r <==> CoveredBy(a, b) && CoveredBy(b, a)
  {
    for k := 0 to |a|
      invariant forall q :: 0 <= q < k ==> Lower(a[q]) in StopWords || a[q] in b
    {
      if Lower(a[k]) !in StopWords && a[k] !in b {
        return false;
      }
    }
    for k := 0 to |b|
      invariant forall q :: 0 <= q < k ==> Lower(b[q]) in StopWords || b[q] in a
    {
      if Lower(b[k]) !in StopWords && b[k] !in a {
        return false;
      }
    }
    return true;
  }

  /** Two word lists match without stop words exactly when they have the same
      set of non-stop words; so the match is reflexive, symmetric and
      transitive. */
  lemma NoStopMatchIsSameWords(a: seq<string>, b: seq<string>)
    ensures CoveredBy(a, b) && CoveredBy(b, a) <==> NonStopWords(a) == NonStopWords(b)
  {
    if CoveredBy(a, b) && CoveredBy(b, a) {
      forall w | w in NonStopWords(a) ensures w in NonStopWords(b) {
        var k :| 0 <= k < |a| && a[k] == w;
      }
      forall w | w in NonStopWords(b) ensures w in NonStopWords(a) {
        var k :| 0 <= k < |b| && b[k] == w;
      }
    }
    if NonStopWords(a) == NonStopWords(b) {
      forall k | 0 <= k < |a| && Lower(a[k]) !in StopWords ensures a[k] in b {
        assert a[k] in NonStopWords(a);
      }
      forall k | 0 <= k < |b| && Lower(b[k]) !in StopWords ensures b[k] in a {
        assert b[k] in NonStopWords(b);
      }
    }
  }

  // ---------------------------------------------------------------------
  // Words up to the head, and partial overlap

  /** The words from the span's start to its head, glued together. */
  function HeadPrefix(m: Mention): string {
    Concat(m.text[..m.head + 1])
  }

  /** Tokens are not empty, so the glued prefix is never empty and the
      source's `!s1.equals("")` test always passes. */
  lemma HeadPrefixNonEmpty(m: Mention)
    ensures HeadPrefix(m) != ""
  {
    assert m.text[..m.head + 1][0] == m.text[0];
  }

  /** The loop of dropAfterHeadMatch that builds s1 (and s2). */
  method HeadPrefixString(m: Mention) returns (s: string)
    ensures s == HeadPrefix(m)
  {
    s := "";
    var k := 0;
    while k <= m.head
      invariant 0 <= k <= m.head + 1
      invariant s + Concat(m.text[k..m.head + 1]) == HeadPrefix(m)
    {
      assert m.text[k..m.head + 1][1..] == m.text[k + 1..m.head + 1];
      s := s + m.text[k];
      k := k + 1;
    }
  }

  /** How many words of `short`, counted with repetition, occur in `long`. */
  function SharedWords(short: seq<string>, long: seq<string>): (r: nat)
    ensures r <= |short|
  {
    if short == [] then 0
    else (if short[0] in long then 1 else 0) + SharedWords(short[1..], long)
  }

  /** partialOverlapMatch's test: the longer mention (the second one on a tie)
      has more than three tokens, and more than 66% of its length is matched
      by words of the shorter one. The double ratio `overlap/length > 0.66` is
      the exact comparison 100 * overlap > 66 * length. */
  predicate LargeOverlap(a: Mention, b: Mention) {
    var long := if |a.text| > |b.text| then a.text else b.text;
    var short := if |a.text| > |b.text| then b.text else a.text;
    100 * SharedWords(short, long) > 66 * |long| && |long| > 3
  }

  /** Only mentions of comparable length overlap: the shorter one is more than
      66% as long as the longer one. */
  lemma LargeOverlapNeedsComparableLength(a: Mention, b: Mention)
    requires LargeOverlap(a, b)
    ensures 100 * |a.text| > 66 * |b.text| && 100 * |b.text| > 66 * |a.text|
    ensures |a.text| > 3 || |b.text| > 3
  {
  }

  /** The counting loop of partialOverlapMatch, over `gloss().split(" ")`. */
  method PartialOverlap(a: Mention, b: Mention) returns (r: bool)
    ensures r == LargeOverlap(a, b)
  {
    GlossSplitsIntoText(a);
    GlossSplitsIntoText(b);
    var length: nat;
    var long, short;
    if |a.text| > |b.text| {
      length := |a.text|;
      long, short := Split(Gloss(a)), Split(Gloss(b));
    } else {
      length := |b.text|;
      long, short := Split(Gloss(b)), Split(Gloss(a));
    }
    var overlap := 0;
    for k := 0 to |short|
      invariant overlap + SharedWords(short[k..], long) == SharedWords(short, long)
    {
      assert short[k..][1..] == short[k + 1..];
      if short[k] in long {
        overlap := overlap + 1;
      }
    }
    r := 100 * overlap > 66 * length && length > 3;
  }

  // ---------------------------------------------------------------------
  // The pairwise rules

  datatype Rule =
    | ExactRule           // exactMatch
    | AcronymRule         // acronymMatch
    | NoStopWordRule      // noStopWordMatch
    | DropAfterHeadRule   // dropAfterHeadMatch
    | HeadExactRule       // headExactMatch
    | HeadLowcaseRule     // headLowcaseMatch
    | HeadLemmaRule       // headLemmaMatch
    | PartialOverlapRule  // partialOverlapMatch

  /** The rules that only scan from entries that pass mentionSelection. */
  predicate Selects(rule: Rule) {
    rule.AcronymRule? || rule.NoStopWordRule? || rule.DropAfterHeadRule?
    || rule.HeadExactRule? || rule.HeadLowcaseRule?
  }

  /** Where the inner loop starts for row `i`: at `i`, at `i + 1`, or (for
      acronyms) at the start of the list. */
  function FirstPartner(rule: Rule, i: nat): nat {
    match rule
    case AcronymRule => 0
    case NoStopWordRule | DropAfterHeadRule | PartialOverlapRule => i + 1
    case ExactRule | HeadExactRule | HeadLowcaseRule | HeadLemmaRule => i
  }

  /** eitherIsPronoun: one of the two glosses is a pronoun. */
  predicate EitherIsPronoun(a: Mention, b: Mention) {
    a.glossIsPronoun || b.glossIsPronoun
  }

  /** When a rule merges the entities recorded for mentions `a` and `b`. */
  predicate Matches(rule: Rule, a: Mention, b: Mention) {
    match rule
    case ExactRule => !EitherIsPronoun(a, b) && Gloss(a) == Gloss(b)
    case AcronymRule =>
      var acr := AcronymOf(a.text);
      !EitherIsPronoun(a, b) && Contains(Gloss(b), acr) && |acr| > 1
    case NoStopWordRule => !EitherIsPronoun(a, b) && CoveredBy(a.text, b.text) && CoveredBy(b.text, a.text)
    case DropAfterHeadRule => !EitherIsPronoun(a, b) && HeadPrefix(a) != "" && HeadPrefix(a) == HeadPrefix(b)
    case HeadExactRule => !EitherIsPronoun(a, b) && HeadWord(a) == HeadWord(b)
    case HeadLowcaseRule => !EitherIsPronoun(a, b) && Lower(HeadWord(a)) == Lower(HeadWord(b))
    case HeadLemmaRule => !EitherIsPronoun(a, b) && HeadLemma(a) == HeadLemma(b)
    case PartialOverlapRule => LargeOverlap(a, b)
  }

  /** The test in the body of each rule's inner loop, as the source computes it. */
  method RuleHolds(rule: Rule, a: Mention, b: Mention) returns (r: bool)
    ensures r == Matches(rule, a, b)
  {
    var either := a.glossIsPronoun || b.glossIsPronoun;
    match rule
    case ExactRule =>
      r := !either && Gloss(a) == Gloss(b);
    case AcronymRule =>
      GlossSplitsIntoText(a);
      var acronym := Acronym(Gloss(a));
      var base := Gloss(b);
      r := !either && Contains(base, acronym) && |acronym| > 1;
    case NoStopWordRule =>
      var same := MatchWithoutStopWords(a.text, b.text);
      r := !either && same;
    case DropAfterHeadRule =>
      var s1 := HeadPrefixString(a);
      var s2 := HeadPrefixString(b);
      r := !either && s1 != "" && s1 == s2;
    case HeadExactRule =>
      r := !either && HeadWord(a) == HeadWord(b);
    case HeadLowcaseRule =>
      r := !either && Lower(HeadWord(a)) == Lower(HeadWord(b));
    case HeadLemmaRule =>
      r := !either && HeadLemma(a) == HeadLemma(b);
    case PartialOverlapRule =>
      r := PartialOverlap(a, b);
  }

  /** What a rule compares, for the rules that compare one value per mention. */
  datatype Key = Text(s: string) | Words(ws: set<string>)

  predicate Keyed(rule: Rule) {
    !rule.AcronymRule? && !rule.PartialOverlapRule?
  }

  function KeyOf(rule: Rule, m: Mention): Key
    requires Keyed(rule)
  {
    match rule
    case ExactRule => Text(Gloss(m))
    case NoStopWordRule => Words(NonStopWords(m.text))
    case DropAfterHeadRule => Text(HeadPrefix(m))
    case HeadExactRule => Text(HeadWord(m))
    case HeadLowcaseRule => Text(Lower(HeadWord(m)))
    case HeadLemmaRule => Text(HeadLemma(m))
  }

  /** The keyed rules merge two mentions exactly when neither gloss is a
      pronoun and their keys are equal. */
  lemma KeyedMatches(rule: Rule, a: Mention, b: Mention)
    requires Keyed(rule)
    ensures Matches(rule, a, b) <==> !EitherIsPronoun(a, b) && KeyOf(rule, a) == KeyOf(rule, b)
  {
    NoStopMatchIsSameWords(a.text, b.text);
    HeadPrefixNonEmpty(a);
  }

  // ---------------------------------------------------------------------
  // mentionSelection

  /** mentionSelection(cm): no member of the recorded entity comes earlier in
      the document than the mention itself (vacuously true for an emptied
      entity). */
  predicate Selected(P: map<nat, set<nat>>, cm: ClusteredMention) {
    cm.entity in P ==> forall m :: m in P[cm.entity] ==> cm.mention <= m
  }

  /** The scan of mentionSelection over the entity's members. */
  method MentionSelection(g: EntityGraph, cm: ClusteredMention) returns (r: bool)
    requires cm.entity in g.members
    ensures r == Selected(g.members, cm)
  {
    var cluster := g.members[cm.entity];
    var rest := cluster;
    while rest != {}
      invariant rest <= cluster
      invariant forall m :: m in cluster && m !in rest ==> cm.mention <= m
      decreases rest
    {
      var m :| m in rest;
      if cm.mention > m {
        return false;
      }
      rest := rest - {m};
    }
    return true;
  }

  // ---------------------------------------------------------------------
  // The sweep of one rule over the recorded list

  /** Every entry names a mention of the document. */
  predicate InDocument(cms: seq<ClusteredMention>, n: nat) {
    forall k :: 0 <= k < |cms| ==> cms[k].mention < n
  }

  /** Every entry names a mention of the document and an existing entity. */
  predicate Recorded(cms: seq<ClusteredMention>, n: nat, P: map<nat, set<nat>>) {
    forall k :: 0 <= k < |cms| ==> cms[k].mention < n && cms[k].entity in P
  }

  /** A square table of merge decisions, one per ordered pair of entries. */
  predicate Square(T: seq<seq<bool>>, n: nat) {
    |T| == n && forall i :: 0 <= i < n ==> |T[i]| == n
  }

  /** `T` holds the rule's verdict on every ordered pair of entries. */
  ghost predicate Verdicts(rule: Rule, ms: seq<Mention>, cms: seq<ClusteredMention>, T: seq<seq<bool>>) {
    Square(T, |cms|)
    && forall i, j {:trigger Matches(rule, ms[cms[i].mention], ms[cms[j].mention])} ::
         0 <= i < |cms| && 0 <= j < |cms| && cms[i].mention < |ms| && cms[j].mention < |ms| ==>
         T[i][j] == Matches(rule, ms[cms[i].mention], ms[cms[j].mention])
  }

  /** The rule's verdict on every ordered pair of entries. */
  function MatchTable(rule: Rule, ms: seq<Mention>, cms: seq<ClusteredMention>): (T: seq<seq<bool>>)
    requires InDocument(cms, |ms|)
    ensures Verdicts(rule, ms, cms, T)
  {
    seq(|cms|, i requires 0 <= i < |cms| =>
      seq(|cms|, j requires 0 <= j < |cms| => Matches(rule, ms[cms[i].mention], ms[cms[j].mention])))
  }

  /** The (i, j) step of a sweep: merge the entity recorded for entry i into
      the one recorded for entry j when the rule matches them. */
  function StepMerge(T: seq<seq<bool>>, cms: seq<ClusteredMention>, P: map<nat, set<nat>>, i: nat, j: nat): (r: map<nat, set<nat>>)
    requires Square(T, |cms|) && i < |cms| && j < |cms|
    ensures r.Keys == P.Keys
  {
    if T[i][j] && cms[i].entity in P && cms[j].entity in P then Merged(P, cms[i].entity, cms[j].entity) else P
  }

  /** The inner loop of row i after partners `from` .. j - 1 have been tried. */
  function RowUpTo(T: seq<seq<bool>>, cms: seq<ClusteredMention>, P: map<nat, set<nat>>, i: nat, from: nat, j: nat): (r: map<nat, set<nat>>)
    requires Square(T, |cms|) && i < |cms| && j <= |cms|
    ensures r.Keys == P.Keys
    decreases j
  {
    if j <= from then P else StepMerge(T, cms, RowUpTo(T, cms, P, i, from, j - 1), i, j - 1)
  }

  /** Row i: skipped when the rule selects and entry i is not selected in the
      state the row starts from; otherwise every partner from FirstPartner on. */
  function Row(rule: Rule, T: seq<seq<bool>>, cms: seq<ClusteredMention>, P: map<nat, set<nat>>, i: nat): (r: map<nat, set<nat>>)
    requires Square(T, |cms|) && i < |cms|
    ensures r.Keys == P.Keys
  {
    if Selects(rule) && !Selected(P, cms[i]) then P else RowUpTo(T, cms, P, i, FirstPartner(rule, i), |cms|)
  }

  /** The rows 0 .. i - 1, one after the other. */
  function SweepUpTo(rule: Rule, T: seq<seq<bool>>, cms: seq<ClusteredMention>, P: map<nat, set<nat>>, i: nat): (r: map<nat, set<nat>>)
    requires Square(T, |cms|) && i <= |cms|
    ensures r.Keys == P.Keys
    decreases i
  {
    if i == 0 then P else Row(rule, T, cms, SweepUpTo(rule, T, cms, P, i - 1), i - 1)
  }

  /** What a rule method does to the entities: all rows of its sweep over
      the verdicts of that rule. */
  function RuleSweep(rule: Rule, ms: seq<Mention>, cms: seq<ClusteredMention>, P: map<nat, set<nat>>): (r: map<nat, set<nat>>)
    requires InDocument(cms, |ms|)
    ensures r.Keys == P.Keys
  {
    SweepUpTo(rule, MatchTable(rule, ms, cms), cms, P, |cms|)
  }

  /** One row of a rule method: when entry i passes mentionSelection (or the
      rule does not ask for it), the partners are tried. */
  method SweepRow(g: EntityGraph, rule: Rule, cms: seq<ClusteredMention>, i: nat, ghost T: seq<seq<bool>>)
    requires g.Valid() && g.Partitioned() && Recorded(cms, |g.mentions|, g.members) && i < |cms|
    requires Verdicts(rule, g.mentions, cms, T)
    modifies g
    ensures g.Valid() && g.Partitioned() && g.nextEntity == old(g.nextEntity)
    ensures g.members == Row(rule, T, cms, old(g.members), i)
  {
    if Selects(rule) {
      var selected := MentionSelection(g, cms[i]);
      if !selected {
        return;
      }
    }
    TryPartners(g, rule, cms, i, T);
  }

  /** The inner loop of a row: each partner j from FirstPartner is tested
      and the recorded entities merged when the rule matches. */
  method TryPartners(g: EntityGraph, rule: Rule, cms: seq<ClusteredMention>, i: nat, ghost T: seq<seq<bool>>)
    requires g.Valid() && g.Partitioned() && Recorded(cms, |g.mentions|, g.members) && i < |cms|
    requires Verdicts(rule, g.mentions, cms, T)
    modifies g
    ensures g.Valid() && g.Partitioned() && g.nextEntity == old(g.nextEntity)
    ensures g.members == RowUpTo(T, cms, old(g.members), i, FirstPartner(rule, i), |cms|)
  {
    ghost var P0 := g.members;
    var j := FirstPartner(rule, i);
    while j < |cms|
      invariant FirstPartner(rule, i) <= j <= |cms|
      invariant g.Valid() && g.Partitioned() && g.nextEntity == old(g.nextEntity)
      invariant g.members.Keys == P0.Keys
      invariant g.members == RowUpTo(T, cms, P0, i, FirstPartner(rule, i), j)
      decreases |cms| - j
    {
      TestAndMerge(g, rule, cms, i, j, T);
      j := j + 1;
    }
  }

  /** The body of the inner loop: test the pair, merge on a match. */
  method TestAndMerge(g: EntityGraph, rule: Rule, cms: seq<ClusteredMention>, i: nat, j: nat, ghost T: seq<seq<bool>>)
    requires g.Valid() && g.Partitioned() && Recorded(cms, |g.mentions|, g.members) && i < |cms| && j < |cms|
    requires Verdicts(rule, g.mentions, cms, T)
    modifies g
    ensures g.Valid() && g.Partitioned() && g.nextEntity == old(g.nextEntity)
    ensures g.members == StepMerge(T, cms, old(g.members), i, j)
  {
    var hit := RuleHolds(rule, g.mentions[cms[i].mention], g.mentions[cms[j].mention]);
    if hit {
      g.MergeClusters(cms[i].entity, cms[j].entity);
    }
  }

  /** The nested loops shared by the rule methods, row after row. */
  method SweepRows(g: EntityGraph, rule: Rule, cms: seq<ClusteredMention>, ghost T: seq<seq<bool>>)
    requires g.Valid() && g.Partitioned() && Recorded(cms, |g.mentions|, g.members)
    requires Verdicts(rule, g.mentions, cms, T)
    modifies g
    ensures g.Valid() && g.Partitioned() && g.nextEntity == old(g.nextEntity)
    ensures g.members == SweepUpTo(rule, T, cms, old(g.members), |cms|)
  {
    for i := 0 to |cms|
      invariant g.Valid() && g.Partitioned() && g.nextEntity == old(g.nextEntity)
      invariant g.members.Keys == old(g.members).Keys
      invariant g.members == SweepUpTo(rule, T, cms, old(g.members), i)
    {
      SweepRow(g, rule, cms, i, T);
    }
  }

  /** A rule method: the sweep over that rule's verdicts. */
  method Sweep(g: EntityGraph, rule: Rule, cms: seq<ClusteredMention>)
    requires g.Valid() && g.Partitioned() && Recorded(cms, |g.mentions|, g.members)
    modifies g
    ensures g.Valid() && g.Partitioned() && g.nextEntity == old(g.nextEntity)
    ensures g.members == RuleSweep(rule, g.mentions, cms, old(g.members))
  {
    SweepRows(g, rule, cms, MatchTable(rule, g.mentions, cms));
  }

  /** exactMatch. */
  method ExactMatch(g: EntityGraph, cms: seq<ClusteredMention>)
    requires g.Valid() && g.Partitioned() && Recorded(cms, |g.mentions|, g.members)
    modifies g
    ensures g.Valid() && g.Partitioned() && g.nextEntity == old(g.nextEntity)
    ensures g.members == RuleSweep(ExactRule, g.mentions, cms, old(g.members))
  {
    Sweep(g, ExactRule, cms);
  }

  /** acronymMatch. */
  method AcronymMatch(g: EntityGraph, cms: seq<ClusteredMention>)
    requires g.Valid() && g.Partitioned() && Recorded(cms, |g.mentions|, g.members)
    modifies g
    ensures g.Valid() && g.Partitioned() && g.nextEntity == old(g.nextEntity)
    ensures g.members == RuleSweep(AcronymRule, g.mentions, cms, old(g.members))
  {
    Sweep(g, AcronymRule, cms);
  }

  /** noStopWordMatch. */
  method NoStopWordMatch(g: EntityGraph, cms: seq<ClusteredMention>)
    requires g.Valid() && g.Partitioned() && Recorded(cms, |g.mentions|, g.members)
    modifies g
    ensures g.Valid() && g.Partitioned() && g.nextEntity == old(g.nextEntity)
    ensures g.members == RuleSweep(NoStopWordRule, g.mentions, cms, old(g.members))
  {
    Sweep(g, NoStopWordRule, cms);
  }

  /** dropAfterHeadMatch. */
  method DropAfterHeadMatch(g: EntityGraph, cms: seq<ClusteredMention>)
    requires g.Valid() && g.Partitioned() && Recorded(cms, |g.mentions|, g.members)
    modifies g
    ensures g.Valid() && g.Partitioned() && g.nextEntity == old(g.nextEntity)
    ensures g.members == RuleSweep(DropAfterHeadRule, g.mentions, cms, old(g.members))
  {
    Sweep(g, DropAfterHeadRule, cms);
  }

  /** headExactMatch. */
  method HeadExactMatch(g: EntityGraph, cms: seq<ClusteredMention>)
    requires g.Valid() && g.Partitioned() && Recorded(cms, |g.mentions|, g.members)
    modifies g
    ensures g.Valid() && g.Partitioned() && g.nextEntity == old(g.nextEntity)
    ensures g.members == RuleSweep(HeadExactRule, g.mentions, cms, old(g.members))
  {
    Sweep(g, HeadExactRule, cms);
  }

  /** headLowcaseMatch. */
  method HeadLowcaseMatch(g: EntityGraph, cms: seq<ClusteredMention>)
    requires g.Valid() && g.Partitioned() && Recorded(cms, |g.mentions|, g.members)
    modifies g
    ensures g.Valid() && g.Partitioned() && g.nextEntity == old(g.nextEntity)
    ensures g.members == RuleSweep(HeadLowcaseRule, g.mentions, cms, old(g.members))
  {
    Sweep(g, HeadLowcaseRule, cms);
  }

  /** headLemmaMatch. */
  method HeadLemmaMatch(g: EntityGraph, cms: seq<ClusteredMention>)
    requires g.Valid() && g.Partitioned() && Recorded(cms, |g.mentions|, g.members)
    modifies g
    ensures g.Valid() && g.Partitioned() && g.nextEntity == old(g.nextEntity)
    ensures g.members == RuleSweep(HeadLemmaRule, g.mentions, cms, old(g.members))
  {
    Sweep(g, HeadLemmaRule, cms);
  }

  /** partialOverlapMatch (switched off in runCoreference). */
  method PartialOverlapMatch(g: EntityGraph, cms: seq<ClusteredMention>)
    requires g.Valid() && g.Partitioned() && Recorded(cms, |g.mentions|, g.members)
    modifies g
    ensures g.Valid() && g.Partitioned() && g.nextEntity == old(g.nextEntity)
    ensures g.members == RuleSweep(PartialOverlapRule, g.mentions, cms, old(g.members))
  {
    Sweep(g, PartialOverlapRule, cms);
  }

  // ---------------------------------------------------------------------
  // What a sweep can and cannot do

  /** A merge only ever joins the two entities it is given: two mentions
      together after a step were together before, or lie in the two
      recorded entities of a pair the rule matches. */
  lemma StepJoinsOnlyMatches(T: seq<seq<bool>>, cms: seq<ClusteredMention>, P: map<nat, set<nat>>, i: nat, j: nat, x: nat, y: nat)
    requires Square(T, |cms|) && i < |cms| && j < |cms| && cms[i].entity in P && cms[j].entity in P
    requires Together(StepMerge(T, cms, P, i, j), x, y)
    ensures Together(P, x, y)
      || (T[i][j] && x in P[cms[i].entity] + P[cms[j].entity] && y in P[cms[i].entity] + P[cms[j].entity])
  {
    if T[i][j] {
      MergeJoinsOnlyThePair(P, cms[i].entity, cms[j].entity, x, y);
    }
  }

  /** Whatever each step of row i keeps, the whole row keeps. */
  lemma {:induction false} RowKeeps(Inv: map<nat, set<nat>> -> bool, T: seq<seq<bool>>, cms: seq<ClusteredMention>, P: map<nat, set<nat>>, i: nat, from: nat, j: nat)
    requires Square(T, |cms|) && i < |cms| && j <= |cms|
    requires forall Q: map<nat, set<nat>>, k: nat :: k < |cms| && Inv(Q) ==> Inv(StepMerge(T, cms, Q, i, k))
    requires Inv(P)
    ensures Inv(RowUpTo(T, cms, P, i, from, j))
    decreases j
  {
    if j > from {
      RowKeeps(Inv, T, cms, P, i, from, j - 1);
    }
  }

  /** Whatever each row keeps, the whole sweep keeps. */
  lemma {:induction false} SweepKeeps(Inv: map<nat, set<nat>> -> bool, rule: Rule, T: seq<seq<bool>>, cms: seq<ClusteredMention>, P: map<nat, set<nat>>, i: nat)
    requires Square(T, |cms|) && i <= |cms|
    requires forall Q: map<nat, set<nat>>, k: nat :: k < |cms| && Inv(Q) ==> Inv(Row(rule, T, cms, Q, k))
    requires Inv(P)
    ensures Inv(SweepUpTo(rule, T, cms, P, i))
    decreases i
  {
    if i > 0 {
      SweepKeeps(Inv, rule, T, cms, P, i - 1);
    }
  }

  /** Mentions that are together stay together through a sweep: the rules
      only ever coarsen the clustering. */
  lemma SweepCoarsens(rule: Rule, T: seq<seq<bool>>, cms: seq<ClusteredMention>, P: map<nat, set<nat>>, x: nat, y: nat)
    requires Square(T, |cms|) && Together(P, x, y)
    ensures Together(SweepUpTo(rule, T, cms, P, |cms|), x, y)
  {
    forall Q: map<nat, set<nat>>, i: nat | i < |cms| && Together(Q, x, y)
      ensures Together(Row(rule, T, cms, Q, i), x, y)
    {
      forall R: map<nat, set<nat>>, k: nat | k < |cms| && Together(R, x, y)
        ensures Together(StepMerge(T, cms, R, i, k), x, y)
      {
        if T[i][k] && cms[i].entity in R && cms[k].entity in R {
          MergeCoarsens(R, cms[i].entity, cms[k].entity, x, y);
        }
      }
      RowKeeps(R => Together(R, x, y), T, cms, Q, i, FirstPartner(rule, i), |cms|);
    }
    SweepKeeps(Q => Together(Q, x, y), rule, T, cms, P, |cms|);
  }

  /** What a keyed rule compares for each mention of the document: nothing
      for a mention whose gloss is a pronoun, its key otherwise. */
  function Labels(rule: Rule, ms: seq<Mention>): (L: seq<Option<Key>>)
    requires Keyed(rule)
    ensures |L| == |ms|
    ensures forall x :: 0 <= x < |ms| ==> L[x] == if ms[x].glossIsPronoun then None else Some(KeyOf(rule, ms[x]))
  {
    seq(|ms|, x requires 0 <= x < |ms| => if ms[x].glossIsPronoun then None else Some(KeyOf(rule, ms[x])))
  }

  /** Two mentions a keyed rule may leave in one entity: the same mention, or
      two mentions with the same label. */
  predicate Alike(L: seq<Option<Key>>, x: nat, y: nat) {
    x == y || (x < |L| && y < |L| && L[x].Some? && L[x] == L[y])
  }

  /** The table only says yes to pairs with the same label. */
  ghost predicate Agrees(L: seq<Option<Key>>, T: seq<seq<bool>>, cms: seq<ClusteredMention>)
    requires Square(T, |cms|)
  {
    forall i, j :: 0 <= i < |cms| && 0 <= j < |cms| && T[i][j] ==> Alike(L, cms[i].mention, cms[j].mention)
  }

  /** The members of every entity are pairwise alike, and the members of
      every recorded entity are alike the entry's own mention. */
  ghost predicate Sound(L: seq<Option<Key>>, cms: seq<ClusteredMention>, P: map<nat, set<nat>>) {
    (forall k :: 0 <= k < |cms| ==> cms[k].entity in P)
    && (forall e, x, y :: e in P && x in P[e] && y in P[e] ==> Alike(L, x, y))
    && (forall k, x :: 0 <= k < |cms| && x in P[cms[k].entity] ==> Alike(L, x, cms[k].mention))
  }

  /** No two entries record the same entity, as after allSingleton. */
  predicate Distinct(cms: seq<ClusteredMention>) {
    forall k, l :: 0 <= k < |cms| && 0 <= l < |cms| && cms[k].entity == cms[l].entity ==> k == l
  }

  lemma StepSound(L: seq<Option<Key>>, T: seq<seq<bool>>, cms: seq<ClusteredMention>, P: map<nat, set<nat>>, i: nat, j: nat)
    requires Square(T, |cms|) && Sound(L, cms, P) && Agrees(L, T, cms)
    requires Distinct(cms) && i < |cms| && j < |cms|
    ensures Sound(L, cms, StepMerge(T, cms, P, i, j))
  {
    var a, b := cms[i].entity, cms[j].entity;
    var mi, mj := cms[i].mention, cms[j].mention;
    if T[i][j] && a in P && b in P && a != b {
      var Q := Merged(P, a, b);
      assert Alike(L, mi, mj);
      forall x | x in Q[b] ensures Alike(L, x, mj) {
        if x in P[a] {
          assert Alike(L, x, mi);
        }
      }
      forall e, x, y | e in Q && x in Q[e] && y in Q[e]
        ensures Alike(L, x, y)
      {
        if e == b {
          assert Alike(L, x, mj) && Alike(L, y, mj);
        } else if e != a {
          assert Q[e] == P[e];
        }
      }
      forall k, x | 0 <= k < |cms| && x in Q[cms[k].entity]
        ensures Alike(L, x, cms[k].mention)
      {
        if cms[k].entity == b {
          assert k == j;
        } else if cms[k].entity != a {
          assert Q[cms[k].entity] == P[cms[k].entity];
        }
      }
    }
  }

  /** A sweep over a table that agrees with the labels keeps the clustering
      sound. */
  lemma SweepSound(rule: Rule, L: seq<Option<Key>>, T: seq<seq<bool>>, cms: seq<ClusteredMention>, P: map<nat, set<nat>>)
    requires Square(T, |cms|) && Sound(L, cms, P) && Agrees(L, T, cms) && Distinct(cms)
    ensures Sound(L, cms, SweepUpTo(rule, T, cms, P, |cms|))
  {
    forall Q: map<nat, set<nat>>, i: nat | i < |cms| && Sound(L, cms, Q)
      ensures Sound(L, cms, Row(rule, T, cms, Q, i))
    {
      forall R: map<nat, set<nat>>, k: nat | k < |cms| && Sound(L, cms, R)
        ensures Sound(L, cms, StepMerge(T, cms, R, i, k))
      {
        StepSound(L, T, cms, R, i, k);
      }
      RowKeeps(R => Sound(L, cms, R), T, cms, Q, i, FirstPartner(rule, i), |cms|);
    }
    SweepKeeps(Q => Sound(L, cms, Q), rule, T, cms, P, |cms|);
  }

  /** Each entity holds at most one mention, and a recorded entity holds at
      most the entry's own mention: the state allSingleton leaves. */
  predicate AtMostSingletons(cms: seq<ClusteredMention>, P: map<nat, set<nat>>)
    requires forall k :: 0 <= k < |cms| ==> cms[k].entity in P
  {
    (forall e, x, y :: e in P && x in P[e] && y in P[e] ==> x == y)
    && (forall k :: 0 <= k < |cms| ==> P[cms[k].entity] <= {cms[k].mention})
  }

  /** Run on singletons, a keyed rule leaves two mentions in one entity only
      when they are the same mention or are non-pronoun glosses with equal
      keys: exact glosses, equal non-stop word sets, equal words up to the
      head, equal head words (exactly or lowercased) or equal head lemmas. */
  lemma KeyedSweepSound(rule: Rule, ms: seq<Mention>, cms: seq<ClusteredMention>, P: map<nat, set<nat>>, x: nat, y: nat)
    requires Keyed(rule) && Recorded(cms, |ms|, P) && Distinct(cms) && AtMostSingletons(cms, P)
    requires x < |ms| && y < |ms| && Together(RuleSweep(rule, ms, cms, P), x, y)
    ensures x == y || (!ms[x].glossIsPronoun && !ms[y].glossIsPronoun && KeyOf(rule, ms[x]) == KeyOf(rule, ms[y]))
  {
    var T := MatchTable(rule, ms, cms);
    var L := Labels(rule, ms);
    forall i, j | 0 <= i < |cms| && 0 <= j < |cms| && T[i][j]
      ensures Alike(L, cms[i].mention, cms[j].mention)
    {
      KeyedMatches(rule, ms[cms[i].mention], ms[cms[j].mention]);
    }
    SweepSound(rule, L, T, cms, P);
    var R := SweepUpTo(rule, T, cms, P, |cms|);
    var e :| e in R && x in R[e] && y in R[e];
    assert Alike(L, x, y);
  }

  // ---------------------------------------------------------------------
  // pronounMatch

  /** The entries pronounMatch puts on one of its lists: with `select`, only
      those passing mentionSelection in the state it starts from; on the
      pronoun list when the head word is a pronoun, on the other otherwise. */
  predicate Eligible(ms: seq<Mention>, P: map<nat, set<nat>>, cm: ClusteredMention, select: bool, pronoun: bool) {
    cm.mention < |ms| && (select ==> Selected(P, cm)) && ms[cm.mention].headIsPronoun == pronoun
  }

  /** The eligible entries of `cms`, in list order. */
  function Picked(ms: seq<Mention>, P: map<nat, set<nat>>, cms: seq<ClusteredMention>, select: bool, pronoun: bool): seq<ClusteredMention>
    decreases |cms|
  {
    if cms == [] then []
    else
      var last := cms[|cms| - 1];
      Picked(ms, P, cms[..|cms| - 1], select, pronoun) + if Eligible(ms, P, last, select, pronoun) then [last] else []
  }

  /** The picked entries are exactly the eligible ones. */
  lemma {:induction false} PickedMembers(ms: seq<Mention>, P: map<nat, set<nat>>, cms: seq<ClusteredMention>, select: bool, pronoun: bool)
    ensures |Picked(ms, P, cms, select, pronoun)| <= |cms|
    ensures forall cm :: cm in Picked(ms, P, cms, select, pronoun) <==> cm in cms && Eligible(ms, P, cm, select, pronoun)
    decreases |cms|
  {
    if cms != [] {
      var init := cms[..|cms| - 1];
      PickedMembers(ms, P, init, select, pronoun);
      assert cms == init + [cms[|cms| - 1]];
    }
  }

  /** Picking keeps the entries' mentions and entities recorded. */
  lemma PickedRecorded(ms: seq<Mention>, P: map<nat, set<nat>>, cms: seq<ClusteredMention>, select: bool, pronoun: bool)
    requires Recorded(cms, |ms|, P)
    ensures Recorded(Picked(ms, P, cms, select, pronoun), |ms|, P)
  {
    var r := Picked(ms, P, cms, select, pronoun);
    PickedMembers(ms, P, cms, select, pronoun);
    forall k | 0 <= k < |r| ensures r[k].mention < |ms| && r[k].entity in P {
      assert r[k] in cms;
    }
  }

  /** The first loop of pronounMatch: the entries split into pronouns and
      non-pronouns. */
  method SplitByPronoun(g: EntityGraph, cms: seq<ClusteredMention>, select: bool) returns (pros: seq<ClusteredMention>, nons: seq<ClusteredMention>)
    requires Recorded(cms, |g.mentions|, g.members)
    ensures pros == Picked(g.mentions, g.members, cms, select, true)
    ensures nons == Picked(g.mentions, g.members, cms, select, false)
  {
    pros, nons := [], [];
    for k := 0 to |cms|
      invariant pros == Picked(g.mentions, g.members, cms[..k], select, true)
      invariant nons == Picked(g.mentions, g.members, cms[..k], select, false)
    {
      var cm := cms[k];
      assert cms[..k + 1][..k] == cms[..k] && cms[..k + 1][k] == cm;
      var chosen := true;
      if select {
        chosen := MentionSelection(g, cm);
      }
      assert chosen == (select ==> Selected(g.members, cm));
      if chosen {
        if g.mentions[cm.mention].headIsPronoun {
          pros := pros + [cm];
        } else {
          nons := nons + [cm];
        }
      }
    }
    assert cms[..|cms|] == cms;
  }

  /** `non` may be the antecedent of `pro`: it comes earlier in the document
      and agrees with it in NER tag, gender and number. */
  predicate Antecedent(ms: seq<Mention>, pro: ClusteredMention, non: ClusteredMention) {
    pro.mention < |ms| && non.mention < |ms| && non.mention < pro.mention
    && NerMatch(ms[pro.mention], ms[non.mention])
    && GenderMatch(ms[pro.mention], ms[non.mention])
    && NumberMatch(ms[pro.mention], ms[non.mention])
  }

  /** The position in `nons` of pro's best antecedent among the first `k`
      entries: the closest one before it, the earliest listed on a tie; None
      when there is none. */
  function ClosestUpTo(ms: seq<Mention>, pro: ClusteredMention, nons: seq<ClusteredMention>, k: nat): (r: Option<nat>)
    requires k <= |nons|
    ensures r.None? <==> forall l :: 0 <= l < k ==> !Antecedent(ms, pro, nons[l])
    ensures r.Some? ==> r.value < k && Antecedent(ms, pro, nons[r.value])
    ensures r.Some? ==> forall l :: 0 <= l < k && Antecedent(ms, pro, nons[l]) ==> nons[l].mention <= nons[r.value].mention
    ensures r.Some? ==> forall l :: 0 <= l < r.value && Antecedent(ms, pro, nons[l]) ==> nons[l].mention < nons[r.value].mention
    decreases k
  {
    if k == 0 then None
    else
      var r := ClosestUpTo(ms, pro, nons, k - 1);
      if Antecedent(ms, pro, nons[k - 1]) && (r.None? || nons[r.value].mention < nons[k - 1].mention) then Some(k - 1) else r
  }

  /** The closest antecedent is the only one that is closest and listed
      before every other candidate at the same distance. */
  lemma ClosestIsUnique(ms: seq<Mention>, pro: ClusteredMention, nons: seq<ClusteredMention>, c: nat)
    requires c < |nons| && Antecedent(ms, pro, nons[c])
    requires forall l :: 0 <= l < |nons| && Antecedent(ms, pro, nons[l]) ==> nons[l].mention <= nons[c].mention
    requires forall l :: 0 <= l < c && Antecedent(ms, pro, nons[l]) ==> nons[l].mention < nons[c].mention
    ensures ClosestUpTo(ms, pro, nons, |nons|) == Some(c)
  {
    var r := ClosestUpTo(ms, pro, nons, |nons|);
    assert r.Some?;
    assert nons[r.value].mention == nons[c].mention;
  }

  /** The inner loop of pronounMatch: the entity recorded for pro's closest
      antecedent, found by a distance scan starting from Integer.MAX_VALUE. */
  method ClosestAntecedent(ms: seq<Mention>, pro: ClusteredMention, nons: seq<ClusteredMention>) returns (bestMatch: Option<nat>)
    requires |ms| <= IntMax
    ensures ClosestUpTo(ms, pro, nons, |nons|).None? ==> bestMatch == None
    ensures ClosestUpTo(ms, pro, nons, |nons|).Some? ==> bestMatch == Some(nons[ClosestUpTo(ms, pro, nons, |nons|).value].entity)
  {
    bestMatch := None;
    var bestDistance := IntMax;
    ghost var at: Option<nat> := None;
    for k := 0 to |nons|
      invariant at == ClosestUpTo(ms, pro, nons, k)
      invariant at.None? ==> bestMatch == None && bestDistance == IntMax
      invariant at.Some? ==> bestMatch == Some(nons[at.value].entity) && bestDistance == pro.mention - nons[at.value].mention
    {
      var non := nons[k];
      var distance := pro.mention - non.mention;
      if distance < bestDistance && distance > 0 && pro.mention < |ms| && non.mention < |ms|
         && NerMatch(ms[pro.mention], ms[non.mention])
         && GenderMatch(ms[pro.mention], ms[non.mention])
         && NumberMatch(ms[pro.mention], ms[non.mention])
      {
        bestDistance := distance;
        bestMatch := Some(non.entity);
        at := Some(k);
      }
    }
  }

  /** One pronoun's turn: its recorded entity is merged into the entity
      recorded for its closest antecedent, if it has one. */
  function PronounStep(ms: seq<Mention>, pro: ClusteredMention, nons: seq<ClusteredMention>, P: map<nat, set<nat>>): (r: map<nat, set<nat>>)
    ensures r.Keys == P.Keys
  {
    var c := ClosestUpTo(ms, pro, nons, |nons|);
    if c.Some? && pro.entity in P && nons[c.value].entity in P then Merged(P, pro.entity, nons[c.value].entity) else P
  }

  /** The pronouns pros[..i] have had their turn. */
  function PronounFold(ms: seq<Mention>, pros: seq<ClusteredMention>, nons: seq<ClusteredMention>, P: map<nat, set<nat>>, i: nat): (r: map<nat, set<nat>>)
    requires i <= |pros|
    ensures r.Keys == P.Keys
    decreases i
  {
    if i == 0 then P else PronounStep(ms, pros[i - 1], nons, PronounFold(ms, pros, nons, P, i - 1))
  }

  /** What pronounMatch does to the entities. */
  function PronounSweep(ms: seq<Mention>, cms: seq<ClusteredMention>, P: map<nat, set<nat>>, select: bool): (r: map<nat, set<nat>>)
    ensures r.Keys == P.Keys
  {
    var pros := Picked(ms, P, cms, select, true);
    PronounFold(ms, pros, Picked(ms, P, cms, select, false), P, |pros|)
  }

  /** The body of pronounMatch's outer loop. */
  method AssignPronoun(g: EntityGraph, pro: ClusteredMention, nons: seq<ClusteredMention>)
    requires g.Valid() && g.Partitioned() && pro.entity in g.members
    requires Recorded(nons, |g.mentions|, g.members) && |g.mentions| <= IntMax
    modifies g
    ensures g.Valid() && g.Partitioned() && g.nextEntity == old(g.nextEntity)
    ensures g.members == PronounStep(g.mentions, pro, nons, old(g.members))
  {
    var bestMatch := ClosestAntecedent(g.mentions, pro, nons);
    if bestMatch.Some? {
      g.MergeClusters(pro.entity, bestMatch.value);
    }
  }

  /** pronounMatch, with mentionSelection (`select`) or without it, as in the
      classifier-based system. */
  method PronounMatch(g: EntityGraph, cms: seq<ClusteredMention>, select: bool)
    requires g.Valid() && g.Partitioned() && Recorded(cms, |g.mentions|, g.members) && |g.mentions| <= IntMax
    modifies g
    ensures g.Valid() && g.Partitioned() && g.nextEntity == old(g.nextEntity)
    ensures g.members == PronounSweep(g.mentions, cms, old(g.members), select)
  {
    var pros, nons := SplitByPronoun(g, cms, select);
    PickedRecorded(g.mentions, g.members, cms, select, true);
    PickedRecorded(g.mentions, g.members, cms, select, false);
    AssignPronouns(g, pros, nons);
  }

  /** The outer loop of pronounMatch: each pronoun in turn. */
  method AssignPronouns(g: EntityGraph, pros: seq<ClusteredMention>, nons: seq<ClusteredMention>)
    requires g.Valid() && g.Partitioned() && |g.mentions| <= IntMax
    requires Recorded(pros, |g.mentions|, g.members) && Recorded(nons, |g.mentions|, g.members)
    modifies g
    ensures g.Valid() && g.Partitioned() && g.nextEntity == old(g.nextEntity)
    ensures g.members == PronounFold(g.mentions, pros, nons, old(g.members), |pros|)
  {
    for i := 0 to |pros|
      invariant g.Valid() && g.Partitioned() && g.nextEntity == old(g.nextEntity)
      invariant Recorded(pros, |g.mentions|, g.members) && Recorded(nons, |g.mentions|, g.members)
      invariant g.members == PronounFold(g.mentions, pros, nons, old(g.members), i)
    {
      AssignPronoun(g, pros[i], nons);
    }
  }

  /** Mentions that are together stay together through pronounMatch. */
  lemma {:induction false} PronounFoldCoarsens(ms: seq<Mention>, pros: seq<ClusteredMention>, nons: seq<ClusteredMention>, P: map<nat, set<nat>>, i: nat, x: nat, y: nat)
    requires i <= |pros| && Together(P, x, y)
    ensures Together(PronounFold(ms, pros, nons, P, i), x, y)
    decreases i
  {
    if i > 0 {
      PronounFoldCoarsens(ms, pros, nons, P, i - 1, x, y);
      var Q := PronounFold(ms, pros, nons, P, i - 1);
      var c := ClosestUpTo(ms, pros[i - 1], nons, |nons|);
      if c.Some? && pros[i - 1].entity in Q && nons[c.value].entity in Q {
        MergeCoarsens(Q, pros[i - 1].entity, nons[c.value].entity, x, y);
      }
    }
  }

  /** A pronoun's turn unites the pronoun's recorded entity with the entity
      recorded for its closest antecedent, and nothing else; a pronoun
      without an antecedent changes nothing. */
  lemma PronounStepJoins(ms: seq<Mention>, pro: ClusteredMention, nons: seq<ClusteredMention>, P: map<nat, set<nat>>, x: nat, y: nat)
    requires pro.entity in P && Recorded(nons, |ms|, P)
    requires Together(PronounStep(ms, pro, nons, P), x, y)
    ensures Together(P, x, y) || exists c ::
      0 <= c < |nons| && Antecedent(ms, pro, nons[c])
      && (forall l :: 0 <= l < |nons| && Antecedent(ms, pro, nons[l]) ==> nons[l].mention <= nons[c].mention)
      && x in P[pro.entity] + P[nons[c].entity] && y in P[pro.entity] + P[nons[c].entity]
  {
    var c := ClosestUpTo(ms, pro, nons, |nons|);
    if c.Some? {
      MergeJoinsOnlyThePair(P, pro.entity, nons[c.value].entity, x, y);
    }
  }

  // ---------------------------------------------------------------------
  // stringListMatch and hobbsToMention

  /** stringListMatch(a, b): equal lengths and equal words position by
      position. */
  method StringListMatch(a: seq<string>, b: seq<string>) returns (r: bool)
    ensures r <==> a == b
  {
    if |a| != |b| {
      return false;
    }
    for i := 0 to |a|
      invariant a[..i] == b[..i]
    {
      if a[i] != b[i] {
        return false;
      }
      assert a[..i + 1] == a[..i] + [a[i]] && b[..i + 1] == b[..i] + [b[i]];
    }
    assert a == a[..|a|] && b == b[..|b|];
    return true;
  }

  /** The entry's mention is in sentence `s` and has the words `words`. */
  predicate SaysWords(ms: seq<Mention>, cm: ClusteredMention, s: nat, words: seq<string>) {
    cm.mention < |ms| && ms[cm.mention].sentence == s && ms[cm.mention].text == words
  }

  /** hobbsToMention: the first entry whose mention is in sentence `s` and
      reads `words`, or None (null). */
  method HobbsToMention(ms: seq<Mention>, cms: seq<ClusteredMention>, s: nat, words: seq<string>) returns (r: Option<ClusteredMention>)
    requires InDocument(cms, |ms|)
    ensures r.None? <==> forall k :: 0 <= k < |cms| ==> !SaysWords(ms, cms[k], s, words)
    ensures r.Some? ==> exists k :: (0 <= k < |cms| && r.value == cms[k] && SaysWords(ms, cms[k], s, words)
      && forall l :: 0 <= l < k ==> !SaysWords(ms, cms[l], s, words))
  {
    for k := 0 to |cms|
      invariant forall l :: 0 <= l < k ==> !SaysWords(ms, cms[l], s, words)
    {
      var m := ms[cms[k].mention];
      var same := StringListMatch(m.text, words);
      if m.sentence == s && same {
        return Some(cms[k]);
      }
    }
    return None;
  }

  // ---------------------------------------------------------------------
  // runCoreference

  /** The string rules of runCoreference, one after the other:
      exact, acronym, no-stop-word, drop-after-head, head-exact,
      head-lowercase and head-lemma matching. */
  function Sieved(ms: seq<Mention>, cms: seq<ClusteredMention>, P: map<nat, set<nat>>): (r: map<nat, set<nat>>)
    requires InDocument(cms, |ms|)
    ensures r.Keys == P.Keys
  {
    var p1 := RuleSweep(ExactRule, ms, cms, P);
    var p2 := RuleSweep(AcronymRule, ms, cms, p1);
    var p3 := RuleSweep(NoStopWordRule, ms, cms, p2);
    var p4 := RuleSweep(DropAfterHeadRule, ms, cms, p3);
    var p5 := RuleSweep(HeadExactRule, ms, cms, p4);
    var p6 := RuleSweep(HeadLowcaseRule, ms, cms, p5);
    RuleSweep(HeadLemmaRule, ms, cms, p6)
  }

  /** A rule method never separates two mentions. */
  lemma RuleSweepCoarsens(rule: Rule, ms: seq<Mention>, cms: seq<ClusteredMention>, P: map<nat, set<nat>>, x: nat, y: nat)
    requires InDocument(cms, |ms|) && Together(P, x, y)
    ensures Together(RuleSweep(rule, ms, cms, P), x, y)
  {
    SweepCoarsens(rule, MatchTable(rule, ms, cms), cms, P, x, y);
  }

  /** The sieve never separates two mentions. */
  lemma SievedCoarsens(ms: seq<Mention>, cms: seq<ClusteredMention>, P: map<nat, set<nat>>, x: nat, y: nat)
    requires InDocument(cms, |ms|) && Together(P, x, y)
    ensures Together(Sieved(ms, cms, P), x, y)
  {
    var p1 := RuleSweep(ExactRule, ms, cms, P);
    var p2 := RuleSweep(AcronymRule, ms, cms, p1);
    var p3 := RuleSweep(NoStopWordRule, ms, cms, p2);
    var p4 := RuleSweep(DropAfterHeadRule, ms, cms, p3);
    var p5 := RuleSweep(HeadExactRule, ms, cms, p4);
    var p6 := RuleSweep(HeadLowcaseRule, ms, cms, p5);
    RuleSweepCoarsens(ExactRule, ms, cms, P, x, y);
    RuleSweepCoarsens(AcronymRule, ms, cms, p1, x, y);
    RuleSweepCoarsens(NoStopWordRule, ms, cms, p2, x, y);
    RuleSweepCoarsens(DropAfterHeadRule, ms, cms, p3, x, y);
    RuleSweepCoarsens(HeadExactRule, ms, cms, p4, x, y);
    RuleSweepCoarsens(HeadLowcaseRule, ms, cms, p5, x, y);
    RuleSweepCoarsens(HeadLemmaRule, ms, cms, p6, x, y);
  }

  /** runCoreference: singletons first, then the sieve, then pronounMatch with
      mentionSelection. */
  method RunCoreference(g: EntityGraph) returns (cms: seq<ClusteredMention>)
    requires g.Valid() && g.Partitioned() && |g.mentions| <= IntMax
    modifies g
    ensures g.Valid() && g.Partitioned()
    ensures |cms| == |g.mentions|
    ensures forall k :: 0 <= k < |cms| ==> cms[k] == ClusteredMention(k, old(g.nextEntity) + k)
    ensures g.members == PronounSweep(g.mentions, cms, Sieved(g.mentions, cms, AllSingleton.Singletons(old(g.nextEntity), |g.mentions|)), true)
  {
    cms := AllSingleton.RunCoreference(g);
    ghost var S := g.members;
    ExactMatch(g, cms);
    AcronymMatch(g, cms);
    NoStopWordMatch(g, cms);
    DropAfterHeadMatch(g, cms);
    HeadExactMatch(g, cms);
    HeadLowcaseMatch(g, cms);
    HeadLemmaMatch(g, cms);
    assert g.members == Sieved(g.mentions, cms, S);
    PronounMatch(g, cms, true);
  }
}
