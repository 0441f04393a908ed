/** Hobbs's "naive" pronoun-resolution search over constituency trees whose
    nodes carry integer uids: breadth-first listing, subtree lookup by uid,
    uid collection by tag, best-guess scans along the root-to-word path
    (`pathToIndex`, a given function of the Tree class), the per-node
    antecedent test and the climbing driver with its fallback to the earlier
    sentences of the document. */
module Hobbs {
  import opened Coref
  import EntityCentric

  /** A parse-tree node: its tag, its unique index and its children. */
  datatype Tree = Node(tag: string, uid: int, children: seq<Tree>)

  /** A root-to-word path as the Tree class lists it: (tag, uid) pairs. */
  type Path = seq<(string, int)>

  /** `Tree.pathToIndex`, which the Tree class computes from its own yield. */
  type PathTo = (Tree, int) -> Path

  // ---------------------------------------------------------------------
  // Pre-order and the recursive tree functions

  /** Every node of `t`, each once, in pre-order. */
  function PreOrder(t: Tree): seq<Tree>
    decreases t
  {
    [t] + Forest(t.children)
  }

  /** The pre-orders of a list of trees, one after the other. */
  function Forest(ts: seq<Tree>): seq<Tree>
    decreases ts
  {
    if ts == [] then [] else PreOrder(ts[0]) + Forest(ts[1..])
  }

  lemma {:induction false} ForestAppend(a: seq<Tree>, b: seq<Tree>)
    ensures Forest(a + b) == Forest(a) + Forest(b)
    decreases |a|
  {
    if a != [] {
      assert (a + b)[0] == a[0];
      assert (a + b)[1..] == a[1..] + b;
      ForestAppend(a[1..], b);
    } else {
      assert a + b == b;
    }
  }

  /** A node's own tree lies inside the pre-order of every tree holding it. */
  lemma {:induction false} PreOrderNested(t: Tree, s: Tree, n: Tree)
    requires s in PreOrder(t) && n in PreOrder(s)
    ensures n in PreOrder(t)
    decreases t
  {
    if s != t {
      ForestNested(t.children, s, n);
    }
  }

  lemma {:induction false} ForestNested(ts: seq<Tree>, s: Tree, n: Tree)
    requires s in Forest(ts) && n in PreOrder(s)
    ensures n in Forest(ts)
    decreases ts
  {
    if s in PreOrder(ts[0]) {
      PreOrderNested(ts[0], s, n);
    } else {
      ForestNested(ts[1..], s, n);
    }
  }

  /** The first node of a list with the given uid. */
  function FirstWithUid(ns: seq<Tree>, target: int): (r: Option<Tree>)
    ensures r.None? <==> forall k :: 0 <= k < |ns| ==> ns[k].uid != target
    ensures r.Some? ==> exists k :: (0 <= k < |ns| && ns[k] == r.value && ns[k].uid == target &&
      forall j :: 0 <= j < k ==> ns[j].uid != target)
  {
    if ns == [] then None
    else if ns[0].uid == target then Some(ns[0])
    else
      var r := FirstWithUid(ns[1..], target);
      assert r.Some? ==> exists k :: (0 <= k < |ns| && ns[k] == r.value && ns[k].uid == target &&
        forall j :: 0 <= j < k ==> ns[j].uid != target) by {
        if r.Some? {
          var k :| 0 <= k < |ns[1..]| && ns[1..][k] == r.value && ns[1..][k].uid == target &&
            (forall j :: 0 <= j < k ==> ns[1..][j].uid != target);
          assert ns[k + 1] == r.value;
        }
      }
      r
  }

  lemma {:induction false} FirstWithUidAppend(a: seq<Tree>, b: seq<Tree>, target: int)
    ensures FirstWithUid(a + b, target)
      == if FirstWithUid(a, target).Some? then FirstWithUid(a, target) else FirstWithUid(b, target)
    decreases |a|
  {
    if a != [] {
      assert (a + b)[0] == a[0];
      assert (a + b)[1..] == a[1..] + b;
      FirstWithUidAppend(a[1..], b, target);
    } else {
      assert a + b == b;
    }
  }

  /** returnSubtree: the node with the target uid, searching the node itself
      and then its children in order; None stands for Java's null. */
  function ReturnSubtree(t: Tree, target: int): Option<Tree>
    decreases t
  {
    if t.uid == target then Some(t) else SubtreeAmong(t.children, target)
  }

  function SubtreeAmong(ts: seq<Tree>, target: int): Option<Tree>
    decreases ts
  {
    if ts == [] then None
    else
      match ReturnSubtree(ts[0], target)
      case Some(s) => Some(s)
      case None => SubtreeAmong(ts[1..], target)
  }

  /** returnSubtree finds the first pre-order node with the target uid. */
  lemma {:induction false} ReturnSubtreeIsFirst(t: Tree, target: int)
    ensures ReturnSubtree(t, target) == FirstWithUid(PreOrder(t), target)
    decreases t
  {
    SubtreeAmongIsFirst(t.children, target);
    assert PreOrder(t)[1..] == Forest(t.children);
  }

  lemma {:induction false} SubtreeAmongIsFirst(ts: seq<Tree>, target: int)
    ensures SubtreeAmong(ts, target) == FirstWithUid(Forest(ts), target)
    decreases ts
  {
    if ts != [] {
      ReturnSubtreeIsFirst(ts[0], target);
      SubtreeAmongIsFirst(ts[1..], target);
      FirstWithUidAppend(PreOrder(ts[0]), Forest(ts[1..]), target);
    }
  }

  /** returnSubtree returns null exactly when no node carries the uid, and
      otherwise a node of the tree with that uid that no earlier pre-order
      node shares. */
  lemma ReturnSubtreeSpec(t: Tree, target: int)
    ensures ReturnSubtree(t, target).None? <==> forall n :: n in PreOrder(t) ==> n.uid != target
    ensures ReturnSubtree(t, target).Some? ==>
      var s := ReturnSubtree(t, target).value;
      s in PreOrder(t) && s.uid == target
  {
    ReturnSubtreeIsFirst(t, target);
  }

  /** The uids of the nodes of a list that carry the tag, in order. */
  function UidsTagged(ns: seq<Tree>, tag: string): (r: seq<int>)
    ensures forall u :: u in r <==> exists n :: n in ns && n.tag == tag && n.uid == u
  {
    if ns == [] then []
    else
      var rest := UidsTagged(ns[1..], tag);
      assert forall n :: n in ns <==> n == ns[0] || n in ns[1..];
      (if ns[0].tag == tag then [ns[0].uid] else []) + rest
  }

  lemma {:induction false} UidsTaggedAppend(a: seq<Tree>, b: seq<Tree>, tag: string)
    ensures UidsTagged(a + b, tag) == UidsTagged(a, tag) + UidsTagged(b, tag)
    decreases |a|
  {
    if a != [] {
      assert (a + b)[0] == a[0];
      assert (a + b)[1..] == a[1..] + b;
      UidsTaggedAppend(a[1..], b, tag);
    } else {
      assert a + b == b;
    }
  }

  /** getTagUIDs: the node's own uid when it carries the tag, then the
      children's lists in order. */
  function TagUids(t: Tree, tag: string): seq<int>
    decreases t
  {
    (if t.tag == tag then [t.uid] else []) + TagUidsAmong(t.children, tag)
  }

  function TagUidsAmong(ts: seq<Tree>, tag: string): seq<int>
    decreases ts
  {
    if ts == [] then [] else TagUids(ts[0], tag) + TagUidsAmong(ts[1..], tag)
  }

  /** getTagUIDs lists, in pre-order, exactly the uids of the nodes that carry
      the tag. */
  lemma {:induction false} TagUidsInPreOrder(t: Tree, tag: string)
    ensures TagUids(t, tag) == UidsTagged(PreOrder(t), tag)
    decreases t
  {
    TagUidsAmongInForest(t.children, tag);
    UidsTaggedAppend([t], Forest(t.children), tag);
  }

  lemma {:induction false} TagUidsAmongInForest(ts: seq<Tree>, tag: string)
    ensures TagUidsAmong(ts, tag) == UidsTagged(Forest(ts), tag)
    decreases ts
  {
    if ts != [] {
      TagUidsInPreOrder(ts[0], tag);
      TagUidsAmongInForest(ts[1..], tag);
      UidsTaggedAppend(PreOrder(ts[0]), Forest(ts[1..]), tag);
    }
  }

  // ---------------------------------------------------------------------
  // Breadth-first listing

  /** The children lists of a level, left to right. */
  function Kids(ts: seq<Tree>): seq<Tree>
  {
    if ts == [] then [] else Kids(ts[..|ts| - 1]) + ts[|ts| - 1].children
  }

  lemma KidsNext(ts: seq<Tree>, k: nat)
    requires k < |ts|
    ensures Kids(ts[..k + 1]) == Kids(ts[..k]) + ts[k].children
  {
    assert ts[..k + 1][..k] == ts[..k];
  }

  /** A level's forest is the level itself and the forest of the next level:
      the step that makes every node appear once. */
  lemma {:induction false} ForestByLevel(ts: seq<Tree>)
    ensures multiset(Forest(ts)) == multiset(ts) + multiset(Forest(Kids(ts)))
    ensures |Forest(Kids(ts))| + |ts| == |Forest(ts)|
    decreases |ts|
  {
    if ts != [] {
      var init, last := ts[..|ts| - 1], ts[|ts| - 1];
      assert ts == init + [last];
      ForestAppend(init, [last]);
      ForestAppend(Kids(init), last.children);
      ForestByLevel(init);
    }
    assert |multiset(Forest(ts))| == |multiset(ts)| + |multiset(Forest(Kids(ts)))|;
  }

  lemma ForestShrinks(ts: seq<Tree>, kids: seq<Tree>)
    requires ts != [] && kids == Kids(ts)
    ensures |Forest(kids)| < |Forest(ts)|
  {
    ForestByLevel(ts);
  }

  /** BFSHelper's output: the level, then the levels below it. */
  function Levels(ts: seq<Tree>): seq<Tree>
    decreases |Forest(ts)|
  {
    if ts == [] then []
    else
      ForestShrinks(ts, Kids(ts));
      ts + Levels(Kids(ts))
  }

  /** getBreadthFirstTraversal's output. */
  function Bfs(t: Tree): seq<Tree>
  {
    [t] + Levels(t.children)
  }

  /** The levels below a list hold exactly the nodes of its forest. */
  lemma {:induction false} LevelsAreForest(ts: seq<Tree>)
    ensures multiset(Levels(ts)) == multiset(Forest(ts))
    decreases |Forest(ts)|
  {
    if ts != [] {
      ForestByLevel(ts);
      LevelsAreForest(Kids(ts));
    }
  }

  /** The breadth-first listing holds every node of the tree exactly as often
      as the pre-order does. */
  lemma BfsIsPermutation(t: Tree)
    ensures multiset(Bfs(t)) == multiset(PreOrder(t))
  {
    LevelsAreForest(t.children);
  }

  /** One level of the listing: the level itself, then the levels below. */
  lemma LevelsStep(ts: seq<Tree>)
    ensures Levels(ts) == ts + (if Kids(ts) == [] then [] else Levels(Kids(ts)))
  {
  }

  /** The loop of BFSHelper: appends each tree of the current level to the
      output list and gathers the trees' children lists. */
  method AddLevel(bfs: seq<Tree>, current: seq<Tree>) returns (out: seq<Tree>, childTrees: seq<Tree>)
    ensures out == bfs + current
    ensures childTrees == Kids(current)
  {
    out := bfs;
    childTrees := [];
    for k := 0 to |current|
      invariant out == bfs + current[..k]
      invariant childTrees == Kids(current[..k])
    {
      KidsNext(current, k);
      out := out + [current[k]];
      childTrees := childTrees + current[k].children;
    }
    assert current[..|current|] == current;
  }

  lemma LevelsJoin(bfs: seq<Tree>, current: seq<Tree>, kids: seq<Tree>)
    requires kids == Kids(current)
    ensures bfs + current + (if kids == [] then [] else Levels(kids)) == bfs + Levels(current)
  {
    LevelsStep(current);
  }

  /** BFSHelper: appends the current level to the output list and recurses
      on the concatenated children lists while these are non-empty. */
  method BfsHelper(bfs: seq<Tree>, current: seq<Tree>) returns (out: seq<Tree>)
    ensures out == bfs + Levels(current)
    decreases |Forest(current)|
  {
    var childTrees;
    out, childTrees := AddLevel(bfs, current);
    LevelsJoin(bfs, current, childTrees);
    if |childTrees| > 0 {
      ForestShrinks(current, childTrees);
      out := BfsHelper(out, childTrees);
    }
  }

  /** getBreadthFirstTraversal: the root, then the levels below it; every
      node of the tree appears exactly once. */
  method GetBreadthFirstTraversal(t: Tree) returns (out: seq<Tree>)
    ensures out == Bfs(t)
    ensures out[0] == t
    ensures multiset(out) == multiset(PreOrder(t))
  {
    out := BfsHelper([t], t.children);
    BfsIsPermutation(t);
  }

  // ---------------------------------------------------------------------
  // Small tests

  /** hasBetween: the loop's early exit as a recursive test. */
  function HasBetween(list: seq<int>, min: int, max: int): bool
  {
    list != [] && ((min < list[0] < max) || HasBetween(list[1..], min, max))
  }

  /** hasBetween holds iff some element lies strictly between min and max;
      so it fails on an empty list and whenever max <= min + 1. */
  lemma {:induction false} HasBetweenSpec(list: seq<int>, min: int, max: int)
    ensures HasBetween(list, min, max) <==> exists k :: 0 <= k < |list| && min < list[k] < max
    ensures list == [] || max <= min + 1 ==> !HasBetween(list, min, max)
    decreases |list|
  {
    if list != [] {
      HasBetweenSpec(list[1..], min, max);
      if HasBetween(list[1..], min, max) {
        var k :| 0 <= k < |list[1..]| && min < list[1..][k] < max;
        assert list[k + 1] == list[1..][k];
      }
      if exists k :: 0 <= k < |list| && min < list[k] < max {
        var k :| 0 <= k < |list| && min < list[k] < max;
        if k > 0 {
          assert list[1..][k - 1] == list[k];
        }
      }
    }
  }

  /** The tags of a phrase's head noun. */
  const HeadTags: set<string> := {"NN", "NNS", "NNP", "NNPS"}

  /** isHead: the tag is one of the four noun tags. */
  function IsHead(tag: string): (r: bool)
    ensures r <==> tag in HeadTags
    ensures r ==> |tag| >= 2 && tag[..2] == "NN"
  {
    tag == "NN" || tag == "NNS" || tag == "NNP" || tag == "NNPS"
  }

  // ---------------------------------------------------------------------
  // Scans along the path to a word

  /** The tags getX accepts as X, and the one getDominatingNP accepts. */
  const XTags: set<string> := {"NP", "S"}
  const NpTags: set<string> := {"NP"}

  /** The position of the first path entry with the uid; |path| when none. */
  function UidPosition(path: Path, uid: int): (i: nat)
    ensures i <= |path|
    ensures i < |path| ==> path[i].1 == uid
    ensures forall k :: 0 <= k < i ==> path[k].1 != uid
  {
    if path == [] then 0
    else if path[0].1 == uid then 0
    else 1 + UidPosition(path[1..], uid)
  }

  /** The position of the last entry before position n whose tag is one of
      the tags; -1 when none. */
  function LastTaggedIndex(path: Path, n: nat, tags: set<string>): (i: int)
    requires n <= |path|
    ensures -1 <= i < n
    ensures i >= 0 ==> path[i].0 in tags
    ensures forall k :: i < k < n ==> path[k].0 !in tags
  {
    if n == 0 then -1
    else if path[n - 1].0 in tags then n - 1
    else LastTaggedIndex(path, n - 1, tags)
  }

  /** The uid at a position of the path, -1 for position -1. */
  function UidAt(path: Path, i: int): int
    requires -1 <= i < |path|
  {
    if i < 0 then -1 else path[i].1
  }

  /** The best guess of getX and getDominatingNP: the uid of the last entry
      with one of the tags before the first entry with the stop uid. */
  function LastTaggedBefore(path: Path, stop: int, tags: set<string>): int
  {
    UidAt(path, LastTaggedIndex(path, UidPosition(path, stop), tags))
  }

  /** The loop shared by getX and getDominatingNP: walk the path from the
      root, stop at the stop uid and keep the last entry with one of the
      tags as the best guess. */
  method ScanPath(path: Path, stop: int, tags: set<string>) returns (best: int)
    ensures best == LastTaggedBefore(path, stop, tags)
  {
    best := -1;
    var k := 0;
    while k < |path|
      invariant k <= UidPosition(path, stop)
      invariant best == UidAt(path, LastTaggedIndex(path, k, tags))
    {
      var (tag, uid) := path[k];
      if uid == stop {
        break;
      } else if tag in tags {
        best := uid;
      }
      k := k + 1;
    }
  }

  /** getX: the last NP or S on the path to the word before the stop uid, or
      -1. */
  method GetX(tree: Tree, wordIndex: int, dominatingUid: int, pathTo: PathTo) returns (xUid: int)
    ensures xUid == LastTaggedBefore(pathTo(tree, wordIndex), dominatingUid, XTags)
  {
    xUid := ScanPath(pathTo(tree, wordIndex), dominatingUid, XTags);
  }

  /** getDominatingNP: the last NP on the path to the word before the stop
      uid, or -1. */
  method GetDominatingNP(tree: Tree, wordIndex: int, commonParentUid: int, pathTo: PathTo)
    returns (dominatingUid: int)
    ensures dominatingUid == LastTaggedBefore(pathTo(tree, wordIndex), commonParentUid, NpTags)
  {
    dominatingUid := ScanPath(pathTo(tree, wordIndex), commonParentUid, NpTags);
  }

  /** The best guess is the uid of an entry with one of the tags before the
      stop uid with no such entry between the two, and -1 when there is no
      such entry at all. */
  lemma LastTaggedBeforeSpec(path: Path, stop: int, tags: set<string>)
    ensures (forall k :: 0 <= k < UidPosition(path, stop) ==> path[k].0 !in tags) ==>
      LastTaggedBefore(path, stop, tags) == -1
    ensures LastTaggedBefore(path, stop, tags) != -1 ==>
      exists k :: 0 <= k < UidPosition(path, stop) && path[k].0 in tags &&
        path[k].1 == LastTaggedBefore(path, stop, tags) &&
        forall j :: k < j < UidPosition(path, stop) ==> path[j].0 !in tags
  {
    var n := UidPosition(path, stop);
    var i := LastTaggedIndex(path, n, tags);
    if i >= 0 {
      assert path[i].0 in tags;
    }
  }

  /** getHighestSUID: the uid of the first S on the path, or -1. */
  function HighestSUid(path: Path): (r: int)
    ensures (forall k :: 0 <= k < |path| ==> path[k].0 != "S") ==> r == -1
    ensures (exists k :: 0 <= k < |path| && path[k].0 == "S") ==>
      exists k :: 0 <= k < |path| && path[k] == ("S", r) &&
        forall j :: 0 <= j < k ==> path[j].0 != "S"
  {
    if path == [] then -1
    else if path[0].0 == "S" then path[0].1
    else
      var r := HighestSUid(path[1..]);
      assert (exists k :: 0 <= k < |path| && path[k].0 == "S") ==>
        exists k :: 0 <= k < |path| && path[k] == ("S", r) &&
          forall j :: 0 <= j < k ==> path[j].0 != "S" by {
        if exists k :: 0 <= k < |path| && path[k].0 == "S" {
          var k0 :| 0 <= k0 < |path| && path[k0].0 == "S";
          assert path[1..][k0 - 1] == path[k0];
          var k :| 0 <= k < |path[1..]| && path[1..][k] == ("S", r) &&
            forall j :: 0 <= j < k ==> path[1..][j].0 != "S";
          assert path[k + 1] == ("S", r);
          assert forall j :: 1 <= j < k + 1 ==> path[j] == path[1..][j - 1];
        }
      }
      r
  }

  /** The smaller of two ints (Math.min). */
  function Min(a: int, b: int): int
  {
    if a <= b then a else b
  }

  /** getMinPathUID: the smallest uid on the path, Integer.MAX_VALUE for an
      empty path. */
  function MinUid(path: Path): (r: int)
    ensures r <= EntityCentric.IntMax
    ensures forall k :: 0 <= k < |path| ==> r <= path[k].1
    ensures r == EntityCentric.IntMax || exists k :: 0 <= k < |path| && path[k].1 == r
  {
    if path == [] then EntityCentric.IntMax
    else
      var init := path[..|path| - 1];
      var r := Min(MinUid(init), path[|path| - 1].1);
      assert forall k :: 0 <= k < |init| ==> init[k] == path[k];
      r
  }

  /** getMinPathUID's loop. */
  method GetMinPathUid(path: Path) returns (min: int)
    ensures min == MinUid(path)
  {
    min := EntityCentric.IntMax;
    for k := 0 to |path|
      invariant min == MinUid(path[..k])
    {
      assert path[..k + 1][..k] == path[..k];
      min := Min(min, path[k].1);
    }
    assert path[..|path|] == path;
  }

  /** commonParentIndex: both paths are computed from indexA, so the two
      never differ and the result is the uid of the last node on the path to
      indexA, -1 for an empty path; indexB plays no part. */
  method CommonParentIndex(tree: Tree, indexA: int, indexB: int, pathTo: PathTo) returns (result: int)
    ensures var path := pathTo(tree, indexA);
      result == if path == [] then -1 else path[|path| - 1].1
  {
    var pathA := pathTo(tree, indexA);
    var pathB := pathTo(tree, indexA);
    var maxDepth := if |pathA| >= |pathB| then |pathA| else |pathB|;
    result := -1;
    var i := 0;
    while i < maxDepth
      invariant i <= maxDepth
      invariant result == if i == 0 then -1 else pathA[i - 1].1
    {
      if pathA[i].1 != pathB[i].1 {
        break;
      }
      result := pathA[i].1;
      i := i + 1;
    }
  }

  // ---------------------------------------------------------------------
  // getAntecedent

  /** The uids of a subtree's NP nodes followed by those of its S nodes. */
  function NpOrSUids(sub: Tree): seq<int>
  {
    TagUids(sub, "NP") + TagUids(sub, "S")
  }

  /** Some NP or S node of the subtree has a uid strictly between u and the
      bound. */
  ghost predicate Separated(sub: Tree, u: int, bound: int)
  {
    exists m :: m in PreOrder(sub) && (m.tag == "NP" || m.tag == "S") && u < m.uid < bound
  }

  /** The position of the first NP of the list for which a matching uid lies
      strictly between its own uid and the bound; |ns| when none. */
  function FirstSeparated(ns: seq<Tree>, matching: seq<int>, bound: int): (i: nat)
    ensures i <= |ns|
    ensures i < |ns| ==> ns[i].tag == "NP" && HasBetween(matching, ns[i].uid, bound)
    ensures forall k :: 0 <= k < i ==> !(ns[k].tag == "NP" && HasBetween(matching, ns[k].uid, bound))
  {
    if ns == [] then 0
    else if ns[0].tag == "NP" && HasBetween(matching, ns[0].uid, bound) then 0
    else 1 + FirstSeparated(ns[1..], matching, bound)
  }

  /** The uid of the first such NP, -1 when none. */
  function Proposal(ns: seq<Tree>, matching: seq<int>, bound: int): int
  {
    var i := FirstSeparated(ns, matching, bound);
    if i < |ns| then ns[i].uid else -1
  }

  /** getAntecedent's scan of a found subtree. */
  function AntecedentIn(sub: Tree, bound: int): int
  {
    Proposal(Bfs(sub), NpOrSUids(sub), bound)
  }

  /** getAntecedent: a null subtree makes getTagUIDs dereference null. */
  function Antecedent(tree: Tree, bound: int, xUid: int): Result<int>
  {
    match ReturnSubtree(tree, xUid)
    case None => Fail(NullPointer)
    case Some(sub) => Ok(AntecedentIn(sub, bound))
  }

  /** getAntecedent's loop over the breadth-first listing. */
  method ScanSeparated(bfsTree: seq<Tree>, matchingUids: seq<int>, bound: int) returns (uid: int)
    ensures uid == Proposal(bfsTree, matchingUids, bound)
  {
    for k := 0 to |bfsTree|
      invariant FirstSeparated(bfsTree, matchingUids, bound) >= k
    {
      var node := bfsTree[k];
      if node.tag == "NP" && HasBetween(matchingUids, node.uid, bound) {
        return node.uid;
      }
    }
    return -1;
  }

  /** getAntecedent. */
  method GetAntecedent(tree: Tree, bound: int, xUid: int) returns (r: Result<int>)
    ensures r == Antecedent(tree, bound, xUid)
  {
    var subtree := ReturnSubtree(tree, xUid);
    if subtree.None? {
      return Fail(NullPointer);
    }
    var sub := subtree.value;
    var matchingUids := TagUids(sub, "NP");
    matchingUids := matchingUids + TagUids(sub, "S");
    var bfsTree := GetBreadthFirstTraversal(sub);
    var uid := ScanSeparated(bfsTree, matchingUids, bound);
    return Ok(uid);
  }

  /** A matching uid lies between u and the bound exactly when the subtree
      has an NP or S node with a uid there. */
  lemma SeparatedByMatching(sub: Tree, u: int, bound: int)
    ensures HasBetween(NpOrSUids(sub), u, bound) <==> Separated(sub, u, bound)
  {
    HasBetweenSpec(NpOrSUids(sub), u, bound);
    TagUidsInPreOrder(sub, "NP");
    TagUidsInPreOrder(sub, "S");
    var matching := NpOrSUids(sub);
    if HasBetween(matching, u, bound) {
      var k :| 0 <= k < |matching| && u < matching[k] < bound;
      assert matching[k] in TagUids(sub, "NP") || matching[k] in TagUids(sub, "S");
    }
    if Separated(sub, u, bound) {
      var m :| m in PreOrder(sub) && (m.tag == "NP" || m.tag == "S") && u < m.uid < bound;
      assert m.uid in matching;
    }
  }

  /** What getAntecedent proposes: when X's subtree exists, the result is -1
      or the uid of an NP of that subtree that has an NP or S strictly
      between its uid and the bound; whenever such an NP exists, the result
      is the uid of one, namely the first in breadth-first order. */
  lemma AntecedentProposes(tree: Tree, bound: int, xUid: int, sub: Tree)
    requires ReturnSubtree(tree, xUid) == Some(sub)
    ensures Antecedent(tree, bound, xUid) == Ok(AntecedentIn(sub, bound))
    ensures AntecedentIn(sub, bound) != -1 ==>
      exists n :: n in PreOrder(sub) && n.tag == "NP" && n.uid == AntecedentIn(sub, bound) &&
        Separated(sub, n.uid, bound)
    ensures (exists n :: n in PreOrder(sub) && n.tag == "NP" && Separated(sub, n.uid, bound)) ==>
      exists n :: n in PreOrder(sub) && n.tag == "NP" && n.uid == AntecedentIn(sub, bound) &&
        Separated(sub, n.uid, bound)
  {
    var bfs := Bfs(sub);
    var matching := NpOrSUids(sub);
    var i := FirstSeparated(bfs, matching, bound);
    BfsIsPermutation(sub);
    if i < |bfs| {
      assert bfs[i] in multiset(bfs);
      SeparatedByMatching(sub, bfs[i].uid, bound);
    } else if exists n :: n in PreOrder(sub) && n.tag == "NP" && Separated(sub, n.uid, bound) {
      var n :| n in PreOrder(sub) && n.tag == "NP" && Separated(sub, n.uid, bound);
      assert n in multiset(bfs);
      var k :| 0 <= k < |bfs| && bfs[k] == n;
      SeparatedByMatching(sub, n.uid, bound);
      assert false;
    }
  }

  // ---------------------------------------------------------------------
  // Step 8

  /** The position of the first NP of the list whose uid is at least x. */
  function FirstNpFrom(ns: seq<Tree>, x: int): (i: nat)
    ensures i <= |ns|
    ensures i < |ns| ==> ns[i].tag == "NP" && ns[i].uid >= x
    ensures forall k :: 0 <= k < i ==> !(ns[k].tag == "NP" && ns[k].uid >= x)
  {
    if ns == [] then 0
    else if ns[0].tag == "NP" && ns[0].uid >= x then 0
    else 1 + FirstNpFrom(ns[1..], x)
  }

  /** Step 8's proposal: the first NP of the listing with uid at least x. */
  function RightOfPath(bfs: seq<Tree>, x: int): Option<int>
  {
    var i := FirstNpFrom(bfs, x);
    if i < |bfs| then Some(bfs[i].uid) else None
  }

  /** Step 8's loop with its exclusion list. Nodes below x are skipped, an NP
      is proposed, and an S or excluded node adds its children's uids to the
      exclusions; since the NP test comes first, the exclusions never keep an
      NP from being proposed. */
  method ScanRightOfPath(bfsSubtree: seq<Tree>, xUid: int) returns (r: Option<int>)
    ensures r == RightOfPath(bfsSubtree, xUid)
  {
    var exclusions: seq<int> := [];
    for k := 0 to |bfsSubtree|
      invariant FirstNpFrom(bfsSubtree, xUid) >= k
    {
      var node := bfsSubtree[k];
      if node.uid < xUid {
        continue;
      } else if node.tag == "NP" {
        return Some(node.uid);
      } else if node.tag == "S" || node.uid in exclusions {
        var kids := node.children;
        exclusions := exclusions + seq(|kids|, j requires 0 <= j < |kids| => kids[j].uid);
      }
    }
    return None;
  }

  // ---------------------------------------------------------------------
  // parse

  /** Unique indices are non-negative, so no node answers to the -1 that
      stands for "not found". */
  predicate NonNegativeUids(t: Tree)
  {
    forall n :: n in PreOrder(t) ==> n.uid >= 0
  }

  /** Each new X lies strictly above the previous one on the path, so the
      climbing loop ends. */
  lemma ClimbRises(tree: Tree, path: Path, x: int, sub: Tree)
    requires NonNegativeUids(tree)
    requires ReturnSubtree(tree, LastTaggedBefore(path, x, XTags)) == Some(sub)
    ensures UidPosition(path, LastTaggedBefore(path, x, XTags)) < UidPosition(path, x)
  {
    ReturnSubtreeSpec(tree, LastTaggedBefore(path, x, XTags));
    var i := LastTaggedIndex(path, UidPosition(path, x), XTags);
    assert i >= 0;
  }

  /** One pass of the climbing loop (steps 5 to 8) from the current X: the
      proposed uid, None to go on climbing from the new X, or the exception
      raised on the way. */
  function ClimbStep(tree: Tree, path: Path, start: int, x: int, pathTo: PathTo): Result<Option<int>>
  {
    var next := LastTaggedBefore(path, x, XTags);
    match ReturnSubtree(tree, next)
    case None => Fail(NullPointer)
    case Some(sub) =>
      var subpath := pathTo(sub, start);
      if sub.tag == "NP" && |subpath| < 2 then Fail(IndexOutOfBounds)
      else if sub.tag == "NP" && !IsHead(subpath[1].0) then Ok(Some(subpath[1].1))
      else if AntecedentIn(sub, start) > -1 then Ok(Some(AntecedentIn(sub, start)))
      else if sub.tag == "S" && RightOfPath(Bfs(sub), next).Some? then Ok(RightOfPath(Bfs(sub), next))
      else Ok(None)
  }

  /** The climbing loop: passes from X until X is the highest S. */
  function Climb(tree: Tree, path: Path, start: int, x: int, mainS: int, pathTo: PathTo): Result<Option<int>>
    requires NonNegativeUids(tree)
    decreases UidPosition(path, x)
  {
    if x == mainS then Ok(None)
    else
      match ClimbStep(tree, path, start, x, pathTo)
      case Ok(None) =>
        var next := LastTaggedBefore(path, x, XTags);
        ClimbRises(tree, path, x, ReturnSubtree(tree, next).value);
        Climb(tree, path, start, next, mainS, pathTo)
      case outcome => outcome
  }

  /** One pass of the climbing loop of parse. */
  method ClimbOnce(tree: Tree, start: int, xUid: int, pathTo: PathTo) returns (outcome: Result<Option<int>>, next: int)
    ensures next == LastTaggedBefore(pathTo(tree, start), xUid, XTags)
    ensures outcome == ClimbStep(tree, pathTo(tree, start), start, xUid, pathTo)
  {
    // 5. the next NP or S up the path becomes X
    next := GetX(tree, start, xUid, pathTo);
    var subtree := ReturnSubtree(tree, next);
    if subtree.None? {
      return Fail(NullPointer), next;
    }
    var sub := subtree.value;
    // 6. an NP reached from a non-head child proposes that child
    if sub.tag == "NP" {
      var subpath := pathTo(sub, start);
      if |subpath| < 2 {
        return Fail(IndexOutOfBounds), next;
      }
      if !IsHead(subpath[1].0) {
        return Ok(Some(subpath[1].1)), next;
      }
    }
    // 7. the breadth-first search below X, bounded by the word index
    var antecedent := GetAntecedent(tree, start, next);
    if antecedent.value > -1 {
      return Ok(Some(antecedent.value)), next;
    }
    // 8. an S proposes the first NP at or after X in breadth-first order
    if sub.tag == "S" {
      var bfsSubtree := GetBreadthFirstTraversal(sub);
      var found := ScanRightOfPath(bfsSubtree, next);
      if found.Some? {
        return Ok(found), next;
      }
    }
    return Ok(None), next;
  }

  /** getAntecedent on a whole earlier sentence: X is the root and the bound
      is Integer.MAX_VALUE. */
  function RootAntecedent(t: Tree): int
  {
    AntecedentIn(t, EntityCentric.IntMax)
  }

  /** Step 4's search of the earlier sentences, most recent first: the first
      proposal with its sentence number, or (-1, -1). */
  function Fallback(parses: seq<Tree>, n: nat): (r: (int, int))
    requires n <= |parses|
    ensures r == (-1, -1) ==> forall j :: 0 <= j < n ==> RootAntecedent(parses[j]) <= -1
    ensures r != (-1, -1) ==> 0 <= r.1 < n && r.0 == RootAntecedent(parses[r.1]) > -1
    ensures r != (-1, -1) ==> forall j :: r.1 < j < n ==> RootAntecedent(parses[j]) <= -1
  {
    if n == 0 then (-1, -1)
    else if RootAntecedent(parses[n - 1]) > -1 then (RootAntecedent(parses[n - 1]), n - 1)
    else Fallback(parses, n - 1)
  }

  /** Steps 1 and 2 of parse: X is the last NP or S above the last NP that
      lies above the last node of the path to the word. */
  function StartX(path: Path): int
  {
    var parent := if path == [] then -1 else path[|path| - 1].1;
    LastTaggedBefore(path, LastTaggedBefore(path, parent, NpTags), XTags)
  }

  /** parse: the antecedent's uid and sentence number, (-1, -1) when there is
      none, or the exception the search runs into. */
  function ParseOf(parses: seq<Tree>, sentenceNum: nat, begin: int, end: int, pathTo: PathTo): Result<(int, int)>
    requires sentenceNum < |parses| && NonNegativeUids(parses[sentenceNum])
  {
    var tree := parses[sentenceNum];
    var path := pathTo(tree, begin);
    var x := StartX(path);
    match Antecedent(tree, MinUid(path), x)
    case Fail(e) => Fail(e)
    case Ok(a) =>
      if a > -1 then Ok((a, sentenceNum))
      else
        match Climb(tree, path, begin, x, HighestSUid(path), pathTo)
        case Fail(e) => Fail(e)
        case Ok(Some(b)) => Ok((b, sentenceNum))
        case Ok(None) => Ok(Fallback(parses, sentenceNum))
  }

  /** Steps 1 to 3 of parse: X and what the first breadth-first search below
      it proposes. */
  method FirstSearch(s: Tree, startIndex: int, endIndex: int, pathTo: PathTo)
    returns (xUid: int, antecedent: Result<int>)
    ensures xUid == StartX(pathTo(s, startIndex))
    ensures antecedent == Antecedent(s, MinUid(pathTo(s, startIndex)), xUid)
  {
    // 1. the NP dominating the pronoun
    var parentUid := CommonParentIndex(s, startIndex, endIndex - 1, pathTo);
    var dominatingUid := GetDominatingNP(s, startIndex, parentUid, pathTo);
    // 2. the first NP or S above it is X
    xUid := GetX(s, startIndex, dominatingUid, pathTo);
    // 3. the breadth-first search below X, bounded by the smallest uid of the path
    var minUid := GetMinPathUid(pathTo(s, startIndex));
    antecedent := GetAntecedent(s, minUid, xUid);
  }

  /** The climbing loop of parse (steps 4 to 9): passes until X is the
      highest S of the path. */
  method ClimbLoop(s: Tree, startIndex: int, x0: int, mainSUid: int, pathTo: PathTo)
    returns (outcome: Result<Option<int>>)
    requires NonNegativeUids(s)
    ensures outcome == Climb(s, pathTo(s, startIndex), startIndex, x0, mainSUid, pathTo)
  {
    ghost var path := pathTo(s, startIndex);
    var xUid := x0;
    while mainSUid != xUid
      invariant Climb(s, path, startIndex, x0, mainSUid, pathTo) == Climb(s, path, startIndex, xUid, mainSUid, pathTo)
      decreases UidPosition(path, xUid)
    {
      var next;
      outcome, next := ClimbOnce(s, startIndex, xUid, pathTo);
      if outcome.Fail? || outcome.value.Some? {
        return;
      }
      ClimbRises(s, path, xUid, ReturnSubtree(s, next).value);
      xUid := next;
    }
    return Ok(None);
  }

  /** The loop over the earlier sentences (step 4), most recent first. */
  method SearchEarlier(parses: seq<Tree>, sentenceNum: nat) returns (r: (int, int))
    requires sentenceNum <= |parses|
    ensures r == Fallback(parses, sentenceNum)
  {
    var sn: nat := sentenceNum;
    while sn > 0
      invariant sn <= sentenceNum
      invariant Fallback(parses, sentenceNum) == Fallback(parses, sn)
    {
      sn := sn - 1;
      var t := parses[sn];
      var rootUid := t.uid;
      var antecedent := GetAntecedent(t, EntityCentric.IntMax, rootUid);
      if antecedent.value > -1 {
        return (antecedent.value, sn);
      }
    }
    return (-1, -1);
  }

  /** parse's driver: steps 1 to 3, the climbing loop, then the earlier
      sentences. */
  method Parse(parses: seq<Tree>, sentenceNum: nat, begin: int, end: int, pathTo: PathTo)
    returns (r: Result<(int, int)>)
    requires sentenceNum < |parses| && NonNegativeUids(parses[sentenceNum])
    ensures r == ParseOf(parses, sentenceNum, begin, end, pathTo)
  {
    var s := parses[sentenceNum];
    var xUid, antecedent := FirstSearch(s, begin, end, pathTo);
    if antecedent.Fail? {
      return Fail(antecedent.error);
    }
    if antecedent.value > -1 {
      return Ok((antecedent.value, sentenceNum));
    }
    var startIndex := begin;
    var mainSUid := HighestSUid(pathTo(s, startIndex));
    var outcome := ClimbLoop(s, startIndex, xUid, mainSUid, pathTo);
    if outcome.Fail? {
      return Fail(outcome.error);
    }
    if outcome.value.Some? {
      return Ok((outcome.value.value, sentenceNum));
    }
    var found := SearchEarlier(parses, sentenceNum);
    return Ok(found);
  }
}
