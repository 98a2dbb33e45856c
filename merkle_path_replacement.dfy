/**
 * MerklePathReplacement: replace the path from a node down along a route so that every
 * node on it may be changed without disturbing other copies of the tree that share it.
 *
 * The merkle nodes are modelled by a NodeStore: each node has an identity, its children
 * (internal nodes only), its route from the root, a reference count, whether it holds a
 * hash, and a log of the initialize() calls made on nodes. Copying a node, adopting the
 * original's children, setting a child, invalidating a hash and initializing a node are
 * the abstract effects of the MerkleNode operations replacePath calls.
 */
module MerklePathReplacement {
  import opened Wrappers
  import opened JavaInts

  /** The identity of a merkle node. */
  type NodeId = nat

  /** Why replacePath gives up (the exception the source throws). */
  datatype ReplaceError =
    | NullTree          // IllegalArgumentException: no first node
    | RouteTooShort     // IllegalStateException from skipStepsInRoute
    | LeafPathTooLong   // MerkleRouteException: the first node is a leaf but the path is longer than 1

  /**
   * The tree is shaped by its routes: every child is present and its route is its
   * parent's route followed by its index in the parent.
   */
  ghost predicate TreeShaped(children: map<NodeId, seq<Option<NodeId>>>, routes: map<NodeId, seq<nat>>) {
    forall n, i :: n in children && n in routes && 0 <= i < |children[n]| && children[n][i].Some? ==>
      && children[n][i].value in children && children[n][i].value in routes
      && routes[children[n][i].value] == routes[n] + [i]
  }

  /** A snapshot of the whole store, for stating what replacePath changes. */
  datatype StoreState = StoreState(
    children: map<NodeId, seq<Option<NodeId>>>,
    leaves: set<NodeId>,
    routes: map<NodeId, seq<nat>>,
    refCounts: map<NodeId, int>,
    hashed: set<NodeId>,
    initLog: seq<NodeId>,
    next: NodeId)

  /**
   * Every node has a route and a reference count, a leaf has no children, every identity
   * in use is below next, and the routes follow the tree.
   */
  ghost predicate StoreValid(s: StoreState) {
    && s.routes.Keys == s.children.Keys && s.refCounts.Keys == s.children.Keys
    && s.leaves <= s.children.Keys && s.hashed <= s.children.Keys
    && (forall n :: n in s.leaves ==> s.children[n] == [])
    && (forall n :: n in s.children ==> n < s.next)
    && TreeShaped(s.children, s.routes)
  }

  /** The merkle nodes and the state of each that replacePath reads or changes. */
  class NodeStore {
    var children: map<NodeId, seq<Option<NodeId>>>
    var leaves: set<NodeId>
    var routes: map<NodeId, seq<nat>>
    var refCounts: map<NodeId, int>
    var hashed: set<NodeId>
    var initLog: seq<NodeId>
    var next: NodeId

    /** The store is well formed (StoreValid). */
    ghost predicate Valid()
      reads this
    {
      StoreValid(State())
    }

    /** The current state, as a value. */
    ghost function State(): StoreState
      reads this
    {
      StoreState(children, leaves, routes, refCounts, hashed, initLog, next)
    }

    /** MerkleNode.incrementReferenceCount. */
    method IncrementReferenceCount(n: NodeId)
      requires n in refCounts
      modifies this`refCounts
      ensures refCounts == old(refCounts)[n := old(refCounts)[n] + 1]
    {
      refCounts := refCounts[n := refCounts[n] + 1];
    }

    /** MerkleNode.decrementReferenceCount. */
    method DecrementReferenceCount(n: NodeId)
      requires n in refCounts
      modifies this`refCounts
      ensures refCounts == old(refCounts)[n := old(refCounts)[n] - 1]
    {
      refCounts := refCounts[n := refCounts[n] - 1];
    }

    /** MerkleNode.invalidateHash: the node no longer holds a hash. */
    method InvalidateHash(n: NodeId)
      modifies this`hashed
      ensures hashed == old(hashed) - {n}
    {
      hashed := hashed - {n};
    }

    /**
     * MerkleCopy.copyAnyNodeType: a fresh node of the same kind, with the original's
     * route, no children, no references and no hash.
     */
    method CopyAnyNodeType(n: NodeId) returns (c: NodeId)
      requires n in routes
      modifies this`children, this`leaves, this`routes, this`refCounts, this`next
      ensures c == old(next) && next == old(next) + 1
      ensures children == old(children)[c := []]
      ensures leaves == if n in old(leaves) then old(leaves) + {c} else old(leaves)
      ensures routes == old(routes)[c := old(routes)[n]]
      ensures refCounts == old(refCounts)[c := 0]
    {
      c := next;
      next := next + 1;
      children := children[c := []];
      if n in leaves {
        leaves := leaves + {c};
      }
      routes := routes[c := routes[n]];
      refCounts := refCounts[c := 0];
    }

    /** MerkleInternal.setChild: child c takes slot i of p, with the given route. */
    method SetChild(p: NodeId, i: nat, c: NodeId, route: seq<nat>)
      requires p in children && i < |children[p]|
      modifies this`children, this`routes
      ensures children == old(children)[p := old(children)[p][i := Some(c)]]
      ensures routes == old(routes)[c := route]
    {
      children := children[p := children[p][i := Some(c)]];
      routes := routes[c := route];
    }

    /** MerkleCopy.adoptChildren: the copy takes the original's children. */
    method AdoptChildren(original: NodeId, copy: NodeId)
      requires original in children
      modifies this`children
      ensures children == old(children)[copy := old(children)[original]]
    {
      children := children[copy := children[original]];
    }

    /** MerkleInternal.initialize, recorded in the order of the calls. */
    method Initialize(n: NodeId)
      modifies this`initLog
      ensures initLog == old(initLog) + [n]
    {
      initLog := initLog + [n];
    }
  }

  // ---------------------------------------------------------------------------------
  // The route and the original nodes along it
  // ---------------------------------------------------------------------------------

  /** Each step of the route from n names a present child of an internal node. */
  ghost predicate RouteExists(children: map<NodeId, seq<Option<NodeId>>>, leaves: set<NodeId>, n: NodeId, steps: seq<nat>)
    decreases |steps|
  {
    && n in children
    && (steps != [] ==>
      && n !in leaves && steps[0] < |children[n]| && children[n][steps[0]].Some?
      && RouteExists(children, leaves, children[n][steps[0]].value, steps[1..]))
  }

  /** The original nodes along the route from n: n, then the node each step reaches. */
  ghost function Originals(children: map<NodeId, seq<Option<NodeId>>>, leaves: set<NodeId>, n: NodeId, steps: seq<nat>): (r: seq<NodeId>)
    requires RouteExists(children, leaves, n, steps)
    ensures |r| == |steps| + 1 && r[0] == n
    decreases |steps|
  {
    if steps == [] then [n]
    else [n] + Originals(children, leaves, children[n][steps[0]].value, steps[1..])
  }

  /** Along an existing route in a tree-shaped store, the k-th original node has the route of n extended by k steps. */
  lemma {:induction false} OriginalsRoutes(children: map<NodeId, seq<Option<NodeId>>>, leaves: set<NodeId>,
                                           routes: map<NodeId, seq<nat>>, n: NodeId, steps: seq<nat>)
    requires TreeShaped(children, routes) && n in routes
    requires RouteExists(children, leaves, n, steps)
    ensures forall k :: 0 <= k < |steps| + 1 ==>
      && Originals(children, leaves, n, steps)[k] in children
      && Originals(children, leaves, n, steps)[k] in routes
      && routes[Originals(children, leaves, n, steps)[k]] == routes[n] + steps[..k]
    decreases |steps|
  {
    if steps != [] {
      var c := children[n][steps[0]].value;
      OriginalsRoutes(children, leaves, routes, c, steps[1..]);
      var o := Originals(children, leaves, n, steps);
      var rest := Originals(children, leaves, c, steps[1..]);
      assert o == [n] + rest;
      forall k | 1 <= k < |steps| + 1
        ensures routes[o[k]] == routes[n] + steps[..k]
      {
        assert o[k] == rest[k - 1];
        assert steps[..k] == [steps[0]] + steps[1..][..k - 1];
      }
    }
  }

  /** Along an existing route each original but the last is internal and holds the next one at the step's index. */
  lemma {:induction false} OriginalsLinks(children: map<NodeId, seq<Option<NodeId>>>, leaves: set<NodeId>,
                                          n: NodeId, steps: seq<nat>)
    requires RouteExists(children, leaves, n, steps)
    ensures forall k :: 0 <= k < |steps| ==>
      && Originals(children, leaves, n, steps)[k] !in leaves
      && Originals(children, leaves, n, steps)[k] in children
      && steps[k] < |children[Originals(children, leaves, n, steps)[k]]|
      && children[Originals(children, leaves, n, steps)[k]][steps[k]] == Some(Originals(children, leaves, n, steps)[k + 1])
    decreases |steps|
  {
    if steps != [] {
      var c := children[n][steps[0]].value;
      OriginalsLinks(children, leaves, c, steps[1..]);
      var o := Originals(children, leaves, n, steps);
      var rest := Originals(children, leaves, c, steps[1..]);
      assert o == [n] + rest;
      forall k | 1 <= k < |steps|
        ensures children[o[k]][steps[k]] == Some(o[k + 1])
      {
        assert o[k] == rest[k - 1] && o[k + 1] == rest[k] && steps[k] == steps[1..][k - 1];
      }
    }
  }

  /**
   * Along an existing route in a tree-shaped store, the k-th original node has the route
   * of n extended by the first k steps, and each step leads from one original to the next.
   */
  lemma OriginalsFacts(children: map<NodeId, seq<Option<NodeId>>>, leaves: set<NodeId>,
                       routes: map<NodeId, seq<nat>>, n: NodeId, steps: seq<nat>)
    requires TreeShaped(children, routes) && n in routes
    requires RouteExists(children, leaves, n, steps)
    ensures forall k :: 0 <= k < |steps| + 1 ==>
      && Originals(children, leaves, n, steps)[k] in children
      && Originals(children, leaves, n, steps)[k] in routes
      && routes[Originals(children, leaves, n, steps)[k]] == routes[n] + steps[..k]
    ensures forall k :: 0 <= k < |steps| ==>
      && Originals(children, leaves, n, steps)[k] !in leaves
      && steps[k] < |children[Originals(children, leaves, n, steps)[k]]|
      && children[Originals(children, leaves, n, steps)[k]][steps[k]] == Some(Originals(children, leaves, n, steps)[k + 1])
  {
    OriginalsRoutes(children, leaves, routes, n, steps);
    OriginalsLinks(children, leaves, n, steps);
  }

  /** The original nodes along a route in a tree-shaped store are pairwise distinct. */
  lemma OriginalsDistinct(children: map<NodeId, seq<Option<NodeId>>>, leaves: set<NodeId>,
                          routes: map<NodeId, seq<nat>>, n: NodeId, steps: seq<nat>)
    requires TreeShaped(children, routes) && n in routes
    requires RouteExists(children, leaves, n, steps)
    ensures forall k1, k2 :: 0 <= k1 < k2 < |steps| + 1 ==>
      Originals(children, leaves, n, steps)[k1] != Originals(children, leaves, n, steps)[k2]
  {
    OriginalsFacts(children, leaves, routes, n, steps);
    var o := Originals(children, leaves, n, steps);
    forall k1, k2 | 0 <= k1 < k2 < |steps| + 1
      ensures o[k1] != o[k2]
    {
      assert |routes[o[k1]]| == |routes[n]| + k1;
      assert |routes[o[k2]]| == |routes[n]| + k2;
    }
  }

  // ---------------------------------------------------------------------------------
  // Which nodes are copied
  // ---------------------------------------------------------------------------------

  /**
   * The first path index of the skipped tail: copyChildIfNeeded's `pathLength - skipAtEnd`,
   * an int subtraction, so it wraps when skipAtEnd is negative enough to overflow it.
   */
  function SkipFrom(pathLength: int, skipAtEnd: int): Int {
    ToInt(pathLength - skipAtEnd)
  }

  /**
   * Whether path index k holds a copy: k is past the first node and before the skipped
   * tail, and an earlier node was copied or the original's reference count exceeds 1.
   */
  ghost function Copied(refs: map<NodeId, int>, orig: seq<NodeId>, skipFrom: int, k: nat): bool
    requires k < |orig|
  {
    && 1 <= k && k < skipFrom
    && (Copied(refs, orig, skipFrom, k - 1) || (orig[k] in refs && refs[orig[k]] > 1))
  }

  /** Once a node is copied, every later node before the skipped tail is copied too. */
  lemma {:induction false} CopyPropagates(refs: map<NodeId, int>, orig: seq<NodeId>, skipFrom: int, j: nat, k: nat)
    requires forall i :: 0 <= i < |orig| ==> orig[i] in refs
    requires j <= k < skipFrom && k < |orig|
    requires Copied(refs, orig, skipFrom, j)
    ensures Copied(refs, orig, skipFrom, k)
    decreases k - j
  {
    if j < k {
      CopyPropagates(refs, orig, skipFrom, j, k - 1);
    }
  }

  /**
   * A node is copied exactly when it lies strictly between the first node and the skipped
   * tail and some original at or above it on the path, below the first node, is shared.
   */
  lemma {:induction false} CopiedExact(refs: map<NodeId, int>, orig: seq<NodeId>, skipFrom: int, k: nat)
    requires forall i :: 0 <= i < |orig| ==> orig[i] in refs
    requires k < |orig|
    ensures Copied(refs, orig, skipFrom, k) <==>
      1 <= k < skipFrom && exists j :: 1 <= j <= k && refs[orig[j]] > 1
  {
    if k >= 1 {
      CopiedExact(refs, orig, skipFrom, k - 1);
      if exists j :: 1 <= j <= k && refs[orig[j]] > 1 {
        var j :| 1 <= j <= k && refs[orig[j]] > 1;
        if 1 <= k < skipFrom && j < k {
          assert Copied(refs, orig, skipFrom, j);
          CopyPropagates(refs, orig, skipFrom, j, k);
        }
      }
    }
  }

  /** The copy flags of the whole path. */
  ghost function CopyFlags(refs: map<NodeId, int>, orig: seq<NodeId>, skipFrom: int): (r: seq<bool>)
    ensures |r| == |orig|
  {
    seq(|orig|, k requires 0 <= k < |orig| => Copied(refs, orig, skipFrom, k))
  }

  /** The originals whose hash replacePath invalidates among the first i path indices. */
  ghost function Invalidated(orig: seq<NodeId>, flags: seq<bool>, skipFrom: int, i: nat): set<NodeId>
    requires i <= |orig| == |flags|
  {
    set k | 1 <= k < i && k < skipFrom && !flags[k] :: orig[k]
  }

  /**
   * A skipAtEnd so far below zero that pathLength - skipAtEnd overflows an int wraps the
   * bound negative: then every node counts as skipped, so none is copied and no hash is
   * invalidated.
   */
  lemma WrappedSkipKeepsAll(refs: map<NodeId, int>, orig: seq<NodeId>, skipAtEnd: Int)
    requires |orig| <= INT_MAX && |orig| - skipAtEnd > INT_MAX
    ensures SkipFrom(|orig|, skipAtEnd) < 0
    ensures forall k :: 0 <= k < |orig| ==> !CopyFlags(refs, orig, SkipFrom(|orig|, skipAtEnd))[k]
    ensures Invalidated(orig, CopyFlags(refs, orig, SkipFrom(|orig|, skipAtEnd)), SkipFrom(|orig|, skipAtEnd), |orig|) == {}
  {
    assert SkipFrom(|orig|, skipAtEnd) == |orig| - skipAtEnd - 0x1_0000_0000;
  }

  /**
   * The order of initializePath: the flagged internal nodes from the highest index down.
   */
  ghost function InitOrder(ps: seq<NodeId>, fs: seq<bool>, leaves: set<NodeId>): seq<NodeId>
    requires |ps| == |fs|
  {
    if ps == [] then []
    else InitOrder(ps[1..], fs[1..], leaves) + (if fs[0] && ps[0] !in leaves then [ps[0]] else [])
  }

  /** initializePath initializes exactly the flagged path nodes that are not leaves. */
  lemma {:induction false} InitOrderExact(ps: seq<NodeId>, fs: seq<bool>, leaves: set<NodeId>)
    requires |ps| == |fs|
    ensures forall n :: n in InitOrder(ps, fs, leaves) <==>
      n !in leaves && exists k :: 0 <= k < |ps| && fs[k] && ps[k] == n
  {
    if ps != [] {
      InitOrderExact(ps[1..], fs[1..], leaves);
      forall n | n !in leaves && (exists k :: 0 <= k < |ps| && fs[k] && ps[k] == n)
        ensures n in InitOrder(ps, fs, leaves)
      {
        var k :| 0 <= k < |ps| && fs[k] && ps[k] == n;
        if k > 0 {
          assert fs[1..][k - 1] && ps[1..][k - 1] == n;
        }
      }
      forall n | n in InitOrder(ps[1..], fs[1..], leaves)
        ensures exists k :: 0 <= k < |ps| && fs[k] && ps[k] == n
      {
        var k :| 0 <= k < |ps[1..]| && fs[1..][k] && ps[1..][k] == n;
        assert fs[k + 1] && ps[k + 1] == n;
      }
    }
  }

  // ---------------------------------------------------------------------------------
  // The steps of replacePath
  // ---------------------------------------------------------------------------------

  /**
   * The reference counts after child receives a artificial references and parent, unless
   * it is the root of the replacement, gives back the one it received.
   */
  function HandledRefs(refs: map<NodeId, int>, root: NodeId, parent: NodeId, child: NodeId, a: int): (r: map<NodeId, int>)
    requires parent in refs && child in refs && parent != child
    ensures r.Keys == refs.Keys
    ensures r[child] == refs[child] + a && r[parent] == refs[parent] - (if parent != root then 1 else 0)
    ensures forall n :: n in refs && n != parent && n != child ==> r[n] == refs[n]
  {
    refs[child := refs[child] + a][parent := refs[parent] - (if parent != root then 1 else 0)]
  }

  /**
   * The store after child is copied into the fresh node next and the copy installed at slot
   * idx of parentInPath: the copy has child's route, kind and (for an internal node)
   * children, and no references yet.
   */
  function CopiedInto(s: StoreState, child: NodeId, parentInPath: NodeId, idx: nat): StoreState
    requires child in s.children && child in s.routes && parentInPath in s.children && idx < |s.children[parentInPath]|
  {
    StoreState(
      s.children[s.next := if child in s.leaves then [] else s.children[child]]
                [parentInPath := s.children[parentInPath][idx := Some(s.next)]],
      if child in s.leaves then s.leaves + {s.next} else s.leaves,
      s.routes[s.next := s.routes[child]],
      s.refCounts[s.next := 0],
      s.hashed, s.initLog, s.next + 1)
  }

  /**
   * handleArtificialReferences: a child that is not the last node takes one artificial
   * reference (the returned count), and a parent other than the first node gives back the
   * artificial reference it took as a child on the previous step.
   */
  method HandleArtificialReferences(store: NodeStore, isLastNode: bool, root: NodeId, parent: NodeId, child: NodeId)
    returns (artificialChildReferences: int)
    requires parent in store.refCounts && child in store.refCounts && parent != child
    modifies store`refCounts
    ensures artificialChildReferences == if isLastNode then 0 else 1
    ensures store.refCounts == HandledRefs(old(store.refCounts), root, parent, child, artificialChildReferences)
  {
    artificialChildReferences := 0;
    if !isLastNode {
      store.IncrementReferenceCount(child);
      artificialChildReferences := artificialChildReferences + 1;
    }
    if parent != root {
      store.DecrementReferenceCount(parent);
    }
  }

  /**
   * copyChildIfNeeded: a child in the skipped tail is kept as it is; otherwise it is copied
   * when an earlier node was copied or its reference count, less the artificial references,
   * exceeds 1. The copy takes the child's slot in the parent on the path and the child's
   * children; a child that is not copied loses its hash.
   */
  method CopyChildIfNeeded(store: NodeStore, child: NodeId, pathIndex: int, pathLength: int, skipAtEnd: Int,
                           artificialChildReferences: int, parentInPath: NodeId, indexToCopy: nat,
                           previousNodeCopied: bool)
    returns (childInPath: NodeId)
    requires child in store.children && child in store.routes && child in store.refCounts
    requires parentInPath in store.children && indexToCopy < |store.children[parentInPath]|
    requires child != parentInPath && child < store.next && parentInPath < store.next
    modifies store
    ensures pathIndex >= SkipFrom(pathLength, skipAtEnd) ==> childInPath == child && unchanged(store)
    ensures pathIndex < SkipFrom(pathLength, skipAtEnd) &&
            !(previousNodeCopied || old(store.refCounts)[child] > 1 + artificialChildReferences) ==>
      && childInPath == child
      && store.hashed == old(store.hashed) - {child}
      && unchanged(store`children, store`leaves, store`routes, store`refCounts, store`initLog, store`next)
    ensures pathIndex < SkipFrom(pathLength, skipAtEnd) &&
            (previousNodeCopied || old(store.refCounts)[child] > 1 + artificialChildReferences) ==>
      && childInPath == old(store.next)
      && store.State() == CopiedInto(old(store.State()), child, parentInPath, indexToCopy)
  {
    if pathIndex >= SkipFrom(pathLength, skipAtEnd) {
      return child;
    }
    childInPath := child;
    if previousNodeCopied || store.refCounts[child] > 1 + artificialChildReferences {
      childInPath := CopyChild(store, child, parentInPath, indexToCopy);
    } else {
      store.InvalidateHash(childInPath);
    }
  }

  /** The copying branch of copyChildIfNeeded: a fresh copy of child, installed in the parent. */
  method CopyChild(store: NodeStore, child: NodeId, parentInPath: NodeId, indexToCopy: nat) returns (copy: NodeId)
    requires child in store.children && child in store.routes && child in store.refCounts
    requires parentInPath in store.children && indexToCopy < |store.children[parentInPath]|
    requires child != parentInPath && child < store.next && parentInPath < store.next
    modifies store
    ensures copy == old(store.next)
    ensures store.State() == CopiedInto(old(store.State()), child, parentInPath, indexToCopy)
  {
    ghost var s := store.State();
    copy := store.CopyAnyNodeType(child);
    store.SetChild(parentInPath, indexToCopy, copy, store.routes[child]);
    if child !in store.leaves {
      store.AdoptChildren(child, copy);
      assert store.children == s.children[s.next := s.children[child]][parentInPath := s.children[parentInPath][indexToCopy := Some(s.next)]];
    }
  }

  /** skipStepsInRoute: the position reached after skipping steps, or the error when the route is too short. */
  method SkipStepsInRoute(route: seq<nat>, stepsToSkip: int) returns (r: Result<nat, ReplaceError>)
    ensures stepsToSkip <= |route| ==> r == Ok(if stepsToSkip < 0 then 0 else stepsToSkip)
    ensures stepsToSkip > |route| ==> r == Err(RouteTooShort)
  {
    var position := 0;
    var i := 0;
    while i < stepsToSkip
      invariant 0 <= i && position == i && (i <= |route|)
      invariant i == 0 || i <= stepsToSkip
      decreases stepsToSkip - i
    {
      if position >= |route| {
        return Err(RouteTooShort);
      }
      position := position + 1;
      i := i + 1;
    }
    return Ok(position);
  }

  /** addNodeToPath: path index i holds the node and whether it was copied. */
  method AddNodeToPath(path: array<NodeId>, nodesRequiringInitialization: array<bool>, pathIndex: nat,
                       node: NodeId, nodeWasCopied: bool)
    requires pathIndex < path.Length && pathIndex < nodesRequiringInitialization.Length
    modifies path, nodesRequiringInitialization
    ensures path[..] == old(path[..])[pathIndex := node]
    ensures nodesRequiringInitialization[..] == old(nodesRequiringInitialization[..])[pathIndex := nodeWasCopied]
  {
    path[pathIndex] := node;
    nodesRequiringInitialization[pathIndex] := nodeWasCopied;
  }

  /**
   * initializePath: the flagged internal nodes are initialized from the end of the path
   * back, so that children are initialized before their parents.
   */
  method InitializePath(store: NodeStore, path: array<NodeId>, nodeRequiringInitialization: array<bool>)
    requires path.Length == nodeRequiringInitialization.Length
    modifies store`initLog
    ensures store.initLog == old(store.initLog) + InitOrder(path[..], nodeRequiringInitialization[..], store.leaves)
  {
    var index := path.Length - 1;
    while index >= 0
      invariant -1 <= index < path.Length
      invariant store.initLog == old(store.initLog) +
        InitOrder(path[index + 1..], nodeRequiringInitialization[index + 1..], store.leaves)
    {
      ghost var ps := path[index..];
      ghost var fs := nodeRequiringInitialization[index..];
      assert ps[1..] == path[index + 1..] && fs[1..] == nodeRequiringInitialization[index + 1..];
      if nodeRequiringInitialization[index] {
        var node := path[index];
        if node !in store.leaves {
          store.Initialize(node);
        }
      }
      index := index - 1;
    }
    assert path[..] == path[0..] && nodeRequiringInitialization[..] == nodeRequiringInitialization[0..];
  }

  // ---------------------------------------------------------------------------------
  // The state of the store after the first i nodes of the path are in place
  // ---------------------------------------------------------------------------------

  /** The originals along the path have reference counts, are pairwise distinct and are older than any copy. */
  ghost predicate OriginalPath(orig: seq<NodeId>, refs0: map<NodeId, int>, next0: NodeId) {
    && (forall k :: 0 <= k < |orig| ==> orig[k] in refs0 && orig[k] < next0)
    && (forall k1, k2 :: 0 <= k1 < k2 < |orig| ==> orig[k1] != orig[k2])
  }

  /**
   * The first i path entries: the first node, then at each index the fresh copy when the
   * node is copied and the original otherwise; copies are made in path order.
   */
  ghost predicate PathSoFar(orig: seq<NodeId>, flags: seq<bool>, next0: NodeId, i: nat,
                            ps: seq<NodeId>, fs: seq<bool>, next: NodeId) {
    && 1 <= i <= |orig| && |ps| == |orig| && |fs| == |orig| && |flags| == |orig| && next0 <= next && ps[0] == orig[0]
    && (forall k :: 0 <= k < i ==> fs[k] == flags[k])
    && (forall k :: 0 <= k < i ==> if fs[k] then next0 <= ps[k] < next else ps[k] == orig[k])
    && (forall k1, k2 :: 0 <= k1 < k2 < i ==> CopiesOrdered(ps, fs, k1, k2))
  }

  /** Of two path indices k1 and k2 holding copies, the earlier holds the older copy. */
  ghost predicate CopiesOrdered(ps: seq<NodeId>, fs: seq<bool>, k1: nat, k2: nat)
    requires k1 < |ps| && k2 < |ps| && |fs| == |ps|
  {
    fs[k1] && fs[k2] ==> ps[k1] < ps[k2]
  }

  /**
   * The children along the path: each of the first i path nodes has its original's
   * children, except that the slot of the next step holds the next node when that one is a
   * copy.
   */
  ghost predicate PathEntries(c0: map<NodeId, seq<Option<NodeId>>>, orig: seq<NodeId>, steps: seq<nat>, i: nat,
                              ps: seq<NodeId>, fs: seq<bool>, children: map<NodeId, seq<Option<NodeId>>>) {
    && |steps| + 1 == |orig| && |ps| == |orig| && |fs| == |orig| && 1 <= i <= |orig|
    && (forall k :: 0 <= k < |orig| ==> orig[k] in c0)
    && (forall k :: 0 <= k < |steps| ==> steps[k] < |c0[orig[k]]|)
    && (forall k :: 0 <= k < i ==> ps[k] in children)
    && (forall k {:trigger children[ps[k]]} :: 0 <= k < i ==>
          children[ps[k]] == if k + 1 < i && fs[k + 1] then c0[orig[k]][steps[k] := Some(ps[k + 1])] else c0[orig[k]])
  }

  /** The path nodes are linked as PathEntries says, and every other old node keeps its children. */
  ghost predicate LinkedSoFar(c0: map<NodeId, seq<Option<NodeId>>>, orig: seq<NodeId>, steps: seq<nat>, i: nat,
                              ps: seq<NodeId>, fs: seq<bool>, children: map<NodeId, seq<Option<NodeId>>>) {
    && PathEntries(c0, orig, steps, i, ps, fs, children)
    && (forall n :: n in c0 && n !in ps[..i] ==> n in children && children[n] == c0[n])
  }

  /**
   * The reference counts: an original keeps its count, except the last original reached
   * before index i, which still holds its artificial reference; copies have no references.
   */
  ghost predicate RefsSoFar(orig: seq<NodeId>, refs0: map<NodeId, int>, i: nat, refs: map<NodeId, int>) {
    && 1 <= i <= |orig|
    && (forall n :: n in refs0 ==> n in refs && refs[n] == refs0[n] + (if 2 <= i < |orig| && n == orig[i - 1] then 1 else 0))
    && (forall n :: n in refs && n !in refs0 ==> refs[n] == 0)
  }

  /** Routes and kinds: old nodes keep theirs, and each path node has its original's. */
  ghost predicate KeptSoFar(routes0: map<NodeId, seq<nat>>, leaves0: set<NodeId>, next0: NodeId, orig: seq<NodeId>,
                            i: nat, ps: seq<NodeId>, routes: map<NodeId, seq<nat>>, leaves: set<NodeId>) {
    && i <= |orig| && |ps| == |orig|
    && (forall k :: 0 <= k < |orig| ==> orig[k] in routes0)
    && (forall n :: n in routes0 ==> n in routes && routes[n] == routes0[n])
    && (forall n :: n < next0 ==> (n in leaves <==> n in leaves0))
    && (forall k :: 0 <= k < i ==> ps[k] in routes && routes[ps[k]] == routes0[orig[k]] && (ps[k] in leaves <==> orig[k] in leaves0))
  }

  /** Every original from index i - 1 on (and any copied original) still has its original children. */
  lemma OriginalsIntact(c0: map<NodeId, seq<Option<NodeId>>>, refs0: map<NodeId, int>, flags: seq<bool>, next0: NodeId,
                        orig: seq<NodeId>, steps: seq<nat>, i: nat, ps: seq<NodeId>, fs: seq<bool>, next: NodeId,
                        children: map<NodeId, seq<Option<NodeId>>>)
    requires OriginalPath(orig, refs0, next0)
    requires PathSoFar(orig, flags, next0, i, ps, fs, next)
    requires LinkedSoFar(c0, orig, steps, i, ps, fs, children)
    ensures forall k :: i - 1 <= k < |orig| ==> orig[k] in children && children[orig[k]] == c0[orig[k]]
  {
    forall k | i - 1 <= k < |orig|
      ensures orig[k] in children && children[orig[k]] == c0[orig[k]]
    {
      if k == i - 1 && !fs[k] {
        assert ps[k] == orig[k];
        assert ps[k] in children && children[ps[k]] == c0[orig[k]];
      } else {
        forall m | 0 <= m < i
          ensures ps[..i][m] != orig[k]
        {
          if fs[m] {
            assert next0 <= ps[m] && orig[k] < next0;
          } else {
            assert ps[m] == orig[m] && m != k;
          }
        }
        assert orig[k] !in ps[..i];
        assert orig[k] in c0;
      }
    }
  }

  /** Placing node c with copy flag f at index i extends the path by one entry. */
  lemma PathAdvance(orig: seq<NodeId>, flags: seq<bool>, next0: NodeId, i: nat,
                    ps: seq<NodeId>, fs: seq<bool>, next: NodeId, c: NodeId, f: bool, next': NodeId)
    requires PathSoFar(orig, flags, next0, i, ps, fs, next) && i < |orig|
    requires f == flags[i]
    requires f ==> c == next && next' == next + 1
    requires !f ==> c == orig[i] && next' == next
    ensures PathSoFar(orig, flags, next0, i + 1, ps[i := c], fs[i := f], next')
  {
    var ps', fs' := ps[i := c], fs[i := f];
    forall k1, k2 | 0 <= k1 < k2 < i + 1
      ensures CopiesOrdered(ps', fs', k1, k2)
    {
      if k2 < i {
        assert CopiesOrdered(ps, fs, k1, k2);
      }
    }
  }

  /** The first i path entries are pairwise distinct. */
  lemma PathDistinct(orig: seq<NodeId>, refs0: map<NodeId, int>, flags: seq<bool>, next0: NodeId, i: nat,
                     ps: seq<NodeId>, fs: seq<bool>, next: NodeId)
    requires OriginalPath(orig, refs0, next0)
    requires PathSoFar(orig, flags, next0, i, ps, fs, next)
    ensures forall k1, k2 :: 0 <= k1 < k2 < i ==> ps[k1] != ps[k2]
  {
    forall k1, k2 | 0 <= k1 < k2 < i
      ensures ps[k1] != ps[k2]
    {
      if !fs[k1] && !fs[k2] {
        assert ps[k1] == orig[k1] && ps[k2] == orig[k2];
      } else if fs[k1] && fs[k2] {
        assert CopiesOrdered(ps, fs, k1, k2);
      }
    }
  }

  /**
   * The children after the i-th node is copied into next, with the children kids of its
   * original, and the copy installed in the previous path node.
   */
  lemma LinkedCopy(c0: map<NodeId, seq<Option<NodeId>>>, orig: seq<NodeId>, steps: seq<nat>, i: nat,
                   ps: seq<NodeId>, fs: seq<bool>, next: NodeId,
                   children: map<NodeId, seq<Option<NodeId>>>, kids: seq<Option<NodeId>>)
    requires LinkedSoFar(c0, orig, steps, i, ps, fs, children) && i < |orig|
    requires forall k :: 0 <= k < i - 1 ==> ps[k] != ps[i - 1]
    requires next !in children && kids == c0[orig[i]]
    requires ps[i - 1] in children && steps[i - 1] < |children[ps[i - 1]]|
    ensures LinkedSoFar(c0, orig, steps, i + 1, ps[i := next], fs[i := true],
                        children[next := kids][ps[i - 1] := children[ps[i - 1]][steps[i - 1] := Some(next)]])
  {
    var children' := children[next := kids][ps[i - 1] := children[ps[i - 1]][steps[i - 1] := Some(next)]];
    LinkedCopyEntries(c0, orig, steps, i, ps, fs, next, children, children');
    LinkedCopyFrame(c0, orig, steps, i, ps, fs, next, children, children');
  }

  /** The path entries after a copy is installed. */
  lemma LinkedCopyEntries(c0: map<NodeId, seq<Option<NodeId>>>, orig: seq<NodeId>, steps: seq<nat>, i: nat,
                          ps: seq<NodeId>, fs: seq<bool>, next: NodeId,
                          children: map<NodeId, seq<Option<NodeId>>>, children': map<NodeId, seq<Option<NodeId>>>)
    requires PathEntries(c0, orig, steps, i, ps, fs, children) && i < |orig|
    requires forall k :: 0 <= k < i - 1 ==> ps[k] != ps[i - 1]
    requires next !in children
    requires ps[i - 1] in children && steps[i - 1] < |children[ps[i - 1]]|
    requires children' == children[next := c0[orig[i]]][ps[i - 1] := children[ps[i - 1]][steps[i - 1] := Some(next)]]
    ensures PathEntries(c0, orig, steps, i + 1, ps[i := next], fs[i := true], children')
  {
    var ps', fs' := ps[i := next], fs[i := true];
    forall k | 0 <= k < i + 1
      ensures ps'[k] in children'
      ensures children'[ps'[k]] ==
        if k + 1 < i + 1 && fs'[k + 1] then c0[orig[k]][steps[k] := Some(ps'[k + 1])] else c0[orig[k]]
    {
      if k == i {
        assert ps'[k] == next && next != ps[i - 1];
      } else if k == i - 1 {
        assert ps'[k] == ps[i - 1] && fs'[k + 1] && ps'[k + 1] == next;
      } else {
        assert ps'[k] == ps[k] && ps[k] != ps[i - 1] && ps[k] in children;
        assert fs'[k + 1] == fs[k + 1] && ps'[k + 1] == ps[k + 1];
      }
    }
  }

  /** Every other old node keeps its children after a copy is installed. */
  lemma LinkedCopyFrame(c0: map<NodeId, seq<Option<NodeId>>>, orig: seq<NodeId>, steps: seq<nat>, i: nat,
                        ps: seq<NodeId>, fs: seq<bool>, next: NodeId,
                        children: map<NodeId, seq<Option<NodeId>>>, children': map<NodeId, seq<Option<NodeId>>>)
    requires LinkedSoFar(c0, orig, steps, i, ps, fs, children) && i < |orig|
    requires ps[i - 1] in children && steps[i - 1] < |children[ps[i - 1]]|
    requires children' == children[next := c0[orig[i]]][ps[i - 1] := children[ps[i - 1]][steps[i - 1] := Some(next)]]
    ensures forall n :: n in c0 && n !in ps[i := next][..i + 1] ==> n in children' && children'[n] == c0[n]
  {
    forall n | n in c0 && n !in ps[i := next][..i + 1]
      ensures n in children' && children'[n] == c0[n]
    {
      assert ps[i := next][..i + 1] == ps[..i] + [next];
      assert ps[..i][i - 1] == ps[i - 1];
    }
  }

  /** The children after the i-th node is kept: nothing changes. */
  lemma LinkedKeep(c0: map<NodeId, seq<Option<NodeId>>>, orig: seq<NodeId>, steps: seq<nat>, i: nat,
                   ps: seq<NodeId>, fs: seq<bool>, children: map<NodeId, seq<Option<NodeId>>>)
    requires LinkedSoFar(c0, orig, steps, i, ps, fs, children) && i < |orig|
    requires orig[i] in children && children[orig[i]] == c0[orig[i]]
    ensures LinkedSoFar(c0, orig, steps, i + 1, ps[i := orig[i]], fs[i := false], children)
  {
    LinkedKeepEntries(c0, orig, steps, i, ps, fs, children);
    forall n | n in c0 && n !in ps[i := orig[i]][..i + 1]
      ensures n in children && children[n] == c0[n]
    {
      assert ps[i := orig[i]][..i + 1] == ps[..i] + [orig[i]];
    }
  }

  /** The path entries after the i-th node is kept. */
  lemma LinkedKeepEntries(c0: map<NodeId, seq<Option<NodeId>>>, orig: seq<NodeId>, steps: seq<nat>, i: nat,
                          ps: seq<NodeId>, fs: seq<bool>, children: map<NodeId, seq<Option<NodeId>>>)
    requires PathEntries(c0, orig, steps, i, ps, fs, children) && i < |orig|
    requires orig[i] in children && children[orig[i]] == c0[orig[i]]
    ensures PathEntries(c0, orig, steps, i + 1, ps[i := orig[i]], fs[i := false], children)
  {
    var ps', fs' := ps[i := orig[i]], fs[i := false];
    forall k | 0 <= k < i + 1
      ensures ps'[k] in children
      ensures children[ps'[k]] ==
        if k + 1 < i + 1 && fs'[k + 1] then c0[orig[k]][steps[k] := Some(ps'[k + 1])] else c0[orig[k]]
    {
      if k == i {
        assert ps'[k] == orig[i];
      } else if k == i - 1 {
        assert ps'[k] == ps[k] && !fs'[k + 1];
        assert ps[k] in children && children[ps[k]] == c0[orig[k]];
      } else {
        assert ps'[k] == ps[k] && fs'[k + 1] == fs[k + 1] && ps'[k + 1] == ps[k + 1];
        assert ps[k] in children;
      }
    }
  }

  /**
   * The reference counts after handleArtificialReferences at index i: the count the copy
   * decision sees, and the loop state after the child is kept or copied into c.
   */
  lemma RefsAdvance(orig: seq<NodeId>, refs0: map<NodeId, int>, next0: NodeId, i: nat, refs: map<NodeId, int>,
                    a: int, c: NodeId)
    requires OriginalPath(orig, refs0, next0) && (forall n :: n in refs0 ==> n < next0)
    requires RefsSoFar(orig, refs0, i, refs) && i < |orig|
    requires a == if i == |orig| - 1 then 0 else 1
    requires next0 <= c
    ensures orig[i] in refs && orig[i - 1] in refs && orig[i - 1] != orig[i]
    ensures HandledRefs(refs, orig[0], orig[i - 1], orig[i], a)[orig[i]] == refs0[orig[i]] + a
    ensures RefsSoFar(orig, refs0, i + 1, HandledRefs(refs, orig[0], orig[i - 1], orig[i], a))
    ensures RefsSoFar(orig, refs0, i + 1, HandledRefs(refs, orig[0], orig[i - 1], orig[i], a)[c := 0])
  {
    assert orig[i - 1] != orig[i];
    if i > 1 {
      assert orig[i - 1] != orig[0];
    }
  }

  /** The invalidated originals grow by the i-th original exactly when it is neither skipped nor copied. */
  lemma InvalidatedAdvance(orig: seq<NodeId>, flags: seq<bool>, skipFrom: int, i: nat)
    requires i < |orig| == |flags|
    ensures Invalidated(orig, flags, skipFrom, i + 1) ==
      Invalidated(orig, flags, skipFrom, i) +
      (if i >= 1 && i < skipFrom && !flags[i] then {orig[i]} else {})
  {
  }

  /** Routes and kinds after the i-th node is kept. */
  lemma KeptKeep(routes0: map<NodeId, seq<nat>>, leaves0: set<NodeId>, next0: NodeId, orig: seq<NodeId>, i: nat,
                 ps: seq<NodeId>, routes: map<NodeId, seq<nat>>, leaves: set<NodeId>)
    requires KeptSoFar(routes0, leaves0, next0, orig, i, ps, routes, leaves) && i < |orig|
    requires forall n :: n in routes0 ==> n < next0
    requires orig[i] < next0
    ensures KeptSoFar(routes0, leaves0, next0, orig, i + 1, ps[i := orig[i]], routes, leaves)
  {
    var ps' := ps[i := orig[i]];
    forall k | 0 <= k < i + 1
      ensures ps'[k] in routes && routes[ps'[k]] == routes0[orig[k]] && (ps'[k] in leaves <==> orig[k] in leaves0)
    {
      if k < i {
        assert ps'[k] == ps[k];
      }
    }
  }

  /** Routes and kinds after the i-th node is copied into the fresh node c. */
  lemma KeptCopy(routes0: map<NodeId, seq<nat>>, leaves0: set<NodeId>, next0: NodeId, orig: seq<NodeId>, i: nat,
                 ps: seq<NodeId>, routes: map<NodeId, seq<nat>>, leaves: set<NodeId>, c: NodeId)
    requires KeptSoFar(routes0, leaves0, next0, orig, i, ps, routes, leaves) && i < |orig|
    requires forall n :: n in routes0 ==> n < next0
    requires forall k :: 0 <= k < i ==> ps[k] < c
    requires forall n :: n in leaves ==> n < c
    requires next0 <= c && orig[i] < next0
    ensures KeptSoFar(routes0, leaves0, next0, orig, i + 1, ps[i := c], routes[c := routes[orig[i]]],
                      if orig[i] in leaves then leaves + {c} else leaves)
  {
    var ps', routes', leaves' := ps[i := c], routes[c := routes[orig[i]]], if orig[i] in leaves then leaves + {c} else leaves;
    forall k | 0 <= k < i + 1
      ensures ps'[k] in routes' && routes'[ps'[k]] == routes0[orig[k]] && (ps'[k] in leaves' <==> orig[k] in leaves0)
    {
      if k < i {
        assert ps'[k] == ps[k] && ps[k] != c;
      }
    }
    assert c !in routes0;
  }

  /**
   * Installing a copy of x, the child at slot idx of p, keeps the routes following the tree:
   * the copy has x's route and x's children.
   */
  lemma ShapeAdvance(children: map<NodeId, seq<Option<NodeId>>>, routes: map<NodeId, seq<nat>>, p: NodeId, idx: nat,
                     x: NodeId, c: NodeId)
    requires TreeShaped(children, routes)
    requires p in children && p in routes && idx < |children[p]| && x in children && x in routes
    requires routes[x] == routes[p] + [idx] && c !in children && c !in routes
    ensures TreeShaped(children[c := children[x]][p := children[p][idx := Some(c)]], routes[c := routes[x]])
  {
    var children': map<NodeId, seq<Option<NodeId>>> := children[c := children[x]][p := children[p][idx := Some(c)]];
    var routes': map<NodeId, seq<nat>> := routes[c := routes[x]];
    forall n: NodeId, m: int | n in children' && n in routes' && 0 <= m < |children'[n]| && children'[n][m].Some?
      ensures children'[n][m].value in children' && children'[n][m].value in routes'
      ensures routes'[children'[n][m].value] == routes'[n] + [m]
    {
      if n == p {
        if m != idx {
          assert children'[n][m] == children[p][m];
        }
      } else if n == c {
        assert children'[n][m] == children[x][m];
      } else {
        assert children'[n][m] == children[n][m];
      }
    }
  }

  /** The originals along the route, as OriginalsFacts describes them. */
  ghost predicate RouteFacts(s0: StoreState, orig: seq<NodeId>, steps: seq<nat>) {
    && |orig| == |steps| + 1
    && (forall k :: 0 <= k < |orig| ==> orig[k] in s0.children && orig[k] in s0.routes)
    && (forall k :: 0 <= k < |steps| ==>
          && orig[k] !in s0.leaves && steps[k] < |s0.children[orig[k]]|
          && s0.children[orig[k]][steps[k]] == Some(orig[k + 1]))
  }

  /**
   * The store s and the path ps once the first i path nodes are in place, from the store
   * s0: everything but the initialization log.
   */
  ghost predicate Placed(s0: StoreState, orig: seq<NodeId>, steps: seq<nat>, flags: seq<bool>, skipFrom: int, i: nat,
                         ps: seq<NodeId>, fs: seq<bool>, s: StoreState) {
    && PathSoFar(orig, flags, s0.next, i, ps, fs, s.next)
    && LinkedSoFar(s0.children, orig, steps, i, ps, fs, s.children)
    && RefsSoFar(orig, s0.refCounts, i, s.refCounts)
    && i <= |orig| && s.hashed == s0.hashed - Invalidated(orig, flags, skipFrom, i)
    && KeptSoFar(s0.routes, s0.leaves, s0.next, orig, i, ps, s.routes, s.leaves)
  }

  /** The loop state of replacePath after the first i path nodes: placed, and nothing initialized yet. */
  ghost predicate AllSoFar(s0: StoreState, orig: seq<NodeId>, steps: seq<nat>, flags: seq<bool>, skipFrom: int, i: nat,
                           ps: seq<NodeId>, fs: seq<bool>, s: StoreState) {
    Placed(s0, orig, steps, flags, skipFrom, i, ps, fs, s) && s.initLog == s0.initLog
  }

  /** The store after turn i of replacePath's loop keeps orig[i]. */
  function KeptAt(s1: StoreState, orig: seq<NodeId>, skipFrom: int, i: nat, a: int): StoreState
    requires 1 <= i < |orig| && orig[i - 1] in s1.refCounts && orig[i] in s1.refCounts && orig[i - 1] != orig[i]
  {
    var s := s1.(refCounts := HandledRefs(s1.refCounts, orig[0], orig[i - 1], orig[i], a));
    if i < skipFrom then s.(hashed := s.hashed - {orig[i]}) else s
  }

  /** The store after turn i of replacePath's loop copies orig[i] below the path node ps[i - 1]. */
  function CopiedAt(s1: StoreState, orig: seq<NodeId>, steps: seq<nat>, ps: seq<NodeId>, i: nat, a: int): StoreState
    requires 1 <= i < |orig| && orig[i - 1] in s1.refCounts && orig[i] in s1.refCounts && orig[i - 1] != orig[i]
    requires i <= |steps| && i <= |ps| && orig[i] in s1.children && orig[i] in s1.routes
    requires ps[i - 1] in s1.children && steps[i - 1] < |s1.children[ps[i - 1]]|
  {
    CopiedInto(s1.(refCounts := HandledRefs(s1.refCounts, orig[0], orig[i - 1], orig[i], a)), orig[i], ps[i - 1], steps[i - 1])
  }

  /**
   * What one turn of the loop needs to know about the store s1 reached after i path nodes:
   * the next original is intact, the identities in use are below the next fresh one, and
   * the previous path node is internal, with the route of the next original's parent.
   */
  lemma StepFacts(s0: StoreState, orig: seq<NodeId>, steps: seq<nat>, flags: seq<bool>, skipFrom: int, i: nat,
                  ps: seq<NodeId>, fs: seq<bool>, s1: StoreState)
    requires StoreValid(s0) && OriginalPath(orig, s0.refCounts, s0.next) && RouteFacts(s0, orig, steps)
    requires 1 <= i < |orig| && StoreValid(s1) && AllSoFar(s0, orig, steps, flags, skipFrom, i, ps, fs, s1)
    ensures forall n :: n in s0.refCounts ==> n < s0.next
    ensures forall n :: n in s0.routes ==> n < s0.next
    ensures orig[i] < s0.next <= s1.next && orig[i - 1] != orig[i]
    ensures orig[i - 1] in s1.children && s1.children[orig[i - 1]] == s0.children[orig[i - 1]]
    ensures steps[i - 1] < |s0.children[orig[i - 1]]| && s0.children[orig[i - 1]][steps[i - 1]] == Some(orig[i])
    ensures orig[i] in s1.children && s1.children[orig[i]] == s0.children[orig[i]]
    ensures orig[i] in s1.routes && orig[i - 1] in s1.refCounts && orig[i] in s1.refCounts
    ensures orig[i] in s1.leaves ==> s1.children[orig[i]] == []
    ensures ps[i - 1] in s1.children && s1.children[ps[i - 1]] == s0.children[orig[i - 1]] && ps[i - 1] != orig[i]
  {
    OriginalsIntact(s0.children, s0.refCounts, flags, s0.next, orig, steps, i, ps, fs, s1.next, s1.children);
    if !fs[i - 1] {
      assert ps[i - 1] == orig[i - 1];
    }
  }

  /** More of what a turn that copies needs: the copy's identity is fresh and the previous path node internal. */
  lemma CopyFacts(s0: StoreState, orig: seq<NodeId>, steps: seq<nat>, flags: seq<bool>, skipFrom: int, i: nat,
                  ps: seq<NodeId>, fs: seq<bool>, s1: StoreState)
    requires StoreValid(s0) && OriginalPath(orig, s0.refCounts, s0.next) && RouteFacts(s0, orig, steps)
    requires 1 <= i < |orig| && StoreValid(s1) && AllSoFar(s0, orig, steps, flags, skipFrom, i, ps, fs, s1)
    ensures s1.next !in s1.children
    ensures forall k :: 0 <= k < i ==> ps[k] < s1.next
    ensures forall n :: n in s1.leaves ==> n < s1.next
    ensures forall k :: 0 <= k < i - 1 ==> ps[k] != ps[i - 1]
    ensures ps[i - 1] !in s1.leaves && s1.routes[orig[i]] == s1.routes[ps[i - 1]] + [steps[i - 1]]
  {
    PathDistinct(orig, s0.refCounts, flags, s0.next, i, ps, fs, s1.next);
    forall k | 0 <= k < i ensures ps[k] < s1.next {
      assert ps[k] in s1.children;
    }
    assert s1.routes[ps[i - 1]] == s0.routes[orig[i - 1]] && s1.routes[orig[i]] == s0.routes[orig[i]];
  }

  /** One turn that copies the i-th node advances the loop state. */
  lemma StepCopy(s0: StoreState, orig: seq<NodeId>, steps: seq<nat>, flags: seq<bool>, skipFrom: int, i: nat,
                 ps: seq<NodeId>, fs: seq<bool>, s1: StoreState, a: int)
    requires OriginalPath(orig, s0.refCounts, s0.next)
    requires forall n :: n in s0.refCounts ==> n < s0.next
    requires forall n :: n in s0.routes ==> n < s0.next
    requires 1 <= i < |orig| && AllSoFar(s0, orig, steps, flags, skipFrom, i, ps, fs, s1)
    requires a == if i == |orig| - 1 then 0 else 1
    requires flags[i]
    requires orig[i] < s0.next && orig[i - 1] != orig[i]
    requires orig[i] in s1.routes && orig[i - 1] in s1.refCounts && orig[i] in s1.refCounts
    requires orig[i] in s1.children && s1.children[orig[i]] == s0.children[orig[i]]
    requires orig[i] in s1.leaves ==> s1.children[orig[i]] == []
    requires ps[i - 1] in s1.children && steps[i - 1] < |s1.children[ps[i - 1]]|
    requires s1.next !in s1.children
    requires forall k :: 0 <= k < i ==> ps[k] < s1.next
    requires forall n :: n in s1.leaves ==> n < s1.next
    requires forall k :: 0 <= k < i - 1 ==> ps[k] != ps[i - 1]
    ensures AllSoFar(s0, orig, steps, flags, skipFrom, i + 1, ps[i := s1.next], fs[i := true], CopiedAt(s1, orig, steps, ps, i, a))
  {
    var c := s1.next;
    var s2 := CopiedAt(s1, orig, steps, ps, i, a);
    var ps', fs' := ps[i := c], fs[i := true];
    assert PathSoFar(orig, flags, s0.next, i + 1, ps', fs', s2.next) by {
      PathAdvance(orig, flags, s0.next, i, ps, fs, c, c, true, c + 1);
    }
    assert LinkedSoFar(s0.children, orig, steps, i + 1, ps', fs', s2.children) by {
      assert s2.children == s1.children[c := if orig[i] in s1.leaves then [] else s1.children[orig[i]]]
                                       [ps[i - 1] := s1.children[ps[i - 1]][steps[i - 1] := Some(c)]];
      LinkedCopy(s0.children, orig, steps, i, ps, fs, c, s1.children, if orig[i] in s1.leaves then [] else s1.children[orig[i]]);
    }
    assert RefsSoFar(orig, s0.refCounts, i + 1, s2.refCounts) by {
      RefsAdvance(orig, s0.refCounts, s0.next, i, s1.refCounts, a, c);
    }
    assert s2.hashed == s0.hashed - Invalidated(orig, flags, skipFrom, i + 1) by {
      InvalidatedAdvance(orig, flags, skipFrom, i);
    }
    assert KeptSoFar(s0.routes, s0.leaves, s0.next, orig, i + 1, ps', s2.routes, s2.leaves) by {
      KeptCopy(s0.routes, s0.leaves, s0.next, orig, i, ps, s1.routes, s1.leaves, c);
    }
  }

  /** One turn that keeps the i-th node advances the loop state. */
  lemma StepKeep(s0: StoreState, orig: seq<NodeId>, steps: seq<nat>, flags: seq<bool>, skipFrom: int, i: nat,
                 ps: seq<NodeId>, fs: seq<bool>, s1: StoreState, a: int)
    requires OriginalPath(orig, s0.refCounts, s0.next)
    requires forall n :: n in s0.refCounts ==> n < s0.next
    requires forall n :: n in s0.routes ==> n < s0.next
    requires 1 <= i < |orig| && AllSoFar(s0, orig, steps, flags, skipFrom, i, ps, fs, s1)
    requires a == if i == |orig| - 1 then 0 else 1
    requires !flags[i]
    requires orig[i] < s0.next <= s1.next && orig[i - 1] != orig[i]
    requires orig[i - 1] in s1.refCounts && orig[i] in s1.refCounts
    requires orig[i] in s1.children && s1.children[orig[i]] == s0.children[orig[i]]
    ensures AllSoFar(s0, orig, steps, flags, skipFrom, i + 1, ps[i := orig[i]], fs[i := false], KeptAt(s1, orig, skipFrom, i, a))
  {
    LinkedKeep(s0.children, orig, steps, i, ps, fs, s1.children);
    PathAdvance(orig, flags, s0.next, i, ps, fs, s1.next, orig[i], false, s1.next);
    RefsAdvance(orig, s0.refCounts, s0.next, i, s1.refCounts, a, s1.next);
    InvalidatedAdvance(orig, flags, skipFrom, i);
    KeptKeep(s0.routes, s0.leaves, s0.next, orig, i, ps, s1.routes, s1.leaves);
  }

  /** Copying a child into a fresh node below its parent keeps the store valid. */
  lemma CopiedIntoValid(s: StoreState, child: NodeId, parentInPath: NodeId, idx: nat)
    requires StoreValid(s) && child in s.children && parentInPath in s.children && parentInPath !in s.leaves
    requires idx < |s.children[parentInPath]| && s.routes[child] == s.routes[parentInPath] + [idx]
    ensures StoreValid(CopiedInto(s, child, parentInPath, idx))
  {
    var kids := if child in s.leaves then [] else s.children[child];
    assert kids == s.children[child];
    ShapeAdvance(s.children, s.routes, parentInPath, idx, child, s.next);
  }

  /** Keeping orig[i] at turn i keeps the store valid. */
  lemma KeptAtValid(s1: StoreState, orig: seq<NodeId>, skipFrom: int, i: nat, a: int)
    requires 1 <= i < |orig| && orig[i - 1] in s1.refCounts && orig[i] in s1.refCounts && orig[i - 1] != orig[i]
    requires StoreValid(s1)
    ensures StoreValid(KeptAt(s1, orig, skipFrom, i, a))
  {
    var s2 := KeptAt(s1, orig, skipFrom, i, a);
    CountsValid(s1, s2.refCounts, s2.hashed);
    assert s2 == s1.(refCounts := s2.refCounts, hashed := s2.hashed);
  }

  /** Moving reference counts and dropping hashes keeps the store valid. */
  lemma CountsValid(s: StoreState, refCounts: map<NodeId, int>, hashed: set<NodeId>)
    requires StoreValid(s) && refCounts.Keys == s.refCounts.Keys && hashed <= s.hashed
    ensures StoreValid(s.(refCounts := refCounts, hashed := hashed))
  {
  }

  // ---------------------------------------------------------------------------------
  // The loop of replacePath, turn by turn
  // ---------------------------------------------------------------------------------

  /** The store, the path array and the copy-flag array of replacePath's loop. */
  datatype LoopState = LoopState(s: StoreState, ps: seq<NodeId>, fs: seq<bool>)

  /**
   * What the loop starts from: a valid store, the originals along the route, their copy
   * flags, and the arrays holding the first node, not copied.
   */
  ghost predicate LoopStart(s0: StoreState, orig: seq<NodeId>, steps: seq<nat>, flags: seq<bool>, skipFrom: int,
                            p0: seq<NodeId>, fs0: seq<bool>) {
    && StoreValid(s0) && OriginalPath(orig, s0.refCounts, s0.next) && RouteFacts(s0, orig, steps)
    && flags == CopyFlags(s0.refCounts, orig, skipFrom)
    && |p0| == |orig| && |fs0| == |orig| && p0[0] == orig[0] && !fs0[0]
  }

  /** The loop state t has what turn i reads (TurnInvariant shows that it always does). */
  ghost predicate TurnDefined(t: LoopState, orig: seq<NodeId>, steps: seq<nat>, i: nat) {
    && 1 <= i < |orig| && |steps| + 1 == |orig| && |t.ps| == |orig| && |t.fs| == |orig|
    && orig[i - 1] in t.s.refCounts && orig[i] in t.s.refCounts && orig[i - 1] != orig[i]
    && orig[i] in t.s.children && orig[i] in t.s.routes
    && t.ps[i - 1] in t.s.children && steps[i - 1] < |t.s.children[t.ps[i - 1]]|
  }

  /**
   * Turn i of the loop: orig[i] takes its artificial reference, then is copied below the
   * previous path node when flagged and kept (losing its hash) otherwise.
   */
  ghost function Turn(t: LoopState, orig: seq<NodeId>, steps: seq<nat>, flags: seq<bool>, skipFrom: int, i: nat): LoopState
    requires |flags| == |orig|
  {
    if !TurnDefined(t, orig, steps, i) then t
    else
      var a := if i == |orig| - 1 then 0 else 1;
      if flags[i] then LoopState(CopiedAt(t.s, orig, steps, t.ps, i, a), t.ps[i := t.s.next], t.fs[i := true])
      else LoopState(KeptAt(t.s, orig, skipFrom, i, a), t.ps[i := orig[i]], t.fs[i := false])
  }

  /** The loop state once the first i path nodes are in place. */
  ghost function AfterTurns(s0: StoreState, orig: seq<NodeId>, steps: seq<nat>, flags: seq<bool>, skipFrom: int,
                            p0: seq<NodeId>, fs0: seq<bool>, i: nat): (t: LoopState)
    requires 1 <= i <= |orig| == |flags|
    ensures |p0| == |orig| ==> |t.ps| == |orig|
    ensures |fs0| == |orig| ==> |t.fs| == |orig|
    decreases i
  {
    if i == 1 then LoopState(s0, p0, fs0)
    else Turn(AfterTurns(s0, orig, steps, flags, skipFrom, p0, fs0, i - 1), orig, steps, flags, skipFrom, i - 1)
  }

  /** Turn i is defined on a loop state that AllSoFar describes, and takes it to the next one. */
  lemma TurnInvariant(s0: StoreState, orig: seq<NodeId>, steps: seq<nat>, flags: seq<bool>, skipFrom: int, i: nat,
                      t: LoopState)
    requires StoreValid(s0) && OriginalPath(orig, s0.refCounts, s0.next) && RouteFacts(s0, orig, steps)
    requires 1 <= i < |orig| == |flags| && StoreValid(t.s) && AllSoFar(s0, orig, steps, flags, skipFrom, i, t.ps, t.fs, t.s)
    ensures TurnDefined(t, orig, steps, i)
    ensures StoreValid(Turn(t, orig, steps, flags, skipFrom, i).s)
    ensures AllSoFar(s0, orig, steps, flags, skipFrom, i + 1, Turn(t, orig, steps, flags, skipFrom, i).ps,
                     Turn(t, orig, steps, flags, skipFrom, i).fs, Turn(t, orig, steps, flags, skipFrom, i).s)
  {
    StepFacts(s0, orig, steps, flags, skipFrom, i, t.ps, t.fs, t.s);
    if flags[i] {
      TurnCopy(s0, orig, steps, flags, skipFrom, i, t);
    } else {
      TurnKeep(s0, orig, steps, flags, skipFrom, i, t);
    }
  }

  /** TurnInvariant when orig[i] is copied. */
  lemma TurnCopy(s0: StoreState, orig: seq<NodeId>, steps: seq<nat>, flags: seq<bool>, skipFrom: int, i: nat,
                 t: LoopState)
    requires StoreValid(s0) && OriginalPath(orig, s0.refCounts, s0.next) && RouteFacts(s0, orig, steps)
    requires 1 <= i < |orig| == |flags| && StoreValid(t.s) && AllSoFar(s0, orig, steps, flags, skipFrom, i, t.ps, t.fs, t.s)
    requires flags[i]
    ensures StoreValid(Turn(t, orig, steps, flags, skipFrom, i).s)
    ensures AllSoFar(s0, orig, steps, flags, skipFrom, i + 1, Turn(t, orig, steps, flags, skipFrom, i).ps,
                     Turn(t, orig, steps, flags, skipFrom, i).fs, Turn(t, orig, steps, flags, skipFrom, i).s)
  {
    StepFacts(s0, orig, steps, flags, skipFrom, i, t.ps, t.fs, t.s);
    var a := if i == |orig| - 1 then 0 else 1;
    var s2 := CopiedAt(t.s, orig, steps, t.ps, i, a);
    assert Turn(t, orig, steps, flags, skipFrom, i) == LoopState(s2, t.ps[i := t.s.next], t.fs[i := true]);
    CopyFacts(s0, orig, steps, flags, skipFrom, i, t.ps, t.fs, t.s);
    assert StoreValid(s2) by {
      var refs1 := HandledRefs(t.s.refCounts, orig[0], orig[i - 1], orig[i], a);
      CountsValid(t.s, refs1, t.s.hashed);
      CopiedIntoValid(t.s.(refCounts := refs1), orig[i], t.ps[i - 1], steps[i - 1]);
    }
    StepCopy(s0, orig, steps, flags, skipFrom, i, t.ps, t.fs, t.s, a);
  }

  /** TurnInvariant when orig[i] is kept. */
  lemma TurnKeep(s0: StoreState, orig: seq<NodeId>, steps: seq<nat>, flags: seq<bool>, skipFrom: int, i: nat,
                 t: LoopState)
    requires StoreValid(s0) && OriginalPath(orig, s0.refCounts, s0.next) && RouteFacts(s0, orig, steps)
    requires 1 <= i < |orig| == |flags| && StoreValid(t.s) && AllSoFar(s0, orig, steps, flags, skipFrom, i, t.ps, t.fs, t.s)
    requires !flags[i]
    ensures StoreValid(Turn(t, orig, steps, flags, skipFrom, i).s)
    ensures AllSoFar(s0, orig, steps, flags, skipFrom, i + 1, Turn(t, orig, steps, flags, skipFrom, i).ps,
                     Turn(t, orig, steps, flags, skipFrom, i).fs, Turn(t, orig, steps, flags, skipFrom, i).s)
  {
    StepFacts(s0, orig, steps, flags, skipFrom, i, t.ps, t.fs, t.s);
    var a := if i == |orig| - 1 then 0 else 1;
    var s2 := KeptAt(t.s, orig, skipFrom, i, a);
    assert Turn(t, orig, steps, flags, skipFrom, i) == LoopState(s2, t.ps[i := orig[i]], t.fs[i := false]);
    KeptAtValid(t.s, orig, skipFrom, i, a);
    StepKeep(s0, orig, steps, flags, skipFrom, i, t.ps, t.fs, t.s, a);
  }

  /** Every loop state reached keeps the store valid and is as AllSoFar describes it. */
  lemma {:induction false} LoopInvariant(s0: StoreState, orig: seq<NodeId>, steps: seq<nat>, flags: seq<bool>,
                                         skipFrom: int, p0: seq<NodeId>, fs0: seq<bool>, i: nat)
    requires LoopStart(s0, orig, steps, flags, skipFrom, p0, fs0) && 1 <= i <= |orig|
    ensures StoreValid(AfterTurns(s0, orig, steps, flags, skipFrom, p0, fs0, i).s)
    ensures AllSoFar(s0, orig, steps, flags, skipFrom, i, AfterTurns(s0, orig, steps, flags, skipFrom, p0, fs0, i).ps,
                     AfterTurns(s0, orig, steps, flags, skipFrom, p0, fs0, i).fs,
                     AfterTurns(s0, orig, steps, flags, skipFrom, p0, fs0, i).s)
    decreases i
  {
    if i == 1 {
      LoopStartPlaced(s0, orig, steps, flags, skipFrom, p0, fs0);
    } else {
      LoopInvariant(s0, orig, steps, flags, skipFrom, p0, fs0, i - 1);
      TurnInvariant(s0, orig, steps, flags, skipFrom, i - 1, AfterTurns(s0, orig, steps, flags, skipFrom, p0, fs0, i - 1));
    }
  }

  /** Before the first turn the first path node alone is placed. */
  lemma LoopStartPlaced(s0: StoreState, orig: seq<NodeId>, steps: seq<nat>, flags: seq<bool>, skipFrom: int,
                        p0: seq<NodeId>, fs0: seq<bool>)
    requires LoopStart(s0, orig, steps, flags, skipFrom, p0, fs0)
    ensures AllSoFar(s0, orig, steps, flags, skipFrom, 1, p0, fs0, s0)
  {
    assert flags[0] == Copied(s0.refCounts, orig, skipFrom, 0) == false;
    assert Invalidated(orig, flags, skipFrom, 1) == {};
  }

  /** What turn i of the loop reads from the store and the path, and the copy decision it makes. */
  lemma TurnFacts(s0: StoreState, orig: seq<NodeId>, steps: seq<nat>, flags: seq<bool>, skipFrom: int,
                  p0: seq<NodeId>, fs0: seq<bool>, i: nat)
    requires LoopStart(s0, orig, steps, flags, skipFrom, p0, fs0) && 1 <= i < |orig|
    ensures TurnDefined(AfterTurns(s0, orig, steps, flags, skipFrom, p0, fs0, i), orig, steps, i)
    ensures var t := AfterTurns(s0, orig, steps, flags, skipFrom, p0, fs0, i);
      && orig[i - 1] in t.s.children && steps[i - 1] < |t.s.children[orig[i - 1]]|
      && t.s.children[orig[i - 1]][steps[i - 1]] == Some(orig[i])
      && t.s.refCounts[orig[i]] == s0.refCounts[orig[i]]
      && orig[i] < t.s.next && t.ps[i - 1] < t.s.next && t.ps[i - 1] != orig[i]
    ensures flags[i] <==> i < skipFrom && (flags[i - 1] || s0.refCounts[orig[i]] > 1)
  {
    LoopInvariant(s0, orig, steps, flags, skipFrom, p0, fs0, i);
    var t := AfterTurns(s0, orig, steps, flags, skipFrom, p0, fs0, i);
    TurnInvariant(s0, orig, steps, flags, skipFrom, i, t);
    StepFacts(s0, orig, steps, flags, skipFrom, i, t.ps, t.fs, t.s);
    CopyFlagStep(s0.refCounts, orig, skipFrom, i);
  }

  /** The copy flag of index i, in terms of the flag before it and the reference count of orig[i]. */
  lemma CopyFlagStep(refs: map<NodeId, int>, orig: seq<NodeId>, skipFrom: int, i: nat)
    requires 1 <= i < |orig| && orig[i] in refs
    ensures CopyFlags(refs, orig, skipFrom)[i] <==>
      i < skipFrom && (CopyFlags(refs, orig, skipFrom)[i - 1] || refs[orig[i]] > 1)
  {
    assert CopyFlags(refs, orig, skipFrom)[i] == Copied(refs, orig, skipFrom, i);
    assert CopyFlags(refs, orig, skipFrom)[i - 1] == Copied(refs, orig, skipFrom, i - 1);
  }

  /**
   * One turn of replacePath's loop: take the child at the next step of the route, give
   * it its artificial reference, copy it if needed and record it in the path.
   */
  method ReplaceStep(store: NodeStore, path: array<NodeId>, nodesRequiringInitialization: array<bool>,
                     pathIndex: nat, pathLength: int, skipAtEnd: Int, first: NodeId, parent: NodeId,
                     parentInPath: NodeId, indexToCopy: nat, isLastNode: bool, previousNodeCopied: bool,
                     ghost s0: StoreState, ghost orig: seq<NodeId>, ghost steps: seq<nat>, ghost flags: seq<bool>,
                     ghost p0: seq<NodeId>, ghost fs0: seq<bool>, ghost skipFrom: int)
    returns (child: NodeId, childInPath: NodeId, nodeWasCopied: bool)
    requires skipFrom == SkipFrom(pathLength, skipAtEnd)
    requires LoopStart(s0, orig, steps, flags, skipFrom, p0, fs0)
    requires |orig| == pathLength && path.Length == pathLength && nodesRequiringInitialization.Length == pathLength
    requires 1 <= pathIndex < |orig| && first == orig[0] && parent == orig[pathIndex - 1]
    requires parentInPath == path[pathIndex - 1] && indexToCopy == steps[pathIndex - 1]
    requires isLastNode == (pathIndex == |orig| - 1)
    requires pathIndex < skipFrom ==> previousNodeCopied == flags[pathIndex - 1]
    requires LoopState(store.State(), path[..], nodesRequiringInitialization[..]) ==
             AfterTurns(s0, orig, steps, flags, skipFrom, p0, fs0, pathIndex)
    modifies store, path, nodesRequiringInitialization
    ensures child == orig[pathIndex] && nodeWasCopied == flags[pathIndex] && childInPath == path[pathIndex]
    ensures LoopState(store.State(), path[..], nodesRequiringInitialization[..]) ==
            AfterTurns(s0, orig, steps, flags, skipFrom, p0, fs0, pathIndex + 1)
  {
    TurnFacts(s0, orig, steps, flags, skipFrom, p0, fs0, pathIndex);
    ghost var t := AfterTurns(s0, orig, steps, flags, skipFrom, p0, fs0, pathIndex);
    child := store.children[parent][indexToCopy].value;
    var artificialChildReferences := HandleArtificialReferences(store, isLastNode, first, parent, child);
    childInPath := CopyChildIfNeeded(store, child, pathIndex, pathLength, skipAtEnd, artificialChildReferences,
                                     parentInPath, indexToCopy, previousNodeCopied);
    nodeWasCopied := childInPath != child;
    AddNodeToPath(path, nodesRequiringInitialization, pathIndex, childInPath, nodeWasCopied);
    assert AfterTurns(s0, orig, steps, flags, skipFrom, p0, fs0, pathIndex + 1) ==
           Turn(t, orig, steps, flags, skipFrom, pathIndex);
  }

  // ---------------------------------------------------------------------------------
  // replacePath
  // ---------------------------------------------------------------------------------

  /**
   * The store s is the store s0 after the path from first along steps has been replaced
   * into ps: the first node, then a fresh copy of every copied original and the original
   * itself elsewhere; each path node holding the next path node in the slot of the route
   * when that one is a copy; every other old node keeping its children; every artificial
   * reference given back; the originals neither skipped nor copied losing their hash; and
   * the copied internal nodes initialized from the end of the path back.
   */
  ghost predicate Replaced(s0: StoreState, first: NodeId, steps: seq<nat>, skipAtEnd: int, ps: seq<NodeId>, s: StoreState) {
    && RouteExists(s0.children, s0.leaves, first, steps)
    && var orig := Originals(s0.children, s0.leaves, first, steps);
       var skipFrom := SkipFrom(|orig|, skipAtEnd);
       var flags := CopyFlags(s0.refCounts, orig, skipFrom);
       && OriginalPath(orig, s0.refCounts, s0.next)
       && Placed(s0, orig, steps, flags, skipFrom, |orig|, ps, flags, s)
       && s.initLog == s0.initLog + InitOrder(ps, flags, s.leaves)
  }

  /**
   * The hashes replacePath leaves: each path node from index 1 up to the skipped tail has
   * none, a copy being fresh and a kept original losing its hash; the first node and the
   * nodes of the skipped tail are the originals, with their hash state unchanged.
   */
  lemma ReplacedHashes(s0: StoreState, first: NodeId, steps: seq<nat>, skipAtEnd: int, ps: seq<NodeId>, s: StoreState)
    requires StoreValid(s0) && Replaced(s0, first, steps, skipAtEnd, ps, s)
    ensures |ps| == |steps| + 1 && ps[0] == first
    ensures first in s.hashed <==> first in s0.hashed
    ensures forall k :: 1 <= k < |ps| && k < SkipFrom(|ps|, skipAtEnd) ==> ps[k] !in s.hashed
    ensures forall k :: 1 <= k < |ps| && k >= SkipFrom(|ps|, skipAtEnd) ==>
      && ps[k] == Originals(s0.children, s0.leaves, first, steps)[k]
      && (ps[k] in s.hashed <==> ps[k] in s0.hashed)
  {
    var orig := Originals(s0.children, s0.leaves, first, steps);
    var skipFrom := SkipFrom(|orig|, skipAtEnd);
    var flags := CopyFlags(s0.refCounts, orig, skipFrom);
    var gone := Invalidated(orig, flags, skipFrom, |orig|);
    assert s.hashed == s0.hashed - gone;
    forall k | 1 <= k < |ps| && k < SkipFrom(|ps|, skipAtEnd)
      ensures ps[k] !in s.hashed
    {
      if !flags[k] {
        assert orig[k] in gone;
      }
    }
    forall k | 0 <= k < |ps| && (k == 0 || k >= SkipFrom(|ps|, skipAtEnd))
      ensures ps[k] == orig[k] && (ps[k] in s.hashed <==> ps[k] in s0.hashed)
    {
      assert !Copied(s0.refCounts, orig, skipFrom, k);
      assert orig[k] !in gone;
    }
  }

  /**
   * The route from firstNodeInPath can be followed: when the first node is internal and
   * the route reaches at least its depth, each remaining step names a present child.
   */
  ghost predicate RouteFollows(s: StoreState, firstNodeInPath: Option<NodeId>, route: seq<nat>) {
    firstNodeInPath.Some? && firstNodeInPath.value in s.routes &&
    |s.routes[firstNodeInPath.value]| <= |route| && firstNodeInPath.value !in s.leaves ==>
      RouteExists(s.children, s.leaves, firstNodeInPath.value, route[|s.routes[firstNodeInPath.value]|..])
  }

  /** From a valid store and an existing route, the loop starts as LoopStart describes. */
  lemma StartFacts(s0: StoreState, first: NodeId, steps: seq<nat>, skipFrom: int, p0: seq<NodeId>, fs0: seq<bool>)
    requires StoreValid(s0) && first in s0.routes && RouteExists(s0.children, s0.leaves, first, steps)
    requires |p0| == |steps| + 1 && |fs0| == |steps| + 1 && p0[0] == first && !fs0[0]
    ensures LoopStart(s0, Originals(s0.children, s0.leaves, first, steps), steps,
                      CopyFlags(s0.refCounts, Originals(s0.children, s0.leaves, first, steps), skipFrom),
                      skipFrom, p0, fs0)
  {
    OriginalsFacts(s0.children, s0.leaves, s0.routes, first, steps);
    OriginalsDistinct(s0.children, s0.leaves, s0.routes, first, steps);
  }

  /** Once every path index is placed, the flags array holds the copy flags and the log may be anything. */
  lemma PlacedAtEnd(s0: StoreState, orig: seq<NodeId>, steps: seq<nat>, flags: seq<bool>, skipFrom: int,
                    ps: seq<NodeId>, fs: seq<bool>, s: StoreState, log: seq<NodeId>)
    requires Placed(s0, orig, steps, flags, skipFrom, |orig|, ps, fs, s)
    ensures fs == flags
    ensures Placed(s0, orig, steps, flags, skipFrom, |orig|, ps, flags, s.(initLog := log))
  {
  }

  /** After the last turn and initializePath, the store is valid and the path replaced. */
  lemma ReplacedAtEnd(s0: StoreState, first: NodeId, steps: seq<nat>, skipAtEnd: int, p0: seq<NodeId>, fs0: seq<bool>,
                      orig: seq<NodeId>, flags: seq<bool>, t: LoopState, s: StoreState)
    requires StoreValid(s0) && first in s0.routes && RouteExists(s0.children, s0.leaves, first, steps)
    requires |p0| == |steps| + 1 && |fs0| == |steps| + 1 && p0[0] == first && !fs0[0]
    requires orig == Originals(s0.children, s0.leaves, first, steps)
    requires flags == CopyFlags(s0.refCounts, orig, SkipFrom(|orig|, skipAtEnd))
    requires t == AfterTurns(s0, orig, steps, flags, SkipFrom(|orig|, skipAtEnd), p0, fs0, |orig|)
    requires s == t.s.(initLog := t.s.initLog + InitOrder(t.ps, t.fs, t.s.leaves))
    ensures StoreValid(s) && Replaced(s0, first, steps, skipAtEnd, t.ps, s)
  {
    var skipFrom := SkipFrom(|orig|, skipAtEnd);
    StartFacts(s0, first, steps, skipFrom, p0, fs0);
    LoopInvariant(s0, orig, steps, flags, skipFrom, p0, fs0, |orig|);
    PlacedAtEnd(s0, orig, steps, flags, skipFrom, t.ps, t.fs, t.s, s.initLog);
  }

  /**
   * The loop of replacePath: one turn per remaining step of the route, from the step at
   * position on, with pathIndex the index of the next path node; returns the index past
   * the last one.
   */
  method ReplaceAlongRoute(store: NodeStore, path: array<NodeId>, nodesRequiringInitialization: array<bool>,
                           route: seq<nat>, position: nat, pathIndex: nat, pathLength: int, skipAtEnd: Int, first: NodeId,
                           ghost s0: StoreState, ghost orig: seq<NodeId>, ghost steps: seq<nat>, ghost flags: seq<bool>,
                           ghost p0: seq<NodeId>, ghost fs0: seq<bool>, ghost skipFrom: int)
    returns (endIndex: nat)
    requires skipFrom == SkipFrom(pathLength, skipAtEnd)
    requires LoopStart(s0, orig, steps, flags, skipFrom, p0, fs0)
    requires position <= |route| && steps == route[position..] && first == orig[0] && pathIndex == 1
    requires |orig| == pathLength && path.Length == pathLength && nodesRequiringInitialization.Length == pathLength
    requires LoopState(store.State(), path[..], nodesRequiringInitialization[..]) ==
             AfterTurns(s0, orig, steps, flags, skipFrom, p0, fs0, 1)
    modifies store, path, nodesRequiringInitialization
    ensures endIndex == pathLength
    ensures LoopState(store.State(), path[..], nodesRequiringInitialization[..]) ==
            AfterTurns(s0, orig, steps, flags, skipFrom, p0, fs0, |orig|)
  {
    var pos, index := position, pathIndex;
    var parent := first;
    var parentInPath := parent;
    var previousNodeCopied := false;
    while pos < |route|
      invariant position <= pos <= |route| && index == pos - position + 1
      invariant pos < |route| ==> parent == orig[index - 1] && parentInPath == path[index - 1]
      invariant index < skipFrom ==> previousNodeCopied == flags[index - 1]
      invariant LoopState(store.State(), path[..], nodesRequiringInitialization[..]) ==
                AfterTurns(s0, orig, steps, flags, skipFrom, p0, fs0, index)
    {
      var indexToCopy := route[pos];
      pos := pos + 1;
      var child, childInPath, nodeWasCopied := ReplaceStep(store, path, nodesRequiringInitialization, index, pathLength,
        skipAtEnd, first, parent, parentInPath, indexToCopy, pos == |route|, previousNodeCopied, s0, orig, steps, flags, p0, fs0, skipFrom);
      previousNodeCopied := previousNodeCopied || nodeWasCopied;
      index := index + 1;
      if pos < |route| {
        parent := child;
        parentInPath := childInPath;
      }
    }
    endIndex := index;
  }

  /**
   * replacePath(firstNodeInPath, route, skipAtEnd): the nodes along the route below the
   * first node's depth, copied where they are shared or below a copy, except the last
   * skipAtEnd nodes which are returned as they are.
   */
  method ReplacePath(store: NodeStore, firstNodeInPath: Option<NodeId>, route: seq<nat>, skipAtEnd: Int)
    returns (r: Result<array<NodeId>, ReplaceError>)
    requires store.Valid()
    requires firstNodeInPath.Some? ==> firstNodeInPath.value in store.children
    requires RouteFollows(store.State(), firstNodeInPath, route)
    modifies store
    ensures firstNodeInPath.None? ==> r == Err(NullTree)
    ensures firstNodeInPath.Some? && |route| < |old(store.routes)[firstNodeInPath.value]| ==> r == Err(RouteTooShort)
    ensures (firstNodeInPath.Some? && |old(store.routes)[firstNodeInPath.value]| < |route| &&
             firstNodeInPath.value in old(store.leaves)) ==> r == Err(LeafPathTooLong)
    ensures r.Ok? <==>
      && firstNodeInPath.Some? && |old(store.routes)[firstNodeInPath.value]| <= |route|
      && (firstNodeInPath.value in old(store.leaves) ==> |old(store.routes)[firstNodeInPath.value]| == |route|)
    ensures r.Err? ==> unchanged(store)
    ensures r.Ok? ==>
      && firstNodeInPath.Some? && |old(store.routes)[firstNodeInPath.value]| <= |route|
      && fresh(r.value) && store.Valid()
      && Replaced(old(store.State()), firstNodeInPath.value, route[|old(store.routes)[firstNodeInPath.value]|..],
                  skipAtEnd, r.value[..], store.State())
  {
    if firstNodeInPath.None? {
      return Err(NullTree);
    }
    var first := firstNodeInPath.value;
    var firstNodeDepth := |store.routes[first]|;
    var pathLength := |route| - firstNodeDepth + 1;
    var skipped := SkipStepsInRoute(route, firstNodeDepth);
    if skipped.Err? {
      return Err(skipped.error);
    }
    var position := skipped.value;
    var path := new NodeId[pathLength];
    var nodesRequiringInitialization := new bool[pathLength];
    var pathIndex := 0;
    AddNodeToPath(path, nodesRequiringInitialization, pathIndex, first, false);
    pathIndex := pathIndex + 1;

    assert route[position..] == route[|old(store.routes)[firstNodeInPath.value]|..];
    if first in store.leaves {
      if pathLength != 1 {
        return Err(LeafPathTooLong);
      }
      // The path is the first node alone, and nothing is initialized.
      ghost var s0 := store.State();
      ghost var steps := route[position..];
      ghost var orig := Originals(s0.children, s0.leaves, first, steps);
      ghost var flags := CopyFlags(s0.refCounts, orig, SkipFrom(|orig|, skipAtEnd));
      assert orig == [first] && nodesRequiringInitialization[..] == [false];
      ReplacedAtEnd(s0, first, steps, skipAtEnd, path[..], nodesRequiringInitialization[..], orig, flags,
                    LoopState(s0, path[..], nodesRequiringInitialization[..]), s0);
    } else {
      pathIndex := ReplaceBelowFirst(store, path, nodesRequiringInitialization, route, position, pathLength, skipAtEnd, first);
      assert pathIndex == pathLength;
    }
    r := Ok(path);
  }

  /**
   * replacePath once an internal first node is in the path: the loop along the route, then
   * initializePath; returns the index past the last path node.
   */
  method ReplaceBelowFirst(store: NodeStore, path: array<NodeId>, nodesRequiringInitialization: array<bool>,
                           route: seq<nat>, position: nat, pathLength: int, skipAtEnd: Int, first: NodeId)
    returns (pathIndex: nat)
    requires store.Valid() && first in store.routes && first !in store.leaves
    requires position <= |route| && RouteExists(store.children, store.leaves, first, route[position..])
    requires pathLength == |route| - position + 1
    requires path.Length == pathLength && nodesRequiringInitialization.Length == pathLength
    requires path[0] == first && !nodesRequiringInitialization[0]
    modifies store, path, nodesRequiringInitialization
    ensures pathIndex == pathLength
    ensures store.Valid() && Replaced(old(store.State()), first, route[position..], skipAtEnd, path[..], store.State())
  {
    ghost var s0 := store.State();
    ghost var steps := route[position..];
    ghost var p0, fs0 := path[..], nodesRequiringInitialization[..];
    ghost var orig := Originals(s0.children, s0.leaves, first, steps);
    ghost var skipFrom := SkipFrom(|orig|, skipAtEnd);
    ghost var flags := CopyFlags(s0.refCounts, orig, skipFrom);
    StartFacts(s0, first, steps, skipFrom, p0, fs0);
    pathIndex := ReplaceAlongRoute(store, path, nodesRequiringInitialization, route, position, 1, pathLength,
                                   skipAtEnd, first, s0, orig, steps, flags, p0, fs0, skipFrom);
    ghost var t := LoopState(store.State(), path[..], nodesRequiringInitialization[..]);
    InitializePath(store, path, nodesRequiringInitialization);
    ReplacedAtEnd(s0, first, steps, skipAtEnd, p0, fs0, orig, flags, t, store.State());
  }

  /** replacePath(root, route): the whole path from the root, with nothing skipped. */
  method ReplacePathFromRoot(store: NodeStore, root: Option<NodeId>, route: seq<nat>)
    returns (r: Result<array<NodeId>, ReplaceError>)
    requires store.Valid()
    requires root.Some? ==> root.value in store.children
    requires RouteFollows(store.State(), root, route)
    modifies store
    ensures root.None? ==> r == Err(NullTree)
    ensures root.Some? && |route| < |old(store.routes)[root.value]| ==> r == Err(RouteTooShort)
    ensures root.Some? && |old(store.routes)[root.value]| < |route| && root.value in old(store.leaves) ==> r == Err(LeafPathTooLong)
    ensures r.Ok? <==>
      && root.Some? && |old(store.routes)[root.value]| <= |route|
      && (root.value in old(store.leaves) ==> |old(store.routes)[root.value]| == |route|)
    ensures r.Err? ==> unchanged(store)
    ensures r.Ok? ==>
      && root.Some? && |old(store.routes)[root.value]| <= |route|
      && fresh(r.value) && store.Valid()
      && Replaced(old(store.State()), root.value, route[|old(store.routes)[root.value]|..], 0, r.value[..], store.State())
  {
    r := ReplacePath(store, root, route, 0);
  }
}
