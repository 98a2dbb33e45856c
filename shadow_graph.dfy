/**
 * The shadow graph that a SyncShadowGraphManager owns: a map from the identity hash of
 * each event to the shadow of that event.
 *
 * The graph itself (SyncShadowGraph, SyncShadowEvent) is not part of this model's source;
 * this module models it at the level the manager relies on:
 *  - a shadow holds its event and weak links to the shadows of its two parents;
 *  - the self-children of a shadow are the shadows whose self-parent link names it;
 *  - removing a shadow cuts every link that named it, so a later lookup through such a
 *    link finds nothing (a weak reference to an expired parent);
 *  - the descendant relation follows self-parent and other-parent links forward;
 *  - removeSelfAncestry / removeStrictSelfAncestry walk back along self-parent links,
 *    removing shadows while they are expired.
 */
module SyncShadowGraph {
  import opened Wrappers

  /** The identity hash of an event. */
  type Hash = int

  /** A parent as the child event sees it: its identity hash and its generation. */
  datatype EventRef = EventRef(hash: Hash, generation: int)

  /** The part of a hashgraph event that the shadow graph reads. */
  datatype Event = Event(hash: Hash, generation: int, selfParent: Option<EventRef>, otherParent: Option<EventRef>)

  /** A shadow event: the event and the links to the shadows of its parents. */
  datatype Shadow = Shadow(event: Event, selfParent: Option<Hash>, otherParent: Option<Hash>)

  type Graph = map<Hash, Shadow>

  function Gen(g: Graph, h: Hash): int
    requires h in g
  {
    g[h].event.generation
  }

  /** A link of shadow h is sound: it names h's own parent, which is present and older. */
  ghost predicate LinkOk(g: Graph, h: Hash, link: Option<Hash>, parent: Option<EventRef>)
    requires h in g
  {
    link.Some? ==>
      && parent.Some? && parent.value.hash == link.value
      && link.value in g && Gen(g, link.value) < Gen(g, h)
  }

  /**
   * The graph invariant: every shadow is stored under its own hash, and every link names
   * a present shadow of a smaller generation (so there are no dangling links and no cycles).
   */
  ghost predicate GraphValid(g: Graph) {
    forall h :: h in g ==>
      && g[h].event.hash == h
      && LinkOk(g, h, g[h].selfParent, g[h].event.selfParent)
      && LinkOk(g, h, g[h].otherParent, g[h].event.otherParent)
  }

  /** The self-children of h: the shadows whose self-parent link names h. */
  function SelfChildren(g: Graph, h: Hash): set<Hash> {
    set c | c in g && g[c].selfParent == Some(h)
  }

  /** The tips of a graph: the shadows that have no self-child. */
  function TipsOf(g: Graph): set<Hash> {
    set h | h in g && SelfChildren(g, h) == {}
  }

  // ---------------------------------------------------------------------------------
  // Ordering of hash sets
  // ---------------------------------------------------------------------------------

  /**
   * The fixed order in which a set of hashes is enumerated (ascending). It stands for
   * the iteration order of a Java HashSet, which is fixed for a given set.
   */
  function Ordered(s: set<Hash>): (r: seq<Hash>)
    ensures |r| == |s|
    ensures forall h :: h in r <==> h in s
    decreases |s|
  {
    if s == {} then []
    else
      var m := Least(s);
      [m] + Ordered(s - {m})
  }

  /** The enumeration is strictly ascending, so it lists no hash twice. */
  lemma {:induction false} OrderedAscending(s: set<Hash>)
    ensures forall i, j :: 0 <= i < j < |Ordered(s)| ==> Ordered(s)[i] < Ordered(s)[j]
    decreases |s|
  {
    if s != {} {
      var m := Least(s);
      OrderedAscending(s - {m});
      assert Ordered(s) == [m] + Ordered(s - {m});
    }
  }

  function Least(s: set<Hash>): (m: Hash)
    requires s != {}
    ensures m in s && forall h :: h in s ==> m <= h
  {
    LeastExists(s);
    var m :| m in s && forall h :: h in s ==> m <= h;
    m
  }

  ghost predicate IsLeast(s: set<Hash>, m: Hash) {
    m in s && forall h :: h in s ==> m <= h
  }

  lemma LeastExists(s: set<Hash>)
    requires s != {}
    ensures exists m :: IsLeast(s, m)
    decreases |s|
  {
    if forall h :: h !in s {
      assert false;
    }
    var x :| x in s;
    if s == {x} {
      assert IsLeast(s, x);
    } else {
      LeastExists(s - {x});
      var m :| IsLeast(s - {x}, m);
      var least := if x < m then x else m;
      forall h | h in s ensures least <= h {
        if h != x {
          assert h in s - {x};
        }
      }
      assert IsLeast(s, least);
    }
  }

  // ---------------------------------------------------------------------------------
  // Insertion
  // ---------------------------------------------------------------------------------

  /** The link to a parent: present only when the parent already has a shadow. */
  function LinkTo(g: Graph, p: Option<EventRef>): Option<Hash> {
    if p.Some? && p.value.hash in g then Some(p.value.hash) else None
  }

  /**
   * SyncShadowGraph.insert: a new shadow for e, linked to the shadows of those parents
   * that have one. Only the shadow graph changes; tips are the manager's business.
   */
  function Insert(g: Graph, e: Event): (r: Graph)
    requires e.hash !in g
    ensures r.Keys == g.Keys + {e.hash}
    ensures forall h :: h in g ==> r[h] == g[h]
    ensures r[e.hash].event == e
  {
    g[e.hash := Shadow(e, LinkTo(g, e.selfParent), LinkTo(g, e.otherParent))]
  }

  /**
   * The upstream contract on an event (a parent is older than its child, and a parent
   * hash that has a shadow names an event of the generation the child records).
   */
  ghost predicate ParentAgrees(g: Graph, e: Event, p: Option<EventRef>) {
    p.Some? ==>
      && p.value.generation < e.generation
      && (p.value.hash in g ==> Gen(g, p.value.hash) == p.value.generation)
  }

  ghost predicate ParentsAgree(g: Graph, e: Event) {
    ParentAgrees(g, e, e.selfParent) && ParentAgrees(g, e, e.otherParent)
  }

  /** Inserting an event that keeps the upstream contract keeps the graph invariant. */
  lemma InsertKeepsValid(g: Graph, e: Event)
    requires GraphValid(g) && e.hash !in g && ParentsAgree(g, e)
    ensures GraphValid(Insert(g, e))
  {
    var r := Insert(g, e);
    forall h | h in r
      ensures r[h].event.hash == h
      ensures LinkOk(r, h, r[h].selfParent, r[h].event.selfParent)
      ensures LinkOk(r, h, r[h].otherParent, r[h].event.otherParent)
    {
      if h != e.hash {
        assert LinkOk(g, h, g[h].selfParent, g[h].event.selfParent);
        assert LinkOk(g, h, g[h].otherParent, g[h].event.otherParent);
      }
    }
  }

  /**
   * Tip maintenance on insertion: the new shadow becomes a tip and its self-parent, if
   * it has a shadow, stops being one; every other shadow keeps its tip status.
   */
  lemma {:induction false} InsertTips(g: Graph, e: Event)
    requires GraphValid(g) && e.hash !in g
    ensures TipsOf(Insert(g, e)) ==
      TipsOf(g) + {e.hash} - (if LinkTo(g, e.selfParent).Some? then {LinkTo(g, e.selfParent).value} else {})
  {
    var r := Insert(g, e);
    var sp := LinkTo(g, e.selfParent);
    var removed := if sp.Some? then {sp.value} else {};
    forall h | h in r
      ensures SelfChildren(r, h) == SelfChildren(g, h) + (if sp == Some(h) then {e.hash} else {})
    {
      if h == e.hash {
        forall c | c in g ensures g[c].selfParent != Some(h) {
          assert LinkOk(g, c, g[c].selfParent, g[c].event.selfParent);
        }
      }
    }
    forall h ensures h in TipsOf(r) <==> h in TipsOf(g) + {e.hash} - removed {
      if h in r {
        assert SelfChildren(r, h) == SelfChildren(g, h) + (if sp == Some(h) then {e.hash} else {});
        if h == e.hash {
          assert SelfChildren(g, h) == {} by {
            forall c | c in g ensures g[c].selfParent != Some(h) {
              assert LinkOk(g, c, g[c].selfParent, g[c].event.selfParent);
            }
          }
        }
      }
    }
  }

  // ---------------------------------------------------------------------------------
  // Removal
  // ---------------------------------------------------------------------------------

  /** A link survives a removal only when the shadow it names is kept. */
  function Cut(link: Option<Hash>, keep: set<Hash>): Option<Hash> {
    if link.Some? && link.value in keep then link else None
  }

  /** The graph with only the shadows in keep; links to removed shadows are cut. */
  function Prune(g: Graph, keep: set<Hash>): (r: Graph)
    ensures r.Keys == g.Keys * keep
  {
    map h | h in g && h in keep :: g[h].(selfParent := Cut(g[h].selfParent, keep), otherParent := Cut(g[h].otherParent, keep))
  }

  lemma PruneKeepsValid(g: Graph, keep: set<Hash>)
    requires GraphValid(g)
    ensures GraphValid(Prune(g, keep))
  {
    var r := Prune(g, keep);
    forall h | h in r
      ensures r[h].event.hash == h
      ensures LinkOk(r, h, r[h].selfParent, r[h].event.selfParent)
      ensures LinkOk(r, h, r[h].otherParent, r[h].event.otherParent)
    {
      assert LinkOk(g, h, g[h].selfParent, g[h].event.selfParent);
      assert LinkOk(g, h, g[h].otherParent, g[h].event.otherParent);
    }
  }

  lemma PruneTwice(g: Graph, a: set<Hash>, b: set<Hash>)
    ensures Prune(Prune(g, a), b) == Prune(g, a * b)
  {
    var l, r := Prune(Prune(g, a), b), Prune(g, a * b);
    assert l.Keys == r.Keys;
    forall h | h in l ensures l[h] == r[h] {
      assert Cut(Cut(g[h].selfParent, a), b) == Cut(g[h].selfParent, a * b);
      assert Cut(Cut(g[h].otherParent, a), b) == Cut(g[h].otherParent, a * b);
    }
  }

  /** Keeping every shadow of a valid graph changes nothing. */
  lemma PruneNothing(g: Graph)
    requires GraphValid(g)
    ensures Prune(g, g.Keys) == g
  {
    var r := Prune(g, g.Keys);
    forall h | h in g ensures r[h] == g[h] {
      assert LinkOk(g, h, g[h].selfParent, g[h].event.selfParent);
      assert LinkOk(g, h, g[h].otherParent, g[h].event.otherParent);
    }
  }

  lemma StrictSubsetCard<T>(a: set<T>, b: set<T>)
    requires a < b
    ensures |a| < |b|
  {
    assert |b - a| > 0;
    var x :| x in b - a;
    assert b == a + (b - a);
    assert a * (b - a) == {};
  }

  lemma SubsetCard<T>(a: set<T>, b: set<T>)
    requires a <= b
    ensures |a| <= |b|
  {
    assert b == a + (b - a);
    assert a * (b - a) == {};
  }

  /** The shadows older than gen; a measure for walks back along self-parent links. */
  ghost function Older(g: Graph, gen: int): set<Hash> {
    set h | h in g && Gen(g, h) < gen
  }

  lemma OlderShrinks(g: Graph, older: Hash, newer: Hash)
    requires older in g && newer in g && Gen(g, older) < Gen(g, newer)
    ensures |Older(g, Gen(g, older))| < |Older(g, Gen(g, newer))|
  {
    assert older in Older(g, Gen(g, newer)) - Older(g, Gen(g, older));
    StrictSubsetCard(Older(g, Gen(g, older)), Older(g, Gen(g, newer)));
  }

  /**
   * The shadows that a walk back from x removes while they are expired (generation at
   * most w): x itself if it is expired, then its self-parent, and so on.
   */
  ghost function ExpiredChain(g: Graph, x: Hash, w: int): set<Hash>
    requires GraphValid(g)
    decreases if x in g then |Older(g, Gen(g, x))| else 0
  {
    if x in g && Gen(g, x) <= w then
      match g[x].selfParent
      case None => {x}
      case Some(p) =>
        assert LinkOk(g, x, g[x].selfParent, g[x].event.selfParent);
        OlderShrinks(g, p, x);
        {x} + ExpiredChain(g, p, w)
    else {}
  }

  /** The shadows that a strict walk back from x removes: the chain from x's self-parent. */
  ghost function StrictChain(g: Graph, x: Hash, w: int): set<Hash>
    requires GraphValid(g)
  {
    if x in g && g[x].selfParent.Some? then ExpiredChain(g, g[x].selfParent.value, w) else {}
  }

  /** Every shadow of an expired chain is present, expired, and no younger than x. */
  lemma {:induction false} ChainBounds(g: Graph, x: Hash, w: int)
    requires GraphValid(g)
    ensures forall y :: y in ExpiredChain(g, x, w) ==> x in g && y in g && Gen(g, y) <= w && Gen(g, y) <= Gen(g, x)
    ensures forall y :: y in ExpiredChain(g, x, w) && y != x ==> Gen(g, y) < Gen(g, x)
    decreases if x in g then |Older(g, Gen(g, x))| else 0
  {
    if x in g && Gen(g, x) <= w {
      match g[x].selfParent
      case None =>
      case Some(p) =>
        assert LinkOk(g, x, g[x].selfParent, g[x].event.selfParent);
        OlderShrinks(g, p, x);
        ChainBounds(g, p, w);
    }
  }

  /** An expired chain never reaches a shadow younger than its start. */
  lemma ChainAvoids(g: Graph, x: Hash, w: int, newer: Hash)
    requires GraphValid(g) && x in g && newer in g && Gen(g, x) < Gen(g, newer)
    ensures ExpiredChain(g, x, w) <= g.Keys - {newer}
  {
    ChainBounds(g, x, w);
    forall y | y in ExpiredChain(g, x, w) ensures y in g.Keys - {newer} {
      assert Gen(g, y) <= Gen(g, x);
    }
  }

  /** An expired chain is closed under expired self-parents. */
  lemma {:induction false} ChainUpClosed(g: Graph, x: Hash, w: int, y: Hash)
    requires GraphValid(g) && y in ExpiredChain(g, x, w) && y in g
    requires g[y].selfParent.Some? && Gen(g, g[y].selfParent.value) <= w
    ensures g[y].selfParent.value in ExpiredChain(g, x, w)
    decreases if x in g then |Older(g, Gen(g, x))| else 0
  {
    ChainBounds(g, x, w);
    if y != x {
      match g[x].selfParent
      case None =>
      case Some(p) =>
        assert LinkOk(g, x, g[x].selfParent, g[x].event.selfParent);
        OlderShrinks(g, p, x);
        ChainUpClosed(g, p, w, y);
    }
  }

  /** Every shadow of an expired chain except its start has a self-child: it is no tip. */
  lemma {:induction false} ChainHasChildren(g: Graph, x: Hash, w: int, y: Hash)
    requires GraphValid(g) && y in ExpiredChain(g, x, w) && y != x
    ensures SelfChildren(g, y) != {}
    decreases if x in g then |Older(g, Gen(g, x))| else 0
  {
    match g[x].selfParent
    case None =>
    case Some(p) =>
      assert LinkOk(g, x, g[x].selfParent, g[x].event.selfParent);
      OlderShrinks(g, p, x);
      if y == p {
        assert x in SelfChildren(g, y);
      } else {
        ChainHasChildren(g, p, w, y);
      }
  }

  /** A chain that lies inside the kept shadows is the same chain after pruning. */
  lemma {:induction false} ChainAfterPrune(g: Graph, x: Hash, w: int, keep: set<Hash>)
    requires GraphValid(g) && ExpiredChain(g, x, w) <= keep
    ensures GraphValid(Prune(g, keep))
    ensures ExpiredChain(Prune(g, keep), x, w) == ExpiredChain(g, x, w)
    decreases if x in g then |Older(g, Gen(g, x))| else 0
  {
    PruneKeepsValid(g, keep);
    var r := Prune(g, keep);
    if x in g && Gen(g, x) <= w {
      match g[x].selfParent
      case None =>
      case Some(p) =>
        assert LinkOk(g, x, g[x].selfParent, g[x].event.selfParent);
        OlderShrinks(g, p, x);
        assert p in ExpiredChain(g, x, w);
        assert r[x].selfParent == Some(p);
        ChainAfterPrune(g, p, w, keep);
    } else if x in r {
      assert Gen(r, x) == Gen(g, x);
    }
  }

  /**
   * SyncShadowGraph.removeSelfAncestry with the expiry predicate: starting at x, remove
   * shadows while they are expired, each time moving to the self-parent. The result is
   * the graph without the expired chain from x, and the number of shadows removed.
   */
  function RemoveSelfAncestry(g: Graph, x: Hash, w: int): (r: (Graph, nat))
    requires GraphValid(g)
    ensures GraphValid(r.0)
    ensures r.0 == Prune(g, g.Keys - ExpiredChain(g, x, w))
    ensures r.1 == |ExpiredChain(g, x, w)|
    decreases |g.Keys|
  {
    if x in g && Gen(g, x) <= w then
      var rest := g.Keys - {x};
      var g1 := Prune(g, rest);
      PruneKeepsValid(g, rest);
      assert |g1.Keys| < |g.Keys| by { assert g1.Keys == g.Keys - {x}; }
      match g[x].selfParent
      case None =>
        (g1, 1)
      case Some(p) =>
        assert LinkOk(g, x, g[x].selfParent, g[x].event.selfParent);
        ChainAvoids(g, p, w, x);
        ChainAfterPrune(g, p, w, rest);
        var r1 := RemoveSelfAncestry(g1, p, w);
        PruneTwice(g, rest, g1.Keys - ExpiredChain(g, p, w));
        assert rest * (g1.Keys - ExpiredChain(g, p, w)) == g.Keys - ExpiredChain(g, x, w);
        assert x !in ExpiredChain(g, p, w);
        (r1.0, r1.1 + 1)
    else
      PruneNothing(g);
      assert ExpiredChain(g, x, w) == {};
      assert g.Keys - {} == g.Keys;
      (g, 0)
  }

  /**
   * SyncShadowGraph.removeStrictSelfAncestry with the expiry predicate: the same walk,
   * started at x's self-parent, so x itself is never removed.
   */
  function RemoveStrictSelfAncestry(g: Graph, x: Hash, w: int): (r: (Graph, nat))
    requires GraphValid(g)
    ensures GraphValid(r.0)
    ensures r.0 == Prune(g, g.Keys - StrictChain(g, x, w))
    ensures r.1 == |StrictChain(g, x, w)|
    ensures x in g ==> x in r.0
  {
    if x in g && g[x].selfParent.Some? then
      assert LinkOk(g, x, g[x].selfParent, g[x].event.selfParent);
      ChainBounds(g, g[x].selfParent.value, w);
      RemoveSelfAncestry(g, g[x].selfParent.value, w)
    else
      PruneNothing(g);
      assert StrictChain(g, x, w) == {};
      assert g.Keys - {} == g.Keys;
      (g, 0)
  }

  lemma DiffCard<T>(a: set<T>, c: set<T>)
    requires c <= a
    ensures |a - c| == |a| - |c|
  {
    assert a == (a - c) + c;
    assert (a - c) * c == {};
  }

  /**
   * A set of removed shadows is closed under expired self-parents: whenever it holds a
   * shadow whose self-parent is expired, it holds that self-parent too. Every removal
   * walk leaves the set of all shadows removed so far in this shape.
   */
  ghost predicate UpClosed(g: Graph, removed: set<Hash>, w: int)
    requires GraphValid(g)
  {
    forall y :: y in removed && y in g && g[y].selfParent.Some? ==>
      g[y].selfParent.value in g && (Gen(g, g[y].selfParent.value) <= w ==> g[y].selfParent.value in removed)
  }

  /** Every expired chain is closed under expired self-parents. */
  lemma ChainIsUpClosed(g: Graph, x: Hash, w: int)
    requires GraphValid(g)
    ensures UpClosed(g, ExpiredChain(g, x, w), w)
  {
    ChainBounds(g, x, w);
    forall y | y in ExpiredChain(g, x, w) && y in g && g[y].selfParent.Some?
      ensures g[y].selfParent.value in g
      ensures Gen(g, g[y].selfParent.value) <= w ==> g[y].selfParent.value in ExpiredChain(g, x, w)
    {
      assert LinkOk(g, y, g[y].selfParent, g[y].event.selfParent);
      if Gen(g, g[y].selfParent.value) <= w {
        ChainUpClosed(g, x, w, y);
      }
    }
  }

  /** An expired chain that starts at a removed shadow lies wholly among the removed ones. */
  lemma {:induction false} ChainInside(g: Graph, removed: set<Hash>, x: Hash, w: int)
    requires GraphValid(g) && UpClosed(g, removed, w) && x in removed
    ensures ExpiredChain(g, x, w) <= removed
    decreases if x in g then |Older(g, Gen(g, x))| else 0
  {
    if x in g && Gen(g, x) <= w {
      match g[x].selfParent
      case None =>
      case Some(p) =>
        assert LinkOk(g, x, g[x].selfParent, g[x].event.selfParent);
        OlderShrinks(g, p, x);
        ChainInside(g, removed, p, w);
    }
  }

  /**
   * After removing an up-closed set of shadows, a removal walk finds the same expired
   * chain as in the original graph, less the shadows already gone.
   */
  lemma {:induction false} ChainUnderPrune(g: Graph, removed: set<Hash>, x: Hash, w: int)
    requires GraphValid(g) && UpClosed(g, removed, w)
    ensures GraphValid(Prune(g, g.Keys - removed))
    ensures ExpiredChain(Prune(g, g.Keys - removed), x, w) == ExpiredChain(g, x, w) - removed
    decreases if x in g then |Older(g, Gen(g, x))| else 0
  {
    var r := Prune(g, g.Keys - removed);
    PruneKeepsValid(g, g.Keys - removed);
    if x in removed {
      ChainInside(g, removed, x, w);
    } else if x in g && Gen(g, x) <= w {
      assert x in r && Gen(r, x) == Gen(g, x);
      match g[x].selfParent
      case None =>
        assert r[x].selfParent == None;
      case Some(p) =>
        assert LinkOk(g, x, g[x].selfParent, g[x].event.selfParent);
        OlderShrinks(g, p, x);
        if p in removed {
          assert r[x].selfParent == None;
          ChainInside(g, removed, p, w);
        } else {
          assert r[x].selfParent == Some(p);
          ChainUnderPrune(g, removed, p, w);
        }
    } else if x in r {
      assert Gen(r, x) == Gen(g, x);
    }
  }

  /**
   * Removing an up-closed set of expired shadows leaves every surviving shadow with the
   * self-children it had: the surviving tips are the old tips that survive.
   */
  lemma TipsAfterRemoval(g: Graph, removed: set<Hash>, w: int)
    requires GraphValid(g) && UpClosed(g, removed, w)
    requires forall y :: y in removed && y in g ==> Gen(g, y) <= w
    ensures TipsOf(Prune(g, g.Keys - removed)) == TipsOf(g) - removed
  {
    var keep := g.Keys - removed;
    var r := Prune(g, keep);
    forall h | h in r ensures SelfChildren(r, h) == SelfChildren(g, h) {
      forall c | c in SelfChildren(g, h) ensures c in SelfChildren(r, h) {
        assert LinkOk(g, c, g[c].selfParent, g[c].event.selfParent);
      }
      forall c | c in SelfChildren(r, h) ensures c in SelfChildren(g, h) {
        assert r[c].selfParent == Cut(g[c].selfParent, keep);
      }
    }
  }

  // ---------------------------------------------------------------------------------
  // Descendants
  // ---------------------------------------------------------------------------------

  /** Whether c is a child of some shadow in s, through its self-parent or other-parent link. */
  predicate ChildOfAny(g: Graph, s: set<Hash>, c: Hash)
    requires c in g
  {
    (g[c].selfParent.Some? && g[c].selfParent.value in s) || (g[c].otherParent.Some? && g[c].otherParent.value in s)
  }

  /** The smallest set of shadows that holds s and every child of its members. */
  function Closure(g: Graph, s: set<Hash>): (r: set<Hash>)
    requires s <= g.Keys
    ensures s <= r <= g.Keys
    ensures forall c :: c in g && ChildOfAny(g, r, c) ==> c in r
    decreases |g.Keys - s|
  {
    var next := s + set c | c in g && ChildOfAny(g, s, c);
    if next == s then s
    else
      StrictSubsetCard(g.Keys - next, g.Keys - s);
      Closure(g, next)
  }

  /** The closure is the least closed set holding s. */
  lemma {:induction false} ClosureLeast(g: Graph, s: set<Hash>, t: set<Hash>)
    requires s <= t <= g.Keys
    requires forall c :: c in g && ChildOfAny(g, t, c) ==> c in t
    ensures Closure(g, s) <= t
    decreases |g.Keys - s|
  {
    var next := s + set c | c in g && ChildOfAny(g, s, c);
    if next != s {
      forall c | c in g && ChildOfAny(g, s, c)
        ensures c in t
      {
        assert ChildOfAny(g, t, c);
      }
      StrictSubsetCard(g.Keys - next, g.Keys - s);
      ClosureLeast(g, next, t);
    }
  }

  /** SyncShadowGraph.graphDescendants: y and every shadow reachable forward from it. */
  function Descendants(g: Graph, y: Hash): (r: set<Hash>)
    ensures y in g ==> y in r
    ensures r <= g.Keys
    ensures forall c :: c in g && ChildOfAny(g, r, c) ==> c in r
  {
    if y in g then Closure(g, {y}) else {}
  }
}
