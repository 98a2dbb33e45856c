/**
 * SyncShadowGraphManager: the shadow graph of a node together with its tip set and its
 * expiration watermark, and the operations gossip uses on them: the insertion
 * classifier, insertion with tip maintenance, the two-pass expiration sweep, and the
 * three phases that decide which events the peer lacks.
 */
module ShadowGraphManager {
  import opened Wrappers
  import opened SyncShadowGraph
  import opened JavaInts

  /** Why an event can or cannot be inserted. */
  datatype InsertableStatus =
    | Insertable
    | NullEvent
    | DuplicateShadowEvent
    | ExpiredEvent
    | UnknownCurrentSelfParent
    | UnknownCurrentOtherParent

  /** An event (or a parent) is expired when its generation is at most the watermark. */
  predicate IsExpired(generation: int, expiredGen: int) {
    generation <= expiredGen
  }

  /** A parent keeps its child out only when it is neither known to the graph nor expired. */
  predicate ParentBlocks(g: Graph, expiredGen: int, p: Option<EventRef>) {
    p.Some? && p.value.hash !in g && !IsExpired(p.value.generation, expiredGen)
  }

  /**
   * SyncShadowGraphManager.insertable: the first status that applies, checked in the
   * order null, duplicate, expired, other-parent, self-parent.
   */
  function InsertableStatusOf(g: Graph, expiredGen: int, e: Option<Event>): (r: InsertableStatus)
    ensures r == NullEvent <==> e.None?
    ensures r == DuplicateShadowEvent <==> e.Some? && e.value.hash in g
    ensures r == ExpiredEvent <==>
      e.Some? && e.value.hash !in g && IsExpired(e.value.generation, expiredGen)
    ensures r == UnknownCurrentOtherParent <==>
      && e.Some? && e.value.hash !in g && !IsExpired(e.value.generation, expiredGen)
      && ParentBlocks(g, expiredGen, e.value.otherParent)
    ensures r == UnknownCurrentSelfParent <==>
      && e.Some? && e.value.hash !in g && !IsExpired(e.value.generation, expiredGen)
      && !ParentBlocks(g, expiredGen, e.value.otherParent)
      && ParentBlocks(g, expiredGen, e.value.selfParent)
    ensures r == Insertable <==>
      && e.Some? && e.value.hash !in g && !IsExpired(e.value.generation, expiredGen)
      && (e.value.otherParent.None? || e.value.otherParent.value.hash in g
          || IsExpired(e.value.otherParent.value.generation, expiredGen))
      && (e.value.selfParent.None? || e.value.selfParent.value.hash in g
          || IsExpired(e.value.selfParent.value.generation, expiredGen))
  {
    if e.None? then NullEvent
    else if e.value.hash in g then DuplicateShadowEvent
    else if IsExpired(e.value.generation, expiredGen) then ExpiredEvent
    else if ParentBlocks(g, expiredGen, e.value.otherParent) then UnknownCurrentOtherParent
    else if ParentBlocks(g, expiredGen, e.value.selfParent) then UnknownCurrentSelfParent
    else Insertable
  }

  // ---------------------------------------------------------------------------------
  // Expiration sweep: what the two passes remove
  // ---------------------------------------------------------------------------------

  /** The shadows the first pass removes when it visits the tips in the order ts. */
  ghost function StrictChains(g: Graph, ts: seq<Hash>, w: int): set<Hash>
    requires GraphValid(g)
  {
    if ts == [] then {} else StrictChains(g, ts[..|ts| - 1], w) + StrictChain(g, ts[|ts| - 1], w)
  }

  /** The expired tips: those the second pass removes. */
  ghost function ExpiredTips(g: Graph, tips: set<Hash>, w: int): set<Hash> {
    set t | t in tips && t in g && IsExpired(Gen(g, t), w)
  }

  /** Every shadow that one expiration sweep removes. */
  ghost function Swept(g: Graph, tips: set<Hash>, w: int): set<Hash>
    requires GraphValid(g)
  {
    StrictChains(g, Ordered(tips), w) + ExpiredTips(g, tips, w)
  }

  /** A strict chain is present, expired, up-closed, and holds no tip. */
  lemma StrictChainFacts(g: Graph, t: Hash, w: int)
    requires GraphValid(g)
    ensures StrictChain(g, t, w) <= g.Keys
    ensures forall y :: y in StrictChain(g, t, w) ==> IsExpired(Gen(g, y), w)
    ensures UpClosed(g, StrictChain(g, t, w), w)
    ensures forall y :: y in StrictChain(g, t, w) ==> y !in TipsOf(g)
  {
    if t in g && g[t].selfParent.Some? {
      var p := g[t].selfParent.value;
      assert StrictChain(g, t, w) == ExpiredChain(g, p, w);
      ChainBounds(g, p, w);
      forall y | y in ExpiredChain(g, p, w) ensures y in g.Keys {
      }
      ChainIsUpClosed(g, p, w);
      forall y | y in ExpiredChain(g, p, w) ensures y !in TipsOf(g) {
        if y == p {
          assert t in SelfChildren(g, y);
        } else {
          ChainHasChildren(g, p, w, y);
        }
      }
    } else {
      assert StrictChain(g, t, w) == {};
    }
  }

  lemma {:induction false} StrictChainsFacts(g: Graph, ts: seq<Hash>, w: int)
    requires GraphValid(g)
    ensures StrictChains(g, ts, w) <= g.Keys
    ensures forall y :: y in StrictChains(g, ts, w) ==> IsExpired(Gen(g, y), w)
    ensures UpClosed(g, StrictChains(g, ts, w), w)
    ensures forall y :: y in StrictChains(g, ts, w) ==> y !in TipsOf(g)
  {
    if ts != [] {
      StrictChainsFacts(g, ts[..|ts| - 1], w);
      StrictChainFacts(g, ts[|ts| - 1], w);
    }
  }

  /** The first pass removes the strict chain of every tip it visits. */
  lemma {:induction false} StrictChainIncluded(g: Graph, ts: seq<Hash>, i: nat, w: int)
    requires GraphValid(g) && i < |ts|
    ensures StrictChain(g, ts[i], w) <= StrictChains(g, ts, w)
  {
    if i < |ts| - 1 {
      var init := ts[..|ts| - 1];
      assert ts[i] == init[i];
      StrictChainIncluded(g, init, i, w);
    }
  }

  /** One step of the first pass: the strict walk from a tip in the partly swept graph. */
  lemma StrictStep(g0: Graph, removed: set<Hash>, t: Hash, w: int)
    requires GraphValid(g0) && UpClosed(g0, removed, w) && removed <= g0.Keys
    requires t in g0 && t !in removed
    ensures GraphValid(Prune(g0, g0.Keys - removed))
    ensures t in Prune(g0, g0.Keys - removed)
    ensures StrictChain(Prune(g0, g0.Keys - removed), t, w) == StrictChain(g0, t, w) - removed
    ensures StrictChain(Prune(g0, g0.Keys - removed), t, w) <= g0.Keys - removed
  {
    var keep := g0.Keys - removed;
    var g := Prune(g0, keep);
    PruneKeepsValid(g0, keep);
    if g0[t].selfParent.Some? {
      var p := g0[t].selfParent.value;
      assert LinkOk(g0, t, g0[t].selfParent, g0[t].event.selfParent);
      assert StrictChain(g0, t, w) == ExpiredChain(g0, p, w);
      ChainBounds(g0, p, w);
      if p in removed {
        assert g[t].selfParent == None;
        assert StrictChain(g, t, w) == {};
        ChainInside(g0, removed, p, w);
      } else {
        assert g[t].selfParent == Some(p);
        assert StrictChain(g, t, w) == ExpiredChain(g, p, w);
        ChainUnderPrune(g0, removed, p, w);
        forall y | y in StrictChain(g, t, w) ensures y in g0.Keys - removed {
        }
      }
    } else {
      assert g[t].selfParent == None;
      assert StrictChain(g, t, w) == {};
    }
  }

  /** One step of the second pass: the walk from an expired tip removes only that tip. */
  lemma TipStep(g0: Graph, removed: set<Hash>, t: Hash, w: int)
    requires GraphValid(g0) && UpClosed(g0, removed, w) && removed <= g0.Keys
    requires t in g0 && t !in removed && IsExpired(Gen(g0, t), w)
    requires StrictChain(g0, t, w) <= removed
    ensures GraphValid(Prune(g0, g0.Keys - removed))
    ensures ExpiredChain(Prune(g0, g0.Keys - removed), t, w) == {t}
    ensures UpClosed(g0, removed + {t}, w)
  {
    ChainUnderPrune(g0, removed, t, w);
    assert ExpiredChain(g0, t, w) == {t} + StrictChain(g0, t, w);
    forall y | y in removed + {t} && y in g0 && g0[y].selfParent.Some?
      ensures g0[y].selfParent.value in g0
      ensures IsExpired(Gen(g0, g0[y].selfParent.value), w) ==> g0[y].selfParent.value in removed + {t}
    {
      assert LinkOk(g0, y, g0[y].selfParent, g0[y].event.selfParent);
      if y == t && IsExpired(Gen(g0, g0[y].selfParent.value), w) {
        assert g0[y].selfParent.value in StrictChain(g0, t, w);
      }
    }
  }

  /** Removing a part of the keys of a pruned graph is one prune of the original. */
  lemma PruneMore(g0: Graph, removed: set<Hash>, more: set<Hash>)
    requires more <= g0.Keys - removed
    ensures Prune(Prune(g0, g0.Keys - removed), Prune(g0, g0.Keys - removed).Keys - more)
      == Prune(g0, g0.Keys - (removed + more))
    ensures |Prune(g0, g0.Keys - (removed + more)).Keys| == |Prune(g0, g0.Keys - removed).Keys| - |more|
  {
    var g := Prune(g0, g0.Keys - removed);
    assert g.Keys == g0.Keys - removed;
    PruneTwice(g0, g0.Keys - removed, g.Keys - more);
    assert (g0.Keys - removed) * (g.Keys - more) == g0.Keys - (removed + more);
    assert Prune(g0, g0.Keys - (removed + more)).Keys == g.Keys - more;
    DiffCard(g.Keys, more);
  }

  /** The elements of a sequence of hashes. */
  ghost function Elems(s: seq<Hash>): set<Hash> {
    set k | k in s
  }

  lemma StrictChainsSnoc(g0: Graph, ts: seq<Hash>, i: nat, w: int)
    requires GraphValid(g0) && 0 <= i < |ts|
    ensures StrictChains(g0, ts[..i + 1], w) == StrictChains(g0, ts[..i], w) + StrictChain(g0, ts[i], w)
  {
    assert ts[..i + 1][..i] == ts[..i];
  }

  /**
   * A step of the first pass: after removing the up-closed set removed, the strict walk
   * from tip t takes the graph to the one without removed + StrictChain(g0, t, w).
   */
  lemma StrictWalkStep(g0: Graph, removed: set<Hash>, t: Hash, w: int)
    requires GraphValid(g0) && UpClosed(g0, removed, w) && removed <= g0.Keys
    requires t in g0 && t !in removed
    ensures GraphValid(Prune(g0, g0.Keys - removed))
    ensures t in Prune(g0, g0.Keys - removed)
    ensures Gen(Prune(g0, g0.Keys - removed), t) == Gen(g0, t)
    ensures var g := Prune(g0, g0.Keys - removed);
      var more := StrictChain(g, t, w);
      && Prune(g, g.Keys - more) == Prune(g0, g0.Keys - (removed + StrictChain(g0, t, w)))
      && |Prune(g0, g0.Keys - (removed + StrictChain(g0, t, w))).Keys| == |g.Keys| - |more|
  {
    StrictStep(g0, removed, t, w);
    var g := Prune(g0, g0.Keys - removed);
    var more := StrictChain(g, t, w);
    UnionDiff(removed, StrictChain(g0, t, w));
    PruneMore(g0, removed, more);
  }

  lemma UnionDiff<T>(a: set<T>, b: set<T>)
    ensures a + (b - a) == a + b
  {
  }

  /** A step of the first pass, visiting the tips in the order ts. */
  lemma FirstPassStep(g0: Graph, ts: seq<Hash>, i: nat, w: int)
    requires GraphValid(g0) && i < |ts| && ts[i] in TipsOf(g0)
    ensures GraphValid(Prune(g0, g0.Keys - StrictChains(g0, ts[..i], w)))
    ensures ts[i] in Prune(g0, g0.Keys - StrictChains(g0, ts[..i], w))
    ensures Gen(Prune(g0, g0.Keys - StrictChains(g0, ts[..i], w)), ts[i]) == Gen(g0, ts[i])
    ensures var g := Prune(g0, g0.Keys - StrictChains(g0, ts[..i], w));
      var more := StrictChain(g, ts[i], w);
      && Prune(g, g.Keys - more) == Prune(g0, g0.Keys - StrictChains(g0, ts[..i + 1], w))
      && |Prune(g0, g0.Keys - StrictChains(g0, ts[..i + 1], w)).Keys| == |g.Keys| - |more|
  {
    StrictChainsFacts(g0, ts[..i], w);
    StrictWalkStep(g0, StrictChains(g0, ts[..i], w), ts[i], w);
    StrictChainsSnoc(g0, ts, i, w);
  }

  /** The set removed by the time the second pass reaches index j of ks. */
  ghost function SweptSoFar(g0: Graph, ks: seq<Hash>, j: nat, w: int): set<Hash>
    requires GraphValid(g0) && j <= |ks|
  {
    StrictChains(g0, ks, w) + ExpiredTips(g0, Elems(ks[..j]), w)
  }

  /**
   * A step of the second pass: after removing the up-closed set removed, which holds the
   * strict chain of the expired tip t but not t, the walk from t removes t alone.
   */
  lemma SecondPassStep(g0: Graph, removed: set<Hash>, t: Hash, w: int)
    requires GraphValid(g0) && UpClosed(g0, removed, w) && removed <= g0.Keys
    requires t in g0 && t !in removed && IsExpired(Gen(g0, t), w)
    requires StrictChain(g0, t, w) <= removed
    ensures GraphValid(Prune(g0, g0.Keys - removed))
    ensures ExpiredChain(Prune(g0, g0.Keys - removed), t, w) == {t}
    ensures var g := Prune(g0, g0.Keys - removed);
      && Prune(g, g.Keys - {t}) == Prune(g0, g0.Keys - (removed + {t}))
      && |Prune(g0, g0.Keys - (removed + {t})).Keys| == |g.Keys| - 1
    ensures UpClosed(g0, removed + {t}, w)
  {
    TipStep(g0, removed, t, w);
    PruneMore(g0, removed, {t});
  }

  /** The second pass's bookkeeping: index j of ks adds ks[j] when it is expired. */
  lemma SweptSoFarSnoc(g0: Graph, ks: seq<Hash>, j: nat, w: int)
    requires GraphValid(g0) && 0 <= j < |ks| && ks[j] in g0
    ensures SweptSoFar(g0, ks, j + 1, w) ==
      SweptSoFar(g0, ks, j, w) + (if IsExpired(Gen(g0, ks[j]), w) then {ks[j]} else {})
  {
    assert ks[..j + 1] == ks[..j] + [ks[j]];
    assert Elems(ks[..j + 1]) == Elems(ks[..j]) + {ks[j]};
  }

  /**
   * The state of the first pass after visiting ts[..i]: the strict chains of those tips
   * are gone, count removals have been made, and tipRemove records which tips are expired.
   */
  ghost predicate FirstPassState(g0: Graph, ts: seq<Hash>, i: nat, w: int,
                                 g: Graph, count: int, tipRemove: map<Hash, bool>)
    requires GraphValid(g0)
  {
    && i <= |ts|
    && g == Prune(g0, g0.Keys - StrictChains(g0, ts[..i], w))
    && count == |g0.Keys| - |g.Keys|
    && tipRemove.Keys == Elems(ts[..i])
    && MarksExpiry(g0, tipRemove, w)
  }

  lemma FirstPassStart(g0: Graph, ts: seq<Hash>, w: int)
    requires GraphValid(g0)
    ensures FirstPassState(g0, ts, 0, w, g0, 0, map[])
  {
    PruneNothing(g0);
    assert ts[..0] == [];
    assert g0.Keys - {} == g0.Keys;
    assert Elems([]) == {};
  }

  /** The first pass records, for each tip it visits, whether the tip is expired. */
  ghost predicate MarksExpiry(g0: Graph, marks: map<Hash, bool>, w: int) {
    forall t :: t in marks ==> t in g0 && marks[t] == IsExpired(Gen(g0, t), w)
  }

  lemma MarkStep(g0: Graph, ts: seq<Hash>, i: nat, w: int, marks: map<Hash, bool>, gen: int)
    requires i < |ts| && ts[i] in g0 && gen == Gen(g0, ts[i])
    requires marks.Keys == Elems(ts[..i]) && MarksExpiry(g0, marks, w)
    ensures marks[ts[i] := IsExpired(gen, w)].Keys == Elems(ts[..i + 1])
    ensures MarksExpiry(g0, marks[ts[i] := IsExpired(gen, w)], w)
  {
    ElemsSnoc(ts, i);
  }

  lemma FirstPassAdvance(g0: Graph, ts: seq<Hash>, i: nat, w: int,
                         g: Graph, count: int, tipRemove: map<Hash, bool>)
    requires GraphValid(g0) && FirstPassState(g0, ts, i, w, g, count, tipRemove)
    requires i < |ts| && ts[i] in TipsOf(g0)
    ensures GraphValid(g) && ts[i] in g
    ensures var r := RemoveStrictSelfAncestry(g, ts[i], w);
      FirstPassState(g0, ts, i + 1, w, r.0, count + r.1,
        tipRemove[ts[i] := IsExpired(g[ts[i]].event.generation, w)])
  {
    var t := ts[i];
    FirstPassStep(g0, ts, i, w);
    var r := RemoveStrictSelfAncestry(g, t, w);
    assert r.0 == Prune(g0, g0.Keys - StrictChains(g0, ts[..i + 1], w));
    assert count + r.1 == |g0.Keys| - |r.0.Keys|;
    MarkStep(g0, ts, i, w, tipRemove, g[t].event.generation);
  }

  /**
   * The state of the second pass after visiting ks[..j]: the expired tips among them are
   * gone as well, and dropped from the remaining tips.
   */
  ghost predicate SecondPassState(g0: Graph, ks: seq<Hash>, j: nat, w: int,
                                  g: Graph, count: int, remaining: set<Hash>)
    requires GraphValid(g0)
  {
    && j <= |ks|
    && g == Prune(g0, g0.Keys - SweptSoFar(g0, ks, j, w))
    && remaining == Elems(ks) - ExpiredTips(g0, Elems(ks[..j]), w)
    && UpClosed(g0, SweptSoFar(g0, ks, j, w), w)
    && count == |g0.Keys| - |g.Keys|
  }

  lemma SecondPassStart(g0: Graph, ks: seq<Hash>, w: int, g: Graph, count: int, tipRemove: map<Hash, bool>)
    requires GraphValid(g0)
    requires FirstPassState(g0, ks, |ks|, w, g, count, tipRemove)
    ensures tipRemove.Keys == Elems(ks)
    ensures SecondPassState(g0, ks, 0, w, g, count, Elems(ks))
  {
    assert ks[..|ks|] == ks;
    StrictChainsFacts(g0, ks, w);
    assert Elems(ks[..0]) == {};
    assert ExpiredTips(g0, {}, w) == {};
    assert SweptSoFar(g0, ks, 0, w) == StrictChains(g0, ks, w);
    NothingTaken(Elems(ks));
  }

  /** The hashes of a prefix grow by one element per index. */
  lemma ElemsSnoc(ks: seq<Hash>, j: nat)
    requires j < |ks|
    ensures Elems(ks[..j + 1]) == Elems(ks[..j]) + {ks[j]}
  {
    assert ks[..j + 1] == ks[..j] + [ks[j]];
  }

  /** A tip visited by the second pass is a shadow of the original graph. */
  lemma TipVisited(g0: Graph, ks: seq<Hash>, j: nat, w: int)
    requires GraphValid(g0) && ks == Ordered(TipsOf(g0)) && j < |ks|
    ensures ks[j] in TipsOf(g0) && ks[j] in g0 && ks[j] in Elems(ks)
    ensures ks[j] !in ks[..j]
    ensures ks[j] !in StrictChains(g0, ks, w)
  {
    assert ks[j] in ks;
    OrderedAscending(TipsOf(g0));
    StrictChainsFacts(g0, ks, w);
  }

  /**
   * What the second pass knows of each tip it visits: it is a shadow, it was not visited
   * before, the first pass left it in place, and its flag records whether it is expired.
   */
  ghost predicate Visitable(g0: Graph, ks: seq<Hash>, w: int, tipRemove: map<Hash, bool>)
    requires GraphValid(g0)
  {
    forall j :: 0 <= j < |ks| ==>
      && ks[j] in g0 && ks[j] !in ks[..j] && ks[j] !in StrictChains(g0, ks, w)
      && ks[j] in tipRemove && tipRemove[ks[j]] == IsExpired(Gen(g0, ks[j]), w)
  }

  lemma AllVisitable(g0: Graph, ks: seq<Hash>, w: int, tipRemove: map<Hash, bool>)
    requires GraphValid(g0) && ks == Ordered(TipsOf(g0))
    requires tipRemove.Keys == Elems(ks) && MarksExpiry(g0, tipRemove, w)
    ensures Visitable(g0, ks, w, tipRemove)
  {
    forall j | 0 <= j < |ks|
      ensures ks[j] in g0 && ks[j] !in ks[..j] && ks[j] !in StrictChains(g0, ks, w)
      ensures ks[j] in tipRemove && tipRemove[ks[j]] == IsExpired(Gen(g0, ks[j]), w)
    {
      TipVisited(g0, ks, j, w);
    }
  }

  /** The second pass passes over a tip that is not expired. */
  lemma SecondPassKeep(g0: Graph, ks: seq<Hash>, j: nat, w: int,
                       g: Graph, count: int, remaining: set<Hash>)
    requires GraphValid(g0)
    requires SecondPassState(g0, ks, j, w, g, count, remaining) && j < |ks|
    requires ks[j] in g0 && !IsExpired(Gen(g0, ks[j]), w)
    ensures SecondPassState(g0, ks, j + 1, w, g, count, remaining)
  {
    PassOver(g0, ks, j, w);
  }

  /** Visiting a tip that is not expired adds nothing to what the second pass has removed. */
  lemma PassOver(g0: Graph, ks: seq<Hash>, j: nat, w: int)
    requires GraphValid(g0) && j < |ks| && ks[j] in g0 && !IsExpired(Gen(g0, ks[j]), w)
    ensures ExpiredTips(g0, Elems(ks[..j + 1]), w) == ExpiredTips(g0, Elems(ks[..j]), w)
    ensures SweptSoFar(g0, ks, j + 1, w) == SweptSoFar(g0, ks, j, w)
  {
    ExpiredTipsSnoc(g0, ks, j, w);
  }

  /** The expired tips among those visited grow by the visited tip when it is expired. */
  lemma ExpiredTipsSnoc(g0: Graph, ks: seq<Hash>, j: nat, w: int)
    requires j < |ks| && ks[j] in g0
    ensures ExpiredTips(g0, Elems(ks[..j + 1]), w) ==
      ExpiredTips(g0, Elems(ks[..j]), w) + (if IsExpired(Gen(g0, ks[j]), w) then {ks[j]} else {})
  {
    ElemsSnoc(ks, j);
  }

  /** The graph part of removing an expired tip in the second pass. */
  lemma DropStep(g0: Graph, ks: seq<Hash>, j: nat, w: int)
    requires GraphValid(g0) && j < |ks| && ks[j] !in ks[..j] && ks[j] !in StrictChains(g0, ks, w)
    requires UpClosed(g0, SweptSoFar(g0, ks, j, w), w)
    requires ks[j] in g0 && IsExpired(Gen(g0, ks[j]), w)
    ensures GraphValid(Prune(g0, g0.Keys - SweptSoFar(g0, ks, j, w)))
    ensures var g := Prune(g0, g0.Keys - SweptSoFar(g0, ks, j, w));
      var r := RemoveSelfAncestry(g, ks[j], w);
      && r.0 == Prune(g0, g0.Keys - SweptSoFar(g0, ks, j + 1, w))
      && |r.0.Keys| == |g.Keys| - r.1
    ensures UpClosed(g0, SweptSoFar(g0, ks, j + 1, w), w)
  {
    var t := ks[j];
    var removed := SweptSoFar(g0, ks, j, w);
    SweptSoFarSnoc(g0, ks, j, w);
    ElemsSnoc(ks, j);
    assert t !in Elems(ks[..j]);
    StrictChainsFacts(g0, ks, w);
    StrictChainIncluded(g0, ks, j, w);
    SecondPassStep(g0, removed, t, w);
  }

  /** The second pass removes an expired tip, and with it nothing else. */
  lemma SecondPassDrop(g0: Graph, ks: seq<Hash>, j: nat, w: int,
                       g: Graph, count: int, remaining: set<Hash>)
    requires GraphValid(g0)
    requires SecondPassState(g0, ks, j, w, g, count, remaining) && j < |ks|
    requires ks[j] in g0 && ks[j] !in StrictChains(g0, ks, w) && ks[j] !in ks[..j] && IsExpired(Gen(g0, ks[j]), w)
    ensures GraphValid(g)
    ensures var r := RemoveSelfAncestry(g, ks[j], w);
      SecondPassState(g0, ks, j + 1, w, r.0, count + r.1, remaining - {ks[j]})
  {
    DropStep(g0, ks, j, w);
    ExpiredTipsSnoc(g0, ks, j, w);
  }

  /** After the last tip, the second pass has removed exactly the swept shadows. */
  lemma SweptAtEnd(g0: Graph, ks: seq<Hash>, tips: set<Hash>, w: int)
    requires GraphValid(g0) && ks == Ordered(tips)
    ensures SweptSoFar(g0, ks, |ks|, w) == Swept(g0, tips, w)
  {
    assert ks[..|ks|] == ks;
    ElemsOrdered(tips);
  }

  /** The swept shadows are present and expired, and the only tips among them are the expired ones. */
  lemma SweptFacts(g0: Graph, tips: set<Hash>, w: int)
    requires GraphValid(g0)
    ensures Swept(g0, tips, w) <= g0.Keys
    ensures forall y :: y in Swept(g0, tips, w) ==> IsExpired(Gen(g0, y), w)
  {
    StrictChainsFacts(g0, Ordered(tips), w);
  }

  /** The only tips among the swept shadows are the expired tips. */
  lemma SweptTips(g0: Graph, w: int)
    requires GraphValid(g0)
    ensures TipsOf(g0) - Swept(g0, TipsOf(g0), w) == TipsOf(g0) - ExpiredTips(g0, TipsOf(g0), w)
  {
    var tips := TipsOf(g0);
    StrictChainsFacts(g0, Ordered(tips), w);
    DiffDisjointUnion(tips, StrictChains(g0, Ordered(tips), w), ExpiredTips(g0, tips, w));
  }

  lemma NothingTaken<T>(t: set<T>)
    ensures t - {} == t
  {
  }

  /** Taking away a set that misses t takes nothing away from t. */
  lemma DiffDisjointUnion<T>(t: set<T>, a: set<T>, b: set<T>)
    requires forall y :: y in a ==> y !in t
    ensures t - (a + b) == t - b
  {
  }

  /** Ordered lists exactly the elements of its set. */
  lemma ElemsOrdered(s: set<Hash>)
    ensures Elems(Ordered(s)) == s
  {
  }

  /** The end of the sweep: the graph the two passes leave is the specified one. */
  lemma SweepDone(g0: Graph, ks: seq<Hash>, tips: set<Hash>, w: int, g: Graph, count: int, remaining: set<Hash>)
    requires GraphValid(g0) && ks == Ordered(tips)
    requires SecondPassState(g0, ks, |ks|, w, g, count, remaining)
    ensures g == Prune(g0, g0.Keys - Swept(g0, tips, w))
    ensures UpClosed(g0, Swept(g0, tips, w), w)
    ensures count == |Swept(g0, tips, w)| == |g0.Keys| - |g.Keys|
  {
    var swept := Swept(g0, tips, w);
    SweptAtEnd(g0, ks, tips, w);
    SweptFacts(g0, tips, w);
    assert g.Keys == g0.Keys - swept;
    DiffCard(g0.Keys, swept);
  }

  /** The end of the sweep: the tips left are the tips that are not expired. */
  lemma SweepRemaining(g0: Graph, ks: seq<Hash>, tips: set<Hash>, w: int, remaining: set<Hash>)
    requires ks == Ordered(tips)
    requires remaining == Elems(ks) - ExpiredTips(g0, Elems(ks[..|ks|]), w)
    ensures remaining == tips - ExpiredTips(g0, tips, w)
  {
    assert ks[..|ks|] == ks;
    ElemsOrdered(tips);
  }

  /** The end of the sweep: the remaining tips are the tips of the swept graph. */
  lemma SweepTips(g0: Graph, w: int, g: Graph, remaining: set<Hash>)
    requires GraphValid(g0) && UpClosed(g0, Swept(g0, TipsOf(g0), w), w)
    requires g == Prune(g0, g0.Keys - Swept(g0, TipsOf(g0), w))
    requires remaining == TipsOf(g0) - ExpiredTips(g0, TipsOf(g0), w)
    ensures GraphValid(g) && remaining == TipsOf(g)
    ensures forall t :: t in TipsOf(g0) ==> (t in remaining <==> !IsExpired(Gen(g0, t), w))
  {
    var swept := Swept(g0, TipsOf(g0), w);
    SweptFacts(g0, TipsOf(g0), w);
    SweptTips(g0, w);
    PruneKeepsValid(g0, g0.Keys - swept);
    TipsAfterRemoval(g0, swept, w);
  }

  /** The tips among the hashes of s, gathered in the order of s. */
  ghost function TipsIn(g: Graph, s: seq<Hash>): set<Hash> {
    if s == [] then {}
    else TipsIn(g, s[..|s| - 1]) + (if s[|s| - 1] in g && SelfChildren(g, s[|s| - 1]) == {} then {s[|s| - 1]} else {})
  }

  lemma TipsInSnoc(g: Graph, s: seq<Hash>, i: nat)
    requires i < |s| && s[i] in g
    ensures TipsIn(g, s[..i + 1]) == TipsIn(g, s[..i]) + (if SelfChildren(g, s[i]) == {} then {s[i]} else {})
  {
    assert s[..i + 1][..i] == s[..i];
  }

  /** Gathering over a sequence finds exactly the tips that the sequence lists. */
  lemma {:induction false} TipsInIsTips(g: Graph, s: seq<Hash>)
    ensures TipsIn(g, s) == TipsOf(g) * Elems(s)
  {
    if s != [] {
      var init := s[..|s| - 1];
      TipsInIsTips(g, init);
      assert s == init + [s[|s| - 1]];
      assert Elems(s) == Elems(init) + {s[|s| - 1]};
    }
  }

  /** Scanning every shadow of the graph finds all its tips. */
  lemma ScanComplete(g: Graph)
    ensures TipsIn(g, Ordered(g.Keys)) == TipsOf(g)
  {
    TipsInIsTips(g, Ordered(g.Keys));
    ElemsOrdered(g.Keys);
  }

  // ---------------------------------------------------------------------------------
  // The per-sync session record
  // ---------------------------------------------------------------------------------

  /** The loop of SyncShadowGraphManager.identifyTips(): every shadow without a self-child is a tip. */
  method ScanTips(g: Graph) returns (found: set<Hash>)
    ensures found == TipsOf(g)
  {
    found := {};
    var shadows := Ordered(g.Keys);
    var i := 0;
    ElemsOrdered(g.Keys);
    while i < |shadows|
      invariant 0 <= i <= |shadows|
      invariant found == TipsIn(g, shadows[..i])
    {
      var h := shadows[i];
      TipsInSnoc(g, shadows, i);
      if SelfChildren(g, h) == {} {
        found := found + {h};
      }
      i := i + 1;
    }
    assert shadows[..i] == shadows;
    ScanComplete(g);
  }

  /**
   * The two passes of SyncShadowGraphManager.expire() over a graph and its tips: first the
   * strict expired self-ancestry of every tip, then every expired tip itself. The tips are
   * visited in the order Ordered gives; tipRemove records each tip's expiry, as the source's
   * map from tip to flag does.
   */
  method SweepExpired(g0: Graph, tips0: set<Hash>, w: int) returns (g: Graph, remaining: set<Hash>, count: int)
    requires GraphValid(g0) && tips0 == TipsOf(g0)
    ensures GraphValid(g) && remaining == TipsOf(g)
    ensures g == Prune(g0, g0.Keys - Swept(g0, tips0, w))
    ensures remaining == tips0 - ExpiredTips(g0, tips0, w)
    ensures forall t :: t in tips0 ==> (t in remaining <==> !IsExpired(Gen(g0, t), w))
    ensures count == |Swept(g0, tips0, w)| == |g0.Keys| - |g.Keys|
  {
    var ts := Ordered(tips0);
    var tipRemove;
    g, count, tipRemove := StrictAncestrySweep(g0, ts, w);
    SecondPassStart(g0, ts, w, g, count, tipRemove);
    ElemsOrdered(tips0);
    var ks := Ordered(tipRemove.Keys);
    assert ks == ts;
    AllVisitable(g0, ks, w, tipRemove);
    g, count, remaining := ExpiredTipSweep(g0, ks, w, g, count, tipRemove, tips0);
    SweepDone(g0, ks, tips0, w, g, count, remaining);
    SweepRemaining(g0, ks, tips0, w, remaining);
    SweepTips(g0, w, g, remaining);
  }

  /** The first pass: the strict self-ancestry of every tip, in the order ts. */
  method StrictAncestrySweep(g0: Graph, ts: seq<Hash>, w: int)
    returns (g: Graph, count: int, tipRemove: map<Hash, bool>)
    requires GraphValid(g0) && ts == Ordered(TipsOf(g0))
    ensures FirstPassState(g0, ts, |ts|, w, g, count, tipRemove)
  {
    g := g0;
    tipRemove := map[];
    count := 0;
    var i := 0;
    FirstPassStart(g0, ts, w);
    while i < |ts|
      invariant FirstPassState(g0, ts, i, w, g, count, tipRemove)
    {
      var t := ts[i];
      TipVisited(g0, ts, i, w);
      FirstPassAdvance(g0, ts, i, w, g, count, tipRemove);
      var (g1, n) := RemoveStrictSelfAncestry(g, t, w);
      tipRemove := tipRemove[t := IsExpired(g[t].event.generation, w)];
      g := g1;
      count := count + n;
      i := i + 1;
    }
  }

  /**
   * One step of the second pass: a tip flagged as expired is removed, with its expired
   * self-ancestry, from the graph and from the tips; any other tip is left alone.
   */
  method VisitTip(g0: Graph, ks: seq<Hash>, j: nat, w: int, g: Graph, count: int, remaining: set<Hash>, expired: bool)
    returns (g': Graph, count': int, remaining': set<Hash>)
    requires GraphValid(g0)
    requires SecondPassState(g0, ks, j, w, g, count, remaining) && j < |ks|
    requires ks[j] in g0 && ks[j] !in StrictChains(g0, ks, w) && ks[j] !in ks[..j]
    requires expired == IsExpired(Gen(g0, ks[j]), w)
    ensures SecondPassState(g0, ks, j + 1, w, g', count', remaining')
  {
    if expired {
      SecondPassDrop(g0, ks, j, w, g, count, remaining);
      var r := RemoveSelfAncestry(g, ks[j], w);
      g', count', remaining' := r.0, count + r.1, remaining - {ks[j]};
    } else {
      SecondPassKeep(g0, ks, j, w, g, count, remaining);
      g', count', remaining' := g, count, remaining;
    }
  }

  /** The second pass: every tip whose recorded flag says expired is removed. */
  method ExpiredTipSweep(g0: Graph, ks: seq<Hash>, w: int, g1: Graph, count1: int,
                         tipRemove: map<Hash, bool>, tips0: set<Hash>)
    returns (g: Graph, count: int, remaining: set<Hash>)
    requires GraphValid(g0) && Visitable(g0, ks, w, tipRemove)
    requires SecondPassState(g0, ks, 0, w, g1, count1, tips0)
    ensures SecondPassState(g0, ks, |ks|, w, g, count, remaining)
  {
    g, count, remaining := g1, count1, tips0;
    var j := 0;
    while j < |ks|
      invariant SecondPassState(g0, ks, j, w, g, count, remaining)
    {
      g, count, remaining := VisitTip(g0, ks, j, w, g, count, remaining, tipRemove[ks[j]]);
      j := j + 1;
    }
  }

  // ---------------------------------------------------------------------------------
  // Phase 1: the self-descendants of the tips the peer already has
  // ---------------------------------------------------------------------------------

  /** The shadows of generation at least gen; a measure for walks forward to self-children. */
  ghost function AtLeast(g: Graph, gen: int): set<Hash> {
    set h | h in g && Gen(g, h) >= gen
  }

  lemma AtLeastShrinks(g: Graph, p: Hash, c: Hash)
    requires GraphValid(g) && p in g && c in SelfChildren(g, p)
    ensures |AtLeast(g, Gen(g, c))| < |AtLeast(g, Gen(g, p))|
  {
    assert LinkOk(g, c, g[c].selfParent, g[c].event.selfParent);
    assert p in AtLeast(g, Gen(g, p)) - AtLeast(g, Gen(g, c));
    assert AtLeast(g, Gen(g, c)) <= AtLeast(g, Gen(g, p));
    StrictSubsetCard(AtLeast(g, Gen(g, c)), AtLeast(g, Gen(g, p)));
  }

  /**
   * x is a self-descendant of y: walking back from x along self-parent links reaches y.
   * Every shadow is a self-descendant of itself.
   */
  ghost predicate SelfDescends(g: Graph, y: Hash, x: Hash)
    requires GraphValid(g)
    decreases if x in g then |Older(g, Gen(g, x))| else 0
  {
    x in g &&
    (x == y ||
      match g[x].selfParent
      case None => false
      case Some(p) =>
        assert LinkOk(g, x, g[x].selfParent, g[x].event.selfParent);
        OlderShrinks(g, p, x);
        SelfDescends(g, y, p))
  }

  /** The hashes of the events in a list. */
  ghost function HashesOf(s: seq<Event>): set<Hash> {
    set e | e in s :: e.hash
  }

  lemma HashesOfAppend(a: seq<Event>, b: seq<Event>)
    ensures HashesOf(a + b) == HashesOf(a) + HashesOf(b)
  {
    assert forall e :: e in a + b <==> e in a || e in b;
  }

  /**
   * The events processSelfDescendants appends for y: y's own event, then the
   * self-descendants of each of y's self-children in turn.
   */
  ghost function SelfDescendantList(g: Graph, y: Hash): seq<Event>
    requires GraphValid(g) && y in g
    decreases |AtLeast(g, Gen(g, y))|, 2, 0
  {
    [g[y].event] + StrictDescendantList(g, y)
  }

  /** The events processStrictSelfDescendants appends for x. */
  ghost function StrictDescendantList(g: Graph, x: Hash): seq<Event>
    requires GraphValid(g) && x in g
    decreases |AtLeast(g, Gen(g, x))|, 1, 0
  {
    ChildrenLists(g, x, Ordered(SelfChildren(g, x)))
  }

  /** The self-descendant lists of the self-children cs of p, one after another. */
  ghost function ChildrenLists(g: Graph, p: Hash, cs: seq<Hash>): seq<Event>
    requires GraphValid(g) && p in g
    requires forall c :: c in cs ==> c in SelfChildren(g, p)
    decreases |AtLeast(g, Gen(g, p))|, 0, |cs|
  {
    if cs == [] then []
    else
      var c := cs[|cs| - 1];
      AtLeastShrinks(g, p, c);
      ChildrenLists(g, p, cs[..|cs| - 1]) + SelfDescendantList(g, c)
  }

  /** A self-descendant of a self-child of p is a self-descendant of p, and younger than p. */
  lemma {:induction false} DescendsThroughChild(g: Graph, p: Hash, c: Hash, x: Hash)
    requires GraphValid(g) && p in g && c in SelfChildren(g, p) && SelfDescends(g, c, x)
    ensures SelfDescends(g, p, x) && Gen(g, p) < Gen(g, x)
    decreases |Older(g, Gen(g, x))|
  {
    assert LinkOk(g, x, g[x].selfParent, g[x].event.selfParent);
    if x != c {
      var q := g[x].selfParent.value;
      OlderShrinks(g, q, x);
      DescendsThroughChild(g, p, c, q);
    }
  }

  /** Only a present shadow has self-descendants. */
  lemma {:induction false} DescendsFromPresent(g: Graph, y: Hash, x: Hash)
    requires GraphValid(g) && SelfDescends(g, y, x)
    ensures y in g
    decreases |Older(g, Gen(g, x))|
  {
    if x != y {
      var q := g[x].selfParent.value;
      assert LinkOk(g, x, g[x].selfParent, g[x].event.selfParent);
      OlderShrinks(g, q, x);
      DescendsFromPresent(g, y, q);
    }
  }

  /** A strict self-descendant of y lies below one of y's self-children. */
  lemma {:induction false} ChildOnPath(g: Graph, y: Hash, x: Hash) returns (c: Hash)
    requires GraphValid(g) && SelfDescends(g, y, x) && x != y
    ensures c in SelfChildren(g, y) && SelfDescends(g, c, x)
    decreases |Older(g, Gen(g, x))|
  {
    var q := g[x].selfParent.value;
    if q == y {
      c := x;
    } else {
      assert LinkOk(g, x, g[x].selfParent, g[x].event.selfParent);
      OlderShrinks(g, q, x);
      c := ChildOnPath(g, y, q);
    }
  }

  /** Everything a self-descendant list holds is a stored self-descendant of its start. */
  lemma {:induction false} ListSound(g: Graph, y: Hash)
    requires GraphValid(g) && y in g
    ensures forall e :: e in SelfDescendantList(g, y) ==>
      e.hash in g && g[e.hash].event == e && SelfDescends(g, y, e.hash)
    decreases |AtLeast(g, Gen(g, y))|, 2, 0
  {
    ChildrenSound(g, y, Ordered(SelfChildren(g, y)));
  }

  lemma {:induction false} ChildrenSound(g: Graph, p: Hash, cs: seq<Hash>)
    requires GraphValid(g) && p in g
    requires forall c :: c in cs ==> c in SelfChildren(g, p)
    ensures forall e :: e in ChildrenLists(g, p, cs) ==>
      e.hash in g && g[e.hash].event == e && SelfDescends(g, p, e.hash) && Gen(g, p) < Gen(g, e.hash)
    decreases |AtLeast(g, Gen(g, p))|, 0, |cs|
  {
    if cs != [] {
      var c := cs[|cs| - 1];
      AtLeastShrinks(g, p, c);
      ChildrenSound(g, p, cs[..|cs| - 1]);
      ListSound(g, c);
      forall e | e in SelfDescendantList(g, c)
        ensures SelfDescends(g, p, e.hash) && Gen(g, p) < Gen(g, e.hash)
      {
        DescendsThroughChild(g, p, c, e.hash);
      }
    }
  }

  lemma {:induction false} InChildrenLists(g: Graph, p: Hash, cs: seq<Hash>, c: Hash, e: Event)
    requires GraphValid(g) && p in g
    requires forall c :: c in cs ==> c in SelfChildren(g, p)
    requires c in cs && c in g && e in SelfDescendantList(g, c)
    ensures e in ChildrenLists(g, p, cs)
    decreases |cs|
  {
    if c != cs[|cs| - 1] {
      assert c in cs[..|cs| - 1];
      InChildrenLists(g, p, cs[..|cs| - 1], c, e);
    }
  }

  /** Every self-descendant of y appears in y's self-descendant list. */
  lemma {:induction false} ListComplete(g: Graph, y: Hash, x: Hash)
    requires GraphValid(g) && y in g && SelfDescends(g, y, x)
    ensures g[x].event in SelfDescendantList(g, y)
    decreases |AtLeast(g, Gen(g, y))|
  {
    if x != y {
      var c := ChildOnPath(g, y, x);
      AtLeastShrinks(g, y, c);
      ListComplete(g, c, x);
      InChildrenLists(g, y, Ordered(SelfChildren(g, y)), c, g[x].event);
    }
  }

  /**
   * processStrictSelfDescendants appends the events of exactly the strict
   * self-descendants of x, each stored under its own hash.
   */
  lemma StrictListExact(g: Graph, x0: Hash)
    requires GraphValid(g) && x0 in g
    ensures forall e :: e in StrictDescendantList(g, x0) ==> e.hash in g && g[e.hash].event == e
    ensures forall x :: x in g ==>
      (g[x].event in StrictDescendantList(g, x0) <==> x != x0 && SelfDescends(g, x0, x))
  {
    ChildrenSound(g, x0, Ordered(SelfChildren(g, x0)));
    forall x | x in g && x != x0 && SelfDescends(g, x0, x)
      ensures g[x].event in StrictDescendantList(g, x0)
    {
      ListComplete(g, x0, x);
      assert g[x].event != g[x0].event;
    }
  }

  /** The shadows that processing a received tip y removes from the working tips. */
  ghost function CoveredBy(g: Graph, y: Hash): set<Hash>
    requires GraphValid(g)
  {
    set x | x in g && SelfDescends(g, y, x)
  }

  lemma StrictCovered(g: Graph, y: Hash)
    requires GraphValid(g) && y in g
    ensures HashesOf(StrictDescendantList(g, y)) + {y} == CoveredBy(g, y)
  {
    StrictListExact(g, y);
    forall x | x in CoveredBy(g, y) && x != y
      ensures x in HashesOf(StrictDescendantList(g, y))
    {
      assert g[x].event in StrictDescendantList(g, y);
    }
  }

  /** What processStrictSelfDescendants has done after the first i self-children cs of p. */
  ghost predicate ChildrenSoFar(g: Graph, p: Hash, cs: seq<Hash>, i: nat, send0: seq<Event>, working0: set<Hash>,
                                send: seq<Event>, working: set<Hash>)
    requires GraphValid(g) && p in g
    requires forall c :: c in cs ==> c in SelfChildren(g, p)
  {
    && i <= |cs|
    && send == send0 + ChildrenLists(g, p, cs[..i])
    && working == working0 - HashesOf(ChildrenLists(g, p, cs[..i]))
  }

  lemma ChildrenAdvance(g: Graph, p: Hash, cs: seq<Hash>, i: nat, send0: seq<Event>, working0: set<Hash>,
                        send: seq<Event>, working: set<Hash>, send': seq<Event>, working': set<Hash>)
    requires GraphValid(g) && p in g && i < |cs| && cs[i] in g
    requires forall c :: c in cs ==> c in SelfChildren(g, p)
    requires ChildrenSoFar(g, p, cs, i, send0, working0, send, working)
    requires send' == send + SelfDescendantList(g, cs[i])
    requires working' == working - HashesOf(SelfDescendantList(g, cs[i]))
    ensures ChildrenSoFar(g, p, cs, i + 1, send0, working0, send', working')
  {
    assert cs[..i + 1][..i] == cs[..i];
    var a, b := ChildrenLists(g, p, cs[..i]), SelfDescendantList(g, cs[i]);
    assert ChildrenLists(g, p, cs[..i + 1]) == a + b;
    assert send' == send0 + (a + b);
    HashesOfAppend(a, b);
  }

  /** SyncShadowGraphManager.processSelfDescendants. */
  method ProcessSelfDescendants(g: Graph, y: Hash, send: seq<Event>, working: set<Hash>)
    returns (send': seq<Event>, working': set<Hash>)
    requires GraphValid(g) && y in g
    ensures send' == send + SelfDescendantList(g, y)
    ensures working' == working - HashesOf(SelfDescendantList(g, y))
    decreases |AtLeast(g, Gen(g, y))|, 1
  {
    send', working' := ProcessStrictSelfDescendants(g, y, send + [g[y].event], working - {y});
    HashesOfAppend([g[y].event], StrictDescendantList(g, y));
    assert HashesOf([g[y].event]) == {y} by { assert g[y].event in [g[y].event]; }
  }

  /** SyncShadowGraphManager.processStrictSelfDescendants. */
  method ProcessStrictSelfDescendants(g: Graph, x: Hash, send: seq<Event>, working: set<Hash>)
    returns (send': seq<Event>, working': set<Hash>)
    requires GraphValid(g) && x in g
    ensures send' == send + StrictDescendantList(g, x)
    ensures working' == working - HashesOf(StrictDescendantList(g, x))
    decreases |AtLeast(g, Gen(g, x))|, 0
  {
    var cs := Ordered(SelfChildren(g, x));
    send', working' := send, working;
    var i := 0;
    while i < |cs|
      invariant ChildrenSoFar(g, x, cs, i, send, working, send', working')
    {
      AtLeastShrinks(g, x, cs[i]);
      var s', w' := ProcessSelfDescendants(g, cs[i], send', working');
      ChildrenAdvance(g, x, cs, i, send, working, send', working', s', w');
      send', working' := s', w';
      i := i + 1;
    }
    assert cs[..i] == cs;
  }

  /** The events phase 1 appends for the received hashes rs, in the order received. */
  ghost function StrictLists(g: Graph, rs: seq<Hash>): seq<Event>
    requires GraphValid(g)
  {
    if rs == [] then []
    else
      var h := rs[|rs| - 1];
      StrictLists(g, rs[..|rs| - 1]) + (if h in g then StrictDescendantList(g, h) else [])
  }

  /** The shadows phase 1 removes from the working tips for the received hashes rs. */
  ghost function Covered(g: Graph, rs: seq<Hash>): set<Hash>
    requires GraphValid(g)
  {
    if rs == [] then {} else Covered(g, rs[..|rs| - 1]) + CoveredBy(g, rs[|rs| - 1])
  }

  /**
   * Phase 1 appends the events of exactly the strict self-descendants of the received
   * hashes that name a known shadow; a shadow below two received tips is appended twice.
   */
  lemma StrictListsExact(g: Graph, rs: seq<Hash>)
    requires GraphValid(g)
    ensures forall e :: e in StrictLists(g, rs) ==> e.hash in g && g[e.hash].event == e
    ensures forall x :: x in g ==>
      (g[x].event in StrictLists(g, rs) <==> exists i :: 0 <= i < |rs| && rs[i] != x && SelfDescends(g, rs[i], x))
  {
    StrictListsSound(g, rs);
    forall x | x in g
      ensures g[x].event in StrictLists(g, rs) <==> exists i :: 0 <= i < |rs| && rs[i] != x && SelfDescends(g, rs[i], x)
    {
      if g[x].event in StrictLists(g, rs) {
        StrictListsOnly(g, rs, x);
      }
      if exists i :: 0 <= i < |rs| && rs[i] != x && SelfDescends(g, rs[i], x) {
        var i :| 0 <= i < |rs| && rs[i] != x && SelfDescends(g, rs[i], x);
        StrictListsIncludes(g, rs, i, x);
      }
    }
  }

  /** Phase 1 appends only the stored events of known shadows. */
  lemma {:induction false} StrictListsSound(g: Graph, rs: seq<Hash>)
    requires GraphValid(g)
    ensures forall e :: e in StrictLists(g, rs) ==> e.hash in g && g[e.hash].event == e
  {
    if rs != [] {
      var n := |rs| - 1;
      StrictListsSound(g, rs[..n]);
      if rs[n] in g {
        StrictListExact(g, rs[n]);
      }
    }
  }

  /** A strict self-descendant of the i-th received hash is appended in phase 1. */
  lemma {:induction false} StrictListsIncludes(g: Graph, rs: seq<Hash>, i: nat, x: Hash)
    requires GraphValid(g) && x in g
    requires i < |rs| && rs[i] != x && SelfDescends(g, rs[i], x)
    ensures g[x].event in StrictLists(g, rs)
  {
    var n := |rs| - 1;
    if i < n {
      assert rs[..n][i] == rs[i];
      StrictListsIncludes(g, rs[..n], i, x);
    } else {
      DescendsFromPresent(g, rs[n], x);
      StrictListExact(g, rs[n]);
    }
  }

  /** Every shadow whose event phase 1 appends strictly self-descends from a received hash. */
  lemma {:induction false} StrictListsOnly(g: Graph, rs: seq<Hash>, x: Hash)
    requires GraphValid(g) && x in g && g[x].event in StrictLists(g, rs)
    ensures exists i :: 0 <= i < |rs| && rs[i] != x && SelfDescends(g, rs[i], x)
  {
    var n := |rs| - 1;
    if g[x].event in StrictLists(g, rs[..n]) {
      StrictListsOnly(g, rs[..n], x);
      var i :| 0 <= i < n && rs[..n][i] != x && SelfDescends(g, rs[..n][i], x);
      assert rs[i] == rs[..n][i];
    } else {
      StrictListExact(g, rs[n]);
      assert rs[n] != x && SelfDescends(g, rs[n], x);
    }
  }

  /** A shadow leaves the working tips in phase 1 exactly when it self-descends from a received hash. */
  lemma {:induction false} CoveredExact(g: Graph, rs: seq<Hash>)
    requires GraphValid(g)
    ensures forall x :: x in Covered(g, rs) <==> exists i :: 0 <= i < |rs| && SelfDescends(g, rs[i], x)
  {
    if rs != [] {
      var n := |rs| - 1;
      var front := rs[..n];
      CoveredExact(g, front);
      forall x
        ensures x in Covered(g, rs) <==> exists i :: 0 <= i < |rs| && SelfDescends(g, rs[i], x)
      {
        if exists i :: 0 <= i < |rs| && SelfDescends(g, rs[i], x) {
          var i :| 0 <= i < |rs| && SelfDescends(g, rs[i], x);
          if i < n {
            assert front[i] == rs[i];
          }
        }
        if x in Covered(g, front) {
          var i :| 0 <= i < |front| && SelfDescends(g, front[i], x);
          assert rs[i] == front[i];
        }
      }
    }
  }

  /** One received hash: a known shadow is marked for sync and its self-descendants are processed. */
  method ReceiveTip(g: Graph, h: Hash, send: seq<Event>, working: set<Hash>, sync: set<Hash>)
    returns (send': seq<Event>, working': set<Hash>, sync': set<Hash>)
    requires GraphValid(g)
    ensures send' == send + (if h in g then StrictDescendantList(g, h) else [])
    ensures working' == working - CoveredBy(g, h)
    ensures sync' == sync + {h} * g.Keys
  {
    if h in g {
      sync' := sync + {h};
      send', working' := ProcessStrictSelfDescendants(g, h, send, working - {h});
      StrictCovered(g, h);
    } else {
      send', working', sync' := send, working, sync;
      assert CoveredBy(g, h) == {} by {
        forall x | x in CoveredBy(g, h) ensures false { DescendsFromPresent(g, h, x); }
      }
    }
  }

  /** What the loop of setReceivedTipHashes has built after the first i received hashes. */
  ghost predicate ReceivedSoFar(g: Graph, tips: set<Hash>, rs: seq<Hash>, i: nat, send0: seq<Event>, sync0: set<Hash>,
                                send: seq<Event>, working: set<Hash>, sync: set<Hash>)
    requires GraphValid(g)
  {
    && i <= |rs|
    && send == send0 + StrictLists(g, rs[..i])
    && working == tips - Covered(g, rs[..i])
    && sync == sync0 + Elems(rs[..i]) * g.Keys
  }

  lemma ReceiveAdvance(g: Graph, tips: set<Hash>, rs: seq<Hash>, i: nat, send0: seq<Event>, sync0: set<Hash>,
                       send: seq<Event>, working: set<Hash>, sync: set<Hash>,
                       send': seq<Event>, working': set<Hash>, sync': set<Hash>)
    requires GraphValid(g) && i < |rs|
    requires ReceivedSoFar(g, tips, rs, i, send0, sync0, send, working, sync)
    requires send' == send + (if rs[i] in g then StrictDescendantList(g, rs[i]) else [])
    requires working' == working - CoveredBy(g, rs[i])
    requires sync' == sync + {rs[i]} * g.Keys
    ensures ReceivedSoFar(g, tips, rs, i + 1, send0, sync0, send', working', sync')
  {
    assert rs[..i + 1][..i] == rs[..i];
    ElemsSnoc(rs, i);
  }

  /** The loop of setReceivedTipHashes, over the received hashes rs. */
  method ApplyReceivedTips(g: Graph, tips: set<Hash>, rs: seq<Hash>, send0: seq<Event>, sync0: set<Hash>)
    returns (send: seq<Event>, working: set<Hash>, sync: set<Hash>)
    requires GraphValid(g)
    ensures send == send0 + StrictLists(g, rs)
    ensures working == tips - Covered(g, rs)
    ensures sync == sync0 + Elems(rs) * g.Keys
  {
    send, working, sync := send0, tips, sync0;
    assert Elems([]) == {};
    var i := 0;
    while i < |rs|
      invariant ReceivedSoFar(g, tips, rs, i, send0, sync0, send, working, sync)
    {
      var send', working', sync' := ReceiveTip(g, rs[i], send, working, sync);
      ReceiveAdvance(g, tips, rs, i, send0, sync0, send, working, sync, send', working', sync');
      send, working, sync := send', working', sync';
      i := i + 1;
    }
    assert rs[..i] == rs;
  }

  // ---------------------------------------------------------------------------------
  // Phase 2: the tip booleans
  // ---------------------------------------------------------------------------------

  /** The tip hashes at the indices whose received boolean is true (indices past ks excluded). */
  ghost function Flagged(ks: seq<Hash>, bs: seq<bool>): set<Hash> {
    set i | 0 <= i < |bs| && i < |ks| && bs[i] :: ks[i]
  }

  lemma FlaggedSnoc(ks: seq<Hash>, bs: seq<bool>, i: nat)
    requires i < |bs|
    ensures Flagged(ks, bs[..i + 1]) == Flagged(ks, bs[..i]) + (if i < |ks| && bs[i] then {ks[i]} else {})
  {
    var a, b := bs[..i + 1], bs[..i];
    forall h | h in Flagged(ks, a) ensures h in Flagged(ks, b) + (if i < |ks| && bs[i] then {ks[i]} else {}) {
      var j :| 0 <= j < |a| && j < |ks| && a[j] && ks[j] == h;
      if j < i { assert b[j] == a[j]; }
    }
    forall h | h in Flagged(ks, b) ensures h in Flagged(ks, a) {
      var j :| 0 <= j < |b| && j < |ks| && b[j] && ks[j] == h;
      assert a[j] == b[j];
    }
  }

  /** Booleans at indices past the tip list mark nothing. */
  lemma FlaggedBeyond(ks: seq<Hash>, bs: seq<bool>, i: nat)
    requires |ks| <= i <= |bs|
    ensures Flagged(ks, bs[..i]) == Flagged(ks, bs)
  {
    forall h | h in Flagged(ks, bs) ensures h in Flagged(ks, bs[..i]) {
      var j :| 0 <= j < |bs| && j < |ks| && bs[j] && ks[j] == h;
      assert bs[..i][j] == bs[j];
    }
  }

  /**
   * The loop of setReceivedTipBooleans over the local tip hashes ks. A true boolean at
   * an index past ks is the IndexOutOfBoundsException of tipHashes.get(i): the loop stops
   * there, and the marks made for earlier indices stay.
   */
  method ApplyTipBooleans(ks: seq<Hash>, bs: seq<bool>, working0: set<Hash>, sync0: set<Hash>)
    returns (working: set<Hash>, sync: set<Hash>, ok: bool)
    ensures ok <==> forall i :: |ks| <= i < |bs| ==> !bs[i]
    ensures sync == sync0 + Flagged(ks, bs)
    ensures working == working0 - Flagged(ks, bs)
  {
    working, sync, ok := working0, sync0, true;
    var i := 0;
    while i < |bs| && ok
      invariant 0 <= i <= |bs|
      invariant sync == sync0 + Flagged(ks, bs[..i]) && working == working0 - Flagged(ks, bs[..i])
      invariant ok ==> forall j :: |ks| <= j < i ==> !bs[j]
      invariant !ok ==> 0 < i && |ks| <= i - 1 && bs[i - 1]
    {
      FlaggedSnoc(ks, bs, i);
      if bs[i] && i >= |ks| {
        ok := false;
      } else if bs[i] {
        sync := sync + {ks[i]};
        working := working - {ks[i]};
      }
      i := i + 1;
    }
    if ok {
      assert bs[..i] == bs;
    } else {
      FlaggedBeyond(ks, bs, i);
    }
  }

  // ---------------------------------------------------------------------------------
  // Phase 3: the walk back from the working tips
  // ---------------------------------------------------------------------------------

  /** Some graph-descendant of y is marked for sync: the peer already has y. */
  ghost predicate Known(g: Graph, sync: set<Hash>, y: Hash) {
    Descendants(g, y) * sync != {}
  }

  /** What a walk back from a working tip sends, and the search marks after it. */
  datatype WalkResult = WalkResult(sent: seq<Event>, search: set<Hash>)

  /**
   * The walk of finishSendEventList from y back along self-parent links: a shadow with a
   * sync-marked descendant is marked for search; a shadow marked for search ends the
   * walk, any other is sent. A start no longer in the graph sends nothing.
   */
  ghost function Walk(g: Graph, sync: set<Hash>, y: Option<Hash>, search: set<Hash>): WalkResult
    requires GraphValid(g)
    decreases if y.Some? && y.value in g then |Older(g, Gen(g, y.value))| + 1 else 0
  {
    if y.None? || y.value !in g then WalkResult([], search)
    else
      var h := y.value;
      var search' := if Descendants(g, h) * sync != {} then search + {h} else search;
      if h in search' then WalkResult([], search')
      else if g[h].selfParent.None? then WalkResult([g[h].event], search')
      else
        var p := g[h].selfParent.value;
        assert LinkOk(g, h, g[h].selfParent, g[h].event.selfParent);
        OlderShrinks(g, p, h);
        var rest := Walk(g, sync, Some(p), search');
        WalkResult([g[h].event] + rest.sent, rest.search)
  }

  /** The walks from the working tips ts, one after another, sharing the search marks. */
  ghost function WalkAll(g: Graph, sync: set<Hash>, ts: seq<Hash>, search: set<Hash>): WalkResult
    requires GraphValid(g)
  {
    if ts == [] then WalkResult([], search)
    else
      var a := WalkAll(g, sync, ts[..|ts| - 1], search);
      var b := Walk(g, sync, Some(ts[|ts| - 1]), a.search);
      WalkResult(a.sent + b.sent, b.search)
  }

  /** The descendants of a self-descendant of h are descendants of h. */
  lemma {:induction false} DescendantsMono(g: Graph, h: Hash, y: Hash)
    requires GraphValid(g) && SelfDescends(g, h, y)
    ensures Descendants(g, y) <= Descendants(g, h)
    decreases |Older(g, Gen(g, y))|
  {
    if y != h {
      var p := g[y].selfParent.value;
      assert LinkOk(g, y, g[y].selfParent, g[y].event.selfParent);
      OlderShrinks(g, p, y);
      DescendantsMono(g, h, p);
      DescendsFromPresent(g, h, y);
      assert ChildOfAny(g, Descendants(g, h), y);
      ClosureLeast(g, {y}, Descendants(g, h));
    }
  }

  /** A walk sends only stored self-ancestors of its start that have no sync-marked descendant. */
  lemma {:induction false} WalkSound(g: Graph, sync: set<Hash>, y: Option<Hash>, search: set<Hash>)
    requires GraphValid(g)
    ensures forall e :: e in Walk(g, sync, y, search).sent ==>
      && e.hash in g && g[e.hash].event == e && !Known(g, sync, e.hash)
      && y.Some? && SelfDescends(g, e.hash, y.value)
    decreases if y.Some? && y.value in g then |Older(g, Gen(g, y.value))| + 1 else 0
  {
    if y.Some? && y.value in g {
      var h := y.value;
      var search' := if Descendants(g, h) * sync != {} then search + {h} else search;
      if h !in search' && g[h].selfParent.Some? {
        var p := g[h].selfParent.value;
        assert LinkOk(g, h, g[h].selfParent, g[h].event.selfParent);
        OlderShrinks(g, p, h);
        WalkSound(g, sync, Some(p), search');
      }
    }
  }

  /** A walk only adds search marks, and only to shadows with a sync-marked descendant. */
  lemma {:induction false} WalkMarks(g: Graph, sync: set<Hash>, y: Option<Hash>, search: set<Hash>)
    requires GraphValid(g)
    ensures search <= Walk(g, sync, y, search).search
    ensures forall z :: z in Walk(g, sync, y, search).search ==> z in search || Known(g, sync, z)
    decreases if y.Some? && y.value in g then |Older(g, Gen(g, y.value))| + 1 else 0
  {
    if y.Some? && y.value in g {
      var h := y.value;
      var search' := if Descendants(g, h) * sync != {} then search + {h} else search;
      if h !in search' && g[h].selfParent.Some? {
        var p := g[h].selfParent.value;
        assert LinkOk(g, h, g[h].selfParent, g[h].event.selfParent);
        OlderShrinks(g, p, h);
        WalkMarks(g, sync, Some(p), search');
      }
    }
  }

  /**
   * When every search mark sits on a shadow with a sync-marked descendant, a walk from y
   * sends every self-ancestor of y that has no sync-marked descendant.
   */
  lemma {:induction false} WalkComplete(g: Graph, sync: set<Hash>, y: Hash, search: set<Hash>)
    requires GraphValid(g)
    requires forall z :: z in search ==> Known(g, sync, z)
    ensures forall h :: h in g && !Known(g, sync, h) && SelfDescends(g, h, y) ==>
      g[h].event in Walk(g, sync, Some(y), search).sent
    decreases if y in g then |Older(g, Gen(g, y))| + 1 else 0
  {
    if y in g && !Known(g, sync, y) && g[y].selfParent.Some? {
      var p := g[y].selfParent.value;
      assert LinkOk(g, y, g[y].selfParent, g[y].event.selfParent);
      OlderShrinks(g, p, y);
      WalkComplete(g, sync, p, search);
    }
    forall h | h in g && !Known(g, sync, h) && SelfDescends(g, h, y)
      ensures g[h].event in Walk(g, sync, Some(y), search).sent
    {
      DescendantsMono(g, h, y);
    }
  }

  lemma {:induction false} WalkAllSound(g: Graph, sync: set<Hash>, ts: seq<Hash>, search: set<Hash>)
    requires GraphValid(g)
    ensures forall e :: e in WalkAll(g, sync, ts, search).sent ==>
      && e.hash in g && g[e.hash].event == e && !Known(g, sync, e.hash)
      && exists i :: 0 <= i < |ts| && SelfDescends(g, e.hash, ts[i])
  {
    if ts != [] {
      var n := |ts| - 1;
      var a := WalkAll(g, sync, ts[..n], search);
      WalkAllSound(g, sync, ts[..n], search);
      WalkSound(g, sync, Some(ts[n]), a.search);
      forall e | e in a.sent ensures exists i :: 0 <= i < |ts| && SelfDescends(g, e.hash, ts[i]) {
        var i :| 0 <= i < n && SelfDescends(g, e.hash, ts[..n][i]);
        assert ts[..n][i] == ts[i];
      }
    }
  }

  lemma {:induction false} WalkAllMarks(g: Graph, sync: set<Hash>, ts: seq<Hash>, search: set<Hash>)
    requires GraphValid(g)
    ensures forall z :: z in WalkAll(g, sync, ts, search).search ==> z in search || Known(g, sync, z)
  {
    if ts != [] {
      var n := |ts| - 1;
      WalkAllMarks(g, sync, ts[..n], search);
      WalkMarks(g, sync, Some(ts[n]), WalkAll(g, sync, ts[..n], search).search);
    }
  }

  lemma {:induction false} WalkAllComplete(g: Graph, sync: set<Hash>, ts: seq<Hash>, search: set<Hash>)
    requires GraphValid(g)
    requires forall z :: z in search ==> Known(g, sync, z)
    ensures forall h :: h in g && !Known(g, sync, h) && (exists i :: 0 <= i < |ts| && SelfDescends(g, h, ts[i])) ==>
      g[h].event in WalkAll(g, sync, ts, search).sent
  {
    forall h | h in g && !Known(g, sync, h) && (exists i :: 0 <= i < |ts| && SelfDescends(g, h, ts[i]))
      ensures g[h].event in WalkAll(g, sync, ts, search).sent
    {
      var i :| 0 <= i < |ts| && SelfDescends(g, h, ts[i]);
      WalkAllIncludes(g, sync, ts, search, i, h);
    }
  }

  /** A shadow with no sync-marked descendant that self-descends from the i-th tip is sent. */
  lemma {:induction false} WalkAllIncludes(g: Graph, sync: set<Hash>, ts: seq<Hash>, search: set<Hash>, i: nat, h: Hash)
    requires GraphValid(g)
    requires forall z :: z in search ==> Known(g, sync, z)
    requires i < |ts| && h in g && !Known(g, sync, h) && SelfDescends(g, h, ts[i])
    ensures g[h].event in WalkAll(g, sync, ts, search).sent
  {
    var n := |ts| - 1;
    WalkAllUnfold(g, sync, ts, search);
    if i < n {
      assert ts[..n][i] == ts[i];
      WalkAllIncludes(g, sync, ts[..n], search, i, h);
    } else {
      WalkLastIncludes(g, sync, ts, search, h);
    }
  }

  /** The walks from ts send those from all tips but the last, then the last tip's walk. */
  lemma WalkAllUnfold(g: Graph, sync: set<Hash>, ts: seq<Hash>, search: set<Hash>)
    requires GraphValid(g) && ts != []
    ensures var a := WalkAll(g, sync, ts[..|ts| - 1], search);
      WalkAll(g, sync, ts, search).sent == a.sent + Walk(g, sync, Some(ts[|ts| - 1]), a.search).sent
  {
  }

  /** The walk from the last tip sends its self-ancestors that have no sync-marked descendant. */
  lemma WalkLastIncludes(g: Graph, sync: set<Hash>, ts: seq<Hash>, search: set<Hash>, h: Hash)
    requires GraphValid(g) && ts != []
    requires forall z :: z in search ==> Known(g, sync, z)
    requires h in g && !Known(g, sync, h) && SelfDescends(g, h, ts[|ts| - 1])
    ensures g[h].event in Walk(g, sync, Some(ts[|ts| - 1]), WalkAll(g, sync, ts[..|ts| - 1], search).search).sent
  {
    var n := |ts| - 1;
    WalkAllMarks(g, sync, ts[..n], search);
    WalkComplete(g, sync, ts[n], WalkAll(g, sync, ts[..n], search).search);
  }

  /**
   * Phase 3 sends exactly the shadows that are self-ancestors of a working tip and have no
   * sync-marked descendant, provided the search marks it starts from sit only on shadows
   * with a sync-marked descendant (as they do when phase 3 starts with none).
   */
  lemma PhaseThreeExact(g: Graph, sync: set<Hash>, ts: seq<Hash>, search: set<Hash>)
    requires GraphValid(g)
    requires forall z :: z in search ==> Known(g, sync, z)
    ensures forall e :: e in WalkAll(g, sync, ts, search).sent ==> e.hash in g && g[e.hash].event == e
    ensures forall x :: x in g ==>
      (g[x].event in WalkAll(g, sync, ts, search).sent <==>
        !Known(g, sync, x) && exists i :: 0 <= i < |ts| && SelfDescends(g, x, ts[i]))
  {
    WalkAllSound(g, sync, ts, search);
    WalkAllComplete(g, sync, ts, search);
  }

  /** One step of the walk from a stored shadow h: its mark, then h and the walk from its self-parent. */
  lemma WalkUnfold(g: Graph, sync: set<Hash>, h: Hash, search: set<Hash>)
    requires GraphValid(g) && h in g
    ensures var search' := if Known(g, sync, h) then search + {h} else search;
      var rest := Walk(g, sync, g[h].selfParent, search');
      Walk(g, sync, Some(h), search) ==
        if h in search' then WalkResult([], search') else WalkResult([g[h].event] + rest.sent, rest.search)
  {
    if g[h].selfParent.None? {
      assert [g[h].event] + [] == [g[h].event];
    }
  }

  /** The inner loop of finishSendEventList: whether any of ds is marked. */
  method AnyMarked(ds: seq<Hash>, marks: set<Hash>) returns (found: bool)
    ensures found <==> exists i :: 0 <= i < |ds| && ds[i] in marks
  {
    found := false;
    var i := 0;
    while i < |ds| && !found
      invariant 0 <= i <= |ds|
      invariant found <==> exists j :: 0 <= j < i && ds[j] in marks
    {
      found := ds[i] in marks;
      i := i + 1;
    }
  }

  /** One step of the walk: the search mark for h, and whether h is sent. */
  method WalkStep(g: Graph, sync: set<Hash>, h: Hash, search: set<Hash>)
    returns (search': set<Hash>, sent: bool)
    requires GraphValid(g) && h in g
    ensures search' == if Known(g, sync, h) then search + {h} else search
    ensures sent <==> h !in search'
  {
    var ds := Ordered(Descendants(g, h));
    var known := AnyMarked(ds, sync);
    assert known <==> Known(g, sync, h) by {
      if known {
        var i :| 0 <= i < |ds| && ds[i] in sync;
        assert ds[i] in Descendants(g, h) * sync;
      } else {
        forall z | z in Descendants(g, h) ensures z !in sync {
          var i :| 0 <= i < |ds| && ds[i] == z;
        }
      }
    }
    search' := search;
    if known {
      search' := search + {h};
    }
    sent := h !in search';
  }

  /** The walk from t has sent `sent` so far, and what remains is the walk from y with marks `search`. */
  ghost predicate WalkRemains(g: Graph, sync: set<Hash>, t: Hash, search0: set<Hash>,
                              sent: seq<Event>, y: Option<Hash>, search: set<Hash>)
    requires GraphValid(g)
  {
    Walk(g, sync, Some(t), search0) ==
      WalkResult(sent + Walk(g, sync, y, search).sent, Walk(g, sync, y, search).search)
  }

  /** One step of WalkBack's loop keeps WalkRemains. */
  lemma WalkAdvance(g: Graph, sync: set<Hash>, t: Hash, search0: set<Hash>, sent: seq<Event>,
                    h: Hash, search: set<Hash>, search': set<Hash>, send: bool)
    requires GraphValid(g) && h in g
    requires WalkRemains(g, sync, t, search0, sent, Some(h), search)
    requires search' == if Known(g, sync, h) then search + {h} else search
    requires send <==> h !in search'
    ensures send ==> WalkRemains(g, sync, t, search0, sent + [g[h].event], g[h].selfParent, search')
    ensures !send ==> WalkRemains(g, sync, t, search0, sent, None, search')
  {
    WalkUnfold(g, sync, h, search);
    var rest := Walk(g, sync, g[h].selfParent, search');
    if send {
      assert sent + ([g[h].event] + rest.sent) == sent + [g[h].event] + rest.sent;
    } else {
      assert sent + [] == sent;
    }
  }

  /** The walk loop of finishSendEventList from the working tip t. */
  method WalkBack(g: Graph, sync: set<Hash>, t: Hash, search0: set<Hash>)
    returns (sent: seq<Event>, search: set<Hash>)
    requires GraphValid(g)
    ensures WalkResult(sent, search) == Walk(g, sync, Some(t), search0)
  {
    sent, search := [], search0;
    var y := if t in g then Some(t) else None;
    assert [] + Walk(g, sync, y, search).sent == Walk(g, sync, y, search).sent;
    while y.Some?
      invariant y.Some? ==> y.value in g
      invariant WalkRemains(g, sync, t, search0, sent, y, search)
      decreases if y.Some? then |Older(g, Gen(g, y.value))| + 1 else 0
    {
      var h := y.value;
      var search', send := WalkStep(g, sync, h, search);
      WalkAdvance(g, sync, t, search0, sent, h, search, search', send);
      search := search';
      if send {
        sent := sent + [g[h].event];
        assert LinkOk(g, h, g[h].selfParent, g[h].event.selfParent);
        if g[h].selfParent.Some? {
          OlderShrinks(g, g[h].selfParent.value, h);
        }
        y := g[h].selfParent;
      } else {
        y := None;
      }
    }
    assert sent + [] == sent;
  }

  /** The outer loop of finishSendEventList, over the working tips ts. */
  method WalkTips(g: Graph, sync: set<Hash>, ts: seq<Hash>, search0: set<Hash>)
    returns (sent: seq<Event>, search: set<Hash>)
    requires GraphValid(g)
    ensures WalkResult(sent, search) == WalkAll(g, sync, ts, search0)
  {
    sent, search := [], search0;
    var i := 0;
    while i < |ts|
      invariant 0 <= i <= |ts|
      invariant WalkResult(sent, search) == WalkAll(g, sync, ts[..i], search0)
    {
      var more;
      more, search := WalkBack(g, sync, ts[i], search);
      sent := sent + more;
      assert ts[..i + 1][..i] == ts[..i];
      i := i + 1;
    }
    assert ts[..i] == ts;
  }

  // ---------------------------------------------------------------------------------
  // Sorting the send list by generation
  // ---------------------------------------------------------------------------------

  /** Java long subtraction, which wraps modulo 2^64. */
  function LongSub(a: Long, b: Long): (r: Long)
    ensures (r - (a - b)) % 0x1_0000_0000_0000_0000 == 0
    ensures LONG_MIN <= a - b <= LONG_MAX ==> r == a - b
  {
    (a - b - LONG_MIN) % 0x1_0000_0000_0000_0000 + LONG_MIN
  }

  /** The comparator of SyncShadowGraphManager.sort as written: (int) (e1.generation - e2.generation). */
  function AsWrittenCompare(e1: Event, e2: Event): int
    requires LONG_MIN <= e1.generation <= LONG_MAX && LONG_MIN <= e2.generation <= LONG_MAX
  {
    ToInt(LongSub(e1.generation, e2.generation))
  }

  /**
   * The as-written comparator puts an event of generation 0 after one of generation
   * 2^31 + 1: the difference does not fit in an int and the cast flips its sign.
   */
  lemma AsWrittenMisorders()
    ensures var e1 := Event(1, 0, None, None);
            var e2 := Event(2, 0x8000_0001, None, None);
            e1.generation < e2.generation && AsWrittenCompare(e1, e2) > 0
  {
  }

  /** The corrected comparator, Long.compare on the generations: its sign is the order. */
  function CompareGenerations(e1: Event, e2: Event): (r: int)
    ensures r < 0 <==> e1.generation < e2.generation
    ensures r == 0 <==> e1.generation == e2.generation
    ensures r > 0 <==> e1.generation > e2.generation
  {
    if e1.generation < e2.generation then -1
    else if e1.generation == e2.generation then 0
    else 1
  }

  /** While generations differ by less than 2^31 the as-written comparator agrees with the corrected one. */
  lemma AsWrittenAgrees(e1: Event, e2: Event)
    requires LONG_MIN <= e1.generation <= LONG_MAX && LONG_MIN <= e2.generation <= LONG_MAX
    requires INT_MIN <= e1.generation - e2.generation <= INT_MAX
    ensures AsWrittenCompare(e1, e2) == e1.generation - e2.generation
    ensures AsWrittenCompare(e1, e2) < 0 <==> CompareGenerations(e1, e2) < 0
    ensures AsWrittenCompare(e1, e2) == 0 <==> CompareGenerations(e1, e2) == 0
  {
  }

  /** The list is in non-decreasing generation order. */
  ghost predicate SortedByGeneration(s: seq<Event>) {
    forall i, j :: 0 <= i < j < |s| ==> s[i].generation <= s[j].generation
  }

  /** Putting x between the elements no greater than it and those greater keeps the order. */
  lemma InsertKeepsSorted(r: seq<Event>, k: nat, x: Event)
    requires SortedByGeneration(r) && k <= |r|
    requires forall i :: 0 <= i < k ==> r[i].generation <= x.generation
    requires forall i :: k <= i < |r| ==> r[i].generation > x.generation
    ensures SortedByGeneration(r[..k] + [x] + r[k..])
  {
    var r' := r[..k] + [x] + r[k..];
    assert forall i :: 0 <= i < |r'| ==> r'[i] == if i < k then r[i] else if i == k then x else r[i - 1];
  }

  /** Insert x after every element that does not compare greater than it. */
  method InsertByGeneration(r: seq<Event>, x: Event) returns (r': seq<Event>)
    requires SortedByGeneration(r)
    ensures SortedByGeneration(r') && multiset(r') == multiset(r) + multiset{x}
  {
    var k := |r|;
    while k > 0 && CompareGenerations(r[k - 1], x) > 0
      invariant 0 <= k <= |r|
      invariant forall i :: k <= i < |r| ==> r[i].generation > x.generation
    {
      k := k - 1;
    }
    InsertAt(r, k, x);
    r' := r[..k] + [x] + r[k..];
  }

  /** Putting x after the last element no greater than it keeps the list sorted and adds exactly x. */
  lemma InsertAt(r: seq<Event>, k: nat, x: Event)
    requires SortedByGeneration(r) && k <= |r|
    requires k > 0 ==> r[k - 1].generation <= x.generation
    requires forall i :: k <= i < |r| ==> r[i].generation > x.generation
    ensures SortedByGeneration(r[..k] + [x] + r[k..])
    ensures multiset(r[..k] + [x] + r[k..]) == multiset(r) + multiset{x}
  {
    PrefixNoGreater(r, k, x);
    InsertKeepsSorted(r, k, x);
    InsertAdds(r, k, x);
  }

  /** In a sorted list, everything before an element no greater than x is no greater than x. */
  lemma PrefixNoGreater(r: seq<Event>, k: nat, x: Event)
    requires SortedByGeneration(r) && k <= |r|
    requires k > 0 ==> r[k - 1].generation <= x.generation
    ensures forall i :: 0 <= i < k ==> r[i].generation <= x.generation
  {
    forall i | 0 <= i < k
      ensures r[i].generation <= x.generation
    {
      assert r[i].generation <= r[k - 1].generation;
    }
  }

  /** Splitting a list at k and putting x in between adds exactly x. */
  lemma InsertAdds(r: seq<Event>, k: nat, x: Event)
    requires k <= |r|
    ensures multiset(r[..k] + [x] + r[k..]) == multiset(r) + multiset{x}
  {
    assert r == r[..k] + r[k..];
  }

  /** SyncShadowGraphManager.sort with the corrected comparator: a stable sort by generation. */
  method SortByGeneration(s: seq<Event>) returns (r: seq<Event>)
    ensures SortedByGeneration(r) && multiset(r) == multiset(s)
  {
    r := [];
    var i := 0;
    while i < |s|
      invariant 0 <= i <= |s|
      invariant SortedByGeneration(r) && multiset(r) == multiset(s[..i])
    {
      r := InsertByGeneration(r, s[i]);
      assert s[..i + 1] == s[..i] + [s[i]];
      i := i + 1;
    }
    assert s[..i] == s;
  }

  /**
   * SyncData: what one synchronization with a peer accumulates: the tip hashes the peer
   * sent, the working tips, the list of events to send, and the sync and search marks.
   */
  class SyncData {
    var receivedTipHashes: seq<Hash>
    var workingTips: set<Hash>
    var sendList: seq<Event>
    var syncMarks: set<Hash>
    var searchMarks: set<Hash>

    constructor(received: seq<Hash>)
      ensures receivedTipHashes == received
      ensures workingTips == {} && sendList == [] && syncMarks == {} && searchMarks == {}
    {
      receivedTipHashes := received;
      workingTips := {};
      sendList := [];
      syncMarks := {};
      searchMarks := {};
    }
  }

  // ---------------------------------------------------------------------------------
  // The manager
  // ---------------------------------------------------------------------------------

  class SyncShadowGraphManager {
    var graph: Graph
    var tips: set<Hash>
    var expiredGen: Long

    /** The tip set is exactly the set of shadows without a self-child. */
    ghost predicate Valid()
      reads this
    {
      GraphValid(graph) && tips == TipsOf(graph)
    }

    /** The production constructor: an empty graph, no tips, nothing expired yet. */
    constructor()
      ensures Valid()
      ensures graph == map[] && tips == {} && expiredGen == LONG_MIN
    {
      graph := map[];
      tips := {};
      expiredGen := LONG_MIN;
    }

    /** The test constructor over an existing graph, with expired generation -1. */
    constructor FromGraph(g: Graph)
      requires GraphValid(g)
      ensures Valid()
      ensures graph == g && expiredGen == -1
    {
      graph := g;
      expiredGen := -1;
      tips := {};
      new;
      IdentifyTips();
    }

    /** The test constructor over an existing graph and a given expired generation. */
    constructor FromGraphAndGeneration(g: Graph, expiredGen: Long)
      requires GraphValid(g)
      ensures Valid()
      ensures graph == g && this.expiredGen == expiredGen
    {
      graph := g;
      this.expiredGen := expiredGen;
      tips := {};
      new;
      IdentifyTips();
    }

    /** SyncShadowGraphManager.identifyTips: rebuild the tip set by scanning every shadow. */
    method IdentifyTips()
      modifies this
      ensures graph == old(graph) && expiredGen == old(expiredGen)
      ensures tips == TipsOf(graph)
    {
      tips := ScanTips(graph);
    }

    /** SyncShadowGraphManager.clear: back to the constructed state. */
    method Clear()
      modifies this
      ensures Valid()
      ensures graph == map[] && tips == {} && expiredGen == LONG_MIN
    {
      graph := map[];
      tips := {};
      expiredGen := LONG_MIN;
    }

    /** SyncShadowGraphManager.expired(Event): the event is at or below the watermark. */
    predicate Expired(e: Event)
      reads this
    {
      IsExpired(e.generation, expiredGen)
    }

    /**
     * SyncShadowGraphManager.setExpiredGeneration: any value is accepted, a decrease
     * included; nothing else changes.
     */
    method SetExpiredGeneration(gen: Long)
      modifies this
      ensures expiredGen == gen
      ensures graph == old(graph) && tips == old(tips)
    {
      expiredGen := gen;
    }

    /**
     * SyncShadowGraphManager.addEvent: insert e if it is insertable, making it a tip and
     * its self-parent no longer one; otherwise change nothing. The parents' generations
     * are taken to agree with the graph (the upstream contract on events).
     */
    method AddEvent(e: Option<Event>) returns (inserted: bool)
      requires Valid()
      requires e.Some? ==> ParentsAgree(graph, e.value)
      modifies this
      ensures Valid()
      ensures expiredGen == old(expiredGen)
      ensures inserted <==> InsertableStatusOf(old(graph), expiredGen, e) == Insertable
      ensures inserted ==>
        && graph == Insert(old(graph), e.value)
        && e.value.hash in tips
        && (LinkTo(old(graph), e.value.selfParent).Some? ==> LinkTo(old(graph), e.value.selfParent).value !in tips)
        && tips == old(tips) + {e.value.hash}
             - (if LinkTo(old(graph), e.value.selfParent).Some? then {LinkTo(old(graph), e.value.selfParent).value} else {})
      ensures !inserted ==> graph == old(graph) && tips == old(tips)
    {
      var status := InsertableStatusOf(graph, expiredGen, e);
      if status == Insertable {
        var ev := e.value;
        var selfParentShadow := LinkTo(graph, ev.selfParent);
        InsertKeepsValid(graph, ev);
        InsertTips(graph, ev);
        graph := Insert(graph, ev);
        tips := tips + {ev.hash};
        if selfParentShadow.Some? {
          tips := tips - {selfParentShadow.value};
        }
        inserted := true;
      } else {
        inserted := false;
      }
    }

    /**
     * SyncShadowGraphManager.expire(long): a new watermark runs the sweep; the current
     * watermark again returns 0 and changes nothing.
     */
    method Expire(newExpiredGeneration: Long) returns (count: int)
      requires Valid()
      modifies this
      ensures Valid()
      ensures newExpiredGeneration == old(expiredGen) ==>
        count == 0 && graph == old(graph) && tips == old(tips) && expiredGen == old(expiredGen)
      ensures newExpiredGeneration != old(expiredGen) ==>
        && expiredGen == newExpiredGeneration
        && graph == Prune(old(graph), old(graph).Keys - Swept(old(graph), old(tips), newExpiredGeneration))
        && tips == old(tips) - ExpiredTips(old(graph), old(tips), newExpiredGeneration)
        && count == |Swept(old(graph), old(tips), newExpiredGeneration)|
    {
      if newExpiredGeneration == expiredGen {
        return 0;
      }
      SetExpiredGeneration(newExpiredGeneration);
      count := ExpireSweep();
    }

    /**
     * SyncShadowGraphManager.expire(): for every tip, remove its expired strict
     * self-ancestry and record whether the tip itself is expired; then remove each
     * expired tip with its self-ancestry and drop it from the tip set. Returns the
     * number of shadows removed.
     */
    method ExpireSweep() returns (count: int)
      requires Valid()
      modifies this
      ensures Valid()
      ensures expiredGen == old(expiredGen)
      ensures graph == Prune(old(graph), old(graph).Keys - Swept(old(graph), old(tips), expiredGen))
      ensures tips == old(tips) - ExpiredTips(old(graph), old(tips), expiredGen)
      ensures forall t :: t in old(tips) ==> (t in tips <==> !IsExpired(Gen(old(graph), t), expiredGen))
      ensures count == |Swept(old(graph), old(tips), expiredGen)| == |old(graph).Keys| - |graph.Keys|
    {
      var g, remaining;
      g, remaining, count := SweepExpired(graph, tips, expiredGen);
      graph := g;
      tips := remaining;
    }

    /**
     * SyncShadowGraphManager.getSendTipHashes: the hashes of the tips, each once, in the
     * enumeration order of the tip set.
     */
    function SendTipHashes(): (r: seq<Hash>)
      reads this
      ensures |r| == |tips|
      ensures forall h :: h in r <==> h in tips
      ensures forall i, j :: 0 <= i < j < |r| ==> r[i] != r[j]
    {
      OrderedAscending(tips);
      Ordered(tips)
    }

    /**
     * SyncShadowGraphManager.setReceivedTipHashes: the working tips start as the tips;
     * each received hash naming a known shadow marks it for sync, removes it from the
     * working tips, and appends its strict self-descendants to the send list, removing
     * them from the working tips as well.
     */
    method SetReceivedTipHashes(sd: SyncData)
      requires Valid()
      modifies sd
      ensures sd.receivedTipHashes == old(sd.receivedTipHashes) && sd.searchMarks == old(sd.searchMarks)
      ensures sd.sendList == old(sd.sendList) + StrictLists(graph, sd.receivedTipHashes)
      ensures sd.workingTips == tips - Covered(graph, sd.receivedTipHashes)
      ensures sd.syncMarks == old(sd.syncMarks) + Elems(sd.receivedTipHashes) * graph.Keys
    {
      var send, working, sync := ApplyReceivedTips(graph, tips, sd.receivedTipHashes, sd.sendList, sd.syncMarks);
      sd.sendList := send;
      sd.workingTips := working;
      sd.syncMarks := sync;
    }

    /**
     * SyncShadowGraphManager.getSendTipBooleans: one boolean per received hash, true
     * exactly when the hash names a known shadow that has a self-child, that is, a known
     * shadow that is not a tip here.
     */
    method GetSendTipBooleans(received: seq<Hash>) returns (flags: seq<bool>)
      ensures |flags| == |received|
      ensures forall i :: 0 <= i < |received| ==>
        (flags[i] <==> received[i] in graph && SelfChildren(graph, received[i]) != {})
      ensures Valid() ==> forall i :: 0 <= i < |received| ==>
        (flags[i] <==> received[i] in graph && received[i] !in tips)
    {
      flags := [];
      var i := 0;
      while i < |received|
        invariant 0 <= i <= |received| && |flags| == i
        invariant forall j :: 0 <= j < i ==>
          (flags[j] <==> received[j] in graph && SelfChildren(graph, received[j]) != {})
      {
        var h := received[i];
        flags := flags + [h in graph && SelfChildren(graph, h) != {}];
        i := i + 1;
      }
    }

    /**
     * SyncShadowGraphManager.setReceivedTipBooleans: for each true boolean, the tip at the
     * same index of getSendTipHashes is marked for sync and leaves the working tips. A true
     * boolean past the last tip is the IndexOutOfBoundsException: ok is false, and the
     * marks made before it stay.
     */
    method SetReceivedTipBooleans(sd: SyncData, received: seq<bool>) returns (ok: bool)
      modifies sd
      ensures ok <==> forall i :: |tips| <= i < |received| ==> !received[i]
      ensures sd.syncMarks == old(sd.syncMarks) + Flagged(SendTipHashes(), received)
      ensures sd.workingTips == old(sd.workingTips) - Flagged(SendTipHashes(), received)
      ensures sd.receivedTipHashes == old(sd.receivedTipHashes)
      ensures sd.sendList == old(sd.sendList) && sd.searchMarks == old(sd.searchMarks)
    {
      var working, sync;
      working, sync, ok := ApplyTipBooleans(SendTipHashes(), received, sd.workingTips, sd.syncMarks);
      sd.workingTips := working;
      sd.syncMarks := sync;
    }

    /**
     * SyncShadowGraphManager.finishSendEventList: walk back from every working tip,
     * sending each shadow until one has a sync-marked descendant (marked for search), then
     * sort the send list by generation.
     */
    method FinishSendEventList(sd: SyncData)
      requires Valid()
      modifies sd
      ensures var w := WalkAll(graph, old(sd.syncMarks), Ordered(old(sd.workingTips)), old(sd.searchMarks));
        && sd.searchMarks == w.search
        && multiset(sd.sendList) == multiset(old(sd.sendList) + w.sent)
        && SortedByGeneration(sd.sendList)
      ensures sd.receivedTipHashes == old(sd.receivedTipHashes)
      ensures sd.workingTips == old(sd.workingTips) && sd.syncMarks == old(sd.syncMarks)
    {
      var sent, search := WalkTips(graph, sd.syncMarks, Ordered(sd.workingTips), sd.searchMarks);
      var sorted := SortByGeneration(sd.sendList + sent);
      sd.searchMarks := search;
      sd.sendList := sorted;
    }
  }
}
