/**
 * Ordering the terms of one branch of the directory tree root-first
 * (`sortTidsByAncestorChain` and `recursiveSortDescendants`).
 *
 * The taxonomy is seen through its parent column: a finite map from term id to
 * the id of the term's parent, where 0 means the term has no parent.
 */
module AncestorSort {
  import opened Wrappers

  /** The parent of each stored term. */
  type ParentMap = map<Tid, Tid>

  /** The parent id Drupal stores for a root term. */
  const NoParent: Tid := 0

  datatype SortError =
    | NoRootTerm          // no loaded term has parent 0: the exception of the sort
    | NoChildOf(tid: Tid) // nothing left hangs below the last placed term

  predicate AllStored(store: ParentMap, terms: seq<Tid>)
  {
    forall i | 0 <= i < |terms| :: terms[i] in store
  }

  /**
   * `loadMultiple($tids)`: the stored terms among `tids`, each once, in the
   * order of first request.
   */
  function Load(store: ParentMap, tids: seq<Tid>): (terms: seq<Tid>)
    ensures Distinct(terms) && AllStored(store, terms)
    ensures forall t :: t in terms <==> t in tids && t in store
    decreases |tids|
  {
    if |tids| == 0 then []
    else
      var prior := Load(store, tids[..|tids| - 1]);
      var t := tids[|tids| - 1];
      assert tids == tids[..|tids| - 1] + [t];
      if t in store && t !in prior then prior + [t] else prior
  }

  /** The position of the first term whose parent is `parent` (the `foreach … break`). */
  function FirstWithParent(store: ParentMap, terms: seq<Tid>, parent: Tid): (k: Option<nat>)
    requires AllStored(store, terms)
    ensures k.Some? ==> k.value < |terms| && store[terms[k.value]] == parent
    ensures k.Some? ==> forall j | 0 <= j < k.value :: store[terms[j]] != parent
    ensures k.None? ==> forall j | 0 <= j < |terms| :: store[terms[j]] != parent
    decreases |terms|
  {
    if |terms| == 0 then None
    else if store[terms[0]] == parent then Some(0)
    else match FirstWithParent(store, terms[1..], parent)
      case None => None
      case Some(k) => Some(k + 1)
  }

  /** `unset($terms[$key])`. */
  function RemoveAt(s: seq<Tid>, k: nat): (r: seq<Tid>)
    requires k < |s|
    ensures |r| == |s| - 1
    ensures multiset(r) == multiset(s) - multiset{s[k]}
  {
    assert s == s[..k] + [s[k]] + s[k + 1..];
    s[..k] + s[k + 1..]
  }

  lemma RemoveAtStored(store: ParentMap, terms: seq<Tid>, k: nat)
    requires k < |terms| && AllStored(store, terms)
    ensures AllStored(store, RemoveAt(terms, k))
  {
    var rest := RemoveAt(terms, k);
    forall i | 0 <= i < |rest| ensures rest[i] in store {
      assert rest[i] == terms[if i < k then i else i + 1];
    }
  }

  /** A term left after `unset` was there before. */
  lemma RemoveAtKeeps(s: seq<Tid>, k: nat, x: Tid)
    requires k < |s|
    ensures x in RemoveAt(s, k) ==> x in s
  {
    if x in RemoveAt(s, k) {
      var i :| 0 <= i < |RemoveAt(s, k)| && RemoveAt(s, k)[i] == x;
      assert x == s[if i < k then i else i + 1];
    }
  }

  /** Each term of `chain` hangs directly below its predecessor, the first one below `parent`. */
  predicate HangsFrom(store: ParentMap, parent: Tid, chain: seq<Tid>)
  {
    && (|chain| > 0 ==> chain[0] in store && store[chain[0]] == parent)
    && (forall i | 0 < i < |chain| :: chain[i] in store && store[chain[i]] == chain[i - 1])
  }

  /**
   * `chain` puts every loaded term in root-to-leaf order: it holds the same terms,
   * starts at a root and each term is the direct child of the one before it.
   */
  predicate IsBranchOrder(store: ParentMap, terms: seq<Tid>, chain: seq<Tid>)
  {
    |chain| > 0 && multiset(chain) == multiset(terms) && HangsFrom(store, NoParent, chain)
  }

  /** Placing `x` below `parent` in front of a chain that hangs below `x`. */
  lemma HangsFromCons(store: ParentMap, parent: Tid, x: Tid, tail: seq<Tid>)
    requires x in store && store[x] == parent
    requires HangsFrom(store, x, tail)
    ensures HangsFrom(store, parent, [x] + tail)
  {
    var chain := [x] + tail;
    forall i | 0 < i < |chain|
      ensures chain[i] in store && store[chain[i]] == chain[i - 1]
    {
      assert chain[i] == tail[i - 1];
      assert tail[i - 1] in store && store[tail[i - 1]] == (if i - 1 == 0 then x else tail[i - 2]);
      assert chain[i - 1] == (if i == 1 then x else tail[i - 2]);
    }
  }

  /**
   * Where a descent below `parent` through `terms` gets stuck: the chain
   * `placed`, made of some but not all of the terms, hangs below `parent`;
   * `last` is its final term (or `parent` when nothing was placed); and no
   * term left over hangs below `last`.
   */
  predicate StuckAfter(store: ParentMap, terms: seq<Tid>, parent: Tid, placed: seq<Tid>, last: Tid)
  {
    && |placed| < |terms| && multiset(placed) <= multiset(terms)
    && HangsFrom(store, parent, placed)
    && last == (if |placed| == 0 then parent else Last(placed))
    && forall x | x in multiset(terms) - multiset(placed) :: x in store && store[x] != last
  }

  /**
   * A descent that has a child of `parent` to place does not get stuck at
   * `parent`: it reports a term it placed, never the parent it started from.
   */
  lemma StuckPastParent(store: ParentMap, terms: seq<Tid>, parent: Tid, placed: seq<Tid>, last: Tid)
    requires AllStored(store, terms) && parent !in terms
    requires FirstWithParent(store, terms, parent).Some?
    requires StuckAfter(store, terms, parent, placed, last)
    ensures |placed| > 0 && last in terms && last != parent
  {
    var child := terms[FirstWithParent(store, terms, parent).value];
    assert child in multiset(terms);
    if |placed| == 0 {
      assert false;
    }
    assert Last(placed) in multiset(placed);
  }

  /** With no child of `parent` among the terms, the descent is stuck before placing anything. */
  lemma StuckAtStart(store: ParentMap, terms: seq<Tid>, parent: Tid)
    requires AllStored(store, terms) && |terms| > 0
    requires FirstWithParent(store, terms, parent).None?
    ensures StuckAfter(store, terms, parent, [], parent)
  {
    forall x | x in multiset(terms) - multiset([]) ensures x in store && store[x] != parent {
      assert x in terms;
    }
  }

  /** Placing the first child `terms[k]` in front of a stuck descent below it gives a stuck descent below `parent`. */
  lemma StuckStep(store: ParentMap, terms: seq<Tid>, parent: Tid, k: nat, placed: seq<Tid>, last: Tid)
    requires k < |terms| && terms[k] in store && store[terms[k]] == parent
    requires StuckAfter(store, RemoveAt(terms, k), terms[k], placed, last)
    ensures StuckAfter(store, terms, parent, [terms[k]] + placed, last)
  {
    var placed' := [terms[k]] + placed;
    assert multiset(placed') == multiset{terms[k]} + multiset(placed);
    assert terms[k] in multiset(terms);
    assert multiset(terms) - multiset(placed') == multiset(RemoveAt(terms, k)) - multiset(placed);
    HangsFromCons(store, parent, terms[k], placed);
    if |placed| > 0 {
      assert Last(placed') == Last(placed);
    }
  }

  /**
   * `recursiveSortDescendants($terms, $parent_tid, $sorted)`: repeatedly move the
   * first remaining child of the last placed term to the end of `sorted`. When
   * no remaining term is such a child the source falls off the end of the
   * function and returns nothing; the model reports that last placed term.
   */
  function SortDescendants(store: ParentMap, terms: seq<Tid>, parent: Tid, sorted: seq<Tid>)
    : (r: Result<seq<Tid>, Tid>)
    requires AllStored(store, terms)
    ensures r.Success? ==> |r.value| == |sorted| + |terms| && r.value[..|sorted|] == sorted
    ensures r.Success? ==> multiset(r.value[|sorted|..]) == multiset(terms)
    ensures r.Success? ==> HangsFrom(store, parent, r.value[|sorted|..])
    ensures r.Failure? ==> |terms| > 0 && (r.error == parent || r.error in terms)
    ensures FirstWithParent(store, terms, parent).None? && |terms| > 0 ==> r == Failure(parent)
    ensures r.Failure? ==> exists placed :: StuckAfter(store, terms, parent, placed, r.error)
    decreases |terms|
  {
    if |terms| == 0 then Success(sorted)
    else match FirstWithParent(store, terms, parent)
      case None =>
        StuckAtStart(store, terms, parent);
        Failure(parent)
      case Some(k) =>
        var child := terms[k];
        var rest := RemoveAt(terms, k);
        RemoveAtStored(store, terms, k);
        var r := SortDescendants(store, rest, child, sorted + [child]);
        if r.Success? then
          DescendStep(store, terms, parent, sorted, k, r.value);
          r
        else
          StuckBelowChild(store, terms, parent, k, r.error);
          r
  }

  /** A descent stuck below the child placed now is stuck below `parent` as well, at the same term. */
  lemma StuckBelowChild(store: ParentMap, terms: seq<Tid>, parent: Tid, k: nat, last: Tid)
    requires k < |terms| && AllStored(store, terms) && store[terms[k]] == parent
    requires last == terms[k] || last in RemoveAt(terms, k)
    requires exists placed :: StuckAfter(store, RemoveAt(terms, k), terms[k], placed, last)
    ensures last == parent || last in terms
    ensures exists placed :: StuckAfter(store, terms, parent, placed, last)
  {
    RemoveAtKeeps(terms, k, last);
    var placed :| StuckAfter(store, RemoveAt(terms, k), terms[k], placed, last);
    StuckStep(store, terms, parent, k, placed, last);
  }

  /** One step of the descent: the child placed now heads the chain the recursion returns. */
  lemma DescendStep(store: ParentMap, terms: seq<Tid>, parent: Tid, sorted: seq<Tid>, k: nat, out: seq<Tid>)
    requires AllStored(store, terms)
    requires k < |terms| && store[terms[k]] == parent
    requires |out| == |sorted| + 1 + |RemoveAt(terms, k)|
    requires out[..|sorted| + 1] == sorted + [terms[k]]
    requires multiset(out[|sorted| + 1..]) == multiset(RemoveAt(terms, k))
    requires HangsFrom(store, terms[k], out[|sorted| + 1..])
    ensures |out| == |sorted| + |terms| && out[..|sorted|] == sorted
    ensures multiset(out[|sorted|..]) == multiset(terms)
    ensures HangsFrom(store, parent, out[|sorted|..])
  {
    var tail := out[|sorted| + 1..];
    assert out[|sorted|] == (sorted + [terms[k]])[|sorted|];
    assert out[|sorted|..] == [terms[k]] + tail;
    assert out[..|sorted|] == (out[..|sorted| + 1])[..|sorted|];
    assert terms[k] in multiset(terms);
    HangsFromCons(store, parent, terms[k], tail);
  }

  /**
   * `sortTidsByAncestorChain($tids)`: load the terms, take the first one without a
   * parent as the root, then chain the remaining terms below it.
   */
  function SortByAncestorChain(store: ParentMap, tids: seq<Tid>): (r: Result<seq<Tid>, SortError>)
    ensures r.Success? ==> IsBranchOrder(store, Load(store, tids), r.value)
    ensures r.Success? ==> forall t :: t in r.value <==> t in tids && t in store
    ensures r == Failure(NoRootTerm) <==> forall t | t in Load(store, tids) :: store[t] != NoParent
    ensures r.Failure? && r.error.NoChildOf? ==> r.error.tid in Load(store, tids)
    ensures r.Failure? && r.error.NoChildOf? ==>
      exists placed | |placed| > 0 :: StuckAfter(store, Load(store, tids), NoParent, placed, r.error.tid)
  {
    var terms := Load(store, tids);
    match FirstWithParent(store, terms, NoParent)
    case None => Failure(NoRootTerm)
    case Some(k) =>
      var root := terms[k];
      var rest := RemoveAt(terms, k);
      RemoveAtStored(store, terms, k);
      match SortDescendants(store, rest, root, [])
      case Failure(last) =>
        RemoveAtKeeps(terms, k, last);
        RootStuck(store, terms, k, last);
        Failure(NoChildOf(last))
      case Success(descendants) =>
        RootStep(store, tids, k, descendants);
        Success([root] + descendants)
  }

  /** A descent stuck below the root is a stuck descent from the roots that has placed the root. */
  lemma RootStuck(store: ParentMap, terms: seq<Tid>, k: nat, last: Tid)
    requires k < |terms| && terms[k] in store && store[terms[k]] == NoParent
    requires exists placed :: StuckAfter(store, RemoveAt(terms, k), terms[k], placed, last)
    ensures exists placed | |placed| > 0 :: StuckAfter(store, terms, NoParent, placed, last)
  {
    var placed :| StuckAfter(store, RemoveAt(terms, k), terms[k], placed, last);
    StuckStep(store, terms, NoParent, k, placed, last);
    assert |[terms[k]] + placed| > 0;
  }

  /** Putting the root in front of its descendants orders the whole branch. */
  lemma RootStep(store: ParentMap, tids: seq<Tid>, k: nat, descendants: seq<Tid>)
    requires k < |Load(store, tids)|
    requires store[Load(store, tids)[k]] == NoParent
    requires multiset(descendants) == multiset(RemoveAt(Load(store, tids), k))
    requires HangsFrom(store, Load(store, tids)[k], descendants)
    ensures IsBranchOrder(store, Load(store, tids), [Load(store, tids)[k]] + descendants)
    ensures forall t :: t in [Load(store, tids)[k]] + descendants <==> t in tids && t in store
  {
    var terms := Load(store, tids);
    var chain := [terms[k]] + descendants;
    assert terms[k] in multiset(terms);
    assert multiset(chain) == multiset(terms);
    HangsFromCons(store, NoParent, terms[k], descendants);
    forall t ensures t in chain <==> t in terms {
      assert t in chain <==> t in multiset(chain);
      assert t in terms <==> t in multiset(terms);
    }
  }

  // ---------------------------------------------------------------------------
  // Completeness: a branch that can be ordered is ordered, and only one way
  // ---------------------------------------------------------------------------

  lemma DistinctRemoveAt(s: seq<Tid>, k: nat)
    requires k < |s| && Distinct(s)
    ensures Distinct(RemoveAt(s, k))
    ensures s[k] !in RemoveAt(s, k)
  {
    var r := RemoveAt(s, k);
    forall i, j | 0 <= i < j < |r| ensures r[i] != r[j] {
      var i' := if i < k then i else i + 1;
      var j' := if j < k then j else j + 1;
      assert r[i] == s[i'] && r[j] == s[j'];
    }
    forall i | 0 <= i < |r| ensures r[i] != s[k] {
      assert r[i] == s[if i < k then i else i + 1];
    }
  }

  /**
   * When a chain through exactly the remaining terms hangs below `parent`, and
   * `parent` is not one of them, the first child of `parent` found is the head of
   * that chain: any later link hangs below an earlier link, not below `parent`.
   */
  lemma FirstChildIsHead(store: ParentMap, terms: seq<Tid>, parent: Tid, chain: seq<Tid>)
    requires AllStored(store, terms)
    requires multiset(chain) == multiset(terms) && |terms| > 0
    requires parent !in chain
    requires HangsFrom(store, parent, chain)
    ensures |chain| > 0
    ensures FirstWithParent(store, terms, parent).Some?
    ensures terms[FirstWithParent(store, terms, parent).value] == chain[0]
  {
    assert |chain| == |multiset(chain)| == |multiset(terms)| == |terms|;
    assert chain[0] in multiset(chain);
    var k0 :| 0 <= k0 < |terms| && terms[k0] == chain[0];
    assert store[terms[k0]] == parent;
    var k := FirstWithParent(store, terms, parent).value;
    assert terms[k] in multiset(chain);
    var i :| 0 <= i < |chain| && chain[i] == terms[k];
    assert i == 0 by {
      forall j | 0 < j < |chain| ensures store[chain[j]] != parent {
        assert chain[j - 1] in chain;
      }
    }
  }

  /** Removing the head of a chain through `terms` leaves a chain through the rest. */
  lemma TailThroughRest(terms: seq<Tid>, k: nat, chain: seq<Tid>)
    requires k < |terms| && |chain| > 0 && terms[k] == chain[0]
    requires multiset(chain) == multiset(terms)
    ensures multiset(chain[1..]) == multiset(RemoveAt(terms, k))
  {
    assert chain == [chain[0]] + chain[1..];
  }

  /** The tail of a chain hangs below its head. */
  lemma TailHangs(store: ParentMap, parent: Tid, chain: seq<Tid>)
    requires |chain| > 0 && HangsFrom(store, parent, chain)
    ensures HangsFrom(store, chain[0], chain[1..])
  {
    var tail := chain[1..];
    forall j | 0 < j < |tail|
      ensures tail[j] in store && store[tail[j]] == tail[j - 1]
    {
      assert tail[j] == chain[j + 1] && tail[j - 1] == chain[j];
    }
  }

  /** One step of the descent, unfolded: the child found first is placed and the rest sorted below it. */
  lemma DescendOnce(store: ParentMap, terms: seq<Tid>, parent: Tid, sorted: seq<Tid>, k: nat)
    requires AllStored(store, terms) && |terms| > 0
    requires FirstWithParent(store, terms, parent) == Some(k)
    ensures AllStored(store, RemoveAt(terms, k))
    ensures SortDescendants(store, terms, parent, sorted)
         == SortDescendants(store, RemoveAt(terms, k), terms[k], sorted + [terms[k]])
  {
    RemoveAtStored(store, terms, k);
  }

  /** Placing the head of the chain and then its tail places the whole chain. */
  lemma PlaceHead(store: ParentMap, terms: seq<Tid>, parent: Tid, sorted: seq<Tid>, k: nat, chain: seq<Tid>)
    requires AllStored(store, terms) && |terms| > 0 && |chain| > 0
    requires FirstWithParent(store, terms, parent) == Some(k) && terms[k] == chain[0]
    requires AllStored(store, RemoveAt(terms, k))
    requires SortDescendants(store, RemoveAt(terms, k), chain[0], sorted + [chain[0]]) == Success(sorted + [chain[0]] + chain[1..])
    ensures SortDescendants(store, terms, parent, sorted) == Success(sorted + chain)
  {
    AppendHead(sorted, chain);
    DescendOnce(store, terms, parent, sorted, k);
  }

  lemma AppendHead(sorted: seq<Tid>, chain: seq<Tid>)
    requires |chain| > 0
    ensures sorted + [chain[0]] + chain[1..] == sorted + chain
  {
  }

  /**
   * Below `parent`, a chain through exactly the remaining terms is the chain the
   * sort builds: every step finds precisely the next link of that chain.
   */
  lemma {:induction false} SortDescendantsFindsChain(store: ParentMap, terms: seq<Tid>, parent: Tid, sorted: seq<Tid>, chain: seq<Tid>)
    requires AllStored(store, terms)
    requires Distinct(terms)
    requires multiset(chain) == multiset(terms)
    requires parent !in terms
    requires HangsFrom(store, parent, chain)
    ensures SortDescendants(store, terms, parent, sorted) == Success(sorted + chain)
    decreases |terms|
  {
    assert |chain| == |multiset(chain)| == |multiset(terms)| == |terms|;
    if |terms| > 0 {
      assert parent !in multiset(chain);
      FirstChildIsHead(store, terms, parent, chain);
      var k := FirstWithParent(store, terms, parent).value;
      DescendOnce(store, terms, parent, sorted, k);
      DistinctRemoveAt(terms, k);
      TailThroughRest(terms, k, chain);
      TailHangs(store, parent, chain);
      SortDescendantsFindsChain(store, RemoveAt(terms, k), chain[0], sorted + [chain[0]], chain[1..]);
      PlaceHead(store, terms, parent, sorted, k, chain);
    } else {
      assert sorted + chain == sorted;
    }
  }

  /**
   * Given a valid single branch (term ids are never 0), the sort returns exactly
   * its root-to-leaf order.
   */
  lemma SortFindsBranch(store: ParentMap, tids: seq<Tid>, chain: seq<Tid>)
    requires NoParent !in store
    requires IsBranchOrder(store, Load(store, tids), chain)
    ensures SortByAncestorChain(store, tids) == Success(chain)
  {
    ConsHead(chain);
    RootHeadsBranch(store, Load(store, tids), chain);
    SortOfRoot(store, tids, FirstWithParent(store, Load(store, tids), NoParent).value, chain);
  }

  lemma ConsHead(s: seq<Tid>)
    requires |s| > 0
    ensures s == [s[0]] + s[1..]
  {
  }

  /** On a branch, the root found is the head of its order, and the descent yields the rest. */
  lemma RootHeadsBranch(store: ParentMap, terms: seq<Tid>, chain: seq<Tid>)
    requires NoParent !in store
    requires AllStored(store, terms) && Distinct(terms)
    requires IsBranchOrder(store, terms, chain)
    ensures FirstWithParent(store, terms, NoParent).Some?
    ensures var k := FirstWithParent(store, terms, NoParent).value;
      terms[k] == chain[0] && SortDescendants(store, RemoveAt(terms, k), terms[k], []) == Success(chain[1..])
  {
    assert |chain| == |multiset(chain)| == |multiset(terms)| == |terms|;
    assert NoParent !in chain by {
      forall j | 0 <= j < |chain| ensures chain[j] != NoParent {
        assert chain[j] in store;
      }
    }
    FirstChildIsHead(store, terms, NoParent, chain);
    var k := FirstWithParent(store, terms, NoParent).value;
    RemoveAtStored(store, terms, k);
    DistinctRemoveAt(terms, k);
    TailThroughRest(terms, k, chain);
    TailHangs(store, NoParent, chain);
    SortDescendantsFindsChain(store, RemoveAt(terms, k), chain[0], [], chain[1..]);
    assert [] + chain[1..] == chain[1..];
  }

  /** With the root at position `k` and its descendants found, the sort returns the whole chain. */
  lemma SortOfRoot(store: ParentMap, tids: seq<Tid>, k: nat, chain: seq<Tid>)
    requires |chain| > 0
    requires FirstWithParent(store, Load(store, tids), NoParent) == Some(k)
    requires Load(store, tids)[k] == chain[0]
    requires SortDescendants(store, RemoveAt(Load(store, tids), k), chain[0], []) == Success(chain[1..])
    ensures SortByAncestorChain(store, tids) == Success([chain[0]] + chain[1..])
  {
  }

  /**
   * The sort succeeds exactly when the loaded terms can be put in branch order;
   * otherwise it reports a broken chain (no root, or a disconnected remainder).
   */
  lemma SortSucceedsIffBranch(store: ParentMap, tids: seq<Tid>)
    requires NoParent !in store
    ensures SortByAncestorChain(store, tids).Success? <==>
            exists chain :: IsBranchOrder(store, Load(store, tids), chain)
  {
    var r := SortByAncestorChain(store, tids);
    if r.Success? {
      assert IsBranchOrder(store, Load(store, tids), r.value);
    }
    if exists chain :: IsBranchOrder(store, Load(store, tids), chain) {
      var chain :| IsBranchOrder(store, Load(store, tids), chain);
      SortFindsBranch(store, tids, chain);
    }
  }

  /**
   * A broken branch: 1 is a root, 2 hangs below 1, and 3 hangs below the
   * unloaded 99. After placing 1 and 2 nothing left hangs below 2, so 2 is the
   * term reported.
   */
  lemma BrokenChainExample()
    ensures SortByAncestorChain(map[1 := 0, 2 := 1, 3 := 99], [1, 2, 3]) == Failure(NoChildOf(2))
  {
    var store := map[1 := 0, 2 := 1, 3 := 99];
    LoadDistinctStored(store, [1, 2, 3]);
    BrokenBelowOne(store);
    assert FirstWithParent(store, [1, 2, 3], NoParent) == Some(0);
    assert RemoveAt([1, 2, 3], 0) == [2, 3];
  }

  lemma BrokenBelowOne(store: ParentMap)
    requires store == map[1 := 0, 2 := 1, 3 := 99]
    ensures SortDescendants(store, [2, 3], 1, []) == Failure(2)
  {
    assert FirstWithParent(store, [2, 3], 1) == Some(0);
    assert RemoveAt([2, 3], 0) == [3];
    assert FirstWithParent(store, [3], 2) == None;
    assert SortDescendants(store, [3], 2, [2]) == Failure(2);
  }

  /** Requesting distinct stored ids loads exactly them, in the order requested. */
  lemma {:induction false} LoadDistinctStored(store: ParentMap, tids: seq<Tid>)
    requires Distinct(tids) && AllStored(store, tids)
    ensures Load(store, tids) == tids
    decreases |tids|
  {
    if |tids| > 0 {
      var prefix := tids[..|tids| - 1];
      var t := tids[|tids| - 1];
      LoadDistinctStored(store, prefix);
      assert tids == prefix + [t];
      LoadSnoc(store, prefix, t);
    }
  }

  /** Requesting one more id loads it when it is stored and not loaded already. */
  lemma LoadSnoc(store: ParentMap, tids: seq<Tid>, t: Tid)
    ensures Load(store, tids + [t])
         == if t in store && t !in Load(store, tids) then Load(store, tids) + [t] else Load(store, tids)
  {
    assert (tids + [t])[..|tids|] == tids;
  }
}
