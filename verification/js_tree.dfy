/**
 * Serialising the options tree of the vocabulary into the records the JsTree
 * browser widget consumes (`prepareJsTreeData`).
 *
 * The input is the options listing of the vocabulary in pre-order: each term id
 * with its name prefixed by one '-' per nesting level. A single left-to-right
 * pass remembers the previous entry and, per depth, the parent that entries of
 * that depth currently hang below.
 */
module JsTree {
  import opened Wrappers
  import opened Decimal

  /** One option of the listing: a term id and its dash-prefixed name. */
  datatype Entry = Entry(tid: Tid, option: string)

  /** A record's `parent`: the root sentinel '#', another record, or PHP NULL (an unset slot read). */
  datatype ParentRef = Hash | Node(tid: Tid) | Null

  /** A record's `state`: the root carries only `opened => TRUE`, every other record only `selected`. */
  datatype NodeState = Opened | Selected(selected: bool)

  datatype JsNode = JsNode(id: Tid, parent: ParentRef, text: string, state: NodeState)

  /** `strspn($value, "-", 0)`: the number of leading dashes, the entry's depth. */
  function Depth(value: string): nat
    decreases |value|
  {
    if |value| > 0 && value[0] == '-' then 1 + Depth(value[1..]) else 0
  }

  /** `ltrim($value, "-")`. */
  function StripDashes(value: string): (text: string)
    ensures Depth(value) <= |value| && text == value[Depth(value)..]
    ensures |text| > 0 ==> text[0] != '-'
    decreases |value|
  {
    if |value| > 0 && value[0] == '-' then StripDashes(value[1..]) else value
  }

  /** `strpos($value, '-') === FALSE`: the entry is taken for the root. */
  predicate IsRootOption(value: string)
  {
    '-' !in value
  }

  /** The state of the pass: `$previous_tid` and `$parents_current_branch`. */
  datatype Cursor = Cursor(previous: Option<Entry>, parents: map<nat, ParentRef>)

  /** `strspn($tree[$previous_tid], "-", 0)`; before the first entry the lookup yields NULL, read as 0. */
  function PreviousDepth(c: Cursor): nat
  {
    if c.previous.Some? then Depth(c.previous.value.option) else 0
  }

  /** `$previous_tid` used as a parent. */
  function PreviousRef(c: Cursor): ParentRef
  {
    if c.previous.Some? then Node(c.previous.value.tid) else Null
  }

  /** `$parents_current_branch[$depth]`, NULL when that depth was never recorded. */
  function ParentAt(parents: map<nat, ParentRef>, d: nat): ParentRef
  {
    if d in parents then parents[d] else Null
  }

  /**
   * The parent of a non-root entry: a sibling of the previous entry, or the
   * start of a new branch at a shallower level, hangs below the parent recorded
   * for its depth; a deeper entry is the first child of the previous one.
   */
  function ParentOf(e: Entry, c: Cursor): ParentRef
  {
    var d := Depth(e.option);
    if d <= PreviousDepth(c) then ParentAt(c.parents, d) else PreviousRef(c)
  }

  /** One iteration of the `foreach`, its record: what entry `e` becomes after the entries the cursor saw. */
  function Record(e: Entry, c: Cursor, leaf: string): JsNode
  {
    if IsRootOption(e.option) then JsNode(e.tid, Hash, "/", Opened)
    else JsNode(e.tid, ParentOf(e, c), StripDashes(e.option), Selected(IntToString(e.tid) == leaf))
  }

  /**
   * One iteration of the `foreach`, its bookkeeping: `e` becomes the previous
   * entry, a root resets depth 0 to '#', and the first child of the previous
   * entry records that entry as the parent of its depth.
   */
  function Advance(e: Entry, c: Cursor): Cursor
  {
    if IsRootOption(e.option) then Cursor(Some(e), c.parents[0 := Hash])
    else
      var d := Depth(e.option);
      if d <= PreviousDepth(c) then Cursor(Some(e), c.parents)
      else Cursor(Some(e), c.parents[d := PreviousRef(c)])
  }

  /** The cursor after the entries of `tree`, starting from an empty one. */
  function CursorAfter(tree: seq<Entry>): Cursor
    decreases |tree|
  {
    if |tree| == 0 then Cursor(None, map[]) else Advance(tree[|tree| - 1], CursorAfter(tree[..|tree| - 1]))
  }

  /** The pass over the whole listing, as a left fold: the records so far, and the cursor. */
  function Pass(tree: seq<Entry>, leaf: string): (r: (seq<JsNode>, Cursor))
    ensures |r.0| == |tree| && r.1 == CursorAfter(tree)
    ensures forall i | 0 <= i < |tree| :: r.0[i].id == tree[i].tid
    ensures forall i | 0 <= i < |tree| && IsRootOption(tree[i].option) ::
      r.0[i] == JsNode(tree[i].tid, Hash, "/", Opened)
    ensures forall i | 0 <= i < |tree| && !IsRootOption(tree[i].option) ::
      r.0[i].text == StripDashes(tree[i].option) && r.0[i].state == Selected(IntToString(tree[i].tid) == leaf)
    decreases |tree|
  {
    if |tree| == 0 then ([], Cursor(None, map[]))
    else
      var e := tree[|tree| - 1];
      var (data, c) := Pass(tree[..|tree| - 1], leaf);
      (data + [Record(e, c, leaf)], Advance(e, c))
  }

  /**
   * `prepareJsTreeData($tree, $leaf_tid)`: one record per entry, in order, with
   * the entry's id. A dash-free entry becomes an opened root record below '#'
   * showing "/"; every other record shows its name without the dashes and is
   * selected exactly when its id prints as the leaf.
   */
  function PrepareJsTreeData(tree: seq<Entry>, leaf: string): (data: seq<JsNode>)
    ensures |data| == |tree|
    ensures forall i | 0 <= i < |tree| :: data[i].id == tree[i].tid
    ensures forall i | 0 <= i < |tree| && IsRootOption(tree[i].option) ::
      data[i].parent == Hash && data[i].text == "/" && data[i].state == Opened
    ensures forall i | 0 <= i < |tree| && !IsRootOption(tree[i].option) ::
      data[i].text == StripDashes(tree[i].option) &&
      (data[i].state == Selected(true) <==> IntToString(tree[i].tid) == leaf) &&
      data[i].state != Opened
  {
    Pass(tree, leaf).0
  }

  // ---------------------------------------------------------------------------
  // The reference definition of a record's parent
  // ---------------------------------------------------------------------------

  /** The last entry before position `n` whose depth is `d`. */
  function NearestAt(tree: seq<Entry>, n: nat, d: nat): (j: Option<nat>)
    requires n <= |tree|
    ensures j.Some? ==> j.value < n && Depth(tree[j.value].option) == d
    ensures j.Some? ==> forall k | j.value < k < n :: Depth(tree[k].option) != d
    ensures j.None? ==> forall k | 0 <= k < n :: Depth(tree[k].option) != d
    decreases n
  {
    if n == 0 then None
    else if Depth(tree[n - 1].option) == d then Some(n - 1)
    else NearestAt(tree, n - 1, d)
  }

  /**
   * The parent a pre-order listing gives entry `i`: the root sentinel at depth 0,
   * otherwise the nearest preceding entry exactly one level shallower.
   */
  function ExpectedParent(tree: seq<Entry>, i: nat): ParentRef
    requires i < |tree|
  {
    var d := Depth(tree[i].option);
    if IsRootOption(tree[i].option) || d == 0 then Hash
    else match NearestAt(tree, i, d - 1)
      case Some(j) => Node(tree[j].tid)
      case None => Null
  }

  /**
   * A listing the pass is written for: it starts at a dash-free root and its depth
   * rises by at most one level from one entry to the next.
   */
  predicate WellFormedListing(tree: seq<Entry>)
  {
    && (|tree| > 0 ==> IsRootOption(tree[0].option))
    && forall i | 0 < i < |tree| :: Depth(tree[i].option) <= Depth(tree[i - 1].option) + 1
  }

  /** The tids of a listing are distinct: they are the keys of a PHP array. */
  predicate DistinctIds(tree: seq<Entry>)
  {
    forall i, j | 0 <= i < j < |tree| :: tree[i].tid != tree[j].tid
  }

  // ---------------------------------------------------------------------------
  // Lemmas
  // ---------------------------------------------------------------------------

  lemma RootOptionDepth(value: string)
    requires IsRootOption(value)
    ensures Depth(value) == 0
  {
    if |value| > 0 {
      assert value[0] in value;
    }
  }

  /** After `n` entries, the cursor records for every depth up to the last one its nearest shallower entry. */
  predicate CursorMatches(tree: seq<Entry>, n: nat, c: Cursor)
    requires 1 <= n <= |tree|
  {
    && c.previous == Some(tree[n - 1])
    && 0 in c.parents && c.parents[0] == Hash
    && forall d | 1 <= d <= Depth(tree[n - 1].option) :: RecordsDepth(tree, n, c, d)
  }

  /** The cursor's parent for depth `d` is the last entry before position `n` one level shallower. */
  predicate RecordsDepth(tree: seq<Entry>, n: nat, c: Cursor, d: nat)
    requires n <= |tree| && d >= 1
  {
    d in c.parents && NearestAt(tree, n, d - 1).Some? && c.parents[d] == Node(tree[NearestAt(tree, n, d - 1).value].tid)
  }

  /** The `i`-th record is what one iteration makes of entry `i` after the entries before it. */
  lemma {:induction false} PassRecord(tree: seq<Entry>, leaf: string, i: nat)
    requires i < |tree|
    ensures Pass(tree, leaf).0[i] == Record(tree[i], CursorAfter(tree[..i]), leaf)
    decreases |tree|
  {
    var front := tree[..|tree| - 1];
    var data := Pass(front, leaf).0;
    var last := Record(tree[|tree| - 1], Pass(front, leaf).1, leaf);
    assert Pass(tree, leaf).0 == data + [last];
    if i < |tree| - 1 {
      PassRecord(front, leaf, i);
      assert front[..i] == tree[..i];
      assert (data + [last])[i] == data[i];
    } else {
      assert front == tree[..i];
    }
  }

  lemma {:induction false} CursorInvariant(tree: seq<Entry>, n: nat)
    requires WellFormedListing(tree)
    requires 1 <= n <= |tree|
    ensures CursorMatches(tree, n, CursorAfter(tree[..n]))
    decreases n
  {
    var prefix := tree[..n];
    assert prefix[..n - 1] == tree[..n - 1];
    var c := CursorAfter(tree[..n - 1]);
    var e := tree[n - 1];
    assert CursorAfter(prefix) == Advance(e, c);
    if n == 1 {
      RootOptionDepth(e.option);
    } else {
      CursorInvariant(tree, n - 1);
      if IsRootOption(e.option) {
        RootOptionDepth(e.option);
      } else if Depth(e.option) <= Depth(tree[n - 2].option) {
        SiblingKeepsCursor(tree, n, c);
      } else {
        ChildExtendsCursor(tree, n, c);
      }
    }
  }

  /** An entry no deeper than the previous one keeps the recorded parents. */
  lemma SiblingKeepsCursor(tree: seq<Entry>, n: nat, c: Cursor)
    requires 2 <= n <= |tree|
    requires CursorMatches(tree, n - 1, c)
    requires !IsRootOption(tree[n - 1].option) && Depth(tree[n - 1].option) <= Depth(tree[n - 2].option)
    ensures CursorMatches(tree, n, Advance(tree[n - 1], c))
  {
    var d := Depth(tree[n - 1].option);
    assert c.previous == Some(tree[n - 2]) && PreviousDepth(c) == Depth(tree[n - 2].option);
    var c' := Advance(tree[n - 1], c);
    assert c'.parents == c.parents && c'.previous == Some(tree[n - 1]);
    forall k | 1 <= k <= d
      ensures RecordsDepth(tree, n, c', k)
    {
      assert d != k - 1;
      assert NearestAt(tree, n, k - 1) == NearestAt(tree, n - 1, k - 1);
      assert k <= Depth(tree[n - 2].option);
      assert RecordsDepth(tree, n - 1, c, k);
    }
    assert 0 in c'.parents && c'.parents[0] == Hash;
  }

  /** An entry one level deeper than the previous one records it as the parent of its depth. */
  lemma ChildExtendsCursor(tree: seq<Entry>, n: nat, c: Cursor)
    requires WellFormedListing(tree)
    requires 2 <= n <= |tree|
    requires CursorMatches(tree, n - 1, c)
    requires !IsRootOption(tree[n - 1].option) && Depth(tree[n - 1].option) > Depth(tree[n - 2].option)
    ensures CursorMatches(tree, n, Advance(tree[n - 1], c))
  {
    var d := Depth(tree[n - 1].option);
    var c' := Advance(tree[n - 1], c);
    assert d == Depth(tree[n - 2].option) + 1;
    assert c.previous == Some(tree[n - 2]);
    assert c'.parents == c.parents[d := Node(tree[n - 2].tid)];
    assert c'.previous == Some(tree[n - 1]);
    assert 0 in c'.parents && c'.parents[0] == Hash;
    forall k | 1 <= k <= d
      ensures RecordsDepth(tree, n, c', k)
    {
      assert d != k - 1;
      assert NearestAt(tree, n, k - 1) == NearestAt(tree, n - 1, k - 1);
      if k == d {
        assert NearestAt(tree, n - 1, k - 1) == Some(n - 2);
      } else {
        assert k <= Depth(tree[n - 2].option);
        assert RecordsDepth(tree, n - 1, c, k);
        assert c'.parents[k] == c.parents[k];
      }
    }
  }

  /** The parent the pass gives entry `i` is the one a pre-order listing gives it. */
  lemma RecordParent(tree: seq<Entry>, i: nat)
    requires WellFormedListing(tree)
    requires 0 < i < |tree| && !IsRootOption(tree[i].option)
    ensures ParentOf(tree[i], CursorAfter(tree[..i])) == ExpectedParent(tree, i) != Null
  {
    var e := tree[i];
    var d := Depth(e.option);
    CursorInvariant(tree, i);
    var c := CursorAfter(tree[..i]);
    var pd := Depth(tree[i - 1].option);
    assert PreviousDepth(c) == pd;
    if d == 0 {
      assert ParentAt(c.parents, 0) == Hash;
    } else if d <= pd {
      assert RecordsDepth(tree, i, c, d);
    } else {
      assert NearestAt(tree, i, d - 1) == Some(i - 1);
    }
  }

  /**
   * On a well-formed listing every record hangs below the nearest preceding entry
   * one level shallower (the root sentinel at depth 0), so no parent is NULL.
   */
  lemma ParentIsNearestShallower(tree: seq<Entry>, leaf: string)
    requires WellFormedListing(tree)
    ensures forall i | 0 <= i < |tree| :: PrepareJsTreeData(tree, leaf)[i].parent == ExpectedParent(tree, i)
    ensures forall i | 0 <= i < |tree| :: PrepareJsTreeData(tree, leaf)[i].parent != Null
  {
    var data := PrepareJsTreeData(tree, leaf);
    forall i | 0 <= i < |tree|
      ensures data[i].parent == ExpectedParent(tree, i) != Null
    {
      PassRecord(tree, leaf, i);
      if i > 0 && !IsRootOption(tree[i].option) {
        RecordParent(tree, i);
      }
    }
  }

  /** With distinct ids, at most one record is selected. */
  lemma AtMostOneSelected(tree: seq<Entry>, leaf: string)
    requires DistinctIds(tree)
    ensures forall i, j |
      && 0 <= i < |tree| && 0 <= j < |tree|
      && PrepareJsTreeData(tree, leaf)[i].state == Selected(true)
      && PrepareJsTreeData(tree, leaf)[j].state == Selected(true)
      :: i == j
  {
    var data := PrepareJsTreeData(tree, leaf);
    forall i, j | 0 <= i < |tree| && 0 <= j < |tree| && data[i].state == Selected(true) && data[j].state == Selected(true)
      ensures i == j
    {
      IntToStringInjective(tree[i].tid, tree[j].tid);
    }
  }

  /** The selected records are exactly the non-root records of the leaf's term. */
  lemma SelectedIsLeaf(tree: seq<Entry>, leaf: Tid)
    ensures forall i | 0 <= i < |tree| ::
      PrepareJsTreeData(tree, IntToString(leaf))[i].state == Selected(true) <==>
      !IsRootOption(tree[i].option) && tree[i].tid == leaf
  {
    forall i | 0 <= i < |tree| {
      IntToStringInjective(tree[i].tid, leaf);
    }
  }

  lemma PhotosDocsOptions()
    ensures IsRootOption("root")
    ensures !IsRootOption("-Photos") && !IsRootOption("-Docs") && !IsRootOption("--2024")
    ensures StripDashes("-Photos") == "Photos" && StripDashes("-Docs") == "Docs" && StripDashes("--2024") == "2024"
    ensures Depth("root") == 0 && Depth("-Photos") == 1 && Depth("-Docs") == 1 && Depth("--2024") == 2
  {
    assert "-Photos"[0] == '-' && "-Docs"[0] == '-' && "--2024"[0] == '-';
  }

  lemma PhotosDocsIds()
    ensures IntToString(4) == "4" && IntToString(1) != "4" && IntToString(2) != "4" && IntToString(3) != "4"
  {
    assert IntToString(4) == "4";
    IntToStringInjective(1, 4);
    IntToStringInjective(2, 4);
    IntToStringInjective(3, 4);
  }

  /** The four-term listing is well formed, and its expected parents. */
  lemma PhotosDocsListing()
    ensures var tree := [Entry(1, "root"), Entry(2, "-Photos"), Entry(3, "-Docs"), Entry(4, "--2024")];
      && WellFormedListing(tree)
      && ExpectedParent(tree, 0) == Hash && ExpectedParent(tree, 1) == Node(1)
      && ExpectedParent(tree, 2) == Node(1) && ExpectedParent(tree, 3) == Node(3)
  {
    var tree := [Entry(1, "root"), Entry(2, "-Photos"), Entry(3, "-Docs"), Entry(4, "--2024")];
    PhotosDocsOptions();
    assert NearestAt(tree, 1, 0) == Some(0);
    assert NearestAt(tree, 2, 0) == Some(0);
    assert NearestAt(tree, 3, 1) == Some(2);
  }

  /**
   * A four-term listing: the root, two children, and a grandchild below the
   * second child, with the grandchild as the leaf.
   */
  lemma PhotosDocsExample()
    ensures PrepareJsTreeData(
              [Entry(1, "root"), Entry(2, "-Photos"), Entry(3, "-Docs"), Entry(4, "--2024")], "4")
         == [JsNode(1, Hash, "/", Opened),
             JsNode(2, Node(1), "Photos", Selected(false)),
             JsNode(3, Node(1), "Docs", Selected(false)),
             JsNode(4, Node(3), "2024", Selected(true))]
  {
    var tree := [Entry(1, "root"), Entry(2, "-Photos"), Entry(3, "-Docs"), Entry(4, "--2024")];
    PhotosDocsOptions();
    PhotosDocsIds();
    PhotosDocsListing();
    ParentIsNearestShallower(tree, "4");
    var data := PrepareJsTreeData(tree, "4");
    assert data[0] == JsNode(1, Hash, "/", Opened);
    assert data[1] == JsNode(2, Node(1), "Photos", Selected(false));
    assert data[2] == JsNode(3, Node(1), "Docs", Selected(false));
    assert data[3] == JsNode(4, Node(3), "2024", Selected(true));
  }
}
