/**
 * The widget's form element (`formElement`): the default value of the text
 * field is the chain of referenced terms, root first, joined with "|"; the
 * tree selects the term named by the last segment of that value; and a form
 * submitted unedited goes back through `massageFormValues` unchanged.
 */
module Widget {
  import opened Wrappers
  import opened Decimal
  import opened Delimited
  import AncestorSort
  import JsTree
  import Materialiser

  /** Every id of a chain as PHP prints it, which is what `implode` joins. */
  function RenderChain(chain: seq<Tid>): (segments: seq<string>)
    ensures |segments| == |chain|
    ensures forall i | 0 <= i < |chain| :: segments[i] == IntToString(chain[i])
    ensures forall p | p in segments :: Bar !in p
    decreases |chain|
  {
    if |chain| == 0 then []
    else
      var last := chain[|chain| - 1];
      IntToStringNoBar(last);
      RenderChain(chain[..|chain| - 1]) + [IntToString(last)]
  }

  /** A non-empty rendered chain survives `implode` followed by `explode`. */
  lemma DefaultSegments(chain: seq<Tid>)
    requires |chain| > 0
    ensures Split(Join(RenderChain(chain), Bar), Bar) == RenderChain(chain)
  {
    SplitJoin(RenderChain(chain), Bar);
  }

  /**
   * `prepareDefaultValue($items)`: the root term's id when the field is empty,
   * otherwise the referenced terms sorted root first and joined with "|"; the
   * failures of the sort are passed on.
   */
  function PrepareDefaultValue(store: AncestorSort.ParentMap, items: seq<Tid>, rootTid: Tid)
    : (r: Result<string, AncestorSort.SortError>)
    ensures |items| == 0 ==> r == Success(IntToString(rootTid))
    ensures |items| > 0 ==> (r.Success? <==> AncestorSort.SortByAncestorChain(store, items).Success?)
    ensures |items| > 0 && r.Success? ==>
      Split(r.value, Bar) == RenderChain(AncestorSort.SortByAncestorChain(store, items).value)
    ensures r.Failure? ==> r.error == AncestorSort.SortByAncestorChain(store, items).error
  {
    if |items| == 0 then Success(IntToString(rootTid))
    else
      match AncestorSort.SortByAncestorChain(store, items)
      case Failure(e) => Failure(e)
      case Success(chain) =>
        DefaultSegments(chain);
        Success(Join(RenderChain(chain), Bar))
  }

  /**
   * `array_pop(explode("|", $default_value))`: the text after the last "|", or
   * the whole value when it has none.
   */
  function DefaultLeaf(value: string): (leaf: string)
    ensures Bar !in leaf
    ensures leaf == value || (|leaf| < |value| && value[|value| - |leaf| - 1] == Bar && value[|value| - |leaf|..] == leaf)
  {
    SplitLast(value, Bar);
    Last(Split(value, Bar))
  }

  /**
   * The last segment of `explode` is the whole text when there is no delimiter,
   * and otherwise the text after the last delimiter.
   */
  lemma {:induction false} SplitLast(s: string, sep: char)
    ensures var leaf := Last(Split(s, sep));
      if |Split(s, sep)| == 1 then leaf == s
      else |leaf| < |s| && s[|s| - |leaf| - 1] == sep && s[|s| - |leaf|..] == leaf
    decreases |s|
  {
    if |s| > 0 {
      SplitLast(s[1..], sep);
      var rest := Split(s[1..], sep);
      var leaf := Last(rest);
      if s[0] == sep || |rest| > 1 {
        assert Last(Split(s, sep)) == leaf;
        assert s[|s| - |leaf|..] == s[1..][|s[1..]| - |leaf|..];
      } else {
        assert Split(s, sep) == [[s[0]] + rest[0]];
        assert s == [s[0]] + s[1..];
      }
    }
  }

  /** The id of the term the form shows selected: the root when empty, else the deepest term of the chain. */
  function LeafTid(store: AncestorSort.ParentMap, items: seq<Tid>, rootTid: Tid): Tid
    requires PrepareDefaultValue(store, items, rootTid).Success?
  {
    if |items| == 0 then rootTid else Last(AncestorSort.SortByAncestorChain(store, items).value)
  }

  /** The last segment of the default value prints the leaf's id. */
  lemma DefaultLeafIsLeafTid(store: AncestorSort.ParentMap, items: seq<Tid>, rootTid: Tid)
    requires PrepareDefaultValue(store, items, rootTid).Success?
    ensures DefaultLeaf(PrepareDefaultValue(store, items, rootTid).value) == IntToString(LeafTid(store, items, rootTid))
  {
    var v := PrepareDefaultValue(store, items, rootTid).value;
    if |items| == 0 {
      IntToStringNoBar(rootTid);
      SplitPlain(v, Bar);
    }
  }

  /**
   * The `data` of the tree in `formElement`: the tree's records, with the last
   * segment of the default value as the leaf to select.
   */
  function FormTreeData(store: AncestorSort.ParentMap, items: seq<Tid>, rootTid: Tid, tree: seq<JsTree.Entry>)
    : (r: Result<seq<JsTree.JsNode>, AncestorSort.SortError>)
    ensures r.Success? <==> PrepareDefaultValue(store, items, rootTid).Success?
    ensures r.Success? ==> |r.value| == |tree| && forall i | 0 <= i < |tree| ::
      r.value[i].state == JsTree.Selected(true) <==>
      !JsTree.IsRootOption(tree[i].option) && tree[i].tid == LeafTid(store, items, rootTid)
  {
    match PrepareDefaultValue(store, items, rootTid)
    case Failure(e) => Failure(e)
    case Success(value) =>
      DefaultLeafIsLeafTid(store, items, rootTid);
      JsTree.SelectedIsLeaf(tree, LeafTid(store, items, rootTid));
      Success(JsTree.PrepareJsTreeData(tree, DefaultLeaf(value)))
  }

  /**
   * A form submitted with its default value unedited gives back the default
   * chain: its last segment is an id, so `massageFormValues` creates nothing.
   */
  lemma UneditedSubmission(store: AncestorSort.ParentMap, items: seq<Tid>, rootTid: Tid,
                           cache: Option<seq<string>>, mapping: map<string, string>, bundle: string,
                           terms: Materialiser.TermStore, sanitise: string -> string)
    requires PrepareDefaultValue(store, items, rootTid).Success?
    requires InPhpIntRange(LeafTid(store, items, rootTid))
    ensures var value := PrepareDefaultValue(store, items, rootTid).value;
      var chain := if |items| == 0 then [IntToString(rootTid)]
                   else RenderChain(AncestorSort.SortByAncestorChain(store, items).value);
      && Materialiser.MassageFormValues(value, cache, mapping, bundle, terms, sanitise)
           == Success(Materialiser.Submission(chain, cache, terms))
      && Join(chain, Bar) == value
  {
    var value := PrepareDefaultValue(store, items, rootTid).value;
    if |items| == 0 {
      IntToStringNoBar(rootTid);
      SplitPlain(value, Bar);
    }
    var tokens := Split(value, Bar);
    DefaultLeafIsLeafTid(store, items, rootTid);
    IsIntOfRendering(LeafTid(store, items, rootTid));
    assert !Materialiser.NeedsCreation(tokens);
    JoinSplit(value, Bar);
  }
}
