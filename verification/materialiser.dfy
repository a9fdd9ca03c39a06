/**
 * Turning the submitted "|"-separated value of the widget into a chain of term
 * ids (`massageFormValues`).
 *
 * Each segment is either the id of an existing term or the name of a term the
 * editor typed in the browser. When the last segment is a name, every name is
 * created as a new term below the segment to its left, and the resulting chain
 * is kept in the form state so that the second call of the same submission
 * returns it instead of creating the terms again.
 */
module Materialiser {
  import opened Wrappers
  import opened Decimal
  import opened Delimited

  /** A term the widget asks the store to create: `['name' => …, 'parent' => …, 'vid' => …]`. */
  datatype NewTerm = NewTerm(name: string, parent: Option<string>, vid: string)

  /**
   * The term store as the widget sees it: ids are handed out in sequence, the
   * term created `k`-th receiving `base + k`.
   */
  datatype TermStore = TermStore(base: Tid, created: seq<NewTerm>)
  {
    /** The id the next created term receives. */
    function NextId(): Tid
    {
      base + |created|
    }
  }

  /** The chain returned, the form-state cache and the store after a call. */
  datatype Submission = Submission(chain: seq<string>, cache: Option<seq<string>>, store: TermStore)

  datatype MaterialiseError = MisconfiguredVocabulary

  /**
   * How the widget reads segments: which ones are term ids (`isInt`), and how
   * the id of a created term reads back as a segment.
   */
  datatype Reading = Reading(isId: string -> bool, render: Tid -> string)

  /** The widget's own reading: `isInt`, and PHP's string conversion of an id. */
  const Php: Reading := Reading(IsInt, IntToString)

  /** The number of segments that are not ids: the names to create. */
  function NameCount(rd: Reading, tokens: seq<string>): nat
    decreases |tokens|
  {
    if |tokens| == 0 then 0
    else NameCount(rd, tokens[..|tokens| - 1]) + (if rd.isId(tokens[|tokens| - 1]) then 0 else 1)
  }

  /** `$selected_values[$key - 1]`: the resolved segment to the left; NULL left of the first. */
  function ParentToken(chain: seq<string>, j: nat): Option<string>
    requires j <= |chain|
  {
    if j == 0 then None else Some(chain[j - 1])
  }

  /**
   * `!empty($mapping[$media_type_name])`: the vocabulary configured for the media
   * type, absent when unset or empty in PHP's sense ("" and "0").
   */
  function VocabularyFor(mapping: map<string, string>, bundle: string): Option<string>
  {
    if bundle in mapping && mapping[bundle] != "" && mapping[bundle] != "0" then Some(mapping[bundle]) else None
  }

  /**
   * Segment `j` of `tokens` has been resolved into `chain[j]`: an id is kept, and
   * a name was created as the `k`-th new term of `after` (counting from the
   * store `before`), in vocabulary `vid`, below the resolved segment to its left,
   * and replaced by the id it received.
   */
  predicate SegmentResolved(rd: Reading, tokens: seq<string>, j: nat, chain: seq<string>,
                            before: TermStore, after: TermStore, vid: string, sanitise: string -> string)
    requires j < |tokens| && |chain| == |tokens|
  {
    if rd.isId(tokens[j]) then chain[j] == tokens[j]
    else
      var k := |before.created| + NameCount(rd, tokens[..j]);
      && k < |after.created|
      && after.created[k] == NewTerm(sanitise(tokens[j]), ParentToken(chain, j), vid)
      && chain[j] == rd.render(before.base + k)
  }

  /**
   * The segments `tokens` have been resolved into `chain`, turning the store
   * `before` into `after`: every segment is resolved, the names in order, and
   * nothing else is created.
   */
  predicate Resolved(rd: Reading, tokens: seq<string>, chain: seq<string>, before: TermStore, after: TermStore,
                     vid: string, sanitise: string -> string)
  {
    && |chain| == |tokens|
    && after.base == before.base
    && |after.created| == |before.created| + NameCount(rd, tokens)
    && after.created[..|before.created|] == before.created
    && forall j | 0 <= j < |tokens| :: SegmentResolved(rd, tokens, j, chain, before, after, vid, sanitise)
  }

  lemma NameCountStep(rd: Reading, tokens: seq<string>, i: nat)
    requires i < |tokens|
    ensures NameCount(rd, tokens[..i + 1]) == NameCount(rd, tokens[..i]) + (if rd.isId(tokens[i]) then 0 else 1)
  {
    assert tokens[..i + 1][..i] == tokens[..i];
  }

  lemma {:induction false} NameCountMonotone(rd: Reading, tokens: seq<string>, i: nat, j: nat)
    requires i <= j <= |tokens|
    ensures NameCount(rd, tokens[..i]) <= NameCount(rd, tokens[..j])
    decreases j - i
  {
    if i < j {
      NameCountStep(rd, tokens, j - 1);
      NameCountMonotone(rd, tokens, i, j - 1);
    }
  }

  /**
   * The `foreach` over the segments, as a left fold: the chain resolved so far is
   * the live `$selected_values`, so a name's parent is the already resolved
   * segment to its left.
   */
  function Resolve(rd: Reading, tokens: seq<string>, store: TermStore, vid: string, sanitise: string -> string)
    : (r: (seq<string>, TermStore))
    ensures Resolved(rd, tokens, r.0, store, r.1, vid, sanitise)
    decreases |tokens|
  {
    if |tokens| == 0 then ([], store)
    else
      var front := tokens[..|tokens| - 1];
      var (chain, mid) := Resolve(rd, front, store, vid, sanitise);
      var t := tokens[|tokens| - 1];
      if rd.isId(t) then
        KeptLast(rd, tokens, store, vid, sanitise, chain, mid);
        ResolveStep(rd, tokens, store, vid, sanitise, chain, mid, chain + [t], mid);
        (chain + [t], mid)
      else
        var after := mid.(created := mid.created + [NewTerm(sanitise(t), ParentToken(chain, |chain|), vid)]);
        CreatedLast(rd, tokens, store, vid, sanitise, chain, mid);
        ResolveStep(rd, tokens, store, vid, sanitise, chain, mid, chain + [rd.render(mid.NextId())], after);
        (chain + [rd.render(mid.NextId())], after)
  }

  /** An id segment is kept as it is. */
  lemma KeptLast(rd: Reading, tokens: seq<string>, store: TermStore, vid: string, sanitise: string -> string,
                 chain: seq<string>, mid: TermStore)
    requires |tokens| > 0 && rd.isId(tokens[|tokens| - 1])
    requires |chain| == |tokens| - 1 && mid.base == store.base
    requires |mid.created| == |store.created| + NameCount(rd, tokens[..|tokens| - 1])
    ensures |mid.created| == |store.created| + NameCount(rd, tokens)
    ensures SegmentResolved(rd, tokens, |tokens| - 1, chain + [tokens[|tokens| - 1]], store, mid, vid, sanitise)
  {
  }

  /** A name segment is created below its left neighbour and replaced by the new id. */
  lemma CreatedLast(rd: Reading, tokens: seq<string>, store: TermStore, vid: string, sanitise: string -> string,
                    chain: seq<string>, mid: TermStore)
    requires |tokens| > 0 && !rd.isId(tokens[|tokens| - 1])
    requires |chain| == |tokens| - 1 && mid.base == store.base
    requires |mid.created| == |store.created| + NameCount(rd, tokens[..|tokens| - 1])
    ensures var t := tokens[|tokens| - 1];
      var after := mid.(created := mid.created + [NewTerm(sanitise(t), ParentToken(chain, |chain|), vid)]);
      && |after.created| == |store.created| + NameCount(rd, tokens)
      && SegmentResolved(rd, tokens, |tokens| - 1, chain + [rd.render(mid.NextId())], store, after, vid, sanitise)
  {
    var n := |tokens| - 1;
    var chain' := chain + [rd.render(mid.NextId())];
    if n > 0 {
      assert chain'[n - 1] == chain[n - 1];
    }
    assert ParentToken(chain', n) == ParentToken(chain, |chain|);
  }

  /** Resolving one more segment keeps the records of the earlier segments. */
  lemma EarlierSegmentKept(rd: Reading, tokens: seq<string>, j: nat, store: TermStore, vid: string,
                           sanitise: string -> string, chain: seq<string>, mid: TermStore,
                           chain': seq<string>, after: TermStore)
    requires j < |tokens| - 1
    requires |chain| == |tokens| - 1 && |chain'| == |tokens| && chain'[..|chain|] == chain
    requires |mid.created| <= |after.created| && after.created[..|mid.created|] == mid.created
    requires |mid.created| == |store.created| + NameCount(rd, tokens[..|tokens| - 1])
    requires SegmentResolved(rd, tokens[..|tokens| - 1], j, chain, store, mid, vid, sanitise)
    ensures SegmentResolved(rd, tokens, j, chain', store, after, vid, sanitise)
  {
    var front := tokens[..|tokens| - 1];
    assert tokens[j] == front[j] && tokens[..j] == front[..j];
    assert chain'[j] == chain[j];
    assert ParentToken(chain', j) == ParentToken(chain, j) by {
      if j > 0 {
        assert chain'[j - 1] == chain[j - 1];
      }
    }
    if !rd.isId(tokens[j]) {
      var k := |store.created| + NameCount(rd, front[..j]);
      NameCountStep(rd, front, j);
      NameCountMonotone(rd, front, j + 1, |front|);
      assert k < |mid.created|;
      assert after.created[k] == mid.created[k] by {
        assert after.created[k] == after.created[..|mid.created|][k];
      }
    }
  }

  /**
   * Resolving one more segment, recorded correctly, extends the chain and the
   * store and keeps what was there.
   */
  lemma ResolveStep(rd: Reading, tokens: seq<string>, store: TermStore, vid: string, sanitise: string -> string,
                    chain: seq<string>, mid: TermStore, chain': seq<string>, after: TermStore)
    requires |tokens| > 0
    requires Resolved(rd, tokens[..|tokens| - 1], chain, store, mid, vid, sanitise)
    requires |chain'| == |tokens| && chain'[..|chain|] == chain
    requires after.base == mid.base && (after == mid || exists t :: after == mid.(created := mid.created + [t]))
    requires |after.created| == |store.created| + NameCount(rd, tokens)
    requires SegmentResolved(rd, tokens, |tokens| - 1, chain', store, after, vid, sanitise)
    ensures Resolved(rd, tokens, chain', store, after, vid, sanitise)
  {
    var n := |tokens| - 1;
    StoreGrows(store, mid, after);
    forall j | 0 <= j < n
      ensures SegmentResolved(rd, tokens, j, chain', store, after, vid, sanitise)
    {
      EarlierSegmentKept(rd, tokens, j, store, vid, sanitise, chain, mid, chain', after);
    }
  }

  /** Appending to the created terms keeps every earlier prefix. */
  lemma StoreGrows(store: TermStore, mid: TermStore, after: TermStore)
    requires |store.created| <= |mid.created| && mid.created[..|store.created|] == store.created
    requires after == mid || exists t :: after == mid.(created := mid.created + [t])
    ensures |mid.created| <= |after.created| && after.created[..|mid.created|] == mid.created
    ensures after.created[..|store.created|] == store.created
  {
    assert after.created[..|mid.created|] == mid.created;
    assert after.created[..|store.created|] == after.created[..|mid.created|][..|store.created|];
  }

  /** `count($selected_values) > 0` and the last segment is not an integer. */
  predicate NeedsCreation(tokens: seq<string>)
  {
    |tokens| > 0 && !IsInt(Last(tokens))
  }

  /** `!empty($form_state->get('media_directory_tid_chain_selected'))`. */
  predicate CacheHit(cache: Option<seq<string>>)
  {
    cache.Some? && |cache.value| > 0
  }

  /**
   * `massageFormValues` on the split segments, the form-state cache, the
   * configured vocabulary and the term store.
   */
  function Materialise(tokens: seq<string>, cache: Option<seq<string>>, vocab: Option<string>,
                       store: TermStore, sanitise: string -> string): (r: Result<Submission, MaterialiseError>)
    ensures !NeedsCreation(tokens) ==> r == Success(Submission(tokens, cache, store))
    ensures NeedsCreation(tokens) && CacheHit(cache) ==> r == Success(Submission(cache.value, cache, store))
    ensures r.Failure? <==> NeedsCreation(tokens) && !CacheHit(cache) && vocab.None?
    ensures r.Success? && NeedsCreation(tokens) && !CacheHit(cache) ==>
      && Resolved(Php, tokens, r.value.chain, store, r.value.store, vocab.value, sanitise)
      && r.value.cache == Some(r.value.chain)
  {
    if |tokens| == 0 then Success(Submission(tokens, cache, store))
    else if IsInt(tokens[|tokens| - 1]) then Success(Submission(tokens, cache, store))
    else if cache.Some? && |cache.value| > 0 then Success(Submission(cache.value, cache, store))
    else if vocab.None? then Failure(MisconfiguredVocabulary)
    else
      var (chain, store') := Resolve(Php, tokens, store, vocab.value, sanitise);
      Success(Submission(chain, Some(chain), store'))
  }

  /** `massageFormValues($values, …)` on the raw field value. */
  function MassageFormValues(value: string, cache: Option<seq<string>>, mapping: map<string, string>,
                             bundle: string, store: TermStore, sanitise: string -> string)
    : (r: Result<Submission, MaterialiseError>)
    ensures r == Materialise(Split(value, Bar), cache, VocabularyFor(mapping, bundle), store, sanitise)
    ensures r.Success? && !NeedsCreation(Split(value, Bar)) ==> Join(r.value.chain, Bar) == value
    ensures r.Failure? <==>
      && NeedsCreation(Split(value, Bar)) && !CacheHit(cache)
      && (bundle !in mapping || mapping[bundle] == "" || mapping[bundle] == "0")
  {
    JoinSplit(value, Bar);
    Materialise(Split(value, Bar), cache, VocabularyFor(mapping, bundle), store, sanitise)
  }

  // ---------------------------------------------------------------------------
  // Lemmas
  // ---------------------------------------------------------------------------

  /**
   * The second call of a submission, given the cache and store the first call
   * left, returns the same chain and creates nothing.
   */
  lemma MaterialiseIdempotent(tokens: seq<string>, cache: Option<seq<string>>, vocab: Option<string>,
                              store: TermStore, sanitise: string -> string)
    requires Materialise(tokens, cache, vocab, store, sanitise).Success?
    ensures var first := Materialise(tokens, cache, vocab, store, sanitise).value;
      Materialise(tokens, first.cache, vocab, first.store, sanitise) == Success(first)
  {
  }

  lemma {:induction false} NameCountBound(rd: Reading, tokens: seq<string>)
    ensures NameCount(rd, tokens) <= |tokens|
    decreases |tokens|
  {
    if |tokens| > 0 {
      NameCountBound(rd, tokens[..|tokens| - 1]);
    }
  }

  /**
   * After a creating call the chain holds only term ids: every segment passes
   * `isInt`, provided the ids handed out fit a PHP integer.
   */
  lemma CreatedChainIsIds(tokens: seq<string>, vocab: string, store: TermStore, sanitise: string -> string)
    requires NeedsCreation(tokens)
    requires InPhpIntRange(store.base) && InPhpIntRange(store.NextId() + |tokens|)
    ensures var r := Materialise(tokens, None, Some(vocab), store, sanitise);
      r.Success? && |r.value.chain| == |tokens| && forall j | 0 <= j < |tokens| :: IsInt(r.value.chain[j])
  {
    var r := Materialise(tokens, None, Some(vocab), store, sanitise).value;
    forall j | 0 <= j < |tokens| ensures IsInt(r.chain[j]) {
      SegmentIsId(tokens, j, r.chain, store, r.store, vocab, sanitise);
    }
  }

  /** A resolved segment is an id: kept because it was one, or the rendering of a fresh id in range. */
  lemma SegmentIsId(tokens: seq<string>, j: nat, chain: seq<string>, before: TermStore, after: TermStore,
                    vid: string, sanitise: string -> string)
    requires j < |tokens| && |chain| == |tokens|
    requires SegmentResolved(Php, tokens, j, chain, before, after, vid, sanitise)
    requires InPhpIntRange(before.base) && InPhpIntRange(before.NextId() + |tokens|)
    ensures IsInt(chain[j])
  {
    if !IsInt(tokens[j]) {
      var id := before.base + |before.created| + NameCount(Php, tokens[..j]);
      FreshIdInRange(tokens, j, before);
      assert chain[j] == IntToString(id);
      IsIntOfRendering(id);
    }
  }

  /** The id the `j`-th segment would receive fits a PHP integer. */
  lemma FreshIdInRange(tokens: seq<string>, j: nat, before: TermStore)
    requires j < |tokens|
    requires InPhpIntRange(before.base) && InPhpIntRange(before.NextId() + |tokens|)
    ensures InPhpIntRange(before.base + |before.created| + NameCount(Php, tokens[..j]))
  {
    NameCountMonotone(Php, tokens, j, |tokens|);
    NameCountBound(Php, tokens);
    assert tokens[..|tokens|] == tokens;
  }

  lemma VacationSummerSplit()
    ensures Split("5|Vacation|Summer", Bar) == ["5", "Vacation", "Summer"]
  {
    assert Join(["5", "Vacation", "Summer"], Bar) == "5|Vacation|Summer";
    SplitJoin(["5", "Vacation", "Summer"], Bar);
  }

  lemma VacationSummerSegments()
    ensures IsInt("5") && !IsInt("Vacation") && !IsInt("Summer")
  {
    assert CanonicalValue("5") == 5;
  }

  lemma VacationSummerIds()
    ensures IntToString(6) == "6" && IntToString(7) == "7"
  {
  }

  /** The resolution of "5", "Vacation", "Summer" under any reading that takes only "5" for an id. */
  lemma VacationSummerResolved(rd: Reading, vid: string, sanitise: string -> string)
    requires rd.isId("5") && !rd.isId("Vacation") && !rd.isId("Summer")
    ensures Resolve(rd, ["5", "Vacation", "Summer"], TermStore(6, []), vid, sanitise)
      == (["5", rd.render(6), rd.render(7)],
          TermStore(6, [NewTerm(sanitise("Vacation"), Some("5"), vid),
                        NewTerm(sanitise("Summer"), Some(rd.render(6)), vid)]))
  {
    var tokens := ["5", "Vacation", "Summer"];
    var store := TermStore(6, []);
    var s1: seq<string> := ["5"];
    var s2: seq<string> := ["5", "Vacation"];
    assert s1[..0] == [] && s2[..1] == s1 && tokens[..2] == s2;
    assert Resolve(rd, [], store, vid, sanitise) == ([], store);
    var r1 := Resolve(rd, s1, store, vid, sanitise);
    assert s1[|s1| - 1] == "5";
    assert r1.1 == store;
    assert r1.0 == [] + ["5"];
    assert r1.0 == ["5"];
    assert r1 == (["5"], store);
    var vacation := NewTerm(sanitise("Vacation"), Some("5"), vid);
    var r2 := Resolve(rd, s2, store, vid, sanitise);
    assert s2[|s2| - 1] == "Vacation";
    assert ParentToken(r1.0, 1) == Some("5");
    assert r2.0 == ["5"] + [rd.render(6)] == ["5", rd.render(6)];
    assert r2.1.created == [] + [vacation] == [vacation];
    var r3 := Resolve(rd, tokens, store, vid, sanitise);
    assert tokens[|tokens| - 1] == "Summer";
    assert ParentToken(r2.0, 2) == Some(rd.render(6));
    assert r3.0 == ["5", rd.render(6)] + [rd.render(7)] == ["5", rd.render(6), rd.render(7)];
    assert r3.1.created == [vacation] + [NewTerm(sanitise("Summer"), Some(rd.render(6)), vid)]
      == [vacation, NewTerm(sanitise("Summer"), Some(rd.render(6)), vid)];
    assert r3.1.base == 6;
  }

  /**
   * An existing term 5 followed by two typed names: "Vacation" is created below
   * 5 with id 6, "Summer" below 6 with id 7, and the chain is 5, 6, 7.
   */
  lemma VacationSummerExample(vid: string)
    requires vid != "" && vid != "0"
    ensures MassageFormValues("5|Vacation|Summer", None, map["images" := vid], "images", TermStore(6, []), s => s)
      == Success(Submission(["5", "6", "7"], Some(["5", "6", "7"]),
                            TermStore(6, [NewTerm("Vacation", Some("5"), vid), NewTerm("Summer", Some("6"), vid)])))
  {
    VacationSummerSplit();
    VacationSummerSegments();
    VacationSummerIds();
    VacationSummerResolved(Php, vid, s => s);
  }
}
