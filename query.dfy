/**
 * The working set and what is read from it: which records survive every
 * dimension's filter and the deleted list (`_applyContentChanges`), in what
 * order, and the greatest/least record of a dimension (`_topBottom`).
 *
 * A dimension is a key accessor plus the one filter currently applied to it.
 */
module Query {
  import opened Wrappers
  import opened Keys
  import opened Seqs
  import opened Bits32
  import opened Sorting
  import opened Filters

  /**
   * Where a dimension reads its key: an attribute of the record (the
   * accessor `d[property]`, null when missing), or the bitmask cached on the
   * record by `_createFilterBoolean`. A record added later has no cached
   * mask and reads as null.
   */
  datatype KeySource = Attribute(property: string) | CachedMask(masks: map<Record, Mask>)

  datatype Dimension = Dimension(source: KeySource, filter: DimFilter)

  function KeyOf(r: Record, src: KeySource): DimKey
  {
    match src
    case Attribute(p) => Scalar(Get(r, p))
    case CachedMask(masks) => if r in masks then MaskKey(masks[r]) else Scalar(KNull)
  }

  /** The record passes the filter of every dimension. */
  predicate Passes(r: Record, dims: map<string, Dimension>, callbacks: map<string, Key -> bool>, upperInclusive: bool)
  {
    forall d :: d in dims ==> Admits(dims[d].filter, KeyOf(r, dims[d].source), callbacks, upperInclusive)
  }

  /**
   * `deletedModelIds`: the primary key of every deleted record that has one.
   * A record without the attribute yields `undefined`, which equals no key.
   */
  function DeletedIds(deleted: seq<Record>, primaryKey: string): (ids: seq<Key>)
    ensures |ids| <= |deleted|
  {
    if deleted == [] then []
    else
      var p := deleted[..|deleted| - 1];
      var last := deleted[|deleted| - 1];
      DeletedIds(p, primaryKey) + (if primaryKey in last.attrs then [last.attrs[primaryKey]] else [])
  }

  /** A key is a deleted id exactly when some deleted record carries it as its primary key. */
  lemma {:induction false} DeletedIdsMembers(deleted: seq<Record>, primaryKey: string)
    ensures forall k :: k in DeletedIds(deleted, primaryKey) <==>
              exists r :: r in deleted && primaryKey in r.attrs && r.attrs[primaryKey] == k
  {
    if deleted != [] {
      var p := deleted[..|deleted| - 1];
      DeletedIdsMembers(p, primaryKey);
      assert forall r :: r in deleted <==> r in p || r == deleted[|deleted| - 1];
    }
  }

  /** The records that pass every filter and whose primary key was not deleted, in their order. */
  function Survivors(records: seq<Record>, dims: map<string, Dimension>, excluded: seq<Key>, primaryKey: string,
                     callbacks: map<string, Key -> bool>, upperInclusive: bool): (r: seq<Record>)
    ensures |r| <= |records|
  {
    if records == [] then []
    else
      var p := records[..|records| - 1];
      var last := records[|records| - 1];
      var rest := Survivors(p, dims, excluded, primaryKey, callbacks, upperInclusive);
      if Passes(last, dims, callbacks, upperInclusive) && Get(last, primaryKey) !in excluded then rest + [last]
      else rest
  }

  lemma {:induction false} SurvivorsMembers(records: seq<Record>, dims: map<string, Dimension>, excluded: seq<Key>,
                                            primaryKey: string, callbacks: map<string, Key -> bool>, upperInclusive: bool)
    ensures forall x :: x in Survivors(records, dims, excluded, primaryKey, callbacks, upperInclusive) <==>
              x in records && Passes(x, dims, callbacks, upperInclusive) && Get(x, primaryKey) !in excluded
  {
    if records != [] {
      var p := records[..|records| - 1];
      SurvivorsMembers(p, dims, excluded, primaryKey, callbacks, upperInclusive);
      assert forall x :: x in records <==> x in p || x == records[|records| - 1];
    }
  }

  /**
   * `_applyContentChanges`: the survivors as the primary-key dimension's
   * `top(Infinity)` returns them, descending by primary key, then sorted by
   * the configured sort property when there is one.
   */
  function Recompute(records: seq<Record>, dims: map<string, Dimension>, deleted: seq<Record>, primaryKey: string,
                     sortProperty: string, isAscending: bool,
                     callbacks: map<string, Key -> bool>, upperInclusive: bool): seq<Record>
  {
    var top := SortedContent(Survivors(records, dims, DeletedIds(deleted, primaryKey), primaryKey, callbacks, upperInclusive),
                             primaryKey, false);
    if sortProperty == "" then top else SortedContent(top, sortProperty, isAscending)
  }

  /** Sorting only reorders: the recomputed content is a permutation of the survivors. */
  lemma RecomputePermutes(records: seq<Record>, dims: map<string, Dimension>, deleted: seq<Record>, primaryKey: string,
                          sortProperty: string, isAscending: bool,
                          callbacks: map<string, Key -> bool>, upperInclusive: bool)
    ensures multiset(Recompute(records, dims, deleted, primaryKey, sortProperty, isAscending, callbacks, upperInclusive))
            == multiset(Survivors(records, dims, DeletedIds(deleted, primaryKey), primaryKey, callbacks, upperInclusive))
  {
    var s := Survivors(records, dims, DeletedIds(deleted, primaryKey), primaryKey, callbacks, upperInclusive);
    var top := SortedContent(s, primaryKey, false);
    SortedContentPermutes(s, primaryKey, false);
    if sortProperty != "" {
      SortedContentPermutes(top, sortProperty, isAscending);
    }
  }

  /**
   * The recomputed content holds exactly the records that pass every
   * dimension's filter and whose primary key no deleted record carries.
   */
  lemma RecomputeMembers(records: seq<Record>, dims: map<string, Dimension>, deleted: seq<Record>, primaryKey: string,
                         sortProperty: string, isAscending: bool,
                         callbacks: map<string, Key -> bool>, upperInclusive: bool)
    ensures forall x :: x in Recompute(records, dims, deleted, primaryKey, sortProperty, isAscending, callbacks, upperInclusive)
              <==> x in records && Passes(x, dims, callbacks, upperInclusive)
                   && !(exists d :: d in deleted && primaryKey in d.attrs && d.attrs[primaryKey] == Get(x, primaryKey))
  {
    var r := Recompute(records, dims, deleted, primaryKey, sortProperty, isAscending, callbacks, upperInclusive);
    var s := Survivors(records, dims, DeletedIds(deleted, primaryKey), primaryKey, callbacks, upperInclusive);
    RecomputePermutes(records, dims, deleted, primaryKey, sortProperty, isAscending, callbacks, upperInclusive);
    SurvivorsMembers(records, dims, DeletedIds(deleted, primaryKey), primaryKey, callbacks, upperInclusive);
    DeletedIdsMembers(deleted, primaryKey);
    forall x ensures x in r <==> x in s { assert x in multiset(r) <==> x in multiset(s); }
  }

  /**
   * The recomputed content is descending by primary key, or ordered by the
   * sort property in the configured direction when one is set.
   */
  lemma RecomputeOrder(records: seq<Record>, dims: map<string, Dimension>, deleted: seq<Record>, primaryKey: string,
                       sortProperty: string, isAscending: bool,
                       callbacks: map<string, Key -> bool>, upperInclusive: bool)
    ensures var r := Recompute(records, dims, deleted, primaryKey, sortProperty, isAscending, callbacks, upperInclusive);
            (sortProperty == "" ==> SortedDescBy(r, ByProperty(primaryKey)))
            && (sortProperty != "" && isAscending ==> SortedBy(r, ByProperty(sortProperty)))
            && (sortProperty != "" && !isAscending ==> SortedDescBy(r, ByProperty(sortProperty)))
  {
    var s := Survivors(records, dims, DeletedIds(deleted, primaryKey), primaryKey, callbacks, upperInclusive);
    var top := SortedContent(s, primaryKey, false);
    if sortProperty == "" {
      SortedContentOrder(s, primaryKey, false);
    } else {
      SortedContentOrder(top, sortProperty, isAscending);
    }
  }

  /** `_topBottom`'s `count || 1`: a falsy count asks for one record. */
  function Wanted(count: int): int
  {
    if count == 0 then 1 else count
  }

  /**
   * `dimension.top(count || 1)[0]` (or `bottom`): a record of greatest (least)
   * key among the survivors, or `undefined` when none is asked for or none
   * survives.
   */
  function Extreme(survivors: seq<Record>, src: KeySource, count: int, top: bool): (r: Option<Record>)
    ensures r.Some? <==> survivors != [] && Wanted(count) > 0
    ensures r.Some? ==> r.value in survivors
    ensures r.Some? && top ==> forall x :: x in survivors ==> KeyLe(AsKey(KeyOf(x, src)), AsKey(KeyOf(r.value, src)))
    ensures r.Some? && !top ==> forall x :: x in survivors ==> KeyLe(AsKey(KeyOf(r.value, src)), AsKey(KeyOf(x, src)))
  {
    if survivors == [] || Wanted(count) <= 0 then None
    else if top then Some(Greatest(survivors, x => AsKey(KeyOf(x, src))))
    else Some(Least(survivors, x => AsKey(KeyOf(x, src))))
  }

  /** With nothing filtered and nothing deleted, every record survives. */
  lemma UnfilteredKeepsAll(records: seq<Record>, dims: map<string, Dimension>, primaryKey: string,
                           callbacks: map<string, Key -> bool>, upperInclusive: bool)
    requires forall d :: d in dims ==> dims[d].filter == FilterAll
    ensures Survivors(records, dims, [], primaryKey, callbacks, upperInclusive) == records
  {
    if records != [] {
      assert Passes(records[|records| - 1], dims, callbacks, upperInclusive);
      UnfilteredKeepsAll(records[..|records| - 1], dims, primaryKey, callbacks, upperInclusive);
      assert records[..|records| - 1] + [records[|records| - 1]] == records;
    }
  }

  /** With every dimension unfiltered, every record passes. */
  lemma UnfilteredPasses(x: Record, dims: map<string, Dimension>, callbacks: map<string, Key -> bool>, upperInclusive: bool)
    requires forall d :: d in dims ==> dims[d].filter == FilterAll
    ensures Passes(x, dims, callbacks, upperInclusive)
  {
  }

  /**
   * With every dimension unfiltered, the recomputed content holds exactly
   * the records whose primary key no deleted record carries.
   */
  lemma UnfilteredShowsUndeleted(records: seq<Record>, dims: map<string, Dimension>, deleted: seq<Record>, primaryKey: string,
                                 sortProperty: string, isAscending: bool,
                                 callbacks: map<string, Key -> bool>, upperInclusive: bool)
    requires forall d :: d in dims ==> dims[d].filter == FilterAll
    ensures forall x :: x in Recompute(records, dims, deleted, primaryKey, sortProperty, isAscending, callbacks, upperInclusive)
              <==> x in records
                   && !(exists d :: d in deleted && primaryKey in d.attrs && d.attrs[primaryKey] == Get(x, primaryKey))
  {
    RecomputeMembers(records, dims, deleted, primaryKey, sortProperty, isAscending, callbacks, upperInclusive);
    forall x | x in records { UnfilteredPasses(x, dims, callbacks, upperInclusive); }
  }

  /**
   * The deleted ids as `_applyContentChanges` computes them: the callback
   * given to `map` runs with `this` bound to the global object, so the
   * primary-key lookup inside it falls back to `"id"` whatever the
   * controller's `primaryKey` is.
   */
  function DeletedIdsAsWritten(deleted: seq<Record>): (ids: seq<Key>)
    ensures |ids| <= |deleted|
  {
    DeletedIds(deleted, "id")
  }

  /**
   * With primary key `code`, deleting `{code: 'a'}` leaves the record on
   * screen as written, and removes it with the ids read through the
   * configured primary key.
   */
  lemma DeletedIdsAsWrittenKeepsDeleted()
    ensures var r := Record(map["code" := KStr("a")], map[]);
            var dims: map<string, Dimension> := map[];
            var cb: map<string, Key -> bool> := map[];
            Survivors([r], dims, DeletedIdsAsWritten([r]), "code", cb, true) == [r]
            && Survivors([r], dims, DeletedIds([r], "code"), "code", cb, true) == []
  {
    var r := Record(map["code" := KStr("a")], map[]);
    assert [r][..0] == [];
    assert DeletedIds([r], "code") == [KStr("a")];
    assert DeletedIdsAsWritten([r]) == [];
  }
}
