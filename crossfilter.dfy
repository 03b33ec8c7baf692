/**
 * The controller the EmberCrossfilter mixin turns into a filtering engine:
 * its configured filters (`filterMap`), the crossfilter built once from the
 * loaded content, one dimension per configured dimension name plus the
 * primary-key dimension, the list of deleted records, and the `content` the
 * view shows.
 *
 * Every action that can fail in the source (a `TypeError` on an undefined
 * dimension or map, a failed `Ember.assert`) returns the fault it stops at,
 * with the state it stopped in.
 */
module Crossfilter {
  import opened Wrappers
  import opened Keys
  import opened Seqs
  import opened Bits32
  import opened Sorting
  import opened BitmaskEncoder
  import opened Filters
  import opened Query

  /** The argument of `addRecords`/`deleteRecords`: not an array, or an array whose holes are `None`. */
  datatype RecordsArg = NotArray | Items(items: seq<Option<Record>>)

  /** The entries a loop guarded by `records.hasOwnProperty(index)` visits, in order. */
  function Present(items: seq<Option<Record>>): (r: seq<Record>)
    ensures |r| <= |items|
  {
    if items == [] then []
    else Present(items[..|items| - 1]) + (if items[|items| - 1].Some? then [items[|items| - 1].value] else [])
  }

  /** Exactly the records held by the array are visited. */
  lemma {:induction false} PresentMembers(items: seq<Option<Record>>)
    ensures forall x :: x in Present(items) <==> Some(x) in items
  {
    if items != [] {
      var p := items[..|items| - 1];
      PresentMembers(p);
      assert forall o :: o in items <==> o in p || o == items[|items| - 1];
    }
  }

  lemma PresentStep(items: seq<Option<Record>>, i: nat)
    requires i < |items|
    ensures Present(items[..i + 1]) == Present(items[..i]) + (if items[i].Some? then [items[i].value] else [])
  {
    assert items[..i + 1][..i] == items[..i];
  }

  /** The key accessor `_createDimensions` gives the dimension of an entry. */
  function SourceFor(cfg: FilterConfig, content: seq<Record>): KeySource
  {
    if IsBooleanFilter(cfg.kind) then CachedMask(EncodingOf(content, cfg.property).masks)
    else Attribute(cfg.property)
  }

  /**
   * The dimensions `_createDimensions` defines for the first `k` entries of
   * `names`, in order: an entry whose dimension is already defined (the
   * second half of a range pair) reuses it.
   */
  function DimsAfter(names: seq<string>, configs: map<string, FilterConfig>, content: seq<Record>, k: nat)
    : map<string, Dimension>
    requires k <= |names| && forall n :: n in names ==> n in configs
  {
    if k == 0 then map[]
    else
      var prev := DimsAfter(names, configs, content, k - 1);
      var dim := configs[names[k - 1]].dimension;
      if dim in prev then prev else prev[dim := Dimension(SourceFor(configs[names[k - 1]], content), FilterAll)]
  }

  /** The states `_createDimensions` gives the first `k` entries. */
  function InitialStatesOf(names: seq<string>, configs: map<string, FilterConfig>, k: nat): map<string, FilterState>
    requires k <= |names| && forall n :: n in names ==> n in configs
  {
    if k == 0 then map[]
    else InitialStatesOf(names, configs, k - 1)[names[k - 1] := Initial(configs[names[k - 1]].kind)]
  }

  /** The encodings `_createFilterBoolean` computes for the boolean entries among the first `k`. */
  function EncodingsFor(names: seq<string>, configs: map<string, FilterConfig>, content: seq<Record>, k: nat)
    : map<string, Encoding>
    requires k <= |names| && forall n :: n in names ==> n in configs
  {
    if k == 0 then map[]
    else
      var prev := EncodingsFor(names, configs, content, k - 1);
      var n := names[k - 1];
      if IsBooleanFilter(configs[n].kind) then prev[n := EncodingOf(content, configs[n].property)] else prev
  }

  /**
   * Every entry starts in its method's initial state, every dimension unfiltered,
   * and every encoding is the one computed from the content.
   */
  lemma {:induction false} FoldValues(names: seq<string>, configs: map<string, FilterConfig>, content: seq<Record>, k: nat)
    requires k <= |names| && forall n :: n in names ==> n in configs
    ensures forall n :: n in InitialStatesOf(names, configs, k) ==>
              n in configs && InitialStatesOf(names, configs, k)[n] == Initial(configs[n].kind)
    ensures forall x :: x in DimsAfter(names, configs, content, k) ==> DimsAfter(names, configs, content, k)[x].filter == FilterAll
    ensures forall n :: n in EncodingsFor(names, configs, content, k) ==>
              n in configs && EncodingsFor(names, configs, content, k)[n] == EncodingOf(content, configs[n].property)
  {
    if k > 0 {
      FoldValues(names, configs, content, k - 1);
      var prev := DimsAfter(names, configs, content, k - 1);
      var dim := configs[names[k - 1]].dimension;
      if dim !in prev {
        var d := prev[dim := Dimension(SourceFor(configs[names[k - 1]], content), FilterAll)];
        assert DimsAfter(names, configs, content, k) == d;
        forall x | x in d ensures d[x].filter == FilterAll {
          if x != dim {
            assert x in prev && d[x] == prev[x];
          }
        }
      }
    }
  }

  /** The first `k` entries each get a state. */
  lemma {:induction false} StatesKeys(names: seq<string>, configs: map<string, FilterConfig>, k: nat)
    requires k <= |names| && forall n :: n in names ==> n in configs
    ensures forall x :: x in InitialStatesOf(names, configs, k) <==> exists j :: 0 <= j < k && names[j] == x
  {
    if k > 0 {
      StatesKeys(names, configs, k - 1);
      forall x ensures x in InitialStatesOf(names, configs, k) <==> exists j :: 0 <= j < k && names[j] == x {
        if x == names[k - 1] {
          assert names[k - 1] == x;
        } else if exists j :: 0 <= j < k && names[j] == x {
          var j :| 0 <= j < k && names[j] == x;
          assert j < k - 1;
        }
      }
    }
  }

  /** The boolean entries among the first `k` each get an encoding. */
  lemma {:induction false} EncodingsKeys(names: seq<string>, configs: map<string, FilterConfig>, content: seq<Record>, k: nat)
    requires k <= |names| && forall n :: n in names ==> n in configs
    ensures forall x :: x in EncodingsFor(names, configs, content, k) <==>
              exists j :: 0 <= j < k && names[j] == x && IsBooleanFilter(configs[x].kind)
  {
    if k > 0 {
      EncodingsKeys(names, configs, content, k - 1);
      forall x ensures x in EncodingsFor(names, configs, content, k) <==>
                       exists j :: 0 <= j < k && names[j] == x && IsBooleanFilter(configs[x].kind) {
        if x == names[k - 1] {
          assert names[k - 1] == x;
        } else if exists j :: 0 <= j < k && names[j] == x && IsBooleanFilter(configs[x].kind) {
          var j :| 0 <= j < k && names[j] == x && IsBooleanFilter(configs[x].kind);
          assert j < k - 1;
        }
      }
    }
  }

  /** The first `k` entries define exactly the dimensions they name. */
  lemma {:induction false} DimsKeys(names: seq<string>, configs: map<string, FilterConfig>, content: seq<Record>, k: nat)
    requires k <= |names| && forall n :: n in names ==> n in configs
    ensures forall x :: x in DimsAfter(names, configs, content, k) <==>
              exists j :: 0 <= j < k && configs[names[j]].dimension == x
  {
    if k > 0 {
      DimsKeys(names, configs, content, k - 1);
      var last := configs[names[k - 1]].dimension;
      forall x ensures x in DimsAfter(names, configs, content, k) <==>
                       exists j :: 0 <= j < k && configs[names[j]].dimension == x {
        if x == last {
          assert configs[names[k - 1]].dimension == x;
        } else if exists j :: 0 <= j < k && configs[names[j]].dimension == x {
          var j :| 0 <= j < k && configs[names[j]].dimension == x;
          assert j < k - 1;
        }
      }
    }
  }

  /** Over all of `names`: the states and dimensions cover every entry, the encodings every boolean one. */
  lemma FoldKeys(names: seq<string>, configs: map<string, FilterConfig>, content: seq<Record>)
    requires NoDup(names) && configs.Keys == set n | n in names
    ensures InitialStatesOf(names, configs, |names|).Keys == configs.Keys
    ensures EncodingsFor(names, configs, content, |names|).Keys == set n | n in configs && IsBooleanFilter(configs[n].kind)
    ensures DimsAfter(names, configs, content, |names|).Keys == set n | n in configs :: configs[n].dimension
  {
    StatesKeys(names, configs, |names|);
    EncodingsKeys(names, configs, content, |names|);
    DimsKeys(names, configs, content, |names|);
    forall n | n in configs ensures exists j :: 0 <= j < |names| && names[j] == n {
      var j :| 0 <= j < |names| && names[j] == n;
    }
    forall x | x in DimsAfter(names, configs, content, |names|) ensures x in set n | n in configs :: configs[n].dimension {
      var j :| 0 <= j < |names| && configs[names[j]].dimension == x;
      assert names[j] in configs;
    }
  }

  /** A dimension is defined by the first entry that names it. */
  lemma {:induction false} FirstDefinerWins(names: seq<string>, configs: map<string, FilterConfig>,
                                            content: seq<Record>, i: nat, k: nat)
    requires k <= |names| && forall n :: n in names ==> n in configs
    requires i < k
    requires forall j :: 0 <= j < i ==> configs[names[j]].dimension != configs[names[i]].dimension
    ensures var d := DimsAfter(names, configs, content, k);
            configs[names[i]].dimension in d
            && d[configs[names[i]].dimension].source == SourceFor(configs[names[i]], content)
  {
    var dim := configs[names[i]].dimension;
    if k == i + 1 {
      DimsKeys(names, configs, content, i);
      assert dim !in DimsAfter(names, configs, content, i);
    } else {
      FirstDefinerWins(names, configs, content, i, k - 1);
    }
  }

  /**
   * The loop of `_createDimensions` over the entries in declaration order:
   * a state for each, an encoding for each boolean one, and a dimension for
   * each dimension name not yet defined.
   */
  method DefineEntries(names: seq<string>, configs: map<string, FilterConfig>, records: seq<Record>)
    returns (states: map<string, FilterState>, dims: map<string, Dimension>, encodings: map<string, Encoding>)
    requires forall n :: n in names ==> n in configs
    ensures states == InitialStatesOf(names, configs, |names|)
    ensures dims == DimsAfter(names, configs, records, |names|)
    ensures encodings == EncodingsFor(names, configs, records, |names|)
  {
    states, dims, encodings := map[], map[], map[];
    var i := 0;
    while i < |names|
      invariant 0 <= i <= |names|
      invariant states == InitialStatesOf(names, configs, i)
      invariant dims == DimsAfter(names, configs, records, i)
      invariant encodings == EncodingsFor(names, configs, records, i)
    {
      var n := names[i];
      var cfg := configs[n];
      states := states[n := Initial(cfg.kind)];
      if IsBooleanFilter(cfg.kind) {
        var enc := CreateFilterBoolean(records, cfg.property);
        encodings := encodings[n := enc];
      }
      if cfg.dimension !in dims {
        dims := dims[cfg.dimension := Dimension(SourceFor(cfg, records), FilterAll)];
      }
      i := i + 1;
    }
  }

  /** Each dimension of a built controller is named by an entry, and each entry's dimension is defined. */
  lemma NamedDims(names: seq<string>, configs: map<string, FilterConfig>, dims: map<string, Dimension>)
    requires configs.Keys == set n | n in names
    requires dims.Keys == set n | n in configs :: configs[n].dimension
    ensures forall n :: n in names ==> n in configs && configs[n].dimension in dims
    ensures forall x :: x in dims ==> exists n :: n in names && configs[n].dimension == x
  {
    forall x | x in dims ensures exists n :: n in names && configs[n].dimension == x {
      var n :| n in configs && configs[n].dimension == x;
    }
  }

  /** One more entry of `names` reset to its initial state. */
  lemma ResetStep(names: seq<string>, configs: map<string, FilterConfig>, cleared: map<string, FilterState>, i: nat)
    requires i < |names| && names[i] in configs
    requires forall j :: 0 <= j < i ==> names[j] in cleared && names[j] in configs
    requires forall j :: 0 <= j < i ==> cleared[names[j]] == Initial(configs[names[j]].kind)
    ensures forall j :: 0 <= j <= i ==> cleared[names[i] := Initial(configs[names[i]].kind)][names[j]] == Initial(configs[names[j]].kind)
  {
  }

  /** One more entry's dimension cleared. */
  lemma UnfilterStep(names: seq<string>, configs: map<string, FilterConfig>, unfiltered: map<string, Dimension>, i: nat)
    requires i < |names| && names[i] in configs && configs[names[i]].dimension in unfiltered
    requires forall j :: 0 <= j < i ==> names[j] in configs && configs[names[j]].dimension in unfiltered
    requires forall j :: 0 <= j < i ==> unfiltered[configs[names[j]].dimension].filter == FilterAll
    ensures var d := configs[names[i]].dimension;
      forall j :: 0 <= j <= i ==> unfiltered[d := Dimension(unfiltered[d].source, FilterAll)][configs[names[j]].dimension].filter == FilterAll
  {
  }

  /** The dimensions with every filter cleared. */
  function Unfiltered(dims: map<string, Dimension>): map<string, Dimension>
  {
    map x | x in dims :: Dimension(dims[x].source, FilterAll)
  }

  /**
   * The loop of `clearAllFilters` over the entries: each entry's dimension
   * is cleared and the entry goes back to its initial state.
   */
  method ClearEntries(names: seq<string>, configs: map<string, FilterConfig>,
                      states: map<string, FilterState>, dims: map<string, Dimension>)
    returns (cleared: map<string, FilterState>, unfiltered: map<string, Dimension>)
    requires configs.Keys == set n | n in names
    requires states.Keys == configs.Keys
    requires dims.Keys == set n | n in configs :: configs[n].dimension
    ensures cleared.Keys == states.Keys
    ensures forall n :: n in cleared ==> cleared[n] == Initial(configs[n].kind)
    ensures unfiltered.Keys == dims.Keys && unfiltered == Unfiltered(dims)
  {
    cleared, unfiltered := states, dims;
    var i := 0;
    while i < |names|
      invariant 0 <= i <= |names|
      invariant cleared.Keys == states.Keys && unfiltered.Keys == dims.Keys
      invariant forall j :: 0 <= j < i ==> cleared[names[j]] == Initial(configs[names[j]].kind)
      invariant forall x :: x in unfiltered ==> unfiltered[x].source == dims[x].source
      invariant forall j :: 0 <= j < i ==> unfiltered[configs[names[j]].dimension].filter == FilterAll
    {
      var n := names[i];
      var d := configs[n].dimension;
      UnfilterStep(names, configs, unfiltered, i);
      unfiltered := unfiltered[d := Dimension(unfiltered[d].source, FilterAll)];
      ResetStep(names, configs, cleared, i);
      cleared := cleared[n := Initial(configs[n].kind)];
      i := i + 1;
    }
    NamedDims(names, configs, dims);
    forall n | n in cleared ensures cleared[n] == Initial(configs[n].kind) {
      var j :| 0 <= j < |names| && names[j] == n;
    }
    forall x | x in dims ensures unfiltered[x] == Dimension(dims[x].source, FilterAll) {
      var n :| n in names && configs[n].dimension == x;
      var j :| 0 <= j < |names| && names[j] == n;
    }
  }

  /** The present entries among the first `index` ones (all of them once `index` passes the end). */
  function Seen(items: seq<Option<Record>>, index: nat): seq<Record>
  {
    Present(items[..if index <= |items| then index else |items|])
  }

  /** The record the loop visits at `index`, if the array holds one there. */
  function At(items: seq<Option<Record>>, index: nat): seq<Record>
  {
    if index < |items| && items[index].Some? then [items[index].value] else []
  }

  lemma SeenStep(items: seq<Option<Record>>, index: nat)
    ensures Seen(items, index + 1) == Seen(items, index) + At(items, index)
  {
    if index < |items| {
      PresentStep(items, index);
    }
  }

  /** The first present entry found at `index`, when none was seen before it. */
  lemma FirstPresent(items: seq<Option<Record>>, index: nat)
    requires index < |items| && items[index].Some? && Present(items[..index]) == []
    ensures Present(items) != [] && Present(items)[0] == items[index].value
  {
    PresentPrefix(items, index + 1);
    PresentStep(items, index);
  }

  /** The present entries of a prefix start the present entries of the whole. */
  lemma {:induction false} PresentPrefix(items: seq<Option<Record>>, k: nat)
    requires k <= |items|
    ensures Present(items) == Present(items[..k]) + Present(items[k..])
  {
    if k < |items| {
      var p := items[..|items| - 1];
      assert p[..k] == items[..k];
      PresentPrefix(p, k);
      assert items[k..][..|items[k..]| - 1] == p[k..];
    } else {
      assert items[..k] == items;
      assert items[k..] == [];
    }
  }

  /**
   * `deleteRecords(records)` as written: it calls `this.deleteRecord`, but
   * `deleteRecord` is an action, so the first present entry ends in a
   * `TypeError` before anything is deleted.
   */
  function DeleteRecordsAsWritten(arg: RecordsArg): Result<nat, Fault>
  {
    if arg.NotArray? then Ok(0)
    else if Present(arg.items) != [] then Err(NotAFunction)
    else Ok(|arg.items|)
  }

  /** As written, deleting a one-record array fails instead of deleting it. */
  lemma DeleteRecordsAsWrittenFails(r: Record)
    ensures DeleteRecordsAsWritten(Items([Some(r)])) == Err(NotAFunction)
  {
    assert Some(r) in [Some(r)];
  }

  /** As written, `deleteRecords` fails exactly when the array holds a record to delete. */
  lemma DeleteRecordsAsWrittenFailsOnRecord(arg: RecordsArg)
    ensures DeleteRecordsAsWritten(arg).Err? <==> arg.Items? && exists r :: Some(r) in arg.items
  {
    if arg.Items? {
      PresentMembers(arg.items);
      if Present(arg.items) != [] {
        assert Some(Present(arg.items)[0]) in arg.items;
      }
    }
  }

  class Controller {
    /** `filterMap`: the configured entries by name, in declaration order in `names`. */
    const configs: map<string, FilterConfig>
    const names: seq<string>
    /** `primaryKey || 'id'`. */
    const primaryKey: string
    /** The user's `_apply<Name>` methods, by entry name. */
    const callbacks: map<string, Key -> bool>
    /** Whether a `sort` object is defined. */
    const hasSort: bool
    /** Whether crossfilter's `filterRange` includes its upper end. */
    const upperInclusive: bool

    var content: seq<Record>
    /** `_crossfilter` is set. */
    var built: bool
    /** The records of the crossfilter. */
    var records: seq<Record>
    /** The `value` and `active` of every entry. */
    var states: map<string, FilterState>
    /** `_mapProperties`, `_totalBitwise` and the cached masks of each boolean entry. */
    var encodings: map<string, Encoding>
    /** `_dimension<Name>`, by dimension name. */
    var dims: map<string, Dimension>
    /** The primary keys the primary-key dimension filtered out when it was last applied. */
    var excluded: seq<Key>
    /** `_deletedModels`. */
    var deleted: seq<Record>
    /** `sort.sortProperty` (empty when unset) and `sort.isAscending`. */
    var sortProperty: string
    var isAscending: bool

    /** `names` lists every entry of `filterMap` once. */
    ghost predicate Declared()
    {
      NoDup(names) && configs.Keys == set n | n in names
    }

    /** The dimension names the entries use. */
    ghost function DimensionNames(): set<string>
    {
      set n | n in configs :: configs[n].dimension
    }

    /** The entries with a boolean (`filterOr`/`filterAnd`) method. */
    ghost function BooleanEntries(): set<string>
    {
      set n | n in configs && IsBooleanFilter(configs[n].kind)
    }

    /** The entries, their states and the sort settings agree. */
    ghost predicate Configured()
      reads this`states, this`sortProperty
    {
      Declared() && states.Keys == configs.Keys && (!hasSort ==> sortProperty == "")
    }

    /** Once built, the dimensions are exactly those the entries name, and every boolean entry is encoded. */
    ghost predicate Valid()
      reads this`states, this`sortProperty, this`built, this`records, this`dims, this`encodings
    {
      Configured()
      && (!built ==> records == [] && dims == map[] && encodings == map[])
      && (built ==> dims.Keys == DimensionNames() && BooleanEntries() <= encodings.Keys)
    }

    /** The `content` the current filters, records and deleted list call for. */
    ghost function Current(): seq<Record>
      reads this
    {
      Recompute(records, dims, deleted, primaryKey, sortProperty, isAscending, callbacks, upperInclusive)
    }

    /** The bits of an entry's values; none before the crossfilter is built. */
    function PropertiesOf(key: string): map<Key, Mask>
      reads this
    {
      if key in encodings then encodings[key].properties else map[]
    }

    /** `init`, with `content` not loaded yet: nothing is built. */
    constructor (configs: map<string, FilterConfig>, names: seq<string>, primaryKey: string,
                 callbacks: map<string, Key -> bool>, hasSort: bool, sortProperty: string, isAscending: bool,
                 upperInclusive: bool)
      requires NoDup(names) && forall n :: n in configs <==> n in names
      requires hasSort || sortProperty == ""
      ensures Valid() && !built && content == [] && deleted == []
      ensures this.primaryKey == (if primaryKey == "" then "id" else primaryKey)
      ensures states == map n | n in configs :: FilterState(Plain(KNull), Unset)
      ensures this.sortProperty == sortProperty && this.isAscending == isAscending
    {
      this.configs := configs;
      this.names := names;
      this.primaryKey := if primaryKey == "" then "id" else primaryKey;
      this.callbacks := callbacks;
      this.hasSort := hasSort;
      this.upperInclusive := upperInclusive;
      content := [];
      built := false;
      records := [];
      states := map n | n in configs :: FilterState(Plain(KNull), Unset);
      encodings := map[];
      dims := map[];
      excluded := [];
      deleted := [];
      this.sortProperty := sortProperty;
      this.isAscending := isAscending;
    }

    /** Loading `content`: while nothing is built, the `content.length` observer runs `_createCrossfilter`. */
    method SetContent(c: seq<Record>) returns (created: bool)
      requires Valid()
      modifies this
      ensures Valid()
      ensures created <==> !old(built) && c != []
      ensures !created ==> content == c && unchanged(this`built, this`records, this`states, this`dims, this`encodings)
      ensures created ==> built && records == c && dims == DimsAfter(names, configs, c, |names|) && states == InitialStatesOf(names, configs, |names|)
      ensures created ==> content == (if sortProperty != "" then SortedContent(c, sortProperty, isAscending) else c)
      ensures unchanged(this`deleted, this`excluded, this`sortProperty, this`isAscending)
    {
      content := c;
      created := CreateCrossfilter();
    }

    /**
     * `_createCrossfilter`: builds the crossfilter and its dimensions once,
     * and only from non-empty content.
     */
    method CreateCrossfilter() returns (created: bool)
      requires Valid()
      modifies this
      ensures Valid()
      ensures created <==> old(content) != [] && !old(built)
      ensures !created ==> unchanged(this)
      ensures created ==> built && records == old(content) && states == InitialStatesOf(names, configs, |names|)
                          && dims == DimsAfter(names, configs, old(content), |names|)
                          && encodings == EncodingsFor(names, configs, old(content), |names|)
      ensures created ==> content == (if sortProperty != "" then SortedContent(old(content), sortProperty, isAscending)
                                      else old(content))
      ensures unchanged(this`deleted, this`excluded, this`sortProperty, this`isAscending)
    {
      if content == [] || built {
        return false;
      }
      Build();
      return true;
    }

    /** The work of `_createCrossfilter` once its guard passes. */
    method Build()
      requires Valid() && content != [] && !built
      modifies this
      ensures Valid() && built && records == old(content) && states == InitialStatesOf(names, configs, |names|)
      ensures dims == DimsAfter(names, configs, old(content), |names|)
      ensures encodings == EncodingsFor(names, configs, old(content), |names|)
      ensures content == (if sortProperty != "" then SortedContent(old(content), sortProperty, isAscending)
                          else old(content))
      ensures unchanged(this`deleted, this`excluded, this`sortProperty, this`isAscending)
    {
      built := true;
      records := content;
      CreateDimensions();
      if sortProperty != "" {
        content := SortedContent(content, sortProperty, isAscending);
      }
    }

    /**
     * `_createDimensions`: every entry gets its initial state (and a boolean
     * one its bits and cached masks); the first entry naming a dimension
     * defines it.
     */
    method CreateDimensions()
      requires Configured() && built && dims == map[] && encodings == map[]
      modifies this`states, this`dims, this`encodings
      ensures Valid()
      ensures states == InitialStatesOf(names, configs, |names|)
      ensures dims == DimsAfter(names, configs, records, |names|)
      ensures encodings == EncodingsFor(names, configs, records, |names|)
    {
      var newStates, newDims, newEncodings := DefineEntries(names, configs, records);
      FoldKeys(names, configs, records);
      states, dims, encodings := newStates, newDims, newEncodings;
    }

    /**
     * `_applyContentChanges`: the primary-key dimension now filters out the
     * deleted records, and `content` becomes what survives, sorted.
     */
    method ApplyContentChanges() returns (fault: Option<Fault>)
      modifies this`excluded, this`content
      ensures !built ==> fault == Some(NotBuilt) && unchanged(this`excluded, this`content)
      ensures built ==> fault == None && excluded == DeletedIds(deleted, primaryKey) && content == Current()
    {
      if !built {
        return Some(NotBuilt);
      }
      excluded := DeletedIds(deleted, primaryKey);
      content := Recompute(records, dims, deleted, primaryKey, sortProperty, isAscending, callbacks, upperInclusive);
      return None;
    }

    /**
     * `_updateContent(map)`: installs the entry's filter on its dimension,
     * then recomputes `content`.
     */
    method UpdateContent(key: string) returns (fault: Option<Fault>)
      requires Valid() && key in configs
      modifies this`dims, this`excluded, this`content
      ensures Valid()
      ensures var r := Install(key, configs, states, callbacks.Keys);
              (r.Err? ==> fault == Some(r.error) && unchanged(this))
              && (r.Ok? && !built ==> fault == Some(NotBuilt) && unchanged(this))
              && (r.Ok? && built ==>
                    fault == None
                    && dims == old(dims)[configs[key].dimension := Dimension(old(dims)[configs[key].dimension].source, r.value)]
                    && excluded == DeletedIds(deleted, primaryKey) && content == Current())
    {
      var r := Install(key, configs, states, callbacks.Keys);
      if r.Err? {
        return Some(r.error);
      }
      if !built {
        return Some(NotBuilt);
      }
      var d := configs[key].dimension;
      dims := dims[d := Dimension(dims[d].source, r.value)];
      fault := ApplyContentChanges();
    }

    /** `addFilter(key, value)`. */
    method AddFilter(key: string, value: Key) returns (fault: Option<Fault>)
      requires Valid()
      modifies this`states, this`dims, this`excluded, this`content
      ensures Valid()
      ensures key !in configs ==> fault == Some(UnknownFilter(key)) && unchanged(this)
      ensures key in configs ==>
                var step := AddStep(configs[key].kind, PropertiesOf(key), old(states)[key], value);
                states == old(states)[key := step.state]
                && (step.fault.Some? ==> fault == step.fault && unchanged(this`dims, this`excluded, this`content))
                && (step.fault.None? ==> Installed(key, fault))
    {
      if key !in configs {
        return Some(UnknownFilter(key));
      }
      var step := AddStep(configs[key].kind, PropertiesOf(key), states[key], value);
      states := states[key := step.state];
      if step.fault.Some? {
        return step.fault;
      }
      fault := UpdateContent(key);
    }

    /** `removeFilter(key, value)`. */
    method RemoveFilter(key: string, value: Key) returns (fault: Option<Fault>)
      requires Valid()
      modifies this`states, this`dims, this`excluded, this`content
      ensures Valid()
      ensures key !in configs ==> fault == Some(UnknownFilter(key)) && unchanged(this)
      ensures key in configs ==>
                var step := RemoveStep(configs[key].kind, PropertiesOf(key), old(states)[key], value);
                states == old(states)[key := step.state]
                && (step.fault.Some? ==> fault == step.fault && unchanged(this`dims, this`excluded, this`content))
                && (step.fault.None? ==> Installed(key, fault))
    {
      if key !in configs {
        return Some(UnknownFilter(key));
      }
      var step := RemoveStep(configs[key].kind, PropertiesOf(key), states[key], value);
      states := states[key := step.state];
      if step.fault.Some? {
        return step.fault;
      }
      fault := UpdateContent(key);
    }

    /**
     * `clearAllFilters`, with every entry put back in the state
     * `_createDimensions` gave it: every dimension's filter is cleared and
     * `content` is recomputed. Before the crossfilter is built the first
     * dimension (or the primary-key dimension) is still undefined.
     */
    method ClearAllFilters() returns (fault: Option<Fault>)
      requires Valid()
      modifies this`states, this`dims, this`excluded, this`content
      ensures Valid()
      ensures !built ==> fault == Some(NotBuilt) && unchanged(this`states, this`dims, this`excluded, this`content)
      ensures built ==> fault == None && states.Keys == configs.Keys
                        && (forall n :: n in states ==> states[n] == Initial(configs[n].kind))
                        && dims == Unfiltered(old(dims))
                        && excluded == DeletedIds(deleted, primaryKey) && content == Current()
    {
      if !built {
        return Some(NotBuilt);
      }
      var cleared, unfiltered := ClearEntries(names, configs, states, dims);
      states, dims := cleared, unfiltered;
      fault := ApplyContentChanges();
    }

    /** `addRecord(record)`: the record joins the crossfilter and `content` is recomputed. */
    method AddRecord(r: Record) returns (fault: Option<Fault>)
      requires Valid()
      modifies this`records, this`excluded, this`content
      ensures Valid()
      ensures !built ==> fault == Some(NotBuilt) && unchanged(this`records, this`excluded, this`content)
      ensures built ==> fault == None && records == old(records) + [r]
                        && excluded == DeletedIds(deleted, primaryKey) && content == Current()
    {
      if !built {
        return Some(NotBuilt);
      }
      records := records + [r];
      fault := ApplyContentChanges();
    }

    /**
     * `addRecords(records)`: each present entry is added in turn, and the
     * number added is returned; anything but an array adds nothing.
     */
    method AddRecords(arg: RecordsArg) returns (result: Result<nat, Fault>)
      requires Valid()
      modifies this`records, this`excluded, this`content
      ensures Valid()
      ensures arg.NotArray? ==> result == Ok(0) && unchanged(this`records, this`excluded, this`content)
      ensures arg.Items? && !built ==>
                unchanged(this`records, this`excluded, this`content)
                && result == if Present(arg.items) == [] then Ok(0) else Err(NotBuilt)
      ensures arg.Items? && built ==>
                result == Ok(|Present(arg.items)|) && records == old(records) + Present(arg.items)
                && (Present(arg.items) == [] ==> unchanged(this`excluded, this`content))
                && (Present(arg.items) != [] ==> excluded == DeletedIds(deleted, primaryKey) && content == Current())
    {
      if arg.NotArray? {
        return Ok(0);
      }
      result := AddEach(arg.items);
    }

    /** The loop of `addRecords` over an array, `index <= count` as written. */
    method AddEach(items: seq<Option<Record>>) returns (result: Result<nat, Fault>)
      requires Valid()
      modifies this`records, this`excluded, this`content
      ensures Valid()
      ensures !built ==> records == old(records) && excluded == old(excluded) && content == old(content)
                         && result == if Present(items) == [] then Ok(0) else Err(NotBuilt)
      ensures built ==> result == Ok(|Present(items)|) && records == old(records) + Present(items)
      ensures built && Present(items) == [] ==> excluded == old(excluded) && content == old(content)
      ensures built && Present(items) != [] ==> excluded == DeletedIds(deleted, primaryKey) && content == Current()
    {
      var added := 0;
      var index := 0;
      ghost var seen: seq<Record> := [];
      while index <= |items|
        invariant 0 <= index <= |items| + 1
        invariant seen == Seen(items, index)
        invariant Valid() && built == old(built)
        invariant records == old(records) + seen && added == |seen|
        invariant !built ==> seen == []
        invariant seen == [] ==> excluded == old(excluded) && content == old(content)
        invariant seen != [] ==> excluded == DeletedIds(deleted, primaryKey) && content == Current()
      {
        if index < |items| {
          PresentStep(items, index);
        }
        if index < |items| && items[index].Some? {
          var f := AddRecord(items[index].value);
          if f.Some? {
            FirstPresent(items, index);
            return Err(f.value);
          }
          added := added + 1;
          seen := seen + [items[index].value];
        }
        index := index + 1;
      }
      assert items[..|items|] == items;
      return Ok(added);
    }

    /**
     * `deleteRecord(record)`: the record joins the deleted list, then
     * `content` is recomputed; before the crossfilter is built the push has
     * happened when the recomputation fails.
     */
    method DeleteRecord(r: Record) returns (fault: Option<Fault>)
      modifies this`deleted, this`excluded, this`content
      ensures deleted == old(deleted) + [r]
      ensures !built ==> fault == Some(NotBuilt) && unchanged(this`excluded, this`content)
      ensures built ==> fault == None && excluded == DeletedIds(deleted, primaryKey) && content == Current()
    {
      deleted := deleted + [r];
      fault := ApplyContentChanges();
    }

    /**
     * `deleteRecords(records)` with each present entry deleted through
     * `deleteRecord`; the array's length is returned, holes included.
     */
    method DeleteRecords(arg: RecordsArg) returns (result: Result<nat, Fault>)
      requires Valid()
      modifies this`deleted, this`excluded, this`content
      ensures Valid()
      ensures arg.NotArray? ==> result == Ok(0) && unchanged(this`deleted, this`excluded, this`content)
      ensures arg.Items? && !built ==>
                unchanged(this`excluded, this`content)
                && (Present(arg.items) == [] ==> result == Ok(|arg.items|) && deleted == old(deleted))
                && (Present(arg.items) != [] ==> result == Err(NotBuilt) && deleted == old(deleted) + [Present(arg.items)[0]])
      ensures arg.Items? && built ==>
                result == Ok(|arg.items|) && deleted == old(deleted) + Present(arg.items)
                && (Present(arg.items) == [] ==> unchanged(this`excluded, this`content))
                && (Present(arg.items) != [] ==> excluded == DeletedIds(deleted, primaryKey) && content == Current())
    {
      if arg.NotArray? {
        return Ok(0);
      }
      result := DeleteEach(arg.items);
    }

    /** The loop of `deleteRecords` over an array, `index <= count` as written. */
    method DeleteEach(items: seq<Option<Record>>) returns (result: Result<nat, Fault>)
      modifies this`deleted, this`excluded, this`content
      ensures !built ==> excluded == old(excluded) && content == old(content)
      ensures !built && Present(items) == [] ==> result == Ok(|items|) && deleted == old(deleted)
      ensures !built && Present(items) != [] ==> result == Err(NotBuilt) && deleted == old(deleted) + [Present(items)[0]]
      ensures built ==> result == Ok(|items|) && deleted == old(deleted) + Present(items)
      ensures built && Present(items) == [] ==> excluded == old(excluded) && content == old(content)
      ensures built && Present(items) != [] ==> excluded == DeletedIds(deleted, primaryKey) && content == Current()
    {
      var index := 0;
      ghost var seen: seq<Record> := [];
      while index <= |items|
        invariant 0 <= index <= |items| + 1
        invariant seen == Seen(items, index)
        invariant deleted == old(deleted) + seen
        invariant !built ==> seen == []
        invariant seen == [] ==> excluded == old(excluded) && content == old(content)
        invariant seen != [] ==> excluded == DeletedIds(deleted, primaryKey) && content == Current()
      {
        var f := DeleteAt(items, index);
        if f.Some? {
          return Err(f.value);
        }
        SeenStep(items, index);
        seen := seen + At(items, index);
        index := index + 1;
      }
      assert items[..|items|] == items;
      return Ok(|items|);
    }

    /** One turn of the `deleteRecords` loop: the entry at `index`, if present, is deleted. */
    method DeleteAt(items: seq<Option<Record>>, index: nat) returns (fault: Option<Fault>)
      requires index <= |items|
      requires !built ==> Seen(items, index) == []
      modifies this`deleted, this`excluded, this`content
      ensures fault.Some? ==> !built && fault == Some(NotBuilt) && excluded == old(excluded) && content == old(content)
                              && Present(items) != [] && deleted == old(deleted) + [Present(items)[0]]
      ensures fault.None? && At(items, index) != [] ==> built && deleted == old(deleted) + At(items, index)
      ensures At(items, index) == [] ==> fault.None? && unchanged(this)
      ensures fault.None? && At(items, index) != [] ==> excluded == DeletedIds(deleted, primaryKey) && content == Current()
    {
      if index < |items| && items[index].Some? {
        fault := DeleteRecord(items[index].value);
        if fault.Some? {
          FirstPresent(items, index);
        }
      } else {
        fault := None;
      }
    }

    /**
     * `sortContent(property, isAscending)`: `content` is replaced by its
     * sorted copy first (which builds the crossfilter if it was not built
     * yet); only then must a `sort` object with a `sortProperty` exist, and
     * the sort settings take the new values.
     */
    method SortContent(property: string, ascending: bool) returns (fault: Option<Fault>)
      requires Valid()
      modifies this
      ensures Valid()
      ensures var c := SortedContent(old(content), property, ascending);
              old(built) ==> content == c && unchanged(this`built, this`records, this`states, this`dims, this`encodings)
      ensures var c := SortedContent(old(content), property, ascending);
              !old(built) && c != [] ==>
                built && records == c && states == InitialStatesOf(names, configs, |names|)
                && dims == DimsAfter(names, configs, c, |names|)
                && content == (if old(sortProperty) != "" then SortedContent(c, old(sortProperty), old(isAscending)) else c)
      ensures unchanged(this`deleted, this`excluded)
      ensures !hasSort ==> fault == Some(NoSortObject) && unchanged(this`sortProperty, this`isAscending)
      ensures hasSort && old(sortProperty) == "" ==> fault == Some(NoSortProperty) && unchanged(this`sortProperty, this`isAscending)
      ensures hasSort && old(sortProperty) != "" ==> fault == None && sortProperty == property && isAscending == ascending
    {
      var c := SortedContent(content, property, ascending);
      var _ := SetContent(c);
      if !hasSort {
        return Some(NoSortObject);
      }
      if sortProperty == "" {
        return Some(NoSortProperty);
      }
      sortProperty, isAscending := property, ascending;
      return None;
    }

    /** The records every filter admits and the primary-key dimension keeps. */
    ghost function Visible(): seq<Record>
      reads this
    {
      Survivors(records, dims, excluded, primaryKey, callbacks, upperInclusive)
    }

    /**
     * `top(key, count)` (`top` true) and `bottom(key, count)`: a record of
     * greatest (least) key on the entry's dimension among the visible ones,
     * `None` when there is none or a negative count is asked for.
     */
    function TopBottom(key: string, count: int, top: bool): (r: Result<Option<Record>, Fault>)
      requires Valid()
      reads this
      ensures key !in configs ==> r == Err(UnknownFilter(key))
      ensures key in configs && !built ==> r == Err(NotBuilt)
      ensures key in configs && built ==>
                var src := dims[configs[key].dimension].source;
                r.Ok? && (r.value.Some? <==> Visible() != [] && Wanted(count) > 0)
                && (r.value.Some? ==> r.value.value in Visible())
                && (r.value.Some? && top ==>
                      forall x :: x in Visible() ==> KeyLe(AsKey(KeyOf(x, src)), AsKey(KeyOf(r.value.value, src))))
                && (r.value.Some? && !top ==>
                      forall x :: x in Visible() ==> KeyLe(AsKey(KeyOf(r.value.value, src)), AsKey(KeyOf(x, src))))
    {
      if key !in configs then Err(UnknownFilter(key))
      else if !built then Err(NotBuilt)
      else
        assert configs[key].dimension in DimensionNames();
        Ok(Extreme(Survivors(records, dims, excluded, primaryKey, callbacks, upperInclusive),
                   dims[configs[key].dimension].source, count, top))
    }

    /**
     * `isActiveFilter(key, value)`: whether `value` is selected on a boolean
     * entry (its bit is set), or whether a plain entry is `active`.
     */
    function IsActiveFilter(key: string, value: Key): (r: Result<bool, Fault>)
      requires Valid()
      reads this
      ensures key !in configs ==> r == Err(UnknownFilter(key))
      ensures key in configs && IsBooleanFilter(configs[key].kind) && !built ==> r == Err(NotBuilt)
      ensures key in configs && !IsBooleanFilter(configs[key].kind) ==> r == Ok(states[key].active == Flag(true))
      ensures key in configs && IsBooleanFilter(configs[key].kind) && built ==>
                r == Ok(IsActive(configs[key].kind, encodings[key].properties, states[key], value))
    {
      if key !in configs then Err(UnknownFilter(key))
      else if IsBooleanFilter(configs[key].kind) && key !in encodings then Err(NotBuilt)
      else Ok(IsActive(configs[key].kind, PropertiesOf(key), states[key], value))
    }

    /** What `UpdateContent(key)` leaves, stated on the state before and after it. */
    twostate predicate Installed(key: string, new fault: Option<Fault>)
      requires key in configs && configs.Keys <= states.Keys
      reads this
    {
      var r := Install(key, configs, states, callbacks.Keys);
      (r.Err? ==> fault == Some(r.error) && unchanged(this`dims, this`excluded, this`content))
      && (r.Ok? && !built ==> fault == Some(NotBuilt) && unchanged(this`dims, this`excluded, this`content))
      && (r.Ok? && built ==>
            fault == None && configs[key].dimension in old(dims)
            && dims == old(dims)[configs[key].dimension := Dimension(old(dims)[configs[key].dimension].source, r.value)]
            && excluded == DeletedIds(deleted, primaryKey) && content == Current())
    }
  }
}
