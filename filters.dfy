/**
 * The per-filter state machine of the engine (`addFilter`, `removeFilter`,
 * `clearAllFilters`, `isActiveFilter`) and the predicates it installs on the
 * dimensions (`_updateContent`, `_setFilterBoolean`, `_setFilterRangeMin`,
 * `_setFilterRangeMax`, `_setFilterFunction`).
 *
 * Every `filterMap` entry carries a `value` and an `active` field. A boolean
 * filter keeps the selected values in `active`; in OR mode its `value` is the
 * OR of their bits, in AND mode the list of their bits.
 */
module Filters {
  import opened Wrappers
  import opened Keys
  import opened Seqs
  import opened Bits32
  import opened BitmaskEncoder

  datatype BoolMode = Or | And

  /** `map.method`, parsed. */
  datatype Method = Exact | RangeMin | RangeMax | Callback | Boolean(mode: BoolMode)

  /** One `filterMap` entry's configuration. */
  datatype FilterConfig = FilterConfig(property: string, dimension: string, kind: Method)

  /**
   * Reads a configured `method` (and `boolean`) pair. The engine recognises
   * the boolean filters by the names `filterOr` and `filterAnd`; the
   * configurations the tests use spell them `filterInArray` with
   * `boolean: 'or' | 'and'`, and both spellings are read as the same mode.
   * Any other method name has no meaning to the engine.
   */
  function ParseMethod(methodName: string, boolean: string): Option<Method>
  {
    if methodName == "filterOr" then Some(Boolean(Or))
    else if methodName == "filterAnd" then Some(Boolean(And))
    else if methodName == "filterInArray" && boolean == "or" then Some(Boolean(Or))
    else if methodName == "filterInArray" && boolean == "and" then Some(Boolean(And))
    else if methodName == "filterRangeMin" then Some(RangeMin)
    else if methodName == "filterRangeMax" then Some(RangeMax)
    else if methodName == "filterFunction" then Some(Callback)
    else if methodName == "filterExact" then Some(Exact)
    else None
  }

  /** `isBooleanFilter(map)`. */
  predicate IsBooleanFilter(m: Method)
  {
    m.Boolean?
  }

  /** `getBooleanType(map)`: OR for an OR filter, AND for anything else. */
  function GetBooleanType(m: Method): BoolMode
  {
    if m == Boolean(Or) then Or else And
  }

  /** Which configurations are boolean filters, and of which mode. */
  lemma BooleanTypeOfParsed(methodName: string, boolean: string)
    requires ParseMethod(methodName, boolean).Some?
    ensures var m := ParseMethod(methodName, boolean).value;
            (IsBooleanFilter(m) <==> methodName == "filterOr" || methodName == "filterAnd" || methodName == "filterInArray")
            && (IsBooleanFilter(m) ==>
                  (GetBooleanType(m) == Or <==> methodName == "filterOr" || (methodName == "filterInArray" && boolean == "or")))
  {
  }

  /** `map.value`: a scalar, a bitmask (OR mode, and 0) or a list of bits (AND mode). */
  datatype FilterValue = Plain(k: Key) | MaskV(m: Mask) | Bits(bits: seq<Mask>)

  /** `map.active`: undefined before the dimensions exist, a flag, or the selected values. */
  datatype Active = Unset | Flag(on: bool) | Selected(values: seq<Key>)

  datatype FilterState = FilterState(value: FilterValue, active: Active)

  /** The errors the engine's operations can end in. */
  datatype Fault =
    | UnknownFilter(key: string)   // `this.filterMap[key]` is undefined
    | ActiveNotList                // `map.active.pushObject`/`removeObject` on a non-array
    | ValueNotList                 // `map.value.indexOf` on a number
    | NoCounterpart(name: string)  // the assertion in `_setFilterRangeMin`/`Max`
    | NoCallback(name: string)     // the assertion in `_setFilterFunction`
    | NotBuilt                     // the crossfilter or a dimension is still undefined
    | NoSortObject                 // the first assertion in `sortContent`
    | NoSortProperty               // the second assertion in `sortContent`
    | NotAFunction                 // `this.deleteRecord` is not a method of the controller

  /** The state an operation leaves, and the error it stopped at, if any. */
  datatype Step = Step(state: FilterState, fault: Option<Fault>)

  /** The number a value is read as by `|=`, `&` and `^`; only masks occur there. */
  function AsMask(v: FilterValue): Mask
  {
    if v.MaskV? then v.m else {}
  }

  /** The state `_createDimensions` (and `_createFilterBoolean`) sets up. */
  function Initial(m: Method): FilterState
  {
    if IsBooleanFilter(m) then FilterState(MaskV({}), Selected([]))
    else FilterState(Plain(KNull), Flag(false))
  }

  /** `addFilter(key, value)` on one entry, before `_updateContent`. */
  function AddStep(m: Method, properties: map<Key, Mask>, st: FilterState, v: Key): Step
  {
    if !IsBooleanFilter(m) then Step(FilterState(Plain(v), Flag(true)), None)
    else if !st.active.Selected? then Step(st, Some(ActiveNotList))
    else
      var active := Selected(Uniq(st.active.values + [v]));
      var bit := BitOf(properties, v);
      if GetBooleanType(m) == Or then Step(FilterState(MaskV(BitOr(AsMask(st.value), bit)), active), None)
      else
        var bits := if st.value.Bits? then st.value.bits else [];
        Step(FilterState(Bits(bits + [bit]), active), None)
  }

  /**
   * `removeFilter(key, value)` on one entry, before `_updateContent`. In AND
   * mode a value that is still the number 0 has no `indexOf`: the operation
   * fails after `active` was already updated.
   */
  function RemoveStep(m: Method, properties: map<Key, Mask>, st: FilterState, v: Key): Step
  {
    if !IsBooleanFilter(m) then Step(FilterState(Plain(KBool(false)), Flag(false)), None)
    else if !st.active.Selected? then Step(st, Some(ActiveNotList))
    else
      var active := Selected(Uniq(RemoveAll(st.active.values, v)));
      var bit := BitOf(properties, v);
      if GetBooleanType(m) == Or then
        var value := if BitAnd(AsMask(st.value), bit) != {} then MaskV(BitXor(AsMask(st.value), bit)) else st.value;
        Step(FilterState(value, active), None)
      else if st.value.Bits? then
        Step(FilterState(Bits(Splice1(st.value.bits, IndexOf(st.value.bits, bit))), active), None)
      else
        Step(FilterState(st.value, active), Some(ValueNotList))
  }

  /** `isActiveFilter(key, value)` on one entry. */
  predicate IsActive(m: Method, properties: map<Key, Mask>, st: FilterState, v: Key)
  {
    if IsBooleanFilter(m) then
      if GetBooleanType(m) == Or then BitAnd(AsMask(st.value), BitOf(properties, v)) != {}
      else st.value.Bits? && BitOf(properties, v) in st.value.bits
    else st.active == Flag(true)
  }

  /**
   * What `clearAllFilters` leaves on one entry as written: `active` becomes
   * `false` for every entry, boolean ones included, and `value` null (0 for a
   * boolean filter).
   */
  function ClearedAsWritten(m: Method): FilterState
  {
    if IsBooleanFilter(m) then FilterState(MaskV({}), Flag(false))
    else FilterState(Plain(KNull), Flag(false))
  }

  /**
   * From the state `_createDimensions` sets up nothing is active, and an add
   * succeeds and makes its value active, unless it is an OR value without a bit.
   */
  lemma InitialInactive(m: Method, properties: map<Key, Mask>, v: Key)
    ensures !IsActive(m, properties, Initial(m), v)
    ensures var r := AddStep(m, properties, Initial(m), v);
            r.fault == None
            && (IsActive(m, properties, r.state, v) <==> m != Boolean(Or) || BitOf(properties, v) != {})
  {
  }

  // ---------------------------------------------------------------------
  // The active list of a boolean filter

  /** `addFilter` appends a new value to `active` and leaves an already selected one where it is. */
  lemma ActiveAfterAdd(m: Method, properties: map<Key, Mask>, st: FilterState, v: Key)
    requires IsBooleanFilter(m) && st.active.Selected? && NoDup(st.active.values)
    ensures var a := st.active.values;
            var step := AddStep(m, properties, st, v);
            step.fault == None && step.state.active == Selected(if v in a then a else a + [v])
  {
    UniqPush(st.active.values, v);
  }

  /** `removeFilter` takes exactly `v` out of `active` and keeps the others in order. */
  lemma ActiveAfterRemove(m: Method, properties: map<Key, Mask>, st: FilterState, v: Key)
    requires IsBooleanFilter(m) && st.active.Selected? && NoDup(st.active.values)
    ensures var step := RemoveStep(m, properties, st, v);
            step.state.active == Selected(RemoveAll(st.active.values, v))
            && NoDup(step.state.active.values)
            && (forall x :: x in step.state.active.values <==> x in st.active.values && x != v)
  {
    UniqRemoveAll(st.active.values, v);
    RemoveAllMembers(st.active.values, v);
  }

  // ---------------------------------------------------------------------
  // OR mode

  /** In OR mode `value` is the OR of the bits of the values in `active`. */
  ghost predicate OrTracks(properties: map<Key, Mask>, st: FilterState)
  {
    st.active.Selected? && NoDup(st.active.values) && st.value == MaskV(OrMask(st.active.values, properties))
  }

  lemma {:induction false} OrMaskHas(values: seq<Key>, properties: map<Key, Mask>, s: Key)
    requires s in values
    ensures BitOf(properties, s) <= OrMask(values, properties)
  {
    if values[|values| - 1] != s {
      var p := values[..|values| - 1];
      assert s in p by { assert values == p + [values[|values| - 1]]; }
      OrMaskHas(p, properties, s);
    }
  }

  /** Taking a value out of the selection takes its bit out of the OR, and nothing else. */
  lemma {:induction false} OrMaskRemoveAll(values: seq<Key>, properties: map<Key, Mask>, v: Key)
    requires SingleBits(properties)
    ensures OrMask(RemoveAll(values, v), properties) == OrMask(values, properties) - BitOf(properties, v)
  {
    if values != [] {
      var p := values[..|values| - 1];
      var last := values[|values| - 1];
      var bl, bv := BitOf(properties, last), BitOf(properties, v);
      OrMaskRemoveAll(p, properties, v);
      assert OrMask(values, properties) == OrMask(p, properties) + bl;
      if last == v {
        assert RemoveAll(values, v) == RemoveAll(p, v);
      } else {
        var r := RemoveAll(p, v) + [last];
        assert RemoveAll(values, v) == r;
        assert r[..|r| - 1] == RemoveAll(p, v);
        assert OrMask(r, properties) == OrMask(RemoveAll(p, v), properties) + bl;
        assert bl * bv == {} by {
          if last in properties && v in properties {
            assert BitAnd(properties[last], properties[v]) == {};
          }
        }
        MinusDisjoint(bl, bv);
      }
    }
  }

  /** A selection's OR is 0 exactly when no selected value has a bit. */
  lemma OrMaskEmpty(values: seq<Key>, properties: map<Key, Mask>)
    requires SingleBits(properties)
    ensures OrMask(values, properties) == {} <==> forall s :: s in values ==> s !in properties
  {
    var o := OrMask(values, properties);
    OrMaskMeets(values, properties, o);
    forall s | s in values && s in properties ensures o != {} {
      OrMaskHas(values, properties, s);
    }
  }

  /** The initial OR state tracks its (empty) selection. */
  lemma OrInitialTracks(properties: map<Key, Mask>)
    ensures OrTracks(properties, Initial(Boolean(Or)))
  {
  }

  lemma OrAddTracks(properties: map<Key, Mask>, st: FilterState, v: Key)
    requires OrTracks(properties, st)
    ensures AddStep(Boolean(Or), properties, st, v).fault == None
    ensures OrTracks(properties, AddStep(Boolean(Or), properties, st, v).state)
  {
    var a := st.active.values;
    UniqPush(a, v);
    if v in a {
      OrMaskHas(a, properties, v);
    } else {
      assert (a + [v])[..|a|] == a;
    }
  }

  lemma OrRemoveTracks(properties: map<Key, Mask>, st: FilterState, v: Key)
    requires SingleBits(properties) && OrTracks(properties, st)
    ensures RemoveStep(Boolean(Or), properties, st, v).fault == None
    ensures OrTracks(properties, RemoveStep(Boolean(Or), properties, st, v).state)
  {
    var a := st.active.values;
    var o := OrMask(a, properties);
    var bit := BitOf(properties, v);
    UniqRemoveAll(a, v);
    OrMaskRemoveAll(a, properties, v);
    if BitAnd(o, bit) != {} {
      OrMaskMeets(a, properties, bit);
      var s :| s in a && BitAnd(BitOf(properties, s), bit) != {};
      assert s == v;
      OrMaskHas(a, properties, v);
    } else {
      MinusDisjoint(o, bit);
    }
  }

  /** Selecting an unselected value and removing it again restores the OR state. */
  lemma OrAddRemoveRestores(properties: map<Key, Mask>, st: FilterState, v: Key)
    requires SingleBits(properties) && OrTracks(properties, st) && v !in st.active.values
    ensures RemoveStep(Boolean(Or), properties, AddStep(Boolean(Or), properties, st, v).state, v).state == st
  {
    var a := st.active.values;
    var o := OrMask(a, properties);
    var bit := BitOf(properties, v);
    assert Uniq(a + [v]) == a + [v] by { UniqPush(a, v); }
    assert Uniq(RemoveAll(a + [v], v)) == a by {
      RemoveAllConcat(a, [v], v);
      RemoveAllAbsent(a, v);
      assert RemoveAll([v], v) == [] by { assert [v][..0] == []; }
      assert RemoveAll(a + [v], v) == a;
      UniqOfNoDup(a);
    }
    assert BitAnd(o, bit) == {} by {
      OrMaskRemoveAll(a, properties, v);
      RemoveAllAbsent(a, v);
      forall x | x in o ensures x !in bit { assert x in o - bit; }
    }
    var st1 := FilterState(MaskV(BitOr(o, bit)), Selected(a + [v]));
    assert AddStep(Boolean(Or), properties, st, v).state == st1;
    if bit == {} {
      assert BitOr(o, bit) == o;
    } else {
      XorUndoesOr(o, bit);
    }
  }

  /** With the bits in place, OR `isActiveFilter` is exactly membership in `active`. */
  lemma OrIsActive(properties: map<Key, Mask>, st: FilterState, v: Key)
    requires SingleBits(properties) && OrTracks(properties, st) && v in properties
    ensures IsActive(Boolean(Or), properties, st, v) <==> v in st.active.values
  {
    var a := st.active.values;
    OrMaskMeets(a, properties, BitOf(properties, v));
    if v in a { OrMaskHas(a, properties, v); }
  }

  // ---------------------------------------------------------------------
  // AND mode

  /** The bits of a run of values, in order. */
  function BitsOf(values: seq<Key>, properties: map<Key, Mask>): (r: seq<Mask>)
    ensures |r| == |values|
    ensures forall i :: 0 <= i < |values| ==> r[i] == BitOf(properties, values[i])
  {
    if values == [] then [] else [BitOf(properties, values[0])] + BitsOf(values[1..], properties)
  }

  /**
   * In AND mode `value` is 0 with nothing selected, or the list of the bits of
   * the values in `active`, in the same order.
   */
  ghost predicate AndTracks(properties: map<Key, Mask>, st: FilterState)
  {
    && st.active.Selected? && NoDup(st.active.values)
    && match st.value
       case MaskV(m) => m == {} && st.active.values == []
       case Bits(bs) => bs == BitsOf(st.active.values, properties)
       case Plain(_) => false
  }

  lemma AndInitialTracks(properties: map<Key, Mask>)
    ensures AndTracks(properties, Initial(Boolean(And)))
  {
  }

  lemma AndAddTracks(properties: map<Key, Mask>, st: FilterState, v: Key)
    requires AndTracks(properties, st) && v !in st.active.values
    ensures AddStep(Boolean(And), properties, st, v).fault == None
    ensures AndTracks(properties, AddStep(Boolean(And), properties, st, v).state)
  {
    var a := st.active.values;
    UniqPush(a, v);
    assert NoDup(a + [v]);
    var r := AddStep(Boolean(And), properties, st, v).state;
    assert r.value.bits == BitsOf(a + [v], properties);
  }

  /** A known bit is the bit of one value only. */
  lemma BitOfInjective(properties: map<Key, Mask>, s: Key, v: Key)
    requires SingleBits(properties) && v in properties && BitOf(properties, s) == BitOf(properties, v)
    ensures s == v
  {
  }

  /** The first index holding a known value's bit is that value's index. */
  lemma BitsOfIndex(values: seq<Key>, properties: map<Key, Mask>, v: Key)
    requires SingleBits(properties) && v in values && v in properties
    ensures var i := IndexOf(BitsOf(values, properties), BitOf(properties, v));
            0 <= i < |values| && values[i] == v
  {
    var bs := BitsOf(values, properties);
    var k :| 0 <= k < |values| && values[k] == v;
    assert bs[k] == BitOf(properties, v);
    var i := IndexOf(bs, BitOf(properties, v));
    BitOfInjective(properties, values[i], v);
  }

  lemma BitsOfSplice(values: seq<Key>, properties: map<Key, Mask>, i: nat)
    requires i < |values|
    ensures BitsOf(values[..i] + values[i + 1..], properties)
            == BitsOf(values, properties)[..i] + BitsOf(values, properties)[i + 1..]
  {
  }

  lemma AndRemoveTracks(properties: map<Key, Mask>, st: FilterState, v: Key)
    requires SingleBits(properties) && AndTracks(properties, st)
    requires v in st.active.values && v in properties
    ensures RemoveStep(Boolean(And), properties, st, v).fault == None
    ensures AndTracks(properties, RemoveStep(Boolean(And), properties, st, v).state)
  {
    var a := st.active.values;
    var i := IndexOf(st.value.bits, BitOf(properties, v));
    BitsOfIndex(a, properties, v);
    var rest := a[..i] + a[i + 1..];
    UniqRemoveAll(a, v);
    RemoveAllAt(a, i);
    AndRemoveAt(properties, st, v, i);
  }

  lemma AndRemoveAt(properties: map<Key, Mask>, st: FilterState, v: Key, i: nat)
    requires AndTracks(properties, st) && st.value.Bits?
    requires i == IndexOf(st.value.bits, BitOf(properties, v)) && i < |st.active.values|
    requires var a := st.active.values; Uniq(RemoveAll(a, v)) == a[..i] + a[i + 1..]
                                        && NoDup(a[..i] + a[i + 1..])
    ensures var a := st.active.values;
            RemoveStep(Boolean(And), properties, st, v)
            == Step(FilterState(Bits(BitsOf(a[..i] + a[i + 1..], properties)), Selected(a[..i] + a[i + 1..])), None)
    ensures AndTracks(properties, RemoveStep(Boolean(And), properties, st, v).state)
  {
    BitsOfSplice(st.active.values, properties, i);
  }

  /** With the bits in place, AND `isActiveFilter` is exactly membership in `active`. */
  lemma AndIsActive(properties: map<Key, Mask>, st: FilterState, v: Key)
    requires SingleBits(properties) && AndTracks(properties, st) && v in properties
    ensures IsActive(Boolean(And), properties, st, v) <==> v in st.active.values
  {
    var a := st.active.values;
    if st.value.Bits? {
      var bs := st.value.bits;
      if BitOf(properties, v) in bs {
        var k :| 0 <= k < |bs| && bs[k] == BitOf(properties, v);
        BitOfInjective(properties, a[k], v);
      }
      if v in a {
        var k :| 0 <= k < |a| && a[k] == v;
        assert bs[k] == BitOf(properties, v);
      }
    }
  }

  /**
   * Removing a value that is not selected finds no index (-1), and
   * `splice(-1, 1)` drops the last selected bit instead.
   */
  lemma AndRemoveUnselectedDropsLast(properties: map<Key, Mask>, st: FilterState, v: Key)
    requires st.active.Selected? && st.value.Bits? && st.value.bits != []
    requires BitOf(properties, v) !in st.value.bits
    ensures var bs := st.value.bits;
            RemoveStep(Boolean(And), properties, st, v).state.value == Bits(bs[..|bs| - 1])
  {
  }

  /** Selecting an already selected value leaves `active` alone but pushes its bit a second time. */
  lemma AndAddSelectedDuplicatesBit(properties: map<Key, Mask>, st: FilterState, v: Key)
    requires st.active.Selected? && NoDup(st.active.values) && v in st.active.values && st.value.Bits?
    ensures var r := AddStep(Boolean(And), properties, st, v).state;
            r.active == st.active && r.value == Bits(st.value.bits + [BitOf(properties, v)])
  {
    UniqPush(st.active.values, v);
  }

  /** Removing from an AND filter nothing was ever added to fails on `(0).indexOf`. */
  lemma AndRemoveBeforeAddFails(properties: map<Key, Mask>, v: Key)
    ensures var step := RemoveStep(Boolean(And), properties, Initial(Boolean(And)), v);
            step.fault == Some(ValueNotList) && step.state.active == Selected([])
  {
    assert RemoveAll([], v) == [];
  }

  // ---------------------------------------------------------------------
  // Non-boolean filters and clearing

  /** A non-boolean filter is active after `addFilter`, inactive after `removeFilter`. */
  lemma NonBooleanActive(m: Method, properties: map<Key, Mask>, st: FilterState, v: Key, w: Key)
    requires !IsBooleanFilter(m)
    ensures var added := AddStep(m, properties, st, v);
            added.fault == None && added.state.value == Plain(v)
            && IsActive(m, properties, added.state, w)
    ensures var removed := RemoveStep(m, properties, st, v);
            removed.fault == None && removed.state.value == Plain(KBool(false))
            && !IsActive(m, properties, removed.state, w)
  {
  }

  /**
   * After `clearAllFilters` as written, a boolean filter's `active` is
   * `false`, and the next `addFilter` or `removeFilter` on it fails on
   * `false.pushObject` / `false.removeObject`; from the state the dimensions
   * were set up with, both succeed.
   */
  lemma ClearedAsWrittenBreaksBoolean(m: Method, properties: map<Key, Mask>, v: Key)
    requires IsBooleanFilter(m)
    ensures AddStep(m, properties, ClearedAsWritten(m), v).fault == Some(ActiveNotList)
    ensures RemoveStep(m, properties, ClearedAsWritten(m), v).fault == Some(ActiveNotList)
    ensures AddStep(m, properties, Initial(m), v).fault == None
    ensures AddStep(m, properties, Initial(m), v).state.active == Selected([v])
  {
    assert Uniq([] + [v]) == [v] by { assert ([] + [v])[..0] == []; }
  }

  // ---------------------------------------------------------------------
  // The predicates installed on the dimensions

  /** The filter a dimension currently applies. */
  datatype DimFilter =
    | FilterAll
    | FilterExact(k: Key)
    | FilterRange(lo: Option<Key>, hi: Option<Key>)
    | FilterOr(selection: Mask)
    | FilterAnd(value: FilterValue)
    | FilterCallback(name: string)

  /** A record's key on a dimension: an attribute value, or a cached bitmask. */
  datatype DimKey = Scalar(k: Key) | MaskKey(m: Mask)

  /** A dimension key as a comparable value; a mask is read as its 32-bit number. */
  function AsKey(d: DimKey): Key
  {
    match d
    case Scalar(k) => k
    case MaskKey(m) => KNum(ToNumber(m))
  }

  /** A dimension key as `&` reads it: null (a record without a cached mask) is 0. */
  function MaskOf(d: DimKey): Mask
  {
    if d.MaskKey? then d.m else {}
  }

  /** `[lo, hi]` is an interval of the key order; its upper end is included when `upperInclusive`. */
  predicate InRange(k: Key, lo: Option<Key>, hi: Option<Key>, upperInclusive: bool)
  {
    (lo.None? || KeyLe(lo.value, k))
    && (hi.None? || KeyLt(k, hi.value) || (upperInclusive && k == hi.value))
  }

  /**
   * Whether a dimension's filter lets a record with key `d` through.
   * `callbacks` holds the user's `_apply<Name>` methods by filter name. An
   * exact filter for `false`, as `removeFilter` leaves it, restricts nothing.
   */
  predicate Admits(f: DimFilter, d: DimKey, callbacks: map<string, Key -> bool>, upperInclusive: bool)
  {
    match f
    case FilterAll => true
    case FilterExact(k) => k == KBool(false) || AsKey(d) == k
    case FilterRange(lo, hi) => InRange(AsKey(d), lo, hi, upperInclusive)
    case FilterOr(selection) => selection == {} || BitAnd(selection, MaskOf(d)) != {}
    case FilterAnd(value) => !value.Bits? || forall b :: b in value.bits ==> BitAnd(MaskOf(d), b) != {}
    case FilterCallback(name) => name in callbacks && callbacks[name](AsKey(d))
  }

  /**
   * A record passes an OR filter exactly when nothing known is selected, or
   * it lists one of the selected (truthy) values.
   */
  lemma OrAdmits(properties: map<Key, Mask>, st: FilterState, list: seq<Key>,
                 callbacks: map<string, Key -> bool>, upperInclusive: bool)
    requires SingleBits(properties) && OrTracks(properties, st)
    requires NoDup(list) && forall k :: k in list ==> k in properties
    ensures Admits(FilterOr(AsMask(st.value)), MaskKey(RecordMask(list, properties)), callbacks, upperInclusive)
            <==> (forall s :: s in st.active.values ==> s !in properties)
                 || exists s :: s in st.active.values && Truthy(s) && s in list
  {
    var a := st.active.values;
    var rm := RecordMask(list, properties);
    OrMaskEmpty(a, properties);
    OrMaskMeets(a, properties, rm);
    RecordMaskMembership(list, properties);
    assert BitAnd(OrMask(a, properties), rm) == BitAnd(rm, OrMask(a, properties));
    forall s | s in a ensures BitAnd(BitOf(properties, s), rm) != {} <==> Truthy(s) && s in list {
      if s in properties {
        assert BitAnd(BitOf(properties, s), rm) == BitAnd(rm, properties[s]);
      }
    }
  }

  /** A record passes an AND filter exactly when it lists every selected value (each truthy). */
  lemma AndAdmits(properties: map<Key, Mask>, st: FilterState, list: seq<Key>,
                  callbacks: map<string, Key -> bool>, upperInclusive: bool)
    requires SingleBits(properties) && AndTracks(properties, st)
    requires NoDup(list) && forall k :: k in list ==> k in properties
    ensures Admits(FilterAnd(st.value), MaskKey(RecordMask(list, properties)), callbacks, upperInclusive)
            <==> forall s :: s in st.active.values ==> Truthy(s) && s in list
  {
    var a := st.active.values;
    var rm := RecordMask(list, properties);
    RecordMaskMembership(list, properties);
    if st.value.Bits? {
      var bs := st.value.bits;
      forall k | 0 <= k < |a| ensures BitAnd(rm, bs[k]) != {} <==> Truthy(a[k]) && a[k] in list {
        if a[k] !in properties { assert bs[k] == {}; }
      }
      if forall s :: s in a ==> Truthy(s) && s in list {
        forall b | b in bs ensures BitAnd(rm, b) != {} {
          var k :| 0 <= k < |bs| && bs[k] == b;
        }
      }
      if forall b :: b in bs ==> BitAnd(rm, b) != {} {
        forall s | s in a ensures Truthy(s) && s in list {
          var k :| 0 <= k < |a| && a[k] == s;
          assert bs[k] in bs;
        }
      }
    }
  }

  /** A string occurs in `s` at index `i`. */
  predicate OccursAt(s: string, pat: string, i: nat)
  {
    i + |pat| <= |s| && s[i..i + |pat|] == pat
  }

  /** The first index at which `pat` occurs in `s`, or -1. */
  function FirstOccurrence(s: string, pat: string): (i: int)
    ensures -1 <= i <= |s|
    ensures i == -1 <==> forall j: nat :: !OccursAt(s, pat, j)
    ensures i >= 0 ==> OccursAt(s, pat, i) && forall j: nat :: j < i ==> !OccursAt(s, pat, j)
    decreases |s|
  {
    if |s| < |pat| then
      assert forall j: nat :: !OccursAt(s, pat, j);
      -1
    else if s[..|pat|] == pat then
      assert OccursAt(s, pat, 0);
      0
    else
      var k := FirstOccurrence(s[1..], pat);
      OccursShift(s, pat);
      if k == -1 then -1
      else
        assert OccursAt(s, pat, k + 1);
        k + 1
  }

  lemma OccursShift(s: string, pat: string)
    requires s != [] && !OccursAt(s, pat, 0)
    ensures forall j: nat :: OccursAt(s, pat, j) <==> j >= 1 && OccursAt(s[1..], pat, j - 1)
  {
    forall j: nat | j >= 1 ensures OccursAt(s, pat, j) <==> OccursAt(s[1..], pat, j - 1) {
      if j + |pat| <= |s| {
        var a, b := s[j..j + |pat|], s[1..][j - 1..j - 1 + |pat|];
        assert |a| == |b| && forall t :: 0 <= t < |a| ==> a[t] == s[j + t] == b[t];
        assert a == b;
      }
    }
  }

  /** JavaScript's `s.replace(pat, rep)` with a string pattern: the first occurrence only. */
  function ReplaceFirst(s: string, pat: string, rep: string): string
  {
    var i := FirstOccurrence(s, pat);
    if i == -1 then s else s[..i] + rep + s[i + |pat|..]
  }

  /** The counterpart of a range filter: `min` and `max` swapped in its name. */
  function Counterpart(name: string, m: Method): string
  {
    if m == RangeMin then ReplaceFirst(name, "min", "max") else ReplaceFirst(name, "max", "min")
  }

  /** `map.value || -Infinity` (or `|| Infinity`): a falsy value leaves that end open. */
  function Bound(v: FilterValue): Option<Key>
  {
    if v.Plain? && Truthy(v.k) then Some(v.k) else None
  }

  /**
   * An end of a range admits every key exactly when that end's value is
   * falsy: a truthy bound always leaves some key outside it.
   */
  lemma BoundOpensSide(v: FilterValue, upperInclusive: bool)
    ensures (forall k :: InRange(k, Bound(v), None, upperInclusive)) <==> !(v.Plain? && Truthy(v.k))
    ensures (forall k :: InRange(k, None, Bound(v), upperInclusive)) <==> !(v.Plain? && Truthy(v.k))
  {
    if v.Plain? && Truthy(v.k) {
      assert !InRange(KNull, Bound(v), None, upperInclusive);
      var a := Above(v.k);
      assert !InRange(a, None, Bound(v), upperInclusive);
    }
  }

  /** The value an exact filter is given. */
  function ExactKey(v: FilterValue): Key
  {
    if v.Plain? then v.k else KNull
  }

  /**
   * `_updateContent`: the filter installed on an entry's dimension, from its
   * current state (and, for a range, its counterpart's).
   */
  function Install(name: string, configs: map<string, FilterConfig>, states: map<string, FilterState>,
                   callbacks: set<string>): Result<DimFilter, Fault>
    requires name in configs && configs.Keys <= states.Keys
  {
    var m := configs[name].kind;
    var st := states[name];
    match m
    case Boolean(_) =>
      if GetBooleanType(m) == And then Ok(FilterAnd(st.value)) else Ok(FilterOr(AsMask(st.value)))
    case RangeMin =>
      var other := Counterpart(name, m);
      if other !in configs then Err(NoCounterpart(other))
      else Ok(FilterRange(Bound(st.value), Bound(states[other].value)))
    case RangeMax =>
      var other := Counterpart(name, m);
      if other !in configs then Err(NoCounterpart(other))
      else Ok(FilterRange(Bound(states[other].value), Bound(st.value)))
    case Callback =>
      if st.value == Plain(KBool(false)) then Ok(FilterAll)
      else if name !in callbacks then Err(NoCallback(name))
      else Ok(FilterCallback(name))
    case Exact => Ok(FilterExact(ExactKey(st.value)))
  }

  /**
   * A `min…`/`max…` pair installs the same interval from either side: each
   * keeps the other's bound.
   */
  lemma RangePairAgree(t: string, configs: map<string, FilterConfig>, states: map<string, FilterState>,
                       callbacks: set<string>)
    requires "min" + t in configs && "max" + t in configs && configs.Keys <= states.Keys
    requires configs["min" + t].kind == RangeMin && configs["max" + t].kind == RangeMax
    ensures var r := Install("min" + t, configs, states, callbacks);
            r == Install("max" + t, configs, states, callbacks)
            && r == Ok(FilterRange(Bound(states["min" + t].value), Bound(states["max" + t].value)))
  {
    var lo, hi := "min" + t, "max" + t;
    assert lo[..3] == "min" && lo[3..] == t;
    assert hi[..3] == "max" && hi[3..] == t;
    assert FirstOccurrence(lo, "min") == 0 && FirstOccurrence(hi, "max") == 0;
    assert Counterpart(lo, RangeMin) == hi;
    assert Counterpart(hi, RangeMax) == lo;
  }

  /**
   * `removeFilter` on a non-boolean entry releases its own restriction: an
   * exact or callback filter then admits every record, and a range keeps
   * only its counterpart's bound.
   */
  lemma RemovedFilterReleases(name: string, configs: map<string, FilterConfig>, states: map<string, FilterState>,
                              callbacks: set<string>, properties: map<Key, Mask>, v: Key,
                              d: DimKey, fns: map<string, Key -> bool>, upperInclusive: bool)
    requires name in configs && configs.Keys <= states.Keys && !IsBooleanFilter(configs[name].kind)
    ensures var removed := states[name := RemoveStep(configs[name].kind, properties, states[name], v).state];
            var r := Install(name, configs, removed, callbacks);
            match configs[name].kind
            case Exact => r.Ok? && Admits(r.value, d, fns, upperInclusive)
            case Callback => r.Ok? && Admits(r.value, d, fns, upperInclusive)
            case RangeMin => r.Ok? ==> r.value.FilterRange? && r.value.lo.None?
            case RangeMax => r.Ok? ==> r.value.FilterRange? && r.value.hi.None?
            case Boolean(_) => true
  {
  }
}
