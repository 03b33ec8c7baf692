/**
 * The bitmask encoder behind the boolean (OR/AND) filters
 * (`_createFilterBoolean`): every distinct value of a list-valued attribute
 * gets its own bit, in first-seen order, and every record gets the mask of
 * the values it carries.
 */
module BitmaskEncoder {
  import opened Keys
  import opened Seqs
  import opened Bits32

  /** What `_createFilterBoolean` leaves on the filter map and the records. */
  datatype Encoding = Encoding(
    properties: map<Key, Mask>,   // `_mapProperties`: value -> bit
    total: Mask,                  // `_totalBitwise`
    masks: map<Record, Mask>)     // the cached `__ecBitwise<Name>` of each record

  /** `[].concat.apply([], content.mapProperty(property))`. */
  function Flatten(content: seq<Record>, property: string): seq<Key>
  {
    if content == [] then []
    else Flatten(content[..|content| - 1], property) + ListOf(content[|content| - 1], property)
  }

  /** Every entry of every record's list is among the flattened values. */
  lemma {:induction false} FlattenCovers(content: seq<Record>, property: string)
    ensures forall r0, k :: r0 in content && k in ListOf(r0, property) ==> k in Flatten(content, property)
  {
    if content != [] {
      var p := content[..|content| - 1];
      FlattenCovers(p, property);
      assert forall r0 :: r0 in content ==> r0 in p || r0 == content[|content| - 1];
    }
  }

  /** The distinct values, in first-seen order: the `properties` array. */
  function Values(content: seq<Record>, property: string): seq<Key>
  {
    Uniq(Flatten(content, property))
  }

  /** The i-th distinct value is given bit `1 << i`. */
  function PropertiesMap(values: seq<Key>): map<Key, Mask>
  {
    if values == [] then map[]
    else PropertiesMap(values[..|values| - 1])[values[|values| - 1] := Bit(|values| - 1)]
  }

  /** Exactly the values get a bit. */
  lemma {:induction false} PropertiesMapKeys(values: seq<Key>)
    ensures PropertiesMap(values).Keys == set v | v in values
  {
    if values != [] {
      var p := values[..|values| - 1];
      PropertiesMapKeys(p);
      assert forall v :: v in values <==> v in p || v == values[|values| - 1];
    }
  }

  lemma {:induction false} PropertiesMapBits(values: seq<Key>, i: nat)
    requires NoDup(values) && i < |values|
    ensures values[i] in PropertiesMap(values) && PropertiesMap(values)[values[i]] == Bit(i)
  {
    if i < |values| - 1 {
      var p := values[..|values| - 1];
      assert p[i] == values[i];
      PropertiesMapBits(p, i);
    }
  }

  /** XOR of `1 << i` for i below n: `_totalBitwise` after n values. */
  function TotalBitwise(n: nat): Mask
  {
    if n == 0 then {} else BitXor(TotalBitwise(n - 1), Bit(n - 1))
  }

  function OrBitwise(n: nat): Mask
  {
    if n == 0 then {} else BitOr(OrBitwise(n - 1), Bit(n - 1))
  }

  /**
   * With at most 32 values the XOR total is the OR of the bits and holds
   * exactly the bits of the values assigned.
   */
  lemma {:induction false} TotalBitwiseIsOr(n: nat)
    requires n <= 32
    ensures TotalBitwise(n) == OrBitwise(n)
    ensures forall j: nat :: j in TotalBitwise(n) <==> j < n
  {
    if n > 0 {
      TotalBitwiseIsOr(n - 1);
      XorOfDisjointIsOr(TotalBitwise(n - 1), Bit(n - 1));
    }
  }

  /** With 33 values the XOR total loses the first bit again, while the OR keeps it. */
  lemma TotalBitwiseOverflow()
    ensures 0 !in TotalBitwise(33) && 0 in OrBitwise(33)
  {
    TotalBitwiseIsOr(32);
    assert 0 in TotalBitwise(32);
    BitCollision();
    assert OrBitwise(32) == TotalBitwise(32);
  }

  /** `_mapProperties[v]`; an unmapped value is `undefined`, which bitwise operators read as 0. */
  function BitOf(properties: map<Key, Mask>, v: Key): Mask
  {
    if v in properties then properties[v] else {}
  }

  /** A record's mask: the XOR of the bits of its truthy list entries. */
  function RecordMask(list: seq<Key>, properties: map<Key, Mask>): Mask
  {
    if list == [] then {}
    else
      var last := list[|list| - 1];
      BitXor(RecordMask(list[..|list| - 1], properties), if Truthy(last) then BitOf(properties, last) else {})
  }

  /** The cached masks of a run of records. */
  function Masks(content: seq<Record>, property: string, properties: map<Key, Mask>): map<Record, Mask>
  {
    if content == [] then map[]
    else
      var last := content[|content| - 1];
      Masks(content[..|content| - 1], property, properties)[last := RecordMask(ListOf(last, property), properties)]
  }

  /** Every record of the run gets a cached mask, and it is the mask of its list. */
  lemma {:induction false} MasksOf(content: seq<Record>, property: string, properties: map<Key, Mask>)
    ensures Masks(content, property, properties).Keys == set r | r in content
    ensures forall r :: r in Masks(content, property, properties) ==>
              Masks(content, property, properties)[r] == RecordMask(ListOf(r, property), properties)
  {
    if content != [] {
      var p := content[..|content| - 1];
      MasksOf(p, property, properties);
      assert forall r :: r in content <==> r in p || r == content[|content| - 1];
    }
  }

  /** What `_createFilterBoolean` computes for `property` over `content`. */
  function EncodingOf(content: seq<Record>, property: string): Encoding
  {
    var values := Values(content, property);
    var properties := PropertiesMap(values);
    Encoding(properties, TotalBitwise(|values|), Masks(content, property, properties))
  }

  /**
   * The first loop of `_createFilterBoolean`: gives the distinct values bits
   * with a running index and accumulates their XOR.
   */
  method AssignBits(properties: seq<Key>) returns (propertiesMap: map<Key, Mask>, totalBitwise: Mask)
    ensures propertiesMap == PropertiesMap(properties)
    ensures totalBitwise == TotalBitwise(|properties|)
  {
    propertiesMap := map[];
    totalBitwise := {};
    var currentIndex: nat := 0;
    var u := 0;
    while u < |properties|
      invariant 0 <= u <= |properties| && currentIndex == u
      invariant propertiesMap == PropertiesMap(properties[..u])
      invariant totalBitwise == TotalBitwise(u)
    {
      var propertyBitwise := Bit(currentIndex);
      currentIndex := currentIndex + 1;
      totalBitwise := BitXor(totalBitwise, propertyBitwise);
      propertiesMap := propertiesMap[properties[u] := propertyBitwise];
      ghost var seen := properties[..u + 1];
      assert seen[..|seen| - 1] == properties[..u] && seen[|seen| - 1] == properties[u];
      u := u + 1;
    }
    assert properties[..u] == properties;
  }

  /**
   * `_createFilterBoolean`: assigns the bits, then computes every record's
   * mask. The record loop and the entry loop both run one index past the
   * end, where the read is `undefined` and skipped.
   */
  method CreateFilterBoolean(content: seq<Record>, property: string) returns (enc: Encoding)
    ensures enc == EncodingOf(content, property)
  {
    var propertiesMap, totalBitwise := AssignBits(Values(content, property));
    var masks: map<Record, Mask> := map[];
    var modelIndex := 0;
    var numModels := |content|;
    while modelIndex <= numModels
      invariant 0 <= modelIndex <= numModels + 1
      invariant masks == Masks(content[..if modelIndex <= numModels then modelIndex else numModels], property, propertiesMap)
    {
      if modelIndex < numModels {
        var model := content[modelIndex];
        var itemBitwise := RecordBitwise(ListOf(model, property), propertiesMap);
        ghost var done := content[..modelIndex + 1];
        assert done[..|done| - 1] == content[..modelIndex] && done[|done| - 1] == model;
        masks := masks[model := itemBitwise];
      }
      modelIndex := modelIndex + 1;
    }
    assert content[..numModels] == content;
    enc := Encoding(propertiesMap, totalBitwise, masks);
  }

  /**
   * The inner loop of `_createFilterBoolean`: XORs in the bit of every truthy
   * entry of one record's list, running one index past the end.
   */
  method RecordBitwise(propertiesList: seq<Key>, propertiesMap: map<Key, Mask>) returns (itemBitwise: Mask)
    ensures itemBitwise == RecordMask(propertiesList, propertiesMap)
  {
    itemBitwise := {};
    var propertyIndex := 0;
    var numItems := |propertiesList|;
    while propertyIndex <= numItems
      invariant 0 <= propertyIndex <= numItems + 1
      invariant itemBitwise == RecordMask(propertiesList[..if propertyIndex <= numItems then propertyIndex else numItems], propertiesMap)
    {
      if propertyIndex < numItems && Truthy(propertiesList[propertyIndex]) {
        itemBitwise := BitXor(itemBitwise, BitOf(propertiesMap, propertiesList[propertyIndex]));
      }
      assert propertyIndex < numItems ==> propertiesList[..propertyIndex + 1][..propertyIndex] == propertiesList[..propertyIndex];
      propertyIndex := propertyIndex + 1;
    }
    assert propertiesList[..numItems] == propertiesList;
  }

  /** Every value maps to a non-zero bit and different values to disjoint bits. */
  ghost predicate SingleBits(properties: map<Key, Mask>)
  {
    && (forall v :: v in properties ==> properties[v] != {})
    && (forall v, w :: v in properties && w in properties && v != w ==> BitAnd(properties[v], properties[w]) == {})
  }

  /** The bits stay distinct only while there are at most 32 values. */
  lemma PropertiesMapSingleBits(values: seq<Key>)
    requires NoDup(values) && |values| <= 32
    ensures SingleBits(PropertiesMap(values))
  {
    var m := PropertiesMap(values);
    PropertiesMapKeys(values);
    forall v | v in m ensures m[v] != {} {
      var i :| 0 <= i < |values| && values[i] == v;
      PropertiesMapBits(values, i);
    }
    forall v, w | v in m && w in m && v != w ensures BitAnd(m[v], m[w]) == {} {
      var i :| 0 <= i < |values| && values[i] == v;
      var j :| 0 <= j < |values| && values[j] == w;
      PropertiesMapBits(values, i);
      PropertiesMapBits(values, j);
      BitsDisjoint(i, j);
    }
  }

  /**
   * A record's mask meets the bit of a truthy known value exactly when the
   * record lists that value, and never meets the bit of a falsy one.
   */
  lemma {:induction false} RecordMaskMembership(list: seq<Key>, properties: map<Key, Mask>)
    requires SingleBits(properties) && NoDup(list)
    ensures forall v :: v in properties && Truthy(v) ==>
              (BitAnd(RecordMask(list, properties), properties[v]) != {} <==> v in list)
    ensures forall v :: v in properties && !Truthy(v) ==> BitAnd(RecordMask(list, properties), properties[v]) == {}
  {
    if list != [] {
      var p := list[..|list| - 1];
      var last := list[|list| - 1];
      assert NoDup(p);
      RecordMaskMembership(p, properties);
      forall v | v in properties
        ensures Truthy(v) ==> (BitAnd(RecordMask(list, properties), properties[v]) != {} <==> v in list)
        ensures !Truthy(v) ==> BitAnd(RecordMask(list, properties), properties[v]) == {}
      {
        assert v in list <==> v in p || v == last;
        if v == last && Truthy(v) {
          assert last !in p;
        }
      }
    }
  }

  /** OR of the bits of a run of values. */
  function OrMask(values: seq<Key>, properties: map<Key, Mask>): Mask
  {
    if values == [] then {} else BitOr(OrMask(values[..|values| - 1], properties), BitOf(properties, values[|values| - 1]))
  }

  /** For a list of distinct known values, the XOR mask equals the OR mask. */
  lemma {:induction false} RecordMaskIsOr(list: seq<Key>, properties: map<Key, Mask>)
    requires SingleBits(properties) && NoDup(list)
    requires forall k :: k in list ==> Truthy(k) && k in properties
    ensures RecordMask(list, properties) == OrMask(list, properties)
  {
    if list != [] {
      var p := list[..|list| - 1];
      var last := list[|list| - 1];
      assert NoDup(p);
      RecordMaskIsOr(p, properties);
      RecordMaskMembership(p, properties);
      assert last !in p;
      XorOfDisjointIsOr(RecordMask(p, properties), properties[last]);
    }
  }

  /** A selection mask meets a mask exactly when the bit of one of the selected values does. */
  lemma {:induction false} OrMaskMeets(selected: seq<Key>, properties: map<Key, Mask>, x: Mask)
    ensures BitAnd(OrMask(selected, properties), x) != {} <==> exists s :: s in selected && BitAnd(BitOf(properties, s), x) != {}
  {
    if selected != [] {
      var p := selected[..|selected| - 1];
      OrMaskMeets(p, properties, x);
      assert forall s :: s in selected <==> s in p || s == selected[|selected| - 1];
    }
  }

  /** Every truthy entry of every record has a bit, and the bits are disjoint when there are at most 32. */
  lemma EncodingCovers(content: seq<Record>, property: string, r: Record)
    requires r in content
    ensures forall k :: k in ListOf(r, property) ==> k in EncodingOf(content, property).properties
    ensures r in EncodingOf(content, property).masks
    ensures |Values(content, property)| <= 32 ==> SingleBits(EncodingOf(content, property).properties)
  {
    var values := Values(content, property);
    FlattenCovers(content, property);
    UniqProps(Flatten(content, property));
    PropertiesMapKeys(values);
    MasksOf(content, property, PropertiesMap(values));
    if |values| <= 32 { PropertiesMapSingleBits(values); }
  }
}
