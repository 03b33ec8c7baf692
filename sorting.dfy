/**
 * The sort engine: ordering records ascending by a key accessor, descending
 * as ascending followed by a reverse, and greatest/least-by-key queries.
 *
 * The library's own sort algorithm is not part of this model; `SortBy` is a
 * stable insertion sort standing in for it, and what is stated about it
 * (sorted, a permutation) is what the engine relies on.
 */
module Sorting {
  import opened Keys
  import opened Seqs

  ghost predicate SortedBy<T>(s: seq<T>, key: T -> Key)
  {
    forall i, j :: 0 <= i < j < |s| ==> KeyLe(key(s[i]), key(s[j]))
  }

  ghost predicate SortedDescBy<T>(s: seq<T>, key: T -> Key)
  {
    forall i, j :: 0 <= i < j < |s| ==> KeyLe(key(s[j]), key(s[i]))
  }

  /** Inserts `x` before the first element whose key is not below it. */
  function Insert<T>(x: T, s: seq<T>, key: T -> Key): (r: seq<T>)
    ensures |r| == |s| + 1
  {
    if s == [] then [x]
    else if KeyLe(key(x), key(s[0])) then [x] + s
    else [s[0]] + Insert(x, s[1..], key)
  }

  /** Insertion adds exactly `x`. */
  lemma {:induction false} InsertPermutes<T>(x: T, s: seq<T>, key: T -> Key)
    ensures multiset(Insert(x, s, key)) == multiset(s) + multiset{x}
  {
    if s != [] && !KeyLe(key(x), key(s[0])) {
      InsertPermutes(x, s[1..], key);
      assert s == [s[0]] + s[1..];
    }
  }

  /** Insertion into a sorted sequence keeps it sorted. */
  lemma {:induction false} InsertSorted<T>(x: T, s: seq<T>, key: T -> Key)
    requires SortedBy(s, key)
    ensures SortedBy(Insert(x, s, key), key)
  {
    if s == [] {
    } else if KeyLe(key(x), key(s[0])) {
      InsertFrontSorted(x, s, key);
    } else {
      KeyLeTotal(key(x), key(s[0]));
      assert s == [s[0]] + s[1..];
      assert SortedBy(s[1..], key) by {
        forall i, j | 0 <= i < j < |s[1..]| ensures KeyLe(key(s[1..][i]), key(s[1..][j])) {
          assert s[1..][i] == s[i + 1] && s[1..][j] == s[j + 1];
        }
      }
      InsertSorted(x, s[1..], key);
      InsertPermutes(x, s[1..], key);
      InsertStepSorted(s[0], x, s[1..], Insert(x, s[1..], key), key);
    }
  }

  lemma InsertFrontSorted<T>(x: T, s: seq<T>, key: T -> Key)
    requires SortedBy(s, key) && s != [] && KeyLe(key(x), key(s[0]))
    ensures SortedBy([x] + s, key)
  {
    var r := [x] + s;
    forall i, j | 0 <= i < j < |r| ensures KeyLe(key(r[i]), key(r[j])) {
      if i == 0 {
        assert r[j] == s[j - 1];
        if j > 1 { KeyLeTrans(key(x), key(s[0]), key(s[j - 1])); }
      } else {
        assert r[i] == s[i - 1] && r[j] == s[j - 1];
      }
    }
  }

  lemma InsertStepSorted<T>(h: T, x: T, rest: seq<T>, t: seq<T>, key: T -> Key)
    requires SortedBy([h] + rest, key) && SortedBy(t, key)
    requires KeyLe(key(h), key(x))
    requires multiset(t) == multiset(rest) + multiset{x}
    ensures SortedBy([h] + t, key)
  {
    var hr := [h] + rest;
    var r := [h] + t;
    forall i, j | 0 <= i < j < |r| ensures KeyLe(key(r[i]), key(r[j])) {
      assert r[j] == t[j - 1];
      if i == 0 {
        assert r[i] == h;
        assert t[j - 1] in multiset(t);
        if t[j - 1] != x {
          assert t[j - 1] in multiset(rest);
          var k :| 0 <= k < |rest| && rest[k] == t[j - 1];
          assert hr[0] == h && hr[k + 1] == t[j - 1];
        }
      } else {
        assert r[i] == t[i - 1];
      }
    }
  }

  /** Ascending by key; records with equal keys keep their input order. */
  function SortBy<T>(s: seq<T>, key: T -> Key): (r: seq<T>)
    ensures |r| == |s|
  {
    if s == [] then [] else Insert(s[0], SortBy(s[1..], key), key)
  }

  /** The insertion sort yields a sorted permutation of its input. */
  lemma {:induction false} SortByProps<T>(s: seq<T>, key: T -> Key)
    ensures SortedBy(SortBy(s, key), key)
    ensures multiset(SortBy(s, key)) == multiset(s)
  {
    if s != [] {
      SortByProps(s[1..], key);
      InsertSorted(s[0], SortBy(s[1..], key), key);
      InsertPermutes(s[0], SortBy(s[1..], key), key);
      assert s == [s[0]] + s[1..];
    }
  }

  lemma {:induction false} ReverseSortedDesc<T>(s: seq<T>, key: T -> Key)
    requires SortedBy(s, key)
    ensures SortedDescBy(Reverse(s), key)
  {
    var r := Reverse(s);
    ReverseAt(s);
    forall i, j | 0 <= i < j < |r| ensures KeyLe(key(r[j]), key(r[i])) {
      assert r[i] == s[|s| - 1 - i] && r[j] == s[|s| - 1 - j];
    }
  }

  /** The accessor `_sortedContent` sorts by. */
  function ByProperty(property: string): Record -> Key
  {
    r => Get(r, property)
  }

  /**
   * `_sortedContent(content, property, isAscending)`: the records sorted
   * ascending by `property`, reversed when descending.
   */
  function SortedContent(content: seq<Record>, property: string, isAscending: bool): (r: seq<Record>)
    ensures |r| == |content|
  {
    var asc := SortBy(content, ByProperty(property));
    if isAscending then asc else Reverse(asc)
  }

  /** Sorting only reorders the records. */
  lemma SortedContentPermutes(content: seq<Record>, property: string, isAscending: bool)
    ensures multiset(SortedContent(content, property, isAscending)) == multiset(content)
  {
    SortByProps(content, ByProperty(property));
    ReverseMultiset(SortBy(content, ByProperty(property)));
  }

  /** The result is ascending by `property`, or descending when `isAscending` is false. */
  lemma SortedContentOrder(content: seq<Record>, property: string, isAscending: bool)
    ensures isAscending ==> SortedBy(SortedContent(content, property, isAscending), ByProperty(property))
    ensures !isAscending ==> SortedDescBy(SortedContent(content, property, isAscending), ByProperty(property))
  {
    SortByProps(content, ByProperty(property));
    if !isAscending {
      ReverseSortedDesc(SortBy(content, ByProperty(property)), ByProperty(property));
    }
  }

  /**
   * Descending output is the ascending output read backwards, so two records
   * with equal keys appear in opposite relative order in the two directions.
   */
  lemma DescendingIsReversedAscending(content: seq<Record>, property: string)
    ensures SortedContent(content, property, false) == Reverse(SortedContent(content, property, true))
  {
  }

  /** The last element of the ascending order: a record of greatest key. */
  function Greatest<T>(s: seq<T>, key: T -> Key): (r: T)
    requires s != []
    ensures r in s
    ensures forall x :: x in s ==> KeyLe(key(x), key(r))
  {
    var t := SortBy(s, key);
    SortByProps(s, key);
    assert t[|t| - 1] in multiset(s);
    forall x | x in s ensures KeyLe(key(x), key(t[|t| - 1])) {
      assert x in multiset(t);
      var k :| 0 <= k < |t| && t[k] == x;
      if k < |t| - 1 { } else { KeyLeRefl(key(x)); }
    }
    t[|t| - 1]
  }

  /** The first element of the ascending order: a record of least key. */
  function Least<T>(s: seq<T>, key: T -> Key): (r: T)
    requires s != []
    ensures r in s
    ensures forall x :: x in s ==> KeyLe(key(r), key(x))
  {
    var t := SortBy(s, key);
    SortByProps(s, key);
    assert t[0] in multiset(s);
    forall x | x in s ensures KeyLe(key(t[0]), key(x)) {
      assert x in multiset(t);
      var k :| 0 <= k < |t| && t[k] == x;
      if k > 0 { } else { KeyLeRefl(key(x)); }
    }
    t[0]
  }
}
