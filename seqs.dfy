/**
 * The array operations the engine relies on, with the semantics of the
 * JavaScript (and Ember array extension) methods they stand for.
 */
module Seqs {

  predicate NoDup<T(==)>(s: seq<T>)
  {
    forall i, j :: 0 <= i < j < |s| ==> s[i] != s[j]
  }

  /** Ember's `uniq()`: the first occurrence of every element, in order. */
  function Uniq<T(==,!new)>(s: seq<T>): (r: seq<T>)
    ensures |r| <= |s|
  {
    if s == [] then []
    else
      var u := Uniq(s[..|s| - 1]);
      if s[|s| - 1] in u then u else u + [s[|s| - 1]]
  }

  /** `uniq()` keeps every element once and nothing else. */
  lemma {:induction false} UniqProps<T(!new)>(s: seq<T>)
    ensures NoDup(Uniq(s))
    ensures forall x :: x in Uniq(s) <==> x in s
  {
    if s != [] {
      var p := s[..|s| - 1];
      UniqProps(p);
      assert forall x :: x in s <==> x in p || x == s[|s| - 1];
    }
  }

  lemma {:induction false} UniqOfNoDup<T(!new)>(s: seq<T>)
    requires NoDup(s)
    ensures Uniq(s) == s
  {
    if s != [] {
      var p := s[..|s| - 1];
      assert NoDup(p);
      UniqOfNoDup(p);
      assert s[|s| - 1] !in p;
      assert p + [s[|s| - 1]] == s;
    }
  }

  /** Ember's `removeObject`: every occurrence of `v` taken out, the rest in order. */
  function RemoveAll<T(==,!new)>(s: seq<T>, v: T): (r: seq<T>)
    ensures |r| <= |s|
  {
    if s == [] then []
    else RemoveAll(s[..|s| - 1], v) + (if s[|s| - 1] == v then [] else [s[|s| - 1]])
  }

  /** `removeObject(v)` keeps exactly the elements other than `v`. */
  lemma {:induction false} RemoveAllMembers<T(!new)>(s: seq<T>, v: T)
    ensures forall x :: x in RemoveAll(s, v) <==> x in s && x != v
  {
    if s != [] {
      var p := s[..|s| - 1];
      RemoveAllMembers(p, v);
      assert forall x :: x in s <==> x in p || x == s[|s| - 1];
    }
  }

  lemma {:induction false} RemoveAllNoDup<T(!new)>(s: seq<T>, v: T)
    requires NoDup(s)
    ensures NoDup(RemoveAll(s, v))
  {
    if s != [] {
      var p := s[..|s| - 1];
      assert NoDup(p);
      RemoveAllNoDup(p, v);
      RemoveAllMembers(p, v);
      assert s[|s| - 1] !in p;
    }
  }

  lemma {:induction false} RemoveAllAbsent<T(!new)>(s: seq<T>, v: T)
    requires v !in s
    ensures RemoveAll(s, v) == s
  {
    if s != [] {
      RemoveAllAbsent(s[..|s| - 1], v);
      assert s[..|s| - 1] + [s[|s| - 1]] == s;
    }
  }

  /** `indexOf`: the first index holding `x`, or -1. */
  function IndexOf<T(==)>(s: seq<T>, x: T): (r: int)
    ensures -1 <= r < |s|
    ensures r == -1 <==> x !in s
    ensures r >= 0 ==> s[r] == x && x !in s[..r]
  {
    if s == [] then -1
    else if s[0] == x then 0
    else
      var i := IndexOf(s[1..], x);
      assert s[1..][..i + 1] == s[1..i + 2] by { assert i <= |s| - 2 || i == -1; }
      if i == -1 then -1 else i + 1
  }

  /**
   * `splice(start, 1)`: a negative start counts from the end (clamped to 0), a
   * start past the end removes nothing.
   */
  function Splice1<T>(s: seq<T>, start: int): (r: seq<T>)
    ensures 0 <= start < |s| ==> r == s[..start] + s[start + 1..]
    ensures start == -1 && s != [] ==> r == s[..|s| - 1]
    ensures start == -1 && s == [] ==> r == []
    ensures |r| == if s == [] || start >= |s| then |s| else |s| - 1
  {
    var a := if start < 0 then (if |s| + start < 0 then 0 else |s| + start)
             else (if start > |s| then |s| else start);
    var n := if |s| - a < 1 then |s| - a else 1;
    s[..a] + s[a + n..]
  }

  function Reverse<T>(s: seq<T>): (r: seq<T>)
    ensures |r| == |s|
  {
    if s == [] then [] else Reverse(s[1..]) + [s[0]]
  }

  /** Position i of the reversal holds position |s| - 1 - i of the input. */
  lemma {:induction false} ReverseAt<T>(s: seq<T>)
    ensures forall i :: 0 <= i < |s| ==> Reverse(s)[i] == s[|s| - 1 - i]
  {
    if s != [] {
      ReverseAt(s[1..]);
    }
  }

  lemma {:induction false} ReverseMultiset<T>(s: seq<T>)
    ensures multiset(Reverse(s)) == multiset(s)
  {
    if s != [] {
      ReverseMultiset(s[1..]);
      assert s == [s[0]] + s[1..];
    }
  }

  lemma {:induction false} ReverseReverse<T>(s: seq<T>)
    ensures Reverse(Reverse(s)) == s
  {
    ReverseAt(s);
    ReverseAt(Reverse(s));
  }
  /** `pushObject(v)` followed by `uniq()` on a duplicate-free list. */
  lemma {:induction false} UniqPush<T(!new)>(s: seq<T>, v: T)
    requires NoDup(s)
    ensures Uniq(s + [v]) == if v in s then s else s + [v]
  {
    var t := s + [v];
    assert t[..|t| - 1] == s;
    UniqOfNoDup(s);
  }

  /** `removeObject(v)` followed by `uniq()` on a duplicate-free list. */
  lemma {:induction false} UniqRemoveAll<T(!new)>(s: seq<T>, v: T)
    requires NoDup(s)
    ensures Uniq(RemoveAll(s, v)) == RemoveAll(s, v) && NoDup(RemoveAll(s, v))
  {
    RemoveAllNoDup(s, v);
    UniqOfNoDup(RemoveAll(s, v));
  }

  lemma {:induction false} RemoveAllConcat<T(!new)>(s: seq<T>, t: seq<T>, v: T)
    ensures RemoveAll(s + t, v) == RemoveAll(s, v) + RemoveAll(t, v)
  {
    if t != [] {
      var p := t[..|t| - 1];
      RemoveAllConcat(s, p, v);
      assert (s + t)[..|s + t| - 1] == s + p;
    } else {
      assert s + t == s;
    }
  }

  /** In a duplicate-free list, removing `v` takes out exactly the entry at its index. */
  lemma {:induction false} RemoveAllAt<T(!new)>(s: seq<T>, i: nat)
    requires NoDup(s) && i < |s|
    ensures RemoveAll(s, s[i]) == s[..i] + s[i + 1..]
  {
    var v, x, y := s[i], s[..i], s[i + 1..];
    assert v !in x by {
      forall k | 0 <= k < |x| ensures x[k] != v { assert x[k] == s[k]; }
    }
    assert v !in y by {
      forall k | 0 <= k < |y| ensures y[k] != v { assert y[k] == s[i + 1 + k]; }
    }
    assert s == x + s[i..];
    assert s[i..] == [v] + y;
    RemoveAllSplit(x, v, y);
  }

  lemma {:induction false} RemoveAllSplit<T(!new)>(x: seq<T>, v: T, y: seq<T>)
    requires v !in x && v !in y
    ensures RemoveAll(x + ([v] + y), v) == x + y
  {
    assert RemoveAll([v], v) == [] by { assert [v][..0] == []; }
    calc {
      RemoveAll(x + ([v] + y), v);
      { RemoveAllConcat(x, [v] + y, v); }
      RemoveAll(x, v) + RemoveAll([v] + y, v);
      { RemoveAllConcat([v], y, v); }
      RemoveAll(x, v) + RemoveAll(y, v);
      { RemoveAllAbsent(x, v); RemoveAllAbsent(y, v); }
      x + y;
    }
  }
}
