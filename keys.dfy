/**
 * Scalar values, records and the order the engine compares keys by.
 *
 * A record is an attribute map: scalar attributes (`id`, `name`, `age`, ...)
 * and list-valued attributes (`colours`, `country`, ...). A dimension projects
 * a record to a `Key`; keys are compared by `KeyLe`, a total order.
 */
module Keys {

  /** A scalar JavaScript value as the engine sees it. */
  datatype Key = KNull | KBool(b: bool) | KNum(n: int) | KStr(s: string)

  /** JavaScript truthiness of a scalar: `null`, `false`, `0` and `""` are falsy. */
  predicate Truthy(k: Key)
  {
    match k
    case KNull => false
    case KBool(b) => b
    case KNum(n) => n != 0
    case KStr(s) => s != ""
  }

  /** Lexicographic order on strings by character code, a proper prefix first. */
  predicate StrLe(a: string, b: string)
  {
    a == [] || (b != [] && (a[0] < b[0] || (a[0] == b[0] && StrLe(a[1..], b[1..]))))
  }

  lemma {:induction false} StrLeRefl(a: string)
    ensures StrLe(a, a)
  {
    if a != [] { StrLeRefl(a[1..]); }
  }

  lemma {:induction false} StrLeTotal(a: string, b: string)
    ensures StrLe(a, b) || StrLe(b, a)
  {
    if a != [] && b != [] && a[0] == b[0] { StrLeTotal(a[1..], b[1..]); }
  }

  lemma {:induction false} StrLeAntisym(a: string, b: string)
    requires StrLe(a, b) && StrLe(b, a)
    ensures a == b
  {
    if a != [] && b != [] {
      StrLeAntisym(a[1..], b[1..]);
      assert a == [a[0]] + a[1..] && b == [b[0]] + b[1..];
    }
  }

  lemma {:induction false} StrLeTrans(a: string, b: string, c: string)
    requires StrLe(a, b) && StrLe(b, c)
    ensures StrLe(a, c)
  {
    if a != [] && b != [] && c != [] && a[0] == b[0] && b[0] == c[0] {
      StrLeTrans(a[1..], b[1..], c[1..]);
    }
  }

  /** Keys of different kinds are ordered null < booleans < numbers < strings. */
  function Rank(k: Key): nat
  {
    match k
    case KNull => 0
    case KBool(_) => 1
    case KNum(_) => 2
    case KStr(_) => 3
  }

  /** The order used for range filters, sorting and top/bottom. */
  predicate KeyLe(a: Key, b: Key)
  {
    if Rank(a) != Rank(b) then Rank(a) < Rank(b)
    else match a
      case KNull => true
      case KBool(x) => !x || b.b
      case KNum(x) => x <= b.n
      case KStr(x) => StrLe(x, b.s)
  }

  predicate KeyLt(a: Key, b: Key)
  {
    KeyLe(a, b) && a != b
  }

  lemma KeyLeRefl(a: Key)
    ensures KeyLe(a, a)
  {
    if a.KStr? { StrLeRefl(a.s); }
  }

  lemma KeyLeTotal(a: Key, b: Key)
    ensures KeyLe(a, b) || KeyLe(b, a)
  {
    if a.KStr? && b.KStr? { StrLeTotal(a.s, b.s); }
  }

  lemma KeyLeAntisym(a: Key, b: Key)
    requires KeyLe(a, b) && KeyLe(b, a)
    ensures a == b
  {
    if a.KStr? && b.KStr? { StrLeAntisym(a.s, b.s); }
  }

  lemma KeyLeTrans(a: Key, b: Key, c: Key)
    requires KeyLe(a, b) && KeyLe(b, c)
    ensures KeyLe(a, c)
  {
    if a.KStr? && b.KStr? && c.KStr? { StrLeTrans(a.s, b.s, c.s); }
  }

  lemma {:induction false} StrExtendAbove(s: string)
    ensures !StrLe(s + "a", s)
  {
    if s != [] {
      assert (s + "a")[1..] == s[1..] + "a";
      StrExtendAbove(s[1..]);
    }
  }

  /** A key above any truthy key: the order has no greatest element. */
  function Above(b: Key): (a: Key)
    ensures a != b && !KeyLe(a, b)
  {
    match b
    case KNull => KBool(false)
    case KBool(_) => KNum(0)
    case KNum(_) => KStr("")
    case KStr(s) => StrExtendAbove(s); KStr(s + "a")
  }

  /** A record: scalar attributes and list-valued attributes by name. */
  datatype Record = Record(attrs: map<string, Key>, lists: map<string, seq<Key>>)

  /**
   * The accessor every dimension and the sort use: the attribute's value, or
   * null when the record has none.
   */
  function Get(r: Record, property: string): Key
  {
    if property in r.attrs then r.attrs[property] else KNull
  }

  /** A list-valued attribute; a record without it is read as an empty list. */
  function ListOf(r: Record, property: string): seq<Key>
  {
    if property in r.lists then r.lists[property] else []
  }
}
