/**
 * Entity values as the repository sees them: an object is a map from declared
 * property name to value, and a sort key is whatever value a property chain
 * reaches. Keys are compared by a total preorder.
 */
module Entities {

  /** A value held by an entity property; an entity itself is an `Obj`. */
  datatype Value =
    | Null
    | Int(i: int)
    | Str(s: string)
    | Obj(fields: map<string, Value>)

  /**
   * Reading one property by its declared name. Reading through a null
   * reference, or a property the value does not carry, gives null, as a
   * database query propagates nulls along a navigation.
   */
  function Access(v: Value, name: string): Value
  {
    match v
    case Obj(fields) => if name in fields then fields[name] else Null
    case _ => Null
  }

  /**
   * The value reached from `e` by reading each property of `names` in turn.
   * A chain that meets a null, or a value that is not an object, before its
   * last name is read ends in null.
   */
  function KeyOf(e: Value, names: seq<string>): (r: Value)
    ensures |names| == 0 ==> r == e
    ensures |names| == 1 && e.Obj? && names[0] in e.fields ==> r == e.fields[names[0]]
    ensures |names| > 0 && !e.Obj? ==> r == Null
    ensures r != Null && |names| > 0 ==> e.Obj? && names[0] in e.fields
    decreases |names|
  {
    if |names| == 0 then e else KeyOf(Access(e, names[0]), names[1..])
  }

  /** Reading a chain in two parts is reading the first part, then the rest from there. */
  lemma {:induction false} KeyOfAppend(e: Value, a: seq<string>, b: seq<string>)
    ensures KeyOf(e, a + b) == KeyOf(KeyOf(e, a), b)
    decreases |a|
  {
    if |a| > 0 {
      assert (a + b)[0] == a[0];
      assert (a + b)[1..] == a[1..] + b;
      KeyOfAppend(Access(e, a[0]), a[1..], b);
    } else {
      assert a + b == b;
    }
  }

  /** Ordinal lexicographic order on strings (a prefix comes first). */
  predicate StrLe(a: string, b: string)
    decreases |a|
  {
    |a| == 0 || (|b| > 0 && (a[0] < b[0] || (a[0] == b[0] && StrLe(a[1..], b[1..]))))
  }

  /** The kind of a key: nulls first, then numbers, then strings, then objects. */
  function Rank(v: Value): nat
  {
    match v
    case Null => 0
    case Int(_) => 1
    case Str(_) => 2
    case Obj(_) => 3
  }

  /** `a` may come before `b` in ascending key order. */
  predicate KeyLe(a: Value, b: Value)
  {
    if Rank(a) != Rank(b) then Rank(a) < Rank(b)
    else match a
      case Int(x) => x <= b.i
      case Str(x) => StrLe(x, b.s)
      case _ => true
  }

  lemma {:induction false} StrLeTotal(a: string, b: string)
    ensures StrLe(a, b) || StrLe(b, a)
    decreases |a|
  {
    if |a| > 0 && |b| > 0 && a[0] == b[0] {
      StrLeTotal(a[1..], b[1..]);
    }
  }

  lemma {:induction false} StrLeTransitive(a: string, b: string, c: string)
    requires StrLe(a, b) && StrLe(b, c)
    ensures StrLe(a, c)
    decreases |a|
  {
    if |a| > 0 && a[0] == b[0] && b[0] == c[0] {
      StrLeTransitive(a[1..], b[1..], c[1..]);
    }
  }

  /** Any two keys are comparable. */
  lemma KeyLeTotal(a: Value, b: Value)
    ensures KeyLe(a, b) || KeyLe(b, a)
  {
    if a.Str? && b.Str? {
      StrLeTotal(a.s, b.s);
    }
  }

  lemma KeyLeTransitive(a: Value, b: Value, c: Value)
    requires KeyLe(a, b) && KeyLe(b, c)
    ensures KeyLe(a, c)
  {
    if a.Str? && b.Str? && c.Str? {
      StrLeTransitive(a.s, b.s, c.s);
    }
  }
}
