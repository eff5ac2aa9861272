/**
 * The ordering function that the dynamic ordering builder produces: a
 * resolved property chain, the type it ends at, and a direction. Applied to
 * rows it sorts them by the key the chain reaches, ascending or descending.
 */
module OrderBy {
  import opened Wrappers
  import opened Text
  import opened Entities
  import opened PropertyPaths

  /** A compiled ordering: the property chain, the key's declared type, the direction. */
  datatype Ordering = Ordering(path: seq<Prop>, keyType: TypeName, ascending: bool)

  /** The declared names along a property chain. */
  function Names(props: seq<Prop>): seq<string>
  {
    seq(|props|, i requires 0 <= i < |props| => props[i].name)
  }

  /** The key an ordering reads from one entity. */
  function SortKey(o: Ordering, e: Value): Value
  {
    KeyOf(e, Names(o.path))
  }

  /** Entity `a` may stand before entity `b` in the order `o` asks for. */
  predicate Precedes(o: Ordering, a: Value, b: Value)
  {
    if o.ascending then KeyLe(SortKey(o, a), SortKey(o, b)) else KeyLe(SortKey(o, b), SortKey(o, a))
  }

  lemma PrecedesTotal(o: Ordering, a: Value, b: Value)
    ensures Precedes(o, a, b) || Precedes(o, b, a)
  {
    KeyLeTotal(SortKey(o, a), SortKey(o, b));
  }

  lemma PrecedesTransitive(o: Ordering, a: Value, b: Value, c: Value)
    requires Precedes(o, a, b) && Precedes(o, b, c)
    ensures Precedes(o, a, c)
  {
    if o.ascending {
      KeyLeTransitive(SortKey(o, a), SortKey(o, b), SortKey(o, c));
    } else {
      KeyLeTransitive(SortKey(o, c), SortKey(o, b), SortKey(o, a));
    }
  }

  /** Rows in the order `o` asks for: non-decreasing keys if ascending, non-increasing otherwise. */
  predicate Sorted(o: Ordering, rows: seq<Value>)
  {
    forall i, j :: 0 <= i < j < |rows| ==> Precedes(o, rows[i], rows[j])
  }

  /** A row that may precede every row of a sorted sequence can be put in front of it. */
  lemma SortedCons(o: Ordering, h: Value, rows: seq<Value>)
    requires Sorted(o, rows)
    requires forall y :: y in rows ==> Precedes(o, h, y)
    ensures Sorted(o, [h] + rows)
  {
  }

  /**
   * Inserting `x` into sorted rows before the first row it may precede keeps
   * them sorted and adds exactly `x`.
   */
  function Insert(o: Ordering, x: Value, rows: seq<Value>): (r: seq<Value>)
    requires Sorted(o, rows)
    ensures Sorted(o, r)
    ensures multiset(r) == multiset(rows) + multiset{x}
    decreases |rows|
  {
    if |rows| == 0 then [x]
    else if Precedes(o, x, rows[0]) then
      InsertFront(o, x, rows);
      [x] + rows
    else
      var rest := Insert(o, x, rows[1..]);
      InsertBehind(o, x, rows, rest);
      [rows[0]] + rest
  }

  lemma InsertFront(o: Ordering, x: Value, rows: seq<Value>)
    requires Sorted(o, rows) && |rows| > 0 && Precedes(o, x, rows[0])
    ensures Sorted(o, [x] + rows)
  {
    forall y | y in rows
      ensures Precedes(o, x, y)
    {
      var k :| 0 <= k < |rows| && rows[k] == y;
      if k > 0 {
        PrecedesTransitive(o, x, rows[0], y);
      }
    }
    SortedCons(o, x, rows);
  }

  lemma InsertBehind(o: Ordering, x: Value, rows: seq<Value>, rest: seq<Value>)
    requires Sorted(o, rows) && |rows| > 0 && !Precedes(o, x, rows[0])
    requires Sorted(o, rest) && multiset(rest) == multiset(rows[1..]) + multiset{x}
    ensures Sorted(o, [rows[0]] + rest)
    ensures multiset([rows[0]] + rest) == multiset(rows) + multiset{x}
  {
    forall y | y in rest
      ensures Precedes(o, rows[0], y)
    {
      assert y in multiset(rest);
      if y == x {
        PrecedesTotal(o, x, rows[0]);
      } else {
        assert y in multiset(rows[1..]);
        var k :| 0 <= k < |rows[1..]| && rows[1..][k] == y;
        assert rows[k + 1] == y;
      }
    }
    SortedCons(o, rows[0], rest);
    assert rows == [rows[0]] + rows[1..];
  }

  /**
   * The ordering function applied to a sequence of rows: the same rows,
   * rearranged into the order `o` asks for.
   */
  function Apply(o: Ordering, rows: seq<Value>): (r: seq<Value>)
    ensures Sorted(o, r)
    ensures multiset(r) == multiset(rows)
    decreases |rows|
  {
    if |rows| == 0 then []
    else
      assert rows == [rows[0]] + rows[1..];
      Insert(o, rows[0], Apply(o, rows[1..]))
  }

  /** Rows already in order are left exactly as they are. */
  lemma {:induction false} ApplySortedUnchanged(o: Ordering, rows: seq<Value>)
    requires Sorted(o, rows)
    ensures Apply(o, rows) == rows
    decreases |rows|
  {
    if |rows| > 0 {
      assert Sorted(o, rows[1..]);
      ApplySortedUnchanged(o, rows[1..]);
      if |rows| > 1 {
        assert Precedes(o, rows[0], rows[1..][0]);
      }
      assert [rows[0]] + rows[1..] == rows;
    }
  }

  /** Applying an ordering function twice is applying it once. */
  lemma ApplyIdempotent(o: Ordering, rows: seq<Value>)
    ensures Apply(o, Apply(o, rows)) == Apply(o, rows)
  {
    ApplySortedUnchanged(o, Apply(o, rows));
  }

  /**
   * The ordering builder on explicit inputs: split the column path on '.',
   * resolve every segment case-insensitively from the entity type, and choose
   * ascending only for the exact token "asc".
   */
  function BuildOrdering(g: TypeGraph, root: TypeName, orderColumn: string, orderType: string)
    : (r: Result<Ordering, ResolveError>)
    ensures r.Success? ==> (r.value.ascending <==> orderType == "asc")
  {
    match Resolve(g, root, Split(orderColumn, '.'))
    case Failure(e) => Failure(e)
    case Success(props) => Success(Ordering(props, EndType(root, props), orderType == "asc"))
  }

  /**
   * The builder succeeds exactly when the segments of the path name a chain
   * of properties from the entity type; the ordering it returns reads that
   * chain, and its key type is the type the chain ends at.
   */
  lemma BuildOrderingSucceedsIffPathResolves(g: TypeGraph, root: TypeName, orderColumn: string, orderType: string)
    ensures BuildOrdering(g, root, orderColumn, orderType).Success? <==>
              exists props :: Walks(g, root, Split(orderColumn, '.'), props)
    ensures BuildOrdering(g, root, orderColumn, orderType).Success? ==>
              var o := BuildOrdering(g, root, orderColumn, orderType).value;
              Walks(g, root, Split(orderColumn, '.'), o.path) && o.keyType == EndType(root, o.path)
  {
    var segments := Split(orderColumn, '.');
    ResolveSound(g, root, segments);
    if Resolve(g, root, segments).Success? {
      var props := Resolve(g, root, segments).value;
      assert Walks(g, root, segments, props);
      assert exists ps :: Walks(g, root, Split(orderColumn, '.'), ps);
      assert BuildOrdering(g, root, orderColumn, orderType)
          == Success(Ordering(props, EndType(root, props), orderType == "asc"));
    } else {
      forall props | Walks(g, root, segments, props)
        ensures false
      {
        ResolveComplete(g, root, segments, props);
      }
    }
  }

  /**
   * When the builder fails, it names a segment of the path that does not
   * resolve on the type the earlier segments lead to.
   */
  lemma BuildOrderingFailureNamesSegment(g: TypeGraph, root: TypeName, orderColumn: string, orderType: string)
    requires BuildOrdering(g, root, orderColumn, orderType).Failure?
    ensures var e := BuildOrdering(g, root, orderColumn, orderType).error;
            var segments := Split(orderColumn, '.');
            && e.index < |segments|
            && segments[e.index] == e.segment
            && Lookup(g, e.onType, e.segment) == None
            && Resolve(g, root, segments[..e.index]).Success?
  {
    ResolveFailureNamesSegment(g, root, Split(orderColumn, '.'));
  }

  /** A path with two consecutive dots has an empty segment, so the builder fails. */
  lemma DoubleDotFails(g: TypeGraph, root: TypeName, a: string, b: string, orderType: string)
    requires WellFormed(g)
    ensures BuildOrdering(g, root, a + ".." + b, orderType).Failure?
  {
    assert a + ".." + b == a + ['.', '.'] + b;
    DoubledSeparatorGivesEmptyPiece(a, b, '.');
    EmptySegmentFails(g, root, Split(a + ".." + b, '.'));
  }

  /** The empty path has one empty segment, so the builder fails. */
  lemma EmptyPathFails(g: TypeGraph, root: TypeName, orderType: string)
    requires WellFormed(g)
    ensures BuildOrdering(g, root, "", orderType).Failure?
  {
  }

  /**
   * Resolution sees segments only through their folded form, so two paths
   * equal up to case build the same ordering, or both fail.
   */
  lemma {:induction false} ResolveIgnoresCase(g: TypeGraph, t: TypeName, a: seq<string>, b: seq<string>)
    requires |a| == |b|
    requires forall i :: 0 <= i < |a| ==> Fold(a[i]) == Fold(b[i])
    ensures Resolve(g, t, a).Success? <==> Resolve(g, t, b).Success?
    ensures Resolve(g, t, a).Success? ==> Resolve(g, t, a) == Resolve(g, t, b)
    decreases |a|
  {
    if |a| > 0 {
      assert Lookup(g, t, a[0]) == Lookup(g, t, b[0]);
      if Lookup(g, t, a[0]).Some? {
        ResolveIgnoresCase(g, Lookup(g, t, a[0]).value.propType, a[1..], b[1..]);
      }
    }
  }

  lemma BuildOrderingIgnoresCase(g: TypeGraph, root: TypeName, c1: string, c2: string, orderType: string)
    requires EqualsIgnoreCase(c1, c2)
    ensures BuildOrdering(g, root, c1, orderType).Success? <==> BuildOrdering(g, root, c2, orderType).Success?
    ensures BuildOrdering(g, root, c1, orderType).Success? ==>
              BuildOrdering(g, root, c1, orderType) == BuildOrdering(g, root, c2, orderType)
  {
    var s1, s2 := Split(c1, '.'), Split(c2, '.');
    SplitFold(c1, '.');
    SplitFold(c2, '.');
    assert |s1| == |s2| by {
      assert |FoldEach(s1)| == |FoldEach(s2)|;
    }
    forall i | 0 <= i < |s1|
      ensures Fold(s1[i]) == Fold(s2[i])
    {
      assert FoldEach(s1)[i] == FoldEach(s2)[i];
    }
    ResolveIgnoresCase(g, root, s1, s2);
  }
}
