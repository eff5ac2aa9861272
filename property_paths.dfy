/**
 * The entity type graph as an explicit table, and the resolution of a dotted
 * property path on it. Each type maps the case-folded name of each of its
 * public instance properties to that property's declared name and declared
 * type; a segment resolves on a type when its folded form is a key there.
 */
module PropertyPaths {
  import opened Wrappers
  import opened Text

  type TypeName = string

  /** A public instance property: its declared name and its declared type. */
  datatype Prop = Prop(name: string, propType: TypeName)

  /** Type name to (folded property name to property). */
  type TypeGraph = map<TypeName, map<string, Prop>>

  /**
   * Every table entry is keyed by the folded form of the property's declared
   * name, and no property has an empty name.
   */
  predicate WellFormed(g: TypeGraph)
  {
    forall t, k | t in g && k in g[t] :: k != "" && Fold(k) == k && Fold(g[t][k].name) == k
  }

  /** Case-insensitive lookup of one public instance property on type `t`. */
  function Lookup(g: TypeGraph, t: TypeName, segment: string): (r: Option<Prop>)
    ensures r.Some? ==> t in g && r.value in g[t].Values
    ensures WellFormed(g) && r.Some? ==> EqualsIgnoreCase(r.value.name, segment)
  {
    var k := Fold(segment);
    if t in g && k in g[t] then Some(g[t][k]) else None
  }

  /**
   * On a well-formed table, a segment resolves to exactly the property of the
   * type whose declared name equals the segment when case is ignored.
   */
  lemma LookupMatchesIgnoringCase(g: TypeGraph, t: TypeName, segment: string, p: Prop)
    requires WellFormed(g)
    ensures Lookup(g, t, segment) == Some(p) <==>
              t in g && p in g[t].Values && EqualsIgnoreCase(p.name, segment)
  {
  }

  /** The empty segment never names a property. */
  lemma EmptySegmentNeverResolves(g: TypeGraph, t: TypeName)
    requires WellFormed(g)
    ensures Lookup(g, t, "") == None
  {
  }

  /** The type a chain of properties ends at, starting from `t`. */
  function EndType(t: TypeName, props: seq<Prop>): TypeName
  {
    if |props| == 0 then t else props[|props| - 1].propType
  }

  /**
   * `props` is the chain the segments name: each segment resolves on the type
   * reached so far, and the next segment is looked up on its property's type.
   */
  predicate Walks(g: TypeGraph, t: TypeName, segments: seq<string>, props: seq<Prop>)
    decreases |segments|
  {
    |segments| == |props| &&
    (|segments| == 0 ||
      (Lookup(g, t, segments[0]) == Some(props[0]) &&
       Walks(g, props[0].propType, segments[1..], props[1..])))
  }

  /** The segment that did not resolve, its position in the path, and the type it was looked up on. */
  datatype ResolveError = Unresolved(segment: string, index: nat, onType: TypeName)

  /** Resolution of a whole path, failing at the first segment that does not resolve. */
  function Resolve(g: TypeGraph, t: TypeName, segments: seq<string>): (r: Result<seq<Prop>, ResolveError>)
    ensures r.Success? ==> |r.value| == |segments|
    ensures r.Failure? ==> r.error.index < |segments| && segments[r.error.index] == r.error.segment
    decreases |segments|
  {
    if |segments| == 0 then Success([])
    else match Lookup(g, t, segments[0])
      case None => Failure(Unresolved(segments[0], 0, t))
      case Some(p) =>
        match Resolve(g, p.propType, segments[1..])
        case Success(props) => Success([p] + props)
        case Failure(e) => Failure(e.(index := e.index + 1))
  }

  /** A successful resolution is the chain the segments name. */
  lemma {:induction false} ResolveSound(g: TypeGraph, t: TypeName, segments: seq<string>)
    ensures Resolve(g, t, segments).Success? ==> Walks(g, t, segments, Resolve(g, t, segments).value)
    decreases |segments|
  {
    if |segments| > 0 && Lookup(g, t, segments[0]).Some? {
      var p := Lookup(g, t, segments[0]).value;
      ResolveSound(g, p.propType, segments[1..]);
      if Resolve(g, p.propType, segments[1..]).Success? {
        var props := [p] + Resolve(g, p.propType, segments[1..]).value;
        assert props[1..] == Resolve(g, p.propType, segments[1..]).value;
      }
    }
  }

  /** Whenever the segments name a chain, resolution succeeds with that chain. */
  lemma {:induction false} ResolveComplete(g: TypeGraph, t: TypeName, segments: seq<string>, props: seq<Prop>)
    requires Walks(g, t, segments, props)
    ensures Resolve(g, t, segments) == Success(props)
    decreases |segments|
  {
    if |segments| > 0 {
      ResolveComplete(g, props[0].propType, segments[1..], props[1..]);
      assert props == [props[0]] + props[1..];
    }
  }

  /**
   * Resolving one more segment: the path so far must have resolved, and the
   * new segment is looked up on the type it ended at.
   */
  lemma {:induction false} ResolveExtend(g: TypeGraph, t: TypeName, segments: seq<string>, props: seq<Prop>, segment: string)
    requires Resolve(g, t, segments) == Success(props)
    ensures Resolve(g, t, segments + [segment]) ==
              match Lookup(g, EndType(t, props), segment)
              case None => Failure(Unresolved(segment, |segments|, EndType(t, props)))
              case Some(p) => Success(props + [p])
    decreases |segments|
  {
    var path := segments + [segment];
    if |segments| == 0 {
      assert path == [segment];
      assert path[1..] == [];
      assert props == [];
      if Lookup(g, t, segment).Some? {
        var p := Lookup(g, t, segment).value;
        assert Resolve(g, p.propType, path[1..]) == Success([]);
        assert [p] + [] == props + [p];
      }
    } else {
      var p := Lookup(g, t, segments[0]).value;
      var rest := Resolve(g, p.propType, segments[1..]).value;
      assert props == [p] + rest;
      assert path[0] == segments[0];
      assert path[1..] == segments[1..] + [segment];
      ResolveExtend(g, p.propType, segments[1..], rest, segment);
      assert EndType(p.propType, rest) == EndType(t, props);
      if Lookup(g, EndType(t, props), segment).Some? {
        assert [p] + (rest + [Lookup(g, EndType(t, props), segment).value])
            == props + [Lookup(g, EndType(t, props), segment).value];
      }
    }
  }

  /** Once a prefix of the path fails, the whole path fails with the same error. */
  lemma {:induction false} ResolvePrefixFailure(g: TypeGraph, t: TypeName, a: seq<string>, b: seq<string>)
    requires Resolve(g, t, a).Failure?
    ensures Resolve(g, t, a + b) == Resolve(g, t, a)
    decreases |a|
  {
    assert (a + b)[0] == a[0];
    if Lookup(g, t, a[0]).Some? {
      var p := Lookup(g, t, a[0]).value;
      assert (a + b)[1..] == a[1..] + b;
      ResolvePrefixFailure(g, p.propType, a[1..], b);
    }
  }

  /**
   * A failure names a segment of the path: the one at its index, looked up on
   * the type that the segments before it resolve to, where it names no property.
   */
  lemma {:induction false} ResolveFailureNamesSegment(g: TypeGraph, t: TypeName, segments: seq<string>)
    requires Resolve(g, t, segments).Failure?
    ensures var e := Resolve(g, t, segments).error;
            && e.index < |segments|
            && segments[e.index] == e.segment
            && Lookup(g, e.onType, e.segment) == None
            && Resolve(g, t, segments[..e.index]).Success?
            && EndType(t, Resolve(g, t, segments[..e.index]).value) == e.onType
    decreases |segments|
  {
    var e := Resolve(g, t, segments).error;
    if Lookup(g, t, segments[0]).None? {
      assert segments[..0] == [];
    } else {
      var p := Lookup(g, t, segments[0]).value;
      ResolveFailureNamesSegment(g, p.propType, segments[1..]);
      var e' := Resolve(g, p.propType, segments[1..]).error;
      assert e == e'.(index := e'.index + 1);
      var pre := segments[..e.index];
      assert pre[0] == segments[0];
      assert pre[1..] == segments[1..][..e'.index];
      var rest := Resolve(g, p.propType, segments[1..][..e'.index]).value;
      assert Resolve(g, t, pre) == Success([p] + rest);
      assert EndType(t, [p] + rest) == EndType(p.propType, rest);
    }
  }

  /** A path with an empty segment never resolves. */
  lemma {:induction false} EmptySegmentFails(g: TypeGraph, t: TypeName, segments: seq<string>)
    requires WellFormed(g)
    requires "" in segments
    ensures Resolve(g, t, segments).Failure?
    decreases |segments|
  {
    if segments[0] == "" {
      EmptySegmentNeverResolves(g, t);
    } else if Lookup(g, t, segments[0]).Some? {
      assert "" in segments[1..];
      EmptySegmentFails(g, Lookup(g, t, segments[0]).value.propType, segments[1..]);
    }
  }
}
