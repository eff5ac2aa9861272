/**
 * The generic repository over one entity set. The stored rows are kept in
 * store order; `Add` and the two `Delete`s record pending changes and leave
 * the stored rows alone, since persisting them is a separate commit.
 */
module Repository {
  import opened Wrappers
  import opened Text
  import opened Entities
  import opened PropertyPaths
  import opened OrderBy
  import opened Linq

  /** A query under construction: the rows it selects and the navigation paths it eagerly loads. */
  datatype Query = Query(rows: seq<Value>, includes: seq<string>)
  {
    /** Narrows the rows, in store order, to those satisfying `p`; the include paths stay. */
    function Filter(p: Value -> bool): (q: Query)
      ensures forall e :: e in q.rows <==> e in rows && p(e)
      ensures |q.rows| <= |rows|
      ensures q.includes == includes
    {
      var r := Where(rows, p);
      assert forall e :: e in r <==> e in multiset(r);
      assert forall e :: e in rows <==> e in multiset(rows);
      Query(r, includes)
    }

    /** Appends one include path; the rows stay as they are. */
    function Include(path: string): (q: Query)
      ensures q.rows == rows
      ensures |q.includes| == |includes| + 1 && q.includes[|includes|] == path
      ensures q.includes[..|includes|] == includes
    {
      Query(rows, includes + [path])
    }
  }

  class RepositoryBase {
    /** The entity type graph, the repository's entity type, and the name of its key property. */
    const graph: TypeGraph
    const entityType: TypeName
    const keyName: string

    /** The stored rows of the entity set, in store order. */
    var rows: seq<Value>
    /** Entities registered for insertion on the next commit. */
    var added: set<Value>
    /** Entities registered for removal on the next commit. */
    var removed: set<Value>

    constructor(graph: TypeGraph, entityType: TypeName, keyName: string, rows: seq<Value>)
      ensures this.graph == graph && this.entityType == entityType && this.keyName == keyName
      ensures this.rows == rows && added == {} && removed == {}
    {
      this.graph := graph;
      this.entityType := entityType;
      this.keyName := keyName;
      this.rows := rows;
      this.added := {};
      this.removed := {};
    }

    /** The rows a filter selects, or all rows when there is no filter. */
    function Selected(filter: Option<Value -> bool>): seq<Value>
      reads this
    {
      if filter.Some? then Where(rows, filter.value) else rows
    }

    /**
     * The list query: filter first, then eager-load each non-empty
     * comma-separated include path in order, then order, and materialise.
     */
    method Get(filter: Option<Value -> bool>, orderBy: Option<Ordering>, includeProperties: string)
      returns (result: seq<Value>, includes: seq<string>)
      ensures includes == SplitRemoveEmpty(includeProperties, ',')
      ensures filter.None? && orderBy.None? ==> result == GetAll()
      ensures filter.Some? && orderBy.None? ==> result == GetMany(filter.value)
      ensures orderBy.Some? ==> result == Apply(orderBy.value, Selected(filter))
      ensures orderBy.Some? ==>
                Sorted(orderBy.value, result) && multiset(result) == multiset(Selected(filter))
    {
      var query := Query(rows, []);
      if filter.Some? {
        query := query.Filter(filter.value);
      }
      var paths := SplitRemoveEmpty(includeProperties, ',');
      for i := 0 to |paths|
        invariant query.rows == Selected(filter)
        invariant query.includes == paths[..i]
      {
        query := query.Include(paths[i]);
      }
      assert paths[..|paths|] == paths;
      includes := query.includes;
      if orderBy.Some? {
        result := Apply(orderBy.value, query.rows);
      } else {
        result := query.rows;
      }
    }

    /**
     * The dynamic ordering builder: resolve each '.'-separated segment of
     * `orderColumn` case-insensitively on the type reached so far, failing at
     * the first one that names no property, and order ascending only for the
     * token "asc".
     */
    method GetOrderBy(orderColumn: string, orderType: string) returns (r: Result<Ordering, ResolveError>)
      ensures r == BuildOrdering(graph, entityType, orderColumn, orderType)
    {
      var props := Split(orderColumn, '.');
      var t := entityType;
      var chain: seq<Prop> := [];
      for i := 0 to |props|
        invariant Resolve(graph, entityType, props[..i]) == Success(chain)
        invariant t == EndType(entityType, chain)
      {
        var pi := Lookup(graph, t, props[i]);
        ResolveExtend(graph, entityType, props[..i], chain, props[i]);
        assert props[..i + 1] == props[..i] + [props[i]];
        if pi.None? {
          ResolvePrefixFailure(graph, entityType, props[..i + 1], props[i + 1..]);
          assert props[..i + 1] + props[i + 1..] == props;
          return Failure(Unresolved(props[i], i, t));
        }
        chain := chain + [pi.value];
        t := pi.value.propType;
      }
      assert props[..|props|] == props;
      var ascending := orderType == "asc";
      r := Success(Ordering(chain, t, ascending));
    }

    /** Registers `entity` for insertion and hands it back. */
    method Add(entity: Value) returns (r: Value)
      modifies this
      ensures r == entity
      ensures added == old(added) + {entity}
      ensures rows == old(rows) && removed == old(removed)
    {
      added := added + {entity};
      r := entity;
    }

    /** Registers `entity` for removal. */
    method Delete(entity: Value)
      modifies this
      ensures removed == old(removed) + {entity}
      ensures rows == old(rows) && added == old(added)
    {
      removed := removed + {entity};
    }

    /**
     * Registers for removal, one by one, every stored row that satisfies
     * `where` at the time of the call.
     */
    method DeleteWhere(where: Value -> bool)
      modifies this
      ensures removed == old(removed) + (set e | e in rows && where(e))
      ensures (forall e :: e in rows ==> !where(e)) ==> removed == old(removed)
      ensures rows == old(rows) && added == old(added)
    {
      var objects := Where(rows, where);
      for i := 0 to |objects|
        invariant removed == old(removed) + (set k | 0 <= k < i :: objects[k])
        invariant rows == old(rows) && added == old(added)
      {
        removed := removed + {objects[i]};
      }
      assert (set k | 0 <= k < |objects| :: objects[k]) == (set e | e in rows && where(e)) by {
        forall e | e in rows && where(e)
          ensures e in (set k | 0 <= k < |objects| :: objects[k])
        {
          assert e in multiset(objects);
        }
        forall k | 0 <= k < |objects|
          ensures objects[k] in rows && where(objects[k])
        {
          assert objects[k] in multiset(objects);
        }
      }
    }

    /** Key lookup over the stored rows: a row whose key property equals `id`, or none. */
    function GetById(id: Value): (r: Option<Value>)
      reads this
      ensures r.Some? ==> r.value in rows && Access(r.value, keyName) == id
      ensures r.None? <==> forall e :: e in rows ==> Access(e, keyName) != id
    {
      GetFirst(e => Access(e, keyName) == id)
    }

    /** Every stored row, in store order. */
    function GetAll(): (r: seq<Value>)
      reads this
      ensures r == GetMany(_ => true)
    {
      WhereAll(rows, _ => true);
      rows
    }

    /** Every stored row that satisfies `where`, in store order. */
    function GetMany(where: Value -> bool): (r: seq<Value>)
      reads this
      ensures forall e :: e in r <==> e in rows && where(e)
    {
      var r := Where(rows, where);
      assert forall e :: e in r <==> e in multiset(r);
      assert forall e :: e in rows <==> e in multiset(rows);
      r
    }

    /** The first stored row, in store order, that satisfies `where`; none when no row does. */
    function GetFirst(where: Value -> bool): (r: Option<Value>)
      reads this
      ensures r.None? <==> forall i :: 0 <= i < |rows| ==> !where(rows[i])
      ensures r.Some? ==>
                exists i :: 0 <= i < |rows| && rows[i] == r.value && where(rows[i]) &&
                            forall j :: 0 <= j < i ==> !where(rows[j])
    {
      WhereFirst(rows, where);
      FirstOrDefault(Where(rows, where))
    }

    /** The single-result query with include paths: the same row as `GetFirst`. */
    method GetFirstIncluding(where: Value -> bool, includeProperties: string)
      returns (r: Option<Value>, includes: seq<string>)
      ensures r == GetFirst(where)
      ensures includes == SplitRemoveEmpty(includeProperties, ',')
    {
      var query := Query(rows, []).Filter(where);
      var paths := SplitRemoveEmpty(includeProperties, ',');
      for i := 0 to |paths|
        invariant query.rows == Where(rows, where)
        invariant query.includes == paths[..i]
      {
        query := query.Include(paths[i]);
      }
      assert paths[..|paths|] == paths;
      includes := query.includes;
      r := FirstOrDefault(query.rows);
    }

    /** Filter, then project each selected row. */
    function GetBy<R(==,!new)>(exp: Value -> bool, columns: Value -> R): (r: seq<R>)
      reads this
      ensures |r| == |GetMany(exp)|
      ensures forall i :: 0 <= i < |r| ==> r[i] == columns(GetMany(exp)[i])
      ensures forall y :: y in r <==> exists e :: e in rows && exp(e) && columns(e) == y
    {
      var selected := Where(rows, exp);
      var r := Select(selected, columns);
      assert forall y :: y in r <==> exists e :: e in rows && exp(e) && columns(e) == y by {
        forall y
          ensures y in r <==> exists e :: e in rows && exp(e) && columns(e) == y
        {
          if y in r {
            var i :| 0 <= i < |r| && r[i] == y;
            var e := selected[i];
            assert e in multiset(selected);
            assert e in rows && exp(e) && columns(e) == y;
          }
          if exists e :: e in rows && exp(e) && columns(e) == y {
            var e :| e in rows && exp(e) && columns(e) == y;
            assert e in multiset(rows);
            assert e in multiset(selected);
            var i :| 0 <= i < |selected| && selected[i] == e;
            assert r[i] == y;
          }
        }
      }
      r
    }
  }
}
