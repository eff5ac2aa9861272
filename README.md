# Generic repository: verified model

This project models the generic repository `RepositoryBase<T>` of the
CoreTemplate data-access layer in Dafny. The repository sits on an Entity
Framework `DbSet<T>`. It offers a list query (filter, eager-load include
paths, order), single-result queries, a key lookup, projections, and staged
mutations. It also has a dynamic ordering builder, `GetOrderBy`: given a
dotted property path and a direction token, it resolves the path on the
entity's type graph and returns an ordering function.

The model replaces the framework with explicit values:

- the stored entity set is a `seq<Value>` in store order, where an entity is
  an object value mapping declared property names to values;
- reflection is an explicit type table. Each type maps the case-folded name
  of each public instance property to the property's declared name and
  declared type. A segment resolves when its folded form is a key of the
  current type;
- the compiled ordering function is the datatype `Ordering`: the resolved
  property chain, the key's type and the direction. It is applied by a
  stable insertion sort on the key that the chain reaches;
- the query that `Get` builds is a `Query` value carrying its rows and the
  include paths applied to it, in order;
- the context's pending-change set is two fields of the class
  `RepositoryBase`: `added` and `removed`. `Add` and the `Delete`s update them
  in place and never touch the stored rows.

Modules: `Wrappers` (Option, Result), `Text` (splitting on a separator, ASCII
case folding), `Entities` (values, property access, key order),
`PropertyPaths` (the type table and path resolution), `OrderBy` (the ordering
builder's specification and the sort), `Linq` (`Where`, `FirstOrDefault`,
`Select`), `Repository` (the class) and `Scenario` (a worked instance).

Two points of `GetOrderBy` (CoreTemplate.DAL/Repository/RepositoryBase.cs)
fix how the model treats a path and a direction token:

- `GetOrderBy` has no error type of its own. For a segment that names no
  property, `GetProperty` returns null at line 92, and `Expression.Property`
  then throws `ArgumentNullException` at line 93 before any function is
  built. The model returns `Failure(Unresolved(segment, index, type))` at
  that point, and nothing else.
- At line 98 the direction is ascending only for the exact, case-sensitive
  token `"asc"`. Every other token, `"ASC"` and `""` included, gives
  descending.

`GetAll` is the stored rows themselves. It equals `GetMany` with a
predicate every row satisfies, and it equals `Get` called without a filter
or an ordering.

## Model

| member | source | states |
|---|---|---|
| `Text.Split` | CoreTemplate.DAL/Repository/RepositoryBase.cs:84 | splitting on '.' keeps empty entries: n separators give n + 1 pieces, and no piece contains the separator |
| `Text.JoinSplit` | CoreTemplate.DAL/Repository/RepositoryBase.cs:84 | joining the pieces of a split with the separator gives back the original path |
| `Text.SplitJoin` | CoreTemplate.DAL/Repository/RepositoryBase.cs:84 | separator-free pieces are recovered exactly by splitting their join: split and join are inverse |
| `Text.SplitAround` | CoreTemplate.DAL/Repository/RepositoryBase.cs:84 | a separator between two strings splits them independently |
| `Text.SplitWithoutSeparator` | CoreTemplate.DAL/Repository/RepositoryBase.cs:84 | a string without the separator is a single piece |
| `Text.DoubledSeparatorGivesEmptyPiece` | CoreTemplate.DAL/Repository/RepositoryBase.cs:84 | two consecutive separators, as in "a..b", always produce an empty piece |
| `Text.RemoveEmpty` | CoreTemplate.DAL/Repository/RepositoryBase.cs:57 | the pieces kept are exactly the non-empty pieces |
| `Text.RemoveEmptyAppend` | CoreTemplate.DAL/Repository/RepositoryBase.cs:57-60 | dropping empty pieces keeps the rest in their original order: it distributes over concatenation |
| `Text.RemoveEmptyKeepsNonEmpty` | CoreTemplate.DAL/Repository/RepositoryBase.cs:57 | when no piece is empty, every piece is kept, in order |
| `Text.SplitRemoveEmptyAround` | CoreTemplate.DAL/Repository/RepositoryBase.cs:57-60 | the include paths before a comma come first, in order, followed by those after it |
| `Text.SplitRemoveEmptySingle` | CoreTemplate.DAL/Repository/RepositoryBase.cs:57 | a non-empty string without a comma is one include path |
| `Text.SplitRemoveEmpty` | CoreTemplate.DAL/Repository/RepositoryBase.cs:57 | with empty entries removed, every include path is non-empty and free of ',' |
| `Text.SplitRemoveEmptyKeepsContent` | CoreTemplate.DAL/Repository/RepositoryBase.cs:57-60 | the include paths concatenate, in order, to the input without its commas; an empty string gives no include |
| `Text.ConcatRemoveEmpty` | CoreTemplate.DAL/Repository/RepositoryBase.cs:57 | dropping empty entries loses no characters |
| `Text.ConcatSplit` | CoreTemplate.DAL/Repository/RepositoryBase.cs:57 | the pieces of a split concatenate to the input without its separators |
| `Text.FoldChar` | CoreTemplate.DAL/Repository/RepositoryBase.cs:92 | case folding sends each upper-case ASCII letter to its own lower-case letter, leaves every other character unchanged, and leaves no upper-case letter |
| `Text.FoldCharEqual` | CoreTemplate.DAL/Repository/RepositoryBase.cs:92 | two characters fold alike exactly when they are equal or are the two cases of one letter |
| `Text.EqualsIgnoreCaseMeans` | CoreTemplate.DAL/Repository/RepositoryBase.cs:92 | two names are equal ignoring case exactly when they have the same length and at each position the same character or the two cases of one letter |
| `Text.FoldIdempotent` | CoreTemplate.DAL/Repository/RepositoryBase.cs:92 | a folded name is its own folded form |
| `Text.SplitFold` | CoreTemplate.DAL/Repository/RepositoryBase.cs:84-92 | splitting on '.' commutes with case folding, so paths equal up to case split into pieces equal up to case |
| `Entities.KeyOf` | CoreTemplate.DAL/Repository/RepositoryBase.cs:89-95 | the empty chain is the row itself; one property read from an object that has it gives that property's value; reading through a null or a non-object gives null, and a non-null key means the first property was read from an object that has it. With KeyOfAppend this fixes the key every chain reaches |
| `Entities.KeyOfAppend` | CoreTemplate.DAL/Repository/RepositoryBase.cs:89-95 | the access chain built step by step reads the prefix first and then the rest |
| `Entities.KeyLeTotal` | CoreTemplate.DAL/Repository/RepositoryBase.cs:98-101 | any two sort keys are comparable |
| `Entities.KeyLeTransitive` | CoreTemplate.DAL/Repository/RepositoryBase.cs:98-101 | the key order is transitive |
| `Entities.StrLeTotal` | CoreTemplate.DAL/Repository/RepositoryBase.cs:98-101 | string keys are totally ordered |
| `Entities.StrLeTransitive` | CoreTemplate.DAL/Repository/RepositoryBase.cs:98-101 | the string key order is transitive |
| `PropertyPaths.Lookup` | CoreTemplate.DAL/Repository/RepositoryBase.cs:92 | a segment resolves only to a declared property of the current type, and on a well-formed table one whose name equals the segment ignoring case (LookupMatchesIgnoringCase gives both directions) |
| `PropertyPaths.Resolve` | CoreTemplate.DAL/Repository/RepositoryBase.cs:90-95 | a successful resolution has one property per segment; a failure names a segment of the path by its position (ResolveSound and ResolveComplete tie it to the chain the segments name) |
| `PropertyPaths.LookupMatchesIgnoringCase` | CoreTemplate.DAL/Repository/RepositoryBase.cs:92 | on a well-formed table, a segment resolves to exactly the property of the current type whose declared name equals it when case is ignored, both directions |
| `PropertyPaths.EmptySegmentNeverResolves` | CoreTemplate.DAL/Repository/RepositoryBase.cs:92 | the empty segment names no property |
| `PropertyPaths.ResolveSound` | CoreTemplate.DAL/Repository/RepositoryBase.cs:90-95 | a successful resolution is the chain the segments name, each segment looked up on the previous property's type |
| `PropertyPaths.ResolveComplete` | CoreTemplate.DAL/Repository/RepositoryBase.cs:90-95 | whenever the segments name a chain, resolution succeeds with exactly that chain |
| `PropertyPaths.ResolveExtend` | CoreTemplate.DAL/Repository/RepositoryBase.cs:90-95 | one more loop step looks the next segment up on the type reached so far, and fails there when it names nothing |
| `PropertyPaths.ResolvePrefixFailure` | CoreTemplate.DAL/Repository/RepositoryBase.cs:92-93 | once a segment fails, the rest of the path is never looked at |
| `PropertyPaths.ResolveFailureNamesSegment` | CoreTemplate.DAL/Repository/RepositoryBase.cs:90-95 | a failure names a segment of the path, and the type the earlier segments lead to, on which that segment names no property |
| `PropertyPaths.EmptySegmentFails` | CoreTemplate.DAL/Repository/RepositoryBase.cs:90-95 | a path with an empty segment never resolves |
| `OrderBy.PrecedesTotal` | CoreTemplate.DAL/Repository/RepositoryBase.cs:98-101 | in either direction, any two rows are comparable by key |
| `OrderBy.PrecedesTransitive` | CoreTemplate.DAL/Repository/RepositoryBase.cs:98-101 | in either direction, the row order is transitive |
| `OrderBy.SortedCons` | CoreTemplate.DAL/Repository/RepositoryBase.cs:97-103 | a row that may precede every row of a sorted sequence can be put in front of it |
| `OrderBy.Insert` | CoreTemplate.DAL/Repository/RepositoryBase.cs:97-103 | inserting a row into sorted rows keeps them sorted and adds exactly that row |
| `OrderBy.InsertFront` | CoreTemplate.DAL/Repository/RepositoryBase.cs:97-103 | a row that precedes the head of a sorted sequence precedes all of it |
| `OrderBy.InsertBehind` | CoreTemplate.DAL/Repository/RepositoryBase.cs:97-103 | a head that the inserted row does not precede may precede the rest with the row inserted |
| `OrderBy.Apply` | CoreTemplate.DAL/Repository/RepositoryBase.cs:97-103 | the ordering function returns a permutation of its input, non-decreasing by key when ascending and non-increasing otherwise |
| `OrderBy.ApplySortedUnchanged` | CoreTemplate.DAL/Repository/RepositoryBase.cs:97-103 | rows already in order are returned unchanged |
| `OrderBy.ApplyIdempotent` | CoreTemplate.DAL/Repository/RepositoryBase.cs:97-103 | applying an ordering function twice is applying it once |
| `OrderBy.BuildOrdering` | CoreTemplate.DAL/Repository/RepositoryBase.cs:98 | a built ordering is ascending if and only if the token is exactly "asc" |
| `OrderBy.BuildOrderingSucceedsIffPathResolves` | CoreTemplate.DAL/Repository/RepositoryBase.cs:84-95 | the builder succeeds if and only if every '.'-separated segment names a property of the type reached so far; the ordering reads that chain, and its key type is where the chain ends |
| `OrderBy.BuildOrderingFailureNamesSegment` | CoreTemplate.DAL/Repository/RepositoryBase.cs:90-95 | on failure, the builder names the segment that did not resolve and its position, and the segments before it resolve |
| `OrderBy.DoubleDotFails` | CoreTemplate.DAL/Repository/RepositoryBase.cs:84-93 | a path containing ".." fails before any ordering is returned |
| `OrderBy.EmptyPathFails` | CoreTemplate.DAL/Repository/RepositoryBase.cs:84-93 | the empty path fails before any ordering is returned |
| `OrderBy.ResolveIgnoresCase` | CoreTemplate.DAL/Repository/RepositoryBase.cs:92 | resolution depends only on the folded form of each segment |
| `OrderBy.BuildOrderingIgnoresCase` | CoreTemplate.DAL/Repository/RepositoryBase.cs:84-95 | two paths equal up to case both fail or build the same ordering |
| `Linq.Where` | CoreTemplate.DAL/Repository/RepositoryBase.cs:52-55 | filtering keeps each element satisfying the predicate with its multiplicity and drops every other one |
| `Linq.WhereAppend` | CoreTemplate.DAL/Repository/RepositoryBase.cs:52-55 | filtering keeps store order: it distributes over concatenation |
| `Linq.WhereAll` | CoreTemplate.DAL/Repository/RepositoryBase.cs:52-55 | a predicate that every row satisfies changes nothing |
| `Linq.WhereFirst` | CoreTemplate.DAL/Repository/RepositoryBase.cs:193 | the filtered rows are empty exactly when nothing matches, and their head is the first match in store order |
| `Linq.Select` | CoreTemplate.DAL/Repository/RepositoryBase.cs:224 | the projection has one result per row, and its i-th value is the projection of the i-th row |
| `Linq.SelectAppend` | CoreTemplate.DAL/Repository/RepositoryBase.cs:224 | projection keeps order: it distributes over concatenation |
| `Repository.Query.Filter` | CoreTemplate.DAL/Repository/RepositoryBase.cs:52-55 | filtering a query keeps exactly the rows satisfying the predicate and leaves the include paths as they were |
| `Repository.Query.Include` | CoreTemplate.DAL/Repository/RepositoryBase.cs:57-60 | an include path is appended after the earlier ones, and the rows are unchanged |
| `Repository.RepositoryBase.constructor` | CoreTemplate.DAL/Repository/RepositoryBase.cs:21-25 | the repository is bound to one entity set of one type, with nothing pending |
| `Repository.RepositoryBase.Get` | CoreTemplate.DAL/Repository/RepositoryBase.cs:45-70 | filter first, then apply the comma-split non-empty include paths in order, then order. With neither filter nor ordering the result is GetAll (the stored rows in store order); with a filter alone it is GetMany; with an ordering it is a sorted permutation of the filtered rows |
| `Repository.RepositoryBase.GetOrderBy` | CoreTemplate.DAL/Repository/RepositoryBase.cs:79-104 | the segment loop yields exactly the builder's result: the resolved chain with the key type and direction, or the first unresolved segment |
| `Repository.RepositoryBase.Add` | CoreTemplate.DAL/Repository/RepositoryBase.cs:111-115 | the entity is staged for insertion and returned; stored rows and pending removals are unchanged |
| `Repository.RepositoryBase.Delete` | CoreTemplate.DAL/Repository/RepositoryBase.cs:122-126 | the entity is staged for removal; stored rows and pending insertions are unchanged |
| `Repository.RepositoryBase.DeleteWhere` | CoreTemplate.DAL/Repository/RepositoryBase.cs:133-140 | exactly the stored rows matching the predicate at call time are staged for removal, one by one; nothing changes when none matches; stored rows are untouched |
| `Repository.RepositoryBase.GetById` | CoreTemplate.DAL/Repository/RepositoryBase.cs:148-162 | the result is a stored row with that key; none exactly when no stored row has it |
| `Repository.RepositoryBase.GetAll` | CoreTemplate.DAL/Repository/RepositoryBase.cs:169-172 | all stored rows: the same as GetMany with a predicate every row satisfies |
| `Repository.RepositoryBase.GetMany` | CoreTemplate.DAL/Repository/RepositoryBase.cs:180-183 | the result holds exactly the stored rows satisfying the predicate |
| `Repository.RepositoryBase.GetFirst` | CoreTemplate.DAL/Repository/RepositoryBase.cs:191-194 | the first matching row in store order, or none exactly when no row matches |
| `Repository.RepositoryBase.GetFirstIncluding` | CoreTemplate.DAL/Repository/RepositoryBase.cs:202-212 | the same row as GetFirst, with the comma-split non-empty include paths applied in order |
| `Repository.RepositoryBase.GetBy` | CoreTemplate.DAL/Repository/RepositoryBase.cs:222-225 | one projected value per matching row, in store order: the i-th value is the projection of the i-th row GetMany returns, and the values are exactly the projections of the matching rows |
| `Scenario.SplitTwoSegments` | CoreTemplate.DAL/Repository/RepositoryBase.cs:84 | "a.b" with dot-free parts splits into [a, b] |
| `Scenario.ResolveCustomerName` | CoreTemplate.DAL/Repository/RepositoryBase.cs:90-95 | on Order { Id, Customer { Name } }, "Customer.Name" resolves to the Customer then Name properties |
| `Scenario.ResolveCustomerUnknown` | CoreTemplate.DAL/Repository/RepositoryBase.cs:90-95 | "Customer.Unknown" fails on its second segment, looked up on Customer |
| `Scenario.SortTwoRows` | CoreTemplate.DAL/Repository/RepositoryBase.cs:97-103 | rows Bob, Ann sort to Ann, Bob ascending and stay Bob, Ann descending |
| `Scenario.CustomerNameOrdering` | CoreTemplate.DAL/Repository/RepositoryBase.cs:79-104 | end to end: "Customer.Name" with "asc" orders Ann before Bob, with "desc" Bob before Ann; "Customer.Unknown" fails |

## Left out

- `CoreTemplate.DAL/Models/CoreTemplateContext.cs` is an empty context class
  with constructors only. The context is represented by the repository's
  stored rows and pending-change fields. One context shared by several
  repositories is not modelled.
- Translation of queries to SQL, and what `Include` actually loads. The
  model records the include paths a query carries. Unknown include paths
  fail only when the real query runs, so the model does not check them.
- Commit (`SaveChanges`) is not in these files. The stored rows never
  change, and no lemma relates a pending insertion to a later `GetById`.
- Repository.RepositoryBase.Delete: `Attach` is not modelled; the entity is
  staged for removal only. EF's handling of an entity that is both pending
  insertion and removed (it is detached) is not modelled either.
- Reference identity: entities are values, so two equal entities are one
  member of the pending sets.
- Repository.RepositoryBase.GetById: `Find` first checks the entities the
  context already tracks. The model is a plain lookup over the stored rows by
  one key property. The int and string overloads are one lookup on a key
  value.
- Case-insensitive matching: only ASCII letters are folded. The full Unicode
  case mapping of .NET's ignore-case comparison is not modelled.
- A property name that differs from another only by case makes
  `GetProperty` throw an ambiguity error. The type table cannot express such
  a pair, so this is not modelled.
- Reflection and expression-tree compilation (`Expression.Lambda`,
  `Expression.Quote`, `Compile`) are replaced by the type table and the
  `Ordering` value. Only properties listed in the table resolve. Properties
  of built-in types (such as `string.Length`) resolve only when listed, and
  reading them through `Access` gives null.
- Key comparison: nulls come first, then integers, then strings in ordinal
  order. Values of object type compare as equal. The database's collation,
  and the error raised when ordering by a key that is not comparable, are not
  modelled. Reading through a null navigation gives null, as in SQL; the
  exception that in-memory LINQ would raise is not modelled.
- Repository.RepositoryBase.Get: an `orderBy` argument is an `Ordering`
  built by `GetOrderBy`. Arbitrary caller-written ordering functions are not
  modelled. A null `includeProperties` string, which throws in the code, has
  no counterpart, because Dafny strings are never null.
- Repository.RepositoryBase.GetOrderBy: a null `orderColumn`, which throws
  `NullReferenceException` at line 84, and a null `orderType`, which gives
  descending at line 98, have no counterpart, because Dafny strings are
  never null.
- Repository.RepositoryBase.GetBy returns the projected rows as a sequence.
  The laziness of the `IQueryable` it returns is not modelled.
- The order of rows with equal keys: the model's sort is stable, but a
  database gives no such guarantee. Thread safety of the shared context is
  also not modelled.
