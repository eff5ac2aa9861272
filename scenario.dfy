/**
 * A worked instance: orders whose customer has a name, ordered by the path
 * "Customer.Name" in both directions, and a path that does not resolve.
 */
module Scenario {
  import opened Wrappers
  import opened Text
  import opened Entities
  import opened PropertyPaths
  import opened OrderBy

  /** `Order { Id: int, Customer: Customer }` and `Customer { Name: string }`. */
  function OrderGraph(): TypeGraph
  {
    map[
      "Order" := map["id" := Prop("Id", "int"), "customer" := Prop("Customer", "Customer")],
      "Customer" := map["name" := Prop("Name", "string")]
    ]
  }

  function OrderFor(id: int, name: string): Value
  {
    Obj(map["Id" := Int(id), "Customer" := Obj(map["Name" := Str(name)])])
  }

  /** A path of two segments splits into those two segments. */
  lemma SplitTwoSegments(a: string, b: string)
    requires '.' !in a && '.' !in b
    ensures Split(a + "." + b, '.') == [a, b]
  {
    SplitWithoutSeparator(a, '.');
    SplitWithoutSeparator(b, '.');
    SplitAround(a, b, '.');
    assert a + "." + b == a + ['.'] + b;
  }

  lemma CustomerNamePath()
    ensures Split("Customer.Name", '.') == ["Customer", "Name"]
  {
    assert "Customer.Name" == "Customer" + "." + "Name";
    SplitTwoSegments("Customer", "Name");
  }

  lemma CustomerUnknownPath()
    ensures Split("Customer.Unknown", '.') == ["Customer", "Unknown"]
  {
    assert "Customer.Unknown" == "Customer" + "." + "Unknown";
    SplitTwoSegments("Customer", "Unknown");
  }

  function NamePath(): seq<Prop>
  {
    [Prop("Customer", "Customer"), Prop("Name", "string")]
  }

  lemma FoldedSegments()
    ensures Fold("Customer") == "customer"
    ensures Fold("Name") == "name"
    ensures Fold("Unknown") == "unknown"
  {
  }

  lemma ResolveCustomerName()
    ensures Resolve(OrderGraph(), "Order", ["Customer", "Name"]) == Success(NamePath())
  {
    FoldedSegments();
    var g := OrderGraph();
    assert Lookup(g, "Customer", "Name") == Some(Prop("Name", "string"));
    assert Lookup(g, "Order", "Customer") == Some(Prop("Customer", "Customer"));
    assert Resolve(g, "string", []) == Success([]);
    assert ["Name"][1..] == [];
    assert [Prop("Name", "string")] + [] == [Prop("Name", "string")];
    assert Resolve(g, "Customer", ["Name"]) == Success([Prop("Name", "string")]);
    assert ["Customer", "Name"][1..] == ["Name"];
    assert [Prop("Customer", "Customer")] + [Prop("Name", "string")] == NamePath();
  }

  lemma ResolveCustomerUnknown()
    ensures Resolve(OrderGraph(), "Order", ["Customer", "Unknown"]) == Failure(Unresolved("Unknown", 1, "Customer"))
  {
    FoldedSegments();
    var g := OrderGraph();
    assert Lookup(g, "Customer", "Unknown") == None;
    assert Lookup(g, "Order", "Customer") == Some(Prop("Customer", "Customer"));
    assert Resolve(g, "Customer", ["Unknown"]) == Failure(Unresolved("Unknown", 0, "Customer"));
    assert ["Customer", "Unknown"][1..] == ["Unknown"];
  }

  /** The keys that "Customer.Name" reads from the two rows. */
  lemma NameKeys(ascending: bool)
    ensures SortKey(Ordering(NamePath(), "string", ascending), OrderFor(1, "Bob")) == Str("Bob")
    ensures SortKey(Ordering(NamePath(), "string", ascending), OrderFor(2, "Ann")) == Str("Ann")
  {
    assert Names(NamePath()) == ["Customer", "Name"];
    assert ["Customer", "Name"][1..] == ["Name"];
    assert [Prop("Customer", "Customer")] + [Prop("Name", "string")] == NamePath();
  }

  lemma SortTwoRows(ascending: bool)
    ensures var o, bob, ann := Ordering(NamePath(), "string", ascending), OrderFor(1, "Bob"), OrderFor(2, "Ann");
            Apply(o, [bob, ann]) == if ascending then [ann, bob] else [bob, ann]
  {
    var o, bob, ann := Ordering(NamePath(), "string", ascending), OrderFor(1, "Bob"), OrderFor(2, "Ann");
    NameKeys(ascending);
    assert !StrLe("Bob", "Ann");
    assert StrLe("Ann", "Bob");
    assert [bob, ann][1..] == [ann];
    assert Apply(o, [ann]) == [ann];
  }

  /**
   * Rows Bob, Ann ordered by "Customer.Name" come out Ann, Bob ascending and
   * Bob, Ann descending; "Customer.Unknown" fails on its second segment.
   */
  lemma CustomerNameOrdering()
    ensures var bob, ann := OrderFor(1, "Bob"), OrderFor(2, "Ann");
            var asc := BuildOrdering(OrderGraph(), "Order", "Customer.Name", "asc");
            var desc := BuildOrdering(OrderGraph(), "Order", "Customer.Name", "desc");
            && asc.Success? && Apply(asc.value, [bob, ann]) == [ann, bob]
            && desc.Success? && Apply(desc.value, [bob, ann]) == [bob, ann]
    ensures BuildOrdering(OrderGraph(), "Order", "Customer.Unknown", "asc")
              == Failure(Unresolved("Unknown", 1, "Customer"))
  {
    CustomerNamePath();
    CustomerUnknownPath();
    ResolveCustomerName();
    ResolveCustomerUnknown();
    assert EndType("Order", NamePath()) == "string";
    SortTwoRows(true);
    SortTwoRows(false);
  }
}
