/** The relational-to-graph transformation (`transform_data_to_neo4j` in
    TP2/app/etl.py): one node per customer, category, product, order and event
    row (order items get none); one PLACED per order, one CONTAINS per order
    item, a DID and an ON per event, and a BELONGS_TO per product whose
    `category_id` is truthy; no check that the referenced row exists. */
module Transform {
  import opened Values
  import opened Seqs
  import opened Records

  // One datatype per SELECT, with its columns in query order.
  datatype CustomerRow = CustomerRow(id: Value, name: Value, joinDate: Value)
  datatype CategoryRow = CategoryRow(id: Value, name: Value)
  datatype ProductRow = ProductRow(id: Value, name: Value, price: Value, categoryId: Value)
  datatype OrderRow = OrderRow(id: Value, customerId: Value, ts: Value)
  datatype OrderItemRow = OrderItemRow(orderId: Value, productId: Value, quantity: Value)
  datatype EventRow = EventRow(id: Value, customerId: Value, productId: Value, eventType: Value, ts: Value)

  /** The extracted tables, each in the order the query returned its rows. */
  datatype Tables = Tables(
    customers: seq<CustomerRow>,
    categories: seq<CategoryRow>,
    products: seq<ProductRow>,
    orders: seq<OrderRow>,
    orderItems: seq<OrderItemRow>,
    events: seq<EventRow>)

  // ---- the record built for each row ----

  function CustomerNode(row: CustomerRow): NodeRecord
  {
    NodeRecord(Customer, map["id" := row.id, "name" := row.name, "joinDate" := ToStr(row.joinDate)])
  }

  function CategoryNode(row: CategoryRow): NodeRecord
  {
    NodeRecord(Category, map["id" := row.id, "name" := row.name])
  }

  function ProductNode(row: ProductRow): NodeRecord
  {
    NodeRecord(Product, map["id" := row.id, "name" := row.name, "price" := FloatOf(row.price)])
  }

  function OrderNode(row: OrderRow): NodeRecord
  {
    NodeRecord(Order, map["id" := row.id, "timestamp" := ToStr(row.ts)])
  }

  function EventNode(row: EventRow): NodeRecord
  {
    NodeRecord(Event, map["id" := row.id, "eventType" := row.eventType, "timestamp" := ToStr(row.ts)])
  }

  function BelongsToRel(row: ProductRow): RelRecord
  {
    RelRecord(BELONGS_TO, Product, "id", row.id, Category, "id", row.categoryId, map[])
  }

  function PlacedRel(row: OrderRow): RelRecord
  {
    RelRecord(PLACED, Customer, "id", row.customerId, Order, "id", row.id, map[])
  }

  function ContainsRel(row: OrderItemRow): RelRecord
  {
    RelRecord(CONTAINS, Order, "id", row.orderId, Product, "id", row.productId, map["quantity" := row.quantity])
  }

  function DidRel(row: EventRow): RelRecord
  {
    RelRecord(DID, Customer, "id", row.customerId, Event, "id", row.id, map[])
  }

  function OnRel(row: EventRow): RelRecord
  {
    RelRecord(ON, Event, "id", row.id, Product, "id", row.productId, map[])
  }

  // ---- the whole output, table by table ----

  /** BELONGS_TO edges of the products whose category_id is truthy, in product order. */
  function BelongsToRels(rows: seq<ProductRow>): seq<RelRecord>
  {
    if rows == [] then []
    else
      var last := rows[|rows| - 1];
      BelongsToRels(rows[..|rows| - 1]) + (if Truthy(last.categoryId) then [BelongsToRel(last)] else [])
  }

  /** DID then ON, for each event in order. */
  function EventRels(rows: seq<EventRow>): seq<RelRecord>
  {
    if rows == [] then []
    else
      var last := rows[|rows| - 1];
      EventRels(rows[..|rows| - 1]) + [DidRel(last), OnRel(last)]
  }

  /** The node list: customers, categories, products, orders, events. */
  function NodesOf(t: Tables): seq<NodeRecord>
  {
    Mapped(CustomerNode, t.customers) + Mapped(CategoryNode, t.categories)
    + Mapped(ProductNode, t.products) + Mapped(OrderNode, t.orders) + Mapped(EventNode, t.events)
  }

  /** The relationship list: BELONGS_TO, PLACED, CONTAINS, then DID/ON pairs. */
  function RelsOf(t: Tables): seq<RelRecord>
  {
    BelongsToRels(t.products) + Mapped(PlacedRel, t.orders)
    + Mapped(ContainsRel, t.orderItems) + EventRels(t.events)
  }

  /** `transform_data_to_neo4j`: the per-table loops below, in the source's
      table order, appending to one `nodes` and one `relationships` list. */
  method TransformTables(t: Tables) returns (nodes: seq<NodeRecord>, relationships: seq<RelRecord>)
    ensures nodes == NodesOf(t)
    ensures relationships == RelsOf(t)
  {
    nodes, relationships := [], [];
    nodes := AddCustomers(nodes, t.customers);
    assert [] + Mapped(CustomerNode, t.customers) == Mapped(CustomerNode, t.customers);
    nodes := AddCategories(nodes, t.categories);
    nodes, relationships := AddProducts(nodes, relationships, t.products);
    assert [] + BelongsToRels(t.products) == BelongsToRels(t.products);
    nodes, relationships := AddOrders(nodes, relationships, t.orders);
    relationships := AddOrderItems(relationships, t.orderItems);
    nodes, relationships := AddEvents(nodes, relationships, t.events);
  }

  /** Customers -> nodes. */
  method AddCustomers(nodes0: seq<NodeRecord>, rows: seq<CustomerRow>) returns (nodes: seq<NodeRecord>)
    ensures nodes == nodes0 + Mapped(CustomerNode, rows)
  {
    nodes := nodes0;
    for i := 0 to |rows|
      invariant nodes == nodes0 + Mapped(CustomerNode, rows[..i])
    {
      MappedSnoc(CustomerNode, rows, i);
      nodes := nodes + [CustomerNode(rows[i])];
    }
    assert rows[..|rows|] == rows;
  }

  /** Categories -> nodes. */
  method AddCategories(nodes0: seq<NodeRecord>, rows: seq<CategoryRow>) returns (nodes: seq<NodeRecord>)
    ensures nodes == nodes0 + Mapped(CategoryNode, rows)
  {
    nodes := nodes0;
    for i := 0 to |rows|
      invariant nodes == nodes0 + Mapped(CategoryNode, rows[..i])
    {
      MappedSnoc(CategoryNode, rows, i);
      nodes := nodes + [CategoryNode(rows[i])];
    }
    assert rows[..|rows|] == rows;
  }

  /** Products -> nodes, plus a BELONGS_TO edge when `category_id` is truthy. */
  method AddProducts(nodes0: seq<NodeRecord>, rels0: seq<RelRecord>, rows: seq<ProductRow>)
    returns (nodes: seq<NodeRecord>, relationships: seq<RelRecord>)
    ensures nodes == nodes0 + Mapped(ProductNode, rows)
    ensures relationships == rels0 + BelongsToRels(rows)
  {
    nodes, relationships := nodes0, rels0;
    for i := 0 to |rows|
      invariant nodes == nodes0 + Mapped(ProductNode, rows[..i])
      invariant relationships == rels0 + BelongsToRels(rows[..i])
    {
      var row := rows[i];
      MappedSnoc(ProductNode, rows, i);
      assert rows[..i + 1][..i] == rows[..i];
      nodes := nodes + [ProductNode(row)];
      if Truthy(row.categoryId) {
        relationships := relationships + [BelongsToRel(row)];
      }
    }
    assert rows[..|rows|] == rows;
  }

  /** Orders -> nodes, plus the PLACED edge from the ordering customer. */
  method AddOrders(nodes0: seq<NodeRecord>, rels0: seq<RelRecord>, rows: seq<OrderRow>)
    returns (nodes: seq<NodeRecord>, relationships: seq<RelRecord>)
    ensures nodes == nodes0 + Mapped(OrderNode, rows)
    ensures relationships == rels0 + Mapped(PlacedRel, rows)
  {
    nodes, relationships := nodes0, rels0;
    for i := 0 to |rows|
      invariant nodes == nodes0 + Mapped(OrderNode, rows[..i])
      invariant relationships == rels0 + Mapped(PlacedRel, rows[..i])
    {
      var row := rows[i];
      MappedSnoc(OrderNode, rows, i);
      MappedSnoc(PlacedRel, rows, i);
      nodes := nodes + [OrderNode(row)];
      relationships := relationships + [PlacedRel(row)];
    }
    assert rows[..|rows|] == rows;
  }

  /** Order items -> CONTAINS edges carrying the quantity. */
  method AddOrderItems(rels0: seq<RelRecord>, rows: seq<OrderItemRow>) returns (relationships: seq<RelRecord>)
    ensures relationships == rels0 + Mapped(ContainsRel, rows)
  {
    relationships := rels0;
    for i := 0 to |rows|
      invariant relationships == rels0 + Mapped(ContainsRel, rows[..i])
    {
      MappedSnoc(ContainsRel, rows, i);
      relationships := relationships + [ContainsRel(rows[i])];
    }
    assert rows[..|rows|] == rows;
  }

  /** Events -> nodes, plus a DID edge from the customer and an ON edge to the product. */
  method AddEvents(nodes0: seq<NodeRecord>, rels0: seq<RelRecord>, rows: seq<EventRow>)
    returns (nodes: seq<NodeRecord>, relationships: seq<RelRecord>)
    ensures nodes == nodes0 + Mapped(EventNode, rows)
    ensures relationships == rels0 + EventRels(rows)
  {
    nodes, relationships := nodes0, rels0;
    for i := 0 to |rows|
      invariant nodes == nodes0 + Mapped(EventNode, rows[..i])
      invariant relationships == rels0 + EventRels(rows[..i])
    {
      var row := rows[i];
      MappedSnoc(EventNode, rows, i);
      assert rows[..i + 1][..i] == rows[..i];
      nodes := nodes + [EventNode(row)];
      relationships := relationships + [DidRel(row)];
      relationships := relationships + [OnRel(row)];
    }
    assert rows[..|rows|] == rows;
  }

  // ---- properties of the output ----

  /** Endpoint labels of each relationship type. */
  function Endpoints(t: RelType): (Label, Label)
  {
    match t
    case BELONGS_TO => (Product, Category)
    case PLACED => (Customer, Order)
    case CONTAINS => (Order, Product)
    case DID => (Customer, Event)
    case ON => (Event, Product)
  }

  /** Both ends are matched on key "id", the endpoint labels are fixed by the
      type, and only CONTAINS carries properties (its quantity). */
  predicate WellShaped(r: RelRecord)
  {
    r.startKey == "id" && r.endKey == "id"
    && (r.startLabel, r.endLabel) == Endpoints(r.relType)
    && (r.relType == CONTAINS ==> r.props.Keys == {"quantity"})
    && (r.relType != CONTAINS ==> r.props == map[])
  }

  /** Indices of the products whose category_id is truthy. */
  function Categorised(rows: seq<ProductRow>): set<nat>
  {
    set i: nat | i < |rows| && Truthy(rows[i].categoryId)
  }

  /** A node record with this label whose `id` property is `id`. */
  predicate HasKey(n: NodeRecord, l: Label, id: Value)
  {
    n.nodeLabel == l && "id" in n.props && n.props["id"] == id
  }

  /** One node per row, tables in the order customers, categories, products,
      orders, events; each node carries its table's label and `id` = the row's
      first column. */
  lemma NodesLayout(t: Tables)
    ensures var n := NodesOf(t);
      var c1 := |t.customers|;
      var c2 := c1 + |t.categories|;
      var c3 := c2 + |t.products|;
      var c4 := c3 + |t.orders|;
      |n| == c4 + |t.events|
      && (forall i :: 0 <= i < |t.customers| ==> HasKey(n[i], Customer, t.customers[i].id))
      && (forall i :: 0 <= i < |t.categories| ==> HasKey(n[c1 + i], Category, t.categories[i].id))
      && (forall i :: 0 <= i < |t.products| ==> HasKey(n[c2 + i], Product, t.products[i].id))
      && (forall i :: 0 <= i < |t.orders| ==> HasKey(n[c3 + i], Order, t.orders[i].id))
      && (forall i :: 0 <= i < |t.events| ==> HasKey(n[c4 + i], Event, t.events[i].id))
  {
    CustomerNodesAt(t);
    CategoryNodesAt(t);
    ProductNodesAt(t);
    OrderNodesAt(t);
    EventNodesAt(t);
  }

  lemma CustomerNodesAt(t: Tables)
    ensures forall i :: 0 <= i < |t.customers| ==> HasKey(NodesOf(t)[i], Customer, t.customers[i].id)
  {
    var a := Mapped(CustomerNode, t.customers);
    var rest := Mapped(CategoryNode, t.categories) + Mapped(ProductNode, t.products)
      + Mapped(OrderNode, t.orders) + Mapped(EventNode, t.events);
    assert NodesOf(t) == a + rest;
    forall i | 0 <= i < |t.customers| ensures HasKey(NodesOf(t)[i], Customer, t.customers[i].id) {
      MappedAt(CustomerNode, t.customers, i);
    }
  }

  lemma CategoryNodesAt(t: Tables)
    ensures forall i :: 0 <= i < |t.categories| ==>
      HasKey(NodesOf(t)[|t.customers| + i], Category, t.categories[i].id)
  {
    var a, b, c, d, e :=
      Mapped(CustomerNode, t.customers), Mapped(CategoryNode, t.categories),
      Mapped(ProductNode, t.products), Mapped(OrderNode, t.orders), Mapped(EventNode, t.events);
    assert NodesOf(t) == a + b + (c + d + e);
    SegmentKeys(CategoryNode, t.categories, a, c + d + e, Category, (r: CategoryRow) => r.id);
  }

  lemma ProductNodesAt(t: Tables)
    ensures forall i :: 0 <= i < |t.products| ==>
      HasKey(NodesOf(t)[|t.customers| + |t.categories| + i], Product, t.products[i].id)
  {
    var a, b, c, d, e :=
      Mapped(CustomerNode, t.customers), Mapped(CategoryNode, t.categories),
      Mapped(ProductNode, t.products), Mapped(OrderNode, t.orders), Mapped(EventNode, t.events);
    assert NodesOf(t) == a + b + c + (d + e);
    SegmentKeys(ProductNode, t.products, a + b, d + e, Product, (r: ProductRow) => r.id);
  }

  lemma OrderNodesAt(t: Tables)
    ensures forall i :: 0 <= i < |t.orders| ==>
      HasKey(NodesOf(t)[|t.customers| + |t.categories| + |t.products| + i], Order, t.orders[i].id)
  {
    var a, b, c, d, e :=
      Mapped(CustomerNode, t.customers), Mapped(CategoryNode, t.categories),
      Mapped(ProductNode, t.products), Mapped(OrderNode, t.orders), Mapped(EventNode, t.events);
    SegmentKeys(OrderNode, t.orders, a + b + c, e, Order, (r: OrderRow) => r.id);
  }

  lemma EventNodesAt(t: Tables)
    ensures forall i :: 0 <= i < |t.events| ==>
      HasKey(NodesOf(t)[|t.customers| + |t.categories| + |t.products| + |t.orders| + i], Event, t.events[i].id)
  {
    var a, b, c, d, e :=
      Mapped(CustomerNode, t.customers), Mapped(CategoryNode, t.categories),
      Mapped(ProductNode, t.products), Mapped(OrderNode, t.orders), Mapped(EventNode, t.events);
    assert NodesOf(t) == a + b + c + d + e + [];
    SegmentKeys(EventNode, t.events, a + b + c + d, [], Event, (r: EventRow) => r.id);
  }

  /** The rows of one table become the nodes between `pre` and `post`. */
  lemma SegmentKeys<R>(f: R -> NodeRecord, rows: seq<R>, pre: seq<NodeRecord>, post: seq<NodeRecord>,
                       l: Label, idOf: R -> Value)
    requires forall r :: HasKey(f(r), l, idOf(r))
    ensures forall i :: 0 <= i < |rows| ==> HasKey((pre + Mapped(f, rows) + post)[|pre| + i], l, idOf(rows[i]))
  {
    forall i | 0 <= i < |rows| ensures HasKey((pre + Mapped(f, rows) + post)[|pre| + i], l, idOf(rows[i])) {
      MappedAt(f, rows, i);
    }
  }

  /** The BELONGS_TO list has one edge per product with a truthy category_id. */
  lemma {:induction false} BelongsToCount(rows: seq<ProductRow>)
    ensures |BelongsToRels(rows)| == |Categorised(rows)|
  {
    if rows != [] {
      var k := |rows| - 1;
      var init := rows[..k];
      BelongsToCount(init);
      assert forall i :: 0 <= i < k ==> init[i] == rows[i];
      if Truthy(rows[k].categoryId) {
        assert Categorised(rows) == Categorised(init) + {k};
      } else {
        assert Categorised(rows) == Categorised(init);
      }
    }
  }

  /** Two edges per event. */
  lemma {:induction false} EventRelsCount(rows: seq<EventRow>)
    ensures |EventRels(rows)| == 2 * |rows|
  {
    if rows != [] {
      EventRelsCount(rows[..|rows| - 1]);
    }
  }

  /** |orders| + |order_items| + 2 |events| + the products with a truthy
      category_id: no row is dropped for a missing referenced key. */
  lemma RelsCount(t: Tables)
    ensures |RelsOf(t)| == |t.orders| + |t.orderItems| + 2 * |t.events| + |Categorised(t.products)|
  {
    BelongsToCount(t.products);
    EventRelsCount(t.events);
  }

  /** The BELONGS_TO edges are exactly those of the products with a truthy category_id. */
  lemma {:induction false} BelongsToMembers(rows: seq<ProductRow>)
    ensures forall r :: r in BelongsToRels(rows) <==> exists p :: p in rows && Truthy(p.categoryId) && r == BelongsToRel(p)
  {
    if rows != [] {
      var init := rows[..|rows| - 1];
      var last := rows[|rows| - 1];
      BelongsToMembers(init);
      assert rows == init + [last];
      forall r | r in BelongsToRels(rows)
        ensures exists p :: p in rows && Truthy(p.categoryId) && r == BelongsToRel(p)
      {
        if r in BelongsToRels(init) {
          var p :| p in init && Truthy(p.categoryId) && r == BelongsToRel(p);
          assert p in rows;
        } else {
          assert Truthy(last.categoryId) && r == BelongsToRel(last);
        }
      }
      forall p | p in rows && Truthy(p.categoryId) ensures BelongsToRel(p) in BelongsToRels(rows) {
        if p in init {
          assert BelongsToRel(p) in BelongsToRels(init);
        }
      }
    }
  }

  /** The event edges are exactly a DID and an ON edge per event. */
  lemma {:induction false} EventRelsMembers(rows: seq<EventRow>)
    ensures forall r :: r in EventRels(rows) <==> exists e :: e in rows && (r == DidRel(e) || r == OnRel(e))
  {
    if rows != [] {
      var init := rows[..|rows| - 1];
      var last := rows[|rows| - 1];
      EventRelsMembers(init);
      assert rows == init + [last];
      forall r | r in EventRels(rows)
        ensures exists e :: e in rows && (r == DidRel(e) || r == OnRel(e))
      {
        if r in EventRels(init) {
          var e :| e in init && (r == DidRel(e) || r == OnRel(e));
          assert e in rows;
        } else {
          assert r == DidRel(last) || r == OnRel(last);
        }
      }
      forall e | e in rows ensures DidRel(e) in EventRels(rows) && OnRel(e) in EventRels(rows) {
        if e in init {
          assert DidRel(e) in EventRels(init) && OnRel(e) in EventRels(init);
        }
      }
    }
  }

  /** Every relationship has the fixed shape of its type, and a BELONGS_TO
      edge never points at a falsy category_id. */
  lemma RelsWellShaped(t: Tables)
    ensures forall r :: r in RelsOf(t) ==> WellShaped(r)
    ensures forall r :: r in RelsOf(t) && r.relType == BELONGS_TO ==> Truthy(r.endValue)
  {
    BelongsToMembers(t.products);
    MappedMembers(PlacedRel, t.orders);
    MappedMembers(ContainsRel, t.orderItems);
    EventRelsMembers(t.events);
  }

  /** Every order, order item and event row yields its edges, and so does every
      product with a truthy category_id, whether or not the referenced
      customer, order, product or category row exists: no orphan is dropped. */
  lemma RelsCoverRows(t: Tables)
    ensures forall o :: o in t.orders ==> PlacedRel(o) in RelsOf(t)
    ensures forall it :: it in t.orderItems ==> ContainsRel(it) in RelsOf(t)
    ensures forall e :: e in t.events ==> DidRel(e) in RelsOf(t) && OnRel(e) in RelsOf(t)
    ensures forall p :: p in t.products && Truthy(p.categoryId) ==> BelongsToRel(p) in RelsOf(t)
    ensures forall r :: r in RelsOf(t) && r.relType == BELONGS_TO ==>
      exists p :: p in t.products && Truthy(p.categoryId) && r == BelongsToRel(p)
  {
    BelongsToMembers(t.products);
    MappedMembers(PlacedRel, t.orders);
    MappedMembers(ContainsRel, t.orderItems);
    EventRelsMembers(t.events);
  }
}
