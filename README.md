# ETL core: relational tables to a property graph

This project is a Dafny model of the core of `TP2/app/etl.py`. That ETL job reads six tables of an e-commerce database: customers, categories, products, orders, order items and events. It turns each row into node and relationship records, and writes them to a graph store in batches of `BATCH_SIZE` (1000) records.

The model covers four parts of the job:

- **Batching** (`chunk`): splits a list into consecutive slices.
- **Transform** (`transform_data_to_neo4j`): the per-table loops that build the node list and the relationship list.
- **Store and Loader** (`load_data_to_neo4j`): how the graph store changes under the job's writes.
  - `_create_nodes` runs `MERGE` on `(label, id)` followed by `SET`, or `CREATE` when the id is falsy.
  - `_create_relationships` runs `MATCH` on both endpoints, then `MERGE` for the edge, plus `SET` when the record has properties.
  - The two batch loops run on top of these.
  - `Store` states what each write does, as functions over a value `Graph`.
  - `Loader.GraphStore` is the object the loops update in place. Each of its methods is proved equal to the corresponding `Store` function.
- **Statements** (`run_cypher_file`): the comprehension that splits a Cypher file into the statements it sends.

Supporting modules:

- `Values` models column values and Python truthiness, as used by `if row[3]:` and `if id_prop:`.
- `Values` also models Cypher `SET` semantics as `Overlay`:
  - a listed key takes its new value;
  - a null value removes the property;
  - keys that are not listed are left alone.
- `Records` defines the node and relationship records that pass from the transform to the load.

Properties proved:

- Batching loses, duplicates and reorders nothing, and gives ceil(n / 1000) batches.
- The transform emits one node per customer, category, product, order and event row; order items get none. It emits one PLACED per order, one CONTAINS per order item, a DID and an ON per event, and a BELONGS_TO per product whose `category_id` is truthy. It does not check that the referenced row exists.
- The load is idempotent when every node id is truthy: a second run leaves the store exactly as the first run left it. This holds because every write is a merge, and the proof goes through a small algebra of "cell writes".
- A single falsy id breaks that idempotence.
- Because all node batches run before any relationship batch, an edge between two loaded node records with truthy ids is always created.
- The splitter keeps statements in file order, and each statement it sends is non-empty and stripped.

Orphaned foreign keys:

- A common policy for this kind of ETL drops a relationship whose foreign key references no extracted row, and logs a warning. This code does not do that.
- The transform emits every relationship record unconditionally. The only exception is a product with a falsy `category_id` (`if row[3]:`), which gets no BELONGS_TO record. `Transform.RelsCoverRows` and `Transform.RelsCount` state this.
- At load time such a relationship is silently skipped: its `MATCH` finds nothing, so no edge and no node is created (`Store.RelStep`).

## Model

| member | source | states |
|---|---|---|
| Batching.Chunk | TP2/app/etl.py:120-122 | A zero chunk size is the `range` error, and a negative size gives no batches. For a positive size, the batches concatenate back to the input. There are ceil(\|data\| / size) of them. Each is non-empty and at most `size` long, and every batch but the last holds exactly `size` records |
| Batching.SlicesConcatenate | TP2/app/etl.py:122 | Concatenating the slices `data[i:i+n]` gives `data` back: nothing is omitted, duplicated or reordered |
| Batching.SlicesShape | TP2/app/etl.py:122 | There are ceil(\|data\| / n) slices. Each is non-empty and at most n long, and every slice but the last holds exactly n records |
| Batching.SlicesAt | TP2/app/etl.py:122 | Slice k is `data[k*n : min(k*n+n, len(data))]` |
| Seqs.MappedMembers | TP2/app/etl.py:181-185 | A per-row append loop outputs exactly the images of the rows |
| Transform.TransformTables | TP2/app/etl.py:175-269 | The node list and the relationship list are exactly those of `NodesOf` and `RelsOf` (tables in source order, per-row records as built by the loops) |
| Transform.AddCustomers | TP2/app/etl.py:180-185 | Appends one Customer node per row, in row order, with `joinDate` as `str(join_date)` |
| Transform.AddCategories | TP2/app/etl.py:187-192 | Appends one Category node per row, in row order |
| Transform.AddProducts | TP2/app/etl.py:194-209 | Appends one Product node per row, with `price` as `float(price)`. Appends a BELONGS_TO record only for rows whose `category_id` is truthy |
| Transform.AddOrders | TP2/app/etl.py:211-225 | Appends one Order node and one PLACED record per row |
| Transform.AddOrderItems | TP2/app/etl.py:227-238 | Appends one CONTAINS record per row, carrying `quantity` |
| Transform.AddEvents | TP2/app/etl.py:240-267 | Appends one Event node per row, then a DID record and an ON record per row |
| Transform.NodesLayout | TP2/app/etl.py:180-249 | One node per row, in the table order customers, categories, products, orders, events. Each node carries its table's label and `id` equal to the row's key |
| Transform.BelongsToCount | TP2/app/etl.py:194-209 | There is exactly one BELONGS_TO record per product with a truthy `category_id` |
| Transform.BelongsToMembers | TP2/app/etl.py:194-209 | A BELONGS_TO record is in the output if and only if it is built from a product with a truthy `category_id` |
| Transform.EventRelsCount | TP2/app/etl.py:240-267 | Two edges per event |
| Transform.EventRelsMembers | TP2/app/etl.py:240-267 | The event edges are exactly a DID record and an ON record for each event |
| Transform.RelsCount | TP2/app/etl.py:194-267 | The number of relationship records is \|orders\| + \|order_items\| + 2\|events\| + the number of products with a truthy `category_id` |
| Transform.RelsWellShaped | TP2/app/etl.py:200-267 | Every relationship matches on key `id` at both ends and has the endpoint labels of its type. Only CONTAINS carries properties, and a BELONGS_TO record never points at a falsy category |
| Transform.RelsCoverRows | TP2/app/etl.py:194-267 | Every order, order item and event, and every product with a truthy category, yields its edges with no existence check on the referenced row. Every BELONGS_TO record comes from such a product |
| Values.Overlay | TP2/app/etl.py:288-290 | After `SET n.k = $k`, listed keys hold the new value, null-valued keys are removed, and unlisted keys keep their old value |
| Values.OverlayThen | TP2/app/etl.py:288-290 | Two successive SETs act as one SET of their combination, in which the later assignment wins |
| Values.OverlayNothing | TP2/app/etl.py:292-294 | A MERGE with nothing to SET leaves the properties unchanged |
| Values.OverlayIdempotent | TP2/app/etl.py:280 | Repeating the same SET changes nothing |
| Store.WriteCells | TP2/app/etl.py:311-312 | MERGE followed by SET on a set of cells: afterwards every targeted cell exists and holds its old properties overlaid with the SET, and every other cell is unchanged |
| Store.Matches | TP2/app/etl.py:309-310 | A null value matches no node. On key `id`, a keyed node is matched if and only if it is stored with that label and id. An unkeyed node is matched if and only if it is stored with that label and the property equal to the value. Every matched keyed node is stored and has that label |
| Store.Targets | TP2/app/etl.py:309-311 | The merged edges are exactly the edges of the record's type from a matched start node to a matched end node. When either endpoint matches nothing, no edge is touched |
| Store.NodeStep | TP2/app/etl.py:277-300 | A truthy id merges on (label, id) and adds the key. The node's properties become its old ones overlaid with the record's properties other than `id`: listed properties are set, null ones removed, unlisted ones kept, and nothing else is added. Other nodes and all edges are unchanged. A falsy id appends exactly one new node with the record's label and its non-null properties, and leaves keyed nodes unchanged |
| Store.RelStep | TP2/app/etl.py:302-322 | Nodes never change. With no match on either side the graph is unchanged. Otherwise every matched pair has an edge whose properties are its old ones (none for a new edge) overlaid with the `SET` list: listed properties are set, null ones removed, unlisted ones kept, and nothing else is added. Every other edge is unchanged |
| Store.ApplyNodesConcat | TP2/app/etl.py:326-328 | Running node batches one after another equals running their concatenation |
| Store.ApplyRelsConcat | TP2/app/etl.py:332-334 | Running relationship batches one after another equals running their concatenation |
| Store.NodesAsWrites | TP2/app/etl.py:277-295 | With every id truthy, loading nodes is a sequence of cell writes on the keyed nodes and nothing else |
| Store.RelsAsWrites | TP2/app/etl.py:302-322 | Loading relationships is a sequence of cell writes on the edges, against the nodes as they stood before |
| Store.ApplyWritesAt | TP2/app/etl.py:280 | After a sequence of merges, a cell exists if and only if it existed before or was targeted. Its properties are the old ones overlaid with all targeted SETs combined |
| Store.ApplyWritesTwice | TP2/app/etl.py:280 | Repeating a sequence of merges changes nothing |
| Store.NodesIdempotent | TP2/app/etl.py:280-295 | Re-running node batches whose ids are all truthy leaves the store unchanged |
| Store.RelsIdempotent | TP2/app/etl.py:302-322 | Re-running relationship batches creates no parallel edge and changes nothing |
| Store.LoadIdempotent | TP2/app/etl.py:324-335 | A second full load of the same records, with all ids truthy, leaves the store exactly as the first load left it |
| Store.CreatedNodes | TP2/app/etl.py:296-300 | Each record with a falsy id adds exactly one unkeyed node, and existing unkeyed nodes are kept |
| Store.RerunDuplicatesUnkeyed | TP2/app/etl.py:296-300 | A single record with a falsy id makes a re-run add nodes, so the load is then not idempotent |
| Store.KeyedAfterNodes | TP2/app/etl.py:277-295 | Node loading never removes a keyed node, and every record with a truthy id leaves its (label, id) key in the store |
| Store.LoadConnects | TP2/app/etl.py:324-335 | All node batches run before any relationship batch, so a relationship whose endpoints are loaded node records with truthy ids is present after the load, whatever the record order |
| Loader.GraphStore.MergeNode | TP2/app/etl.py:278-300 | One `_create_nodes` item (MERGE with SET, MERGE alone, or CREATE) updates the store exactly as `NodeStep` says |
| Loader.GraphStore.MergeRelationship | TP2/app/etl.py:303-322 | One `_create_relationships` item (with or without SET) changes only the edges, exactly as `RelStep` says |
| Loader.GraphStore.CreateNodes | TP2/app/etl.py:277-300 | A node batch applies its items in order (`ApplyNodes`) |
| Loader.GraphStore.CreateRelationships | TP2/app/etl.py:302-322 | A relationship batch applies its items in order and changes only the edges |
| Loader.GraphStore.Load | TP2/app/etl.py:324-335 | The batch loops leave the store as `LoadAll`, with all nodes before all relationships. The returned batch counts are ceil(n / 1000) for nodes and for relationships |
| Loader.GraphStore.RunNodeBatches | TP2/app/etl.py:326-328 | Running the node batches one after another leaves the store as applying their concatenation |
| Loader.GraphStore.RunRelBatches | TP2/app/etl.py:332-334 | Running the relationship batches one after another leaves the store as applying their concatenation |
| Store.NodeStepKeepsAnonUnkeyed | TP2/app/etl.py:296-300 | A node record never leaves a `CREATE`d node carrying a truthy id: only falsy-id records take the `CREATE` branch |
| Store.LoadKeepsAnonUnkeyed | TP2/app/etl.py:324-335 | A whole load keeps every `CREATE`d node without a truthy id, starting from any store where that holds (an empty one included) |
| Statements.TrimStart | TP2/app/etl.py:108 | `lstrip` leaves a suffix that is empty or starts with a non-space |
| Statements.TrimEnd | TP2/app/etl.py:108 | `rstrip` leaves a prefix that is empty or ends with a non-space |
| Statements.TrimStartDropsSpace | TP2/app/etl.py:108 | What `lstrip` drops is whitespace |
| Statements.TrimEndDropsSpace | TP2/app/etl.py:108 | What `rstrip` drops is whitespace |
| Statements.StripFacts | TP2/app/etl.py:108-110 | `strip` gives an empty result if and only if the text is all whitespace. The result is a contiguous middle of the text with whitespace on either side, and stripping twice changes nothing |
| Statements.SplitJoin | TP2/app/etl.py:109 | Joining the pieces of `split(';')` with `;` gives back the text |
| Statements.SplitFree | TP2/app/etl.py:109 | No piece contains the separator |
| Statements.SplitWithoutSep | TP2/app/etl.py:109 | A text without `;` is a single piece |
| Statements.SplitConcat | TP2/app/etl.py:109 | Splitting `a;b` gives the pieces of `a` followed by the pieces of `b` |
| Statements.SplitStatements | TP2/app/etl.py:107-111 | Every statement sent is non-empty, stripped, free of `;` and not a `//` comment. This makes the `if query:` check at line 115 redundant |
| Statements.SelectMembers | TP2/app/etl.py:107-111 | A kept statement is a stripped piece, and every piece whose stripped text is non-empty and not a comment is kept |
| Statements.StatementsOfPieces | TP2/app/etl.py:107-111 | Every statement is the stripped text of some piece, and every kept stripped piece is a statement. Multiplicity and order come from Statements.OnePiece with Statements.StatementsInOrder |
| Statements.OnePiece | TP2/app/etl.py:107-111 | A text without `;` yields exactly its stripped text once when that is kept, and nothing otherwise, so each kept piece gives exactly one statement |
| Statements.StatementsInOrder | TP2/app/etl.py:107-111 | The statements of `a;b` are those of `a` followed by those of `b`, so file order is kept |
| Statements.CommentLedPieceDropped | TP2/app/etl.py:110 | A piece whose stripped text starts with `//` is dropped whole, even if code follows the comment line |
| Statements.CommentHeaderDropsStatement | TP2/app/etl.py:107-111 | The file `// seed` + newline + `RETURN 1` yields no statement at all |
| Statements.SplitStatementsKeepingCode | TP2/app/etl.py:106-111 | The corrected splitter removes comment lines before the emptiness test. Every statement it returns still has the shape of a statement |
| Statements.CodeOfEmpty | TP2/app/etl.py:106-111 | The corrected splitter drops a piece if and only if every line of it is blank or a comment line |
| Statements.AgreeWithoutComments | TP2/app/etl.py:106-111 | On a file without comment lines, the corrected splitter returns exactly what the original returns |
| Statements.CommentHeaderKeepsStatement | TP2/app/etl.py:106-111 | On `// seed` + newline + `RETURN 1`, the corrected splitter returns `["RETURN 1"]` |

## Left out

- Values.ToStr and Values.Lookup: helpers that stand for Python's `str(...)` and `dict.get`. Their contracts only spell out their definitions, so they have no row above. `str(...)` of a non-string is recorded as a conversion, not computed.
- Extraction from PostgreSQL (`extract_data_from_postgres`): each table becomes a sequence of typed rows given as input, with columns in the order of the SELECTs.
- Database drivers, sessions and transactions:
  - The `driver is None` checks are not modelled.
  - The `wait_for_*` retry loops and their error-message tests are not modelled.
  - `session.execute_write` retries and rollback are not modelled.
  - A write that fails partway through a batch is not modelled.
  - Each batch is modelled as applied completely.
- File handling in `run_cypher_file`: reading the file, the missing-file error, and sending each statement. Only the comprehension that chooses the statements is modelled.
- Printing, environment configuration, and the `etl()` orchestration are not modelled.
- Values.Truthy: `float(...)` and `str(...)` are recorded as conversions, not computed.
  - A `float` of a text column is taken as truthy exactly when the text is non-empty.
  - Floating-point rounding is not modelled.
- Transform.AddProducts: a NULL price makes `float(None)` raise, which aborts the whole transform (TP2/app/etl.py:198). The model records `FloatOf(Null)` instead and carries on.
- Store.Matches: property equality is structural on the modelled values. Cypher's equality across numeric types (an integer equal to a float) and across date types is not modelled.
- Store.Matches: for keyed nodes, the contract characterises matching on key `id` only, not on another property. The function itself compares any property. The transform only ever matches on `id` (Transform.RelsWellShaped).
- Store.NodeStep: `MERGE` keys on the same structural equality as `MATCH` (see Store.Matches above).
- Store.NodeStep: a `MERGE` on a truthy id looks only at keyed nodes. The model represents stores where no `CREATE`d node carries a truthy id (Store.AnonUnkeyed). The load keeps that from any such store, an empty one included (Store.LoadKeepsAnonUnkeyed). A pre-existing store with a `CREATE`d node holding a truthy id, which a `MERGE` could match, is not modelled.
- Store.RelStep: at most one edge per (type, start node, end node). A store that already holds parallel edges of one type between two nodes is not modelled.
- The generated Cypher text (string building of the `SET` and `CREATE` clauses) is not modelled. Only its effect on the store is. Property names are assumed to be valid identifiers.

## Findings

| source | as written | input that shows it | evidently intended | confidence | as-written member | corrected member |
|---|---|---|---|---|---|---|
| TP2/app/etl.py:107-111 | A `;`-separated piece is dropped whole when its stripped text starts with `//`, including any statement after the comment line | A file containing `// seed`, a newline, then `RETURN 1`: no statement is sent | Filter out comment lines, as the comment at line 106 says, and keep the code that follows them | medium, not executed | Statements.CommentHeaderDropsStatement | Statements.SplitStatementsKeepingCode |
