/** The in-memory graph model that the transformer produces and the loader
    consumes: node records and relationship records. */
module Records {
  import opened Values

  /** Node labels written by the ETL. */
  datatype Label = Customer | Category | Product | Order | Event

  /** Relationship types written by the ETL. */
  datatype RelType = PLACED | CONTAINS | BELONGS_TO | DID | ON

  /** `{"label": ..., "props": {...}}`; the business key is `props["id"]`. */
  datatype NodeRecord = NodeRecord(nodeLabel: Label, props: Props)

  /** `{"start_label", "start_key", "start_value", "end_label", "end_key",
      "end_value", "rel_type", "props"}`; a record without "props" is read by
      the loader as the empty map. */
  datatype RelRecord = RelRecord(
    relType: RelType,
    startLabel: Label, startKey: string, startValue: Value,
    endLabel: Label, endKey: string, endValue: Value,
    props: Props)
}
