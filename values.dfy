/** Column values as the database driver hands them to the ETL code, Python
    truthiness, and the property-update semantics of Cypher's `SET`. */
module Values {

  /** One column value. Conversions the ETL code applies with `float(...)` and
      `str(...)` are recorded, not computed: the model never interprets them. */
  datatype Value =
    | Null                    // SQL NULL, Python None
    | Bool(b: bool)
    | Int(i: int)
    | Dec(d: real)            // NUMERIC columns (Python Decimal)
    | Text(s: string)
    | Time(instant: int)      // DATE / TIMESTAMP columns (Python date/datetime)
    | FloatOf(source: Value)  // float(v)
    | StrOf(source: Value)    // str(v) of a value that is not already a string

  /** A property map of a node or relationship record. */
  type Props = map<string, Value>

  /** Python truthiness, as used by `if row[3]:` and `if id_prop:`. A float
      conversion is zero exactly when its numeric source is; `str(...)` of a
      non-string is never the empty string. */
  predicate Truthy(v: Value)
  {
    match v
    case Null => false
    case Bool(b) => b
    case Int(i) => i != 0
    case Dec(d) => d != 0.0
    case Text(s) => s != ""
    case Time(_) => true
    case FloatOf(x) => Truthy(x)
    case StrOf(_) => true
  }

  /** Python's `str(v)`: the identity on strings, a recorded conversion otherwise. */
  function ToStr(v: Value): (r: Value)
    ensures v.Text? ==> r == v
    ensures !v.Text? ==> r.StrOf? && r.source == v && Truthy(r)
  {
    if v.Text? then v else StrOf(v)
  }

  /** `dict.get(key)`: the value under `key`, or None when it is absent. */
  function Lookup(p: Props, key: string): (r: Value)
    ensures key in p ==> r == p[key]
    ensures key !in p ==> r == Null
  {
    if key in p then p[key] else Null
  }

  /** The properties of `x` after `SET n.k = $k` for every key `k` of `p`:
      listed keys take the new value, a null value removes the property, and
      keys that are not listed keep their old value. */
  function Overlay(x: Props, p: Props): (r: Props)
    ensures forall k :: k in r <==> (k in p && p[k] != Null) || (k !in p && k in x)
    ensures forall k :: k in r && k in p ==> r[k] == p[k]
    ensures forall k :: k in r && k !in p ==> r[k] == x[k]
  {
    map k | k in x.Keys + p.Keys && !(k in p && p[k] == Null) :: if k in p then p[k] else x[k]
  }

  /** Two successive SETs act as one SET of their combination, in which the
      later assignment to a key wins. */
  lemma OverlayThen(x: Props, p: Props, q: Props)
    ensures Overlay(Overlay(x, p), q) == Overlay(x, p + q)
  {
    var l, r := Overlay(Overlay(x, p), q), Overlay(x, p + q);
    assert l.Keys == r.Keys;
  }

  /** A SET with nothing listed changes nothing. */
  lemma OverlayNothing(x: Props)
    ensures Overlay(x, map[]) == x
  {
  }

  /** Repeating the same SET changes nothing. */
  lemma OverlayIdempotent(x: Props, p: Props)
    ensures Overlay(Overlay(x, p), p) == Overlay(x, p)
  {
    OverlayThen(x, p, p);
    assert p + p == p;
  }
}
