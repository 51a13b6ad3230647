/** The JSON values that mock definitions carry and replies emit. */
module Json {

  /** A JSON value. Numbers are integers in this model. */
  datatype Value =
    | Null
    | Bool(b: bool)
    | Num(n: int)
    | Str(s: string)
    | Arr(items: seq<Value>)
    | Obj(fields: map<string, Value>)

  /** A JSON object: the response template of a mock and the body of a reply. */
  type Object = map<string, Value>

  /** One CSV row parsed with a header line: column name to the raw cell text. */
  type Row = map<string, string>

  /** The object spread `{ ...base, ...row }`: every column of the row is a field of the
      result holding the cell text, and every other field keeps its value from `base`. */
  function Overlay(base: Object, row: Row): (r: Object)
    ensures r.Keys == base.Keys + row.Keys
    ensures forall k :: k in row ==> r[k] == Str(row[k])
    ensures forall k :: k in base && k !in row ==> r[k] == base[k]
  {
    base + map k | k in row :: Str(row[k])
  }

  /** A one-column row adds or replaces exactly that field. */
  lemma OverlayOneColumn(base: Object, column: string, cell: string)
    ensures Overlay(base, map[column := cell]) == base[column := Str(cell)]
  {
  }
}
