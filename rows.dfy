/**
 Rows and column naming. A row maps column names to the JSON leaves of the
 tree they were read from (`RowData`, a `BTreeMap<Cow<str>, &Value>`); the
 borrowed/owned distinction of its keys plays no part here.
 */
module Rows {
  import opened Json

  type Row = map<string, Json>

  /** The composite column name `<keyname>_<fieldname>`. */
  function Column(keyname: string, fieldname: string): string {
    keyname + "_" + fieldname
  }

  /** Two columns of the same aggregation are the same only when their field names are. */
  lemma ColumnInjective(keyname: string, f: string, g: string)
    ensures Column(keyname, f) == Column(keyname, g) ==> f == g
  {
    if Column(keyname, f) == Column(keyname, g) {
      assert f == Column(keyname, f)[|keyname| + 1..];
      assert g == Column(keyname, g)[|keyname| + 1..];
    }
  }

  /** What `insert_value` leaves in the row: the field copied under `keyname_fieldname` when the object has it. */
  function WithValue(row: Row, fieldname: string, obj: seq<Entry>, keyname: string): (out: Row)
    ensures Get(obj, fieldname).Some? ==> out.Keys == row.Keys + {Column(keyname, fieldname)}
    ensures Get(obj, fieldname).Some? ==> out[Column(keyname, fieldname)] == Get(obj, fieldname).value
    ensures Get(obj, fieldname).None? ==> out == row
    ensures forall k | k in row && k != Column(keyname, fieldname) :: k in out && out[k] == row[k]
  {
    match Get(obj, fieldname)
    case Some(v) => row[Column(keyname, fieldname) := v]
    case None => row
  }

  /**
   `insert_value`: writes column `keyname_fieldname` only when `fieldname` is
   present in the object. Besides the equation with `WithValue`, the contract
   spells out the present and absent cases, so that a reader of the method
   sees its effect without opening the function.
   */
  method InsertValue(fieldname: string, obj: seq<Entry>, keyname: string, row: Row) returns (out: Row)
    ensures out == WithValue(row, fieldname, obj, keyname)
    ensures Get(obj, fieldname).None? ==> out == row
    ensures Get(obj, fieldname).Some? ==> out.Keys == row.Keys + {Column(keyname, fieldname)}
    ensures Get(obj, fieldname).Some? ==> out[Column(keyname, fieldname)] == Get(obj, fieldname).value
  {
    out := row;
    var v := Get(obj, fieldname);
    if v.Some? {
      var fieldName := Column(keyname, fieldname);
      out := out[fieldName := v.value];
    }
  }
}
