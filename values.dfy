/**
 * The values the model lets a Post attribute or a request field hold: null,
 * booleans, integers, text and dates (floats, arrays and objects are not
 * modelled). Python attributes are dynamically typed, so a record's fields
 * and a request's data are both maps or records of `Value`. Taking the
 * database to be SQLite, this module also fixes how the store compares values
 * (storage-class order, BINARY collation, dates kept as ISO text) and what
 * text its `lower(...) LIKE ...` filter sees.
 */
module Values {
  import opened Wrappers
  import opened Text
  import opened Dates

  datatype Value =
    | VNull
    | VBool(b: bool)
    | VInt(i: int)
    | VStr(s: string)
    | VDate(d: CalendarDate)

  /** A JSON object, a request body, or a serialised post: field name to value. */
  type Dict = map<string, Value>

  /** Python truthiness: `None`, `False`, `0` and `""` are false; every date is true. */
  predicate Falsy(v: Value) {
    v == VNull || v == VBool(false) || v == VInt(0) || v == VStr("")
  }

  /** The text SQLite's `lower()` reads from a stored value; `NULL` has none. */
  function StoredText(v: Value): Option<string> {
    match v
    case VNull => None
    case VBool(b) => Some(if b then "1" else "0")
    case VInt(i) => Some(IntToDecimal(i))
    case VStr(s) => Some(s)
    case VDate(d) => Some(Iso(d))
  }

  /** SQLite storage classes in sort order: NULL, then numbers, then text (dates are stored as ISO text). */
  function StorageClass(v: Value): nat {
    match v
    case VNull => 0
    case VBool(_) => 1
    case VInt(_) => 1
    case VStr(_) => 2
    case VDate(_) => 2
  }

  function Number(v: Value): int {
    match v
    case VBool(b) => if b then 1 else 0
    case VInt(i) => i
    case _ => 0
  }

  function TextOf(v: Value): string {
    match v
    case VStr(s) => s
    case VDate(d) => Iso(d)
    case _ => ""
  }

  /** `a` sorts no later than `b` in an ascending `ORDER BY`. */
  predicate ValueLe(a: Value, b: Value) {
    var ca, cb := StorageClass(a), StorageClass(b);
    ca < cb ||
    (ca == cb &&
      (ca == 0 ||
      (ca == 1 && Number(a) <= Number(b)) ||
      (ca == 2 && StrLe(TextOf(a), TextOf(b)))))
  }

  lemma ValueLeTotal(a: Value, b: Value)
    ensures ValueLe(a, b) || ValueLe(b, a)
  {
    StrLeTotal(TextOf(a), TextOf(b));
  }

  lemma ValueLeTransitive(a: Value, b: Value, c: Value)
    requires ValueLe(a, b) && ValueLe(b, c)
    ensures ValueLe(a, c)
  {
    if StorageClass(a) == StorageClass(b) == StorageClass(c) == 2 {
      StrLeTransitive(TextOf(a), TextOf(b), TextOf(c));
    }
  }

  /** Two dates compare in the store as they compare on the calendar. */
  lemma DateValuesChronological(a: CalendarDate, b: CalendarDate)
    ensures ValueLe(VDate(a), VDate(b)) <==> NotLater(a, b)
    ensures ValueLe(VStr(Iso(a)), VStr(Iso(b))) <==> NotLater(a, b)
  {
    IsoOrderIsChronological(a, b);
  }
}
