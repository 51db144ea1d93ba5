/** Cells as raw JSON text: how a value is read from one, compared, shown, and accepted for a column.
    Decoding itself, and floating point, belong to libraries; they are functions given from outside. */
module JsonDecoding {
  import opened Common
  import opened JsonText
  import opened Numerals
  import opened RowStore
  import opened TableSchemas
  import RustStr

  datatype Float = NaN | NegInf | Fin(value: real) | PosInf

  /** `first`: the first JSON value of a text. `asString`, `asBool`, `asArray`, `asObject`: the text as a
      whole, read as one value of that kind; elements and members keep their raw text. */
  datatype Decoder = Decoder(
    first: Bytes -> Option<Value>,
    asString: Bytes -> Option<Bytes>,
    asBool: Bytes -> Option<bool>,
    asArray: Bytes -> Option<seq<Bytes>>,
    asObject: Bytes -> Option<seq<Cell>>,
    parseFloat: Bytes -> Option<Float>,
    nearest: int -> real,
    addFloat: (Float, Float) -> Float,
    divideFloat: (Float, nat) -> Float,
    showFloat: Float -> Bytes)

  function TrimSpace(s: Bytes): Bytes {
    if s != [] && IsSpace(s[0]) then TrimSpace(s[1..])
    else if s != [] && IsSpace(s[|s| - 1]) then TrimSpace(s[..|s| - 1])
    else s
  }

  predicate IsSpace(b: Byte) {
    9 <= b <= 13 || b == 32
  }

  function UpperByte(b: Byte): Byte {
    if 97 <= b <= 122 then b - 32 else b
  }

  /** `is_json_null`. */
  predicate IsJsonNull(raw: Bytes) {
    var t := TrimSpace(raw);
    |t| == 4 && UpperByte(t[0]) == 78 && UpperByte(t[1]) == 85 && UpperByte(t[2]) == 76 && UpperByte(t[3]) == 76
  }

  /** What the proofs use of the libraries. */
  ghost predicate Lawful(d: Decoder) {
    && d.first([]) == None
    && (forall raw :: d.asString(raw).Some? ==> d.first(raw) == Some(Str(d.asString(raw).value)))
    && (forall raw :: d.first(raw).Some? ==> WellFormed(d.first(raw).value))
    && (forall raw :: IsJsonNull(raw) && d.first(raw).Some? ==> d.first(raw) == Some(Null))
    && (forall s :: ParseI64(s).Some? ==> d.parseFloat(s) == Some(Fin(d.nearest(ParseI64(s).value))))
    && (forall m, n :: m <= n ==> d.nearest(m) <= d.nearest(n))
  }

  // --- reading ---

  /** `raw_value_for_response`. */
  function ForResponse(d: Decoder, raw: Bytes): Value {
    if d.first(raw).Some? then d.first(raw).value else Str(raw)
  }

  /** The text that is read as a number: a string's content, or the number itself. */
  function NumeralOf(d: Decoder, raw: Bytes): Option<Bytes> {
    if d.asString(raw).Some? then d.asString(raw)
    else if d.first(raw).Some? && d.first(raw).value.Number? then Some(d.first(raw).value.text)
    else None
  }

  /** `raw_int`. */
  function RawInt(d: Decoder, raw: Bytes): Option<int> {
    if NumeralOf(d, raw).Some? then ParseI64(NumeralOf(d, raw).value) else None
  }

  /** `raw_float`. */
  function RawFloat(d: Decoder, raw: Bytes): Option<Float> {
    if NumeralOf(d, raw).Some? then d.parseFloat(NumeralOf(d, raw).value) else None
  }

  /** `raw_value_for_field_response`. */
  function ForField(d: Decoder, raw: Bytes, field: Field): Value {
    if RustStr.EqIgnoreAsciiCase(field.mode, "REPEATED") then ForResponse(d, raw)
    else if IsIntegerField(field) && RawInt(d, raw).Some? then Str(ShowInt(RawInt(d, raw).value))
    else if KindOf(field) in {"BOOLEAN", "BOOL"} && d.asBool(raw).Some? then
      Str(if d.asBool(raw).value then [116, 114, 117, 101] else [102, 97, 108, 115, 101])
    else if KindOf(field) in {"NUMERIC", "BIGNUMERIC"} && NumeralOf(d, raw).Some? then Str(NumeralOf(d, raw).value)
    else ForResponse(d, raw)
  }

  // --- comparing ---

  datatype Ordering = Less | Equal | Greater

  function CompareBytes(a: Bytes, b: Bytes): Ordering {
    if a == [] then if b == [] then Equal else Less
    else if b == [] then Greater
    else if a[0] < b[0] then Less
    else if a[0] > b[0] then Greater
    else CompareBytes(a[1..], b[1..])
  }

  /** `partial_cmp`, a NaN comparing equal to everything. */
  function CompareFloats(a: Float, b: Float): Ordering {
    if a.NaN? || b.NaN? || a == b then Equal
    else if a.NegInf? || b.PosInf? then Less
    else if a.PosInf? || b.NegInf? then Greater
    else if a.value < b.value then Less
    else Greater
  }

  function JoinBytes(parts: seq<Bytes>): Bytes {
    if parts == [] then [] else if |parts| == 1 then parts[0] else parts[0] + [32] + JoinBytes(parts[1..])
  }

  /** `legacy_sprint`. */
  function Sprint(v: Value): Bytes {
    match v
    case Null => [60, 110, 105, 108, 62]
    case Bool(b) => if b then [116, 114, 117, 101] else [102, 97, 108, 115, 101]
    case Number(text) => text
    case Str(s) => s
    case Array(items) =>
      [91] + JoinBytes(seq(|items|, i requires 0 <= i < |items| => Sprint(items[i]))) + [93]
    case Object(members) =>
      [109, 97, 112, 91]
      + JoinBytes(seq(|members|, i requires 0 <= i < |members| => members[i].key + [58] + Sprint(members[i].value)))
      + [93]
  }

  /** `compare_raw_values`. */
  function CompareRaw(d: Decoder, left: Bytes, right: Bytes): Ordering {
    var l, r := RawFloat(d, left), RawFloat(d, right);
    if l.Some? && r.Some? then CompareFloats(l.value, r.value)
    else CompareBytes(Sprint(ForResponse(d, left)), Sprint(ForResponse(d, right)))
  }

  // --- columns of a row ---

  function Get(cells: seq<Cell>, name: string): Option<Bytes> {
    if cells == [] then None else if cells[0].key == name then Some(cells[0].raw) else Get(cells[1..], name)
  }

  /** `raw_field`: a missing cell reads as the empty text. */
  function RawField(row: Row, name: string): Bytes {
    if Get(row.cells, name).Some? then Get(row.cells, name).value else []
  }

  // --- accepting a cell for a column ---

  /** `validate_field_value`. */
  predicate FitsField(d: Decoder, raw: Bytes, field: Field)
    decreases field, 2
  {
    if IsJsonNull(raw) then !RustStr.EqIgnoreAsciiCase(field.mode, "REQUIRED")
    else if RustStr.EqIgnoreAsciiCase(field.mode, "REPEATED") then
      d.asArray(raw).Some? && FitsEach(d, d.asArray(raw).value, field)
    else FitsKind(d, raw, field)
  }

  /** Each element of an array, for the same column without its mode. */
  predicate FitsEach(d: Decoder, items: seq<Bytes>, field: Field)
    decreases field, 1
  {
    forall i :: 0 <= i < |items| ==> IsJsonNull(items[i]) || FitsKind(d, items[i], field)
  }

  predicate FitsKind(d: Decoder, raw: Bytes, field: Field)
    decreases field, 0
  {
    var kind := KindOf(field);
    if kind in {"STRING", "BYTES", "NUMERIC", "BIGNUMERIC", "TIMESTAMP", "DATE", "TIME", "DATETIME", "GEOGRAPHY"} then
      d.asString(raw).Some?
    else if kind in {"INTEGER", "INT64"} then RawInt(d, raw).Some?
    else if kind in {"FLOAT", "FLOAT64"} then RawFloat(d, raw).Some?
    else if kind in {"BOOLEAN", "BOOL"} then d.asBool(raw).Some?
    else if kind == "JSON" then true
    else if kind in {"RECORD", "STRUCT"} then
      d.asObject(raw).Some? && FitsRecord(d, d.asObject(raw).value, field.fields)
    else false
  }

  /** A nested record: every member has a field and fits it, and no required field is missing or null. */
  predicate FitsRecord(d: Decoder, members: seq<Cell>, fields: seq<Field>)
    decreases fields, 0
  {
    && (forall i :: 0 <= i < |members| ==> FieldNamed(fields, members[i].key).Some?)
    && (forall i, k :: 0 <= i < |members| && 0 <= k < |fields| && FieldNamed(fields, members[i].key) == Some(fields[k])
          ==> FitsField(d, members[i].raw, fields[k]))
    && (forall k :: 0 <= k < |fields| && RustStr.EqIgnoreAsciiCase(fields[k].mode, "REQUIRED")
          ==> exists i :: 0 <= i < |members| && members[i].key == fields[k].name && !IsJsonNull(members[i].raw))
  }
}
