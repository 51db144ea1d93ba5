/** The columns of a table. */
module TableSchemas {
  import opened Common
  import RustStr

  datatype Field = Field(name: string, fieldType: string, mode: string, description: string, fields: seq<Field>)

  /** A column made for a result. */
  function Nullable(name: string, fieldType: string): Field {
    Field(name, fieldType, "NULLABLE", "", [])
  }

  /** The schema field of a name: of several, the last. */
  function FieldNamed(schema: seq<Field>, name: string): Option<Field> {
    if schema == [] then None
    else if schema[|schema| - 1].name == name then Some(schema[|schema| - 1])
    else FieldNamed(schema[..|schema| - 1], name)
  }

  /** The schema field of a name: of several, the first. */
  function FirstFieldNamed(schema: seq<Field>, name: string): Option<Field> {
    if schema == [] then None
    else if schema[0].name == name then Some(schema[0])
    else FirstFieldNamed(schema[1..], name)
  }

  /** The type by which a column is treated. */
  function KindOf(field: Field): string {
    RustStr.Upper(DefaultString(field.fieldType, "STRING"))
  }

  predicate IsIntegerField(field: Field) {
    KindOf(field) in {"INTEGER", "INT64"}
  }

  predicate IsNumericField(field: Field) {
    KindOf(field) in {"INTEGER", "INT64", "FLOAT", "FLOAT64", "NUMERIC", "BIGNUMERIC"}
  }
}
