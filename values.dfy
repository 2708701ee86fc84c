/**
 * Field values. The library stores field values as `interface{}` and compares
 * them with `==`; the model restricts them to the comparable kinds its callers
 * store (nil, `bool`, Go `int` and `string`), so that equality is the
 * datatype's structural equality. Other integer types, which `==` on
 * interfaces tells apart from `int` even for equal numbers, are not modelled.
 */
module Values {

  datatype Value =
    | Null
    | Bool(b: bool)
    | Int(i: int)
    | Str(s: string)

  /** The reserved field name: it addresses a node's message, never its field map. */
  const MessageField: string := "message"

  /** The field map of one node. */
  type Fields = map<string, Value>

  /** How `fmt.Sprintf("%v", v)` renders a value. */
  function Sprint(v: Value): string
  {
    match v
    case Null => "<nil>"
    case Bool(b) => if b then "true" else "false"
    case Int(i) => if i < 0 then "-" + Decimal(-i) else Decimal(i)
    case Str(s) => s
  }

  /** Decimal digits of a natural number, most significant first. */
  function Decimal(n: nat): string
  {
    if n < 10 then [Digit(n)] else Decimal(n / 10) + [Digit(n % 10)]
  }

  function Digit(d: nat): char
    requires d < 10
  {
    "0123456789"[d]
  }
}
