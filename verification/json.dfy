/**
 Decoded JSON values. Numbers keep their text, as a decoder with UseNumber delivers
 them, and compare by that text (pkg/lib/jsutil/json.go:35-37).
 */
module JsonValues {
  import opened Wrappers

  datatype Json =
    | Null
    | Bool(b: bool)
    | Num(text: string)
    | Str(s: string)
    | Arr(elems: seq<Json>)
    | Obj(fields: map<string, Json>)

  predicate IsScalar(v: Json) {
    !v.Arr? && !v.Obj?
  }

  /** The results of getJsonType that a decoded value can have; null has none. */
  datatype JsonType = ObjectType | ArrayType | StringType | NumberType | BoolType | NoType

  function TypeOf(v: Json): JsonType {
    match v
    case Null => NoType
    case Bool(_) => BoolType
    case Num(_) => NumberType
    case Str(_) => StringType
    case Arr(_) => ArrayType
    case Obj(_) => ObjectType
  }

  /** Foreign code the comparer calls: float parsing, regular expressions, printing, marshalling. */
  datatype Library = Library(
    floatOf: string -> Option<real>,
    regexMatch: (string, string) -> Option<bool>,
    sprint: Json -> string,
    marshal: Json -> string)
}
