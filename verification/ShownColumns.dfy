/** How a column is selected, as it is or converted to text (`nativeTypeInfo`, `selectExpr`), and so what an answer
    shows of its values. */
module ShownColumns {
  import opened Common
  import opened SqlWhere
  import NativeTypes

  datatype Conversion = AsIs | CastToVarchar | ConvertToVarchar(style: nat)

  const EXACT_NUMERIC: set<string> := {"decimal", "numeric", "money", "smallmoney", "bigint"}

  /** The native types whose values are read as text. */
  predicate CastToText(nativeType: string) {
    var t := NativeTypes.Lower(nativeType);
    || t == "time" || t in EXACT_NUMERIC
    || t == "datetime" || t == "smalldatetime" || t == "datetime2" || t == "datetimeoffset"
  }

  function SelectExpr(nativeType: string): Conversion {
    var t := NativeTypes.Lower(nativeType);
    if !CastToText(nativeType) then AsIs
    else if t == "datetime" || t == "smalldatetime" || t == "datetime2" then ConvertToVarchar(121)
    else if t == "datetimeoffset" then CastToVarchar
    else if t == "money" || t == "smallmoney" then ConvertToVarchar(2)
    else CastToVarchar
  }

  /** What is read as text, and how: point-in-time types in ISO form, money with all four places, other exact numbers,
      times and offsets by a plain cast; everything else as it is. The case of the type's name does not matter. */
  lemma TypesReadAsText(nativeType: string)
    ensures var t, how := NativeTypes.Lower(nativeType), SelectExpr(nativeType);
            && (how == ConvertToVarchar(121) <==> t in {"datetime", "smalldatetime", "datetime2"})
            && (how == ConvertToVarchar(2) <==> t in {"money", "smallmoney"})
            && (how == CastToVarchar <==> t in {"bigint", "decimal", "numeric", "time", "datetimeoffset"})
            && (how == AsIs <==> !CastToText(nativeType))
  {
  }

  /** The database, the native types of a table's columns, and the text the database makes of a value. */
  datatype Server =
    Server(db: Database, types: map<string, string>, text: (string, Conversion, Scalar) -> string)
  {
    /** What an answer shows for a value of the column; the result column bears the column's own name. */
    function Show(column: string, v: Scalar): Scalar {
      if column !in types || SelectExpr(types[column]) == AsIs then v
      else Text(text(types[column], SelectExpr(types[column]), v))
    }

    function ShownCell(row: Row, column: string): Option<Scalar> {
      match row(column)
      case None => None
      case Some(v) => Some(Show(column, v))
    }

    /** A row as an answer shows it. */
    function ShownRow(row: Row): Row {
      (column: string) => ShownCell(row, column)
    }
  }
}
