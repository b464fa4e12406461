/**
 * The rows of the three input tables: mortality records, the administrative
 * division reference (DIVIPOLA) and the cause-code reference, with the
 * per-cell coercions pandas applies to them.
 */
module Tables {
  import opened Options
  import opened Text

  /** A raw cell of a column that the pipeline coerces with `pd.to_numeric(..., errors='coerce')`. */
  datatype Cell = Num(n: int) | Str(s: string) | Blank

  /** `pd.to_numeric(errors='coerce')` on one cell: failures become NaN. */
  function ToNumeric(c: Cell): (r: Option<int>)
    ensures c.Num? ==> r == Some(c.n)
    ensures c.Blank? ==> r == None
    ensures c.Str? ==> (r.Some? <==> c.s != [] && AllDigits(c.s))
    ensures c.Str? && c.s != [] && AllDigits(c.s) ==> r == Some(DigitsValue(c.s))
  {
    match c
    case Num(n) => Some(n)
    case Str(s) => (match ParseNat(s) case Some(v) => Some(v) case None => None)
    case Blank => None
  }

  /** The cell a coerced column holds afterwards: a number, or NaN. */
  function Coerced(c: Cell): (r: Cell)
    ensures ToNumeric(r) == ToNumeric(c)
    ensures r.Num? || r.Blank?
  {
    match ToNumeric(c)
    case Some(n) => Num(n)
    case None => Blank
  }

  /** Coercing a column that was already coerced changes nothing. */
  lemma CoercedIdempotent(c: Cell)
    ensures Coerced(Coerced(c)) == Coerced(c)
  {
  }

  /**
   * One death registration. `None` is a NaN cell. MES and GRUPO_EDAD1 are
   * raw cells; the cause code is text (or NaN).
   */
  datatype Death = Death(
    year: int,
    month: Cell,
    dept: Option<nat>,
    dane: Option<int>,
    cause: Option<string>,
    age: Cell,
    sex: Option<int>)

  /** A department code column: integers as loaded, or zero-padded text once rewritten in place. */
  datatype DeptCell = IntCode(code: nat) | StrCode(text: string)

  /** `astype(str)` on a department code cell. */
  function DeptText(c: DeptCell): string {
    match c
    case IntCode(n) => NatToString(n)
    case StrCode(s) => s
  }

  /** `astype(int)` on a department code cell; `None` where pandas would raise. */
  function DeptNumber(c: DeptCell): (r: Option<nat>)
    ensures c.IntCode? ==> r == Some(c.code)
  {
    match c
    case IntCode(n) => Some(n)
    case StrCode(s) => ParseNat(s)
  }

  /** One row of the administrative division table. */
  datatype Division = Division(dept: DeptCell, deptName: string, dane: int, town: string)

  /** One row of the cause-code table, after its columns are renamed to COD_MUERTE and DESCRIPCION. */
  datatype CauseCode = CauseCode(code: Option<string>, description: string)

  /** `astype(str)` on a text cell: NaN becomes the text "nan". */
  function AsText(c: Option<string>): string {
    match c
    case Some(s) => s
    case None => "nan"
  }
}
