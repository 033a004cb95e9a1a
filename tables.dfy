/** The in-memory table model shared by the deduplicator and the downsampler:
    cells, rows keyed by column name, frames (an ordered column list with rows),
    and the ordering that pandas' groupby uses on group keys. */
module Tables {

  datatype Option<T> = None | Some(value: T)

  datatype Result<T, E> = Success(value: T) | Failure(error: E)

  /** One value of a column: a null, a number or a text value. */
  datatype Cell = Null | Num(x: real) | Text(s: string)

  /** A row maps each column name of its frame to the row's value there. */
  type Row = map<string, Cell>

  /** A data frame: the column names in order and the rows in order. */
  datatype Frame = Frame(columns: seq<string>, rows: seq<Row>)

  /** The gene identifier column, shared by the variant and count tables. */
  const GENE_ID := "gene_id"

  function Min(a: int, b: int): int {
    if a <= b then a else b
  }

  function Max(a: int, b: int): int {
    if a <= b then b else a
  }

  predicate Distinct<T(==)>(s: seq<T>) {
    forall i, j :: 0 <= i < j < |s| ==> s[i] != s[j]
  }

  /** Column names are unique and every row has exactly the frame's columns. */
  predicate WellFormed(f: Frame) {
    && Distinct(f.columns)
    && forall i :: 0 <= i < |f.rows| ==> f.rows[i].Keys == set c | c in f.columns
  }

  /** The value of column `c` in row `r`; a column the row lacks reads as null. */
  function Get(r: Row, c: string): Cell {
    if c in r then r[c] else Null
  }

  // ---- Ordering of group keys ----

  /** Python's string order: lexicographic by code point, a proper prefix first. */
  predicate StrLess(a: string, b: string)
    decreases |a|
  {
    |b| > 0 && (|a| == 0 || a[0] < b[0] || (a[0] == b[0] && StrLess(a[1..], b[1..])))
  }

  /** The order in which sorted group keys come: numbers by value, text by
      StrLess. A real column never mixes numbers and text; the model puts
      null first and numbers before text so that the order is total. */
  predicate CellLess(a: Cell, b: Cell) {
    match (a, b)
    case (Null, Null) => false
    case (Null, _) => true
    case (Num(x), Num(y)) => x < y
    case (Num(_), Text(_)) => true
    case (Text(s), Text(t)) => StrLess(s, t)
    case _ => false
  }

  lemma {:induction false} StrLessIrreflexive(a: string)
    ensures !StrLess(a, a)
    decreases |a|
  {
    if |a| > 0 {
      StrLessIrreflexive(a[1..]);
    }
  }

  lemma {:induction false} StrLessTransitive(a: string, b: string, c: string)
    requires StrLess(a, b) && StrLess(b, c)
    ensures StrLess(a, c)
    decreases |a|
  {
    if |a| > 0 && a[0] == b[0] && b[0] == c[0] {
      StrLessTransitive(a[1..], b[1..], c[1..]);
    }
  }

  lemma {:induction false} StrLessTotal(a: string, b: string)
    ensures a == b || StrLess(a, b) || StrLess(b, a)
    decreases |a|
  {
    if |a| > 0 && |b| > 0 && a[0] == b[0] {
      StrLessTotal(a[1..], b[1..]);
      if a[1..] == b[1..] {
        assert a == [a[0]] + a[1..] && b == [b[0]] + b[1..];
      }
    }
  }

  /** CellLess is a strict total order. */
  lemma CellLessIsStrictTotalOrder(a: Cell, b: Cell, c: Cell)
    ensures !CellLess(a, a)
    ensures CellLess(a, b) && CellLess(b, c) ==> CellLess(a, c)
    ensures a == b || CellLess(a, b) || CellLess(b, a)
  {
    if a.Text? {
      StrLessIrreflexive(a.s);
      if b.Text? {
        StrLessTotal(a.s, b.s);
        if c.Text? && StrLess(a.s, b.s) && StrLess(b.s, c.s) {
          StrLessTransitive(a.s, b.s, c.s);
        }
      }
    }
  }
}
