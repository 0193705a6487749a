/**
 * The JSON records the crawler reads and writes: a grading system, its grade
 * rows, and the catalog file that lists the systems.  A key that is missing, or
 * whose value has a type the code rejects with `isinstance`, is None.
 */
module Schema {
  import opened Wrappers
  import opened Tables

  /** One entry of a system's "grades" list: an object, or some other JSON value. */
  datatype Row =
    | Row(grade: Option<string>, points: Option<real>, percentage: Option<string>)
    | NotAnObject

  /** A grading system, as a JSON object. */
  datatype System = System(
    id: Option<string>,
    name: Option<string>,
    country: Option<string>,
    region: Option<string>,
    description: Option<string>,
    scale: Option<real>,
    grades: Option<seq<Row>>)

  /**
   * The catalog file: its version and date, its systems (a missing "systems" list
   * reads as empty), and every other top-level field, kept as an opaque map.
   */
  datatype Catalog = Catalog(
    version: Option<string>,
    lastUpdated: Option<string>,
    systems: seq<System>,
    others: map<string, string>)

  /** A grade dictionary of the table interpreter as a JSON row. */
  function RowOf(g: Grade): Row {
    Row(Some(g.name), Some(g.points), g.percentage)
  }

  function RowsOf(grades: seq<Grade>): (rows: seq<Row>)
    ensures |rows| == |grades|
    ensures forall k :: 0 <= k < |grades| ==> rows[k] == RowOf(grades[k])
  {
    seq(|grades|, k requires 0 <= k < |grades| => RowOf(grades[k]))
  }
}
