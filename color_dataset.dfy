/** The colour reference table and the column-presence check that the loader
    applies before accepting it (app.py, `load_color_dataset`). */
module ColorDataset {
  import opened Wrappers

  /** An (r, g, b) triplet, as sampled from an image pixel. */
  datatype Rgb = Rgb(r: int, g: int, b: int)

  /** One row of the colour table: a name and its three channel values. */
  datatype ColorRow = ColorRow(name: string, red: int, green: int, blue: int)
  {
    function Color(): Rgb {
      Rgb(red, green, blue)
    }
  }

  /** The table as read from the CSV file: its header and its rows, in file order.
      The row position is the table's default integer index. */
  datatype Frame = Frame(columns: seq<string>, rows: seq<ColorRow>)

  /** The columns the loader insists on, in the order it checks them. */
  const RequiredColumns: seq<string> := ["name", "red", "green", "blue"]

  /** 8-bit channel range of an image pixel. */
  predicate InRange(c: Rgb) {
    0 <= c.r <= 255 && 0 <= c.g <= 255 && 0 <= c.b <= 255
  }

  /** `all(col in columns for col in wanted)`: evaluated left to right and
      stopping at the first missing column. */
  function AllPresent(wanted: seq<string>, columns: seq<string>): (r: bool)
    ensures r <==> forall c :: c in wanted ==> c in columns
  {
    if wanted == [] then true
    else
      assert forall c :: c in wanted <==> c == wanted[0] || c in wanted[1..];
      wanted[0] in columns && AllPresent(wanted[1..], columns)
  }

  /** The schema gate of the loader: the frame is returned unchanged when all
      four required columns are in its header, and `None` otherwise. */
  function LoadColorDataset(df: Frame): (r: Option<Frame>)
    ensures r.Some? <==>
      "name" in df.columns && "red" in df.columns &&
      "green" in df.columns && "blue" in df.columns
    ensures r.Some? ==> r.value == df
  {
    if AllPresent(RequiredColumns, df.columns) then Some(df) else None
  }

  /** The gate looks only at which names occur in the header: reordering the
      header or adding other columns never changes the verdict. */
  lemma SchemaDependsOnlyOnColumnSet(df1: Frame, df2: Frame)
    requires forall c :: c in df1.columns ==> c in df2.columns
    ensures LoadColorDataset(df1).Some? ==> LoadColorDataset(df2).Some?
  {
    if LoadColorDataset(df1).Some? {
      forall c | c in RequiredColumns ensures c in df2.columns {
        assert c in df1.columns;
      }
      assert AllPresent(RequiredColumns, df2.columns);
    }
  }
}
