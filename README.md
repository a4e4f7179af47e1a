# Nearest named colour lookup

A Dafny model of the colour-naming core of a small Streamlit application
(`app.py`). The application loads a table of named reference colours
(`name, red, green, blue`), samples one pixel of an uploaded image and reports
the name of the reference colour nearest to it in the RGB cube.

The model has three modules:

- `Wrappers`: the `Option` and `Result` datatypes.
- `ColorDataset`: colour rows, the loaded table (`Frame`), and the loader's
  schema gate. The gate accepts a table only when its header contains all of
  `name`, `red`, `green` and `blue`; otherwise the loader returns `None`.
- `ColorMatch`: `find_closest_color`. The source takes `np.sqrt` of the squared
  Euclidean distance to every row. It then calls pandas `idxmin`, which returns
  the first position holding the minimum. The table comes from `read_csv`, so
  its index is the default integer index and a label is a row position.

Distances are exact squared integer distances. `np.sqrt` is kept abstract as any
function `root` that is strictly increasing on the squared distances that can
occur between 8-bit colours (0 to 3·255² = 195075). Double-precision `sqrt` has
this property on that range: it is correctly rounded, and distinct integers that
small stay distinct after rounding. `NearestAgreesWithRootDistance` proves that
ranking by such a `root` picks the same row as ranking by squared distance.

The lookup is a function of the palette and the query. It is therefore
deterministic, and it cannot modify the palette.

`ScanNearest` is a linear scan with a loop. It is proved to return the same
index as the functional `idxmin` model.

## Model

| member | source | states |
|---|---|---|
| `ColorDataset.AllPresent` | app.py:13 | the short-circuiting `all(col in columns …)` is true exactly when every wanted column occurs in the header |
| `ColorDataset.LoadColorDataset` | app.py:13-16 | the table is accepted iff `name`, `red`, `green` and `blue` all occur among its columns; an accepted table is returned unchanged, a rejected one gives `None` |
| `ColorDataset.SchemaDependsOnlyOnColumnSet` | app.py:13 | the gate depends only on which names occur in the header: reordering it or adding columns never turns acceptance into rejection |
| `ColorMatch.SqDist` | app.py:27-31 | the squared RGB distance is a natural number and is zero exactly when the two colours are equal; `Distances` is the per-row series of `SqDist`, in row order |
| `ColorMatch.IdxMin` | app.py:32 | `idxmin` on a non-empty series returns a valid position holding a value no larger than any other, and every earlier position holds a strictly larger value |
| `ColorMatch.NearestIndex` | app.py:27-32 | the chosen row is in the palette, no row is closer to the query, and every row before it is strictly farther |
| `ColorMatch.FirstNearestIsUnique` | app.py:32 | at most one row is both nearest and strictly nearer than all earlier rows, so the tie-break fixes the answer |
| `ColorMatch.FindClosestColor` | app.py:25-33 | an empty palette gives the `idxmin` error; otherwise the result is the name of the row that is first-nearest to the query |
| `ColorMatch.ScanNearest` | app.py:27-32 | a linear scan that keeps the first strictly smaller distance returns exactly the `idxmin` row |
| `ColorMatch.SelfMatch` | app.py:27-32 | a query equal to some row's RGB is matched at distance 0, to a row with exactly that RGB, and to the first such row |
| `ColorMatch.TieGoesToFirst` | app.py:32 | of two rows equally far from the query, the later one is never chosen |
| `ColorMatch.SqDistBound` | app.py:28-30 | between 8-bit colours the squared distance is at most 3·255² |
| `ColorMatch.NearestAgreesWithRootDistance` | app.py:27-32 | for any root strictly increasing on [0, 3·255²], the row chosen on squared distance is the first minimum of the rooted distances, and no other row is |
| `ColorMatch.BlackMatchesBlack` | app.py:25-33 | (0,0,0) is named "black" in the palette black, white |
| `ColorMatch.LightGreyMatchesWhite` | app.py:25-33 | (200,200,200) is named "white" in the palette black, white |

## Left out

- CSV reading and its exception handling (app.py:12, 17-22) are file I/O and are not modelled. `LoadColorDataset` starts from the table that `read_csv` would produce. As written, line 12 passes the keyword `file_path=` to `pd.read_csv`. `read_csv` has no parameter of that name and accepts no extra keywords, so the call raises `TypeError`. The `except Exception` branch (app.py:20-22) then returns `None`, and `main()` returns at app.py:43 before any lookup is made. The function's own `file_path` argument is ignored as well.
- Frame: rows are typed `(name, red, green, blue)` records whatever the header says. The model does not tie the row fields to the column list, and it does not model non-integer or missing cells.
- The `@st.cache_data` memoisation of the loader (app.py:9) is framework caching and is not modelled.
- `main()` and the Streamlit UI (app.py:36-89) are not modelled. This covers image decoding through PIL, the BGR/RGB conversion by `cv2.cvtColor` and all display calls. It also covers the `st.error` message shown when the schema check rejects a table (app.py:14); `LoadColorDataset` models only the `None` it returns.
- `np.sqrt` is not modelled as floating point. It appears only as an abstract strictly increasing `root` in `NearestAgreesWithRootDistance`, and the distance value itself is never reported.
- NaN values and non-default table indices for `idxmin` are not modelled. Columns are integers and the index is the row position.
- Channel ranges are not checked by the source. `InRange` appears only as a precondition of `SqDistBound` and `NearestAgreesWithRootDistance`. The model uses unbounded integers and exact squared distances. So `NearestIndex` and `FindClosestColor` are shown to pick the source's row only for palettes whose channels are in [0, 255], through `NearestAgreesWithRootDistance`. In that range the int64 differences and squares cannot overflow, and float64 `sqrt` keeps distinct squared distances distinct.
- FindClosestColor: does not model int64 wrap-around or float64 tie merging for palettes with large channel values. The source takes any int64 table value. A channel difference above 3037000499 makes the int64 square in app.py:28-30 wrap, and `np.sqrt` of a negative wrapped sum gives NaN, which `idxmin` skips. Sums of squares above about 2^51 can be rounded by float64 `sqrt` to equal distances, which turns distinct distances into ties. On such palettes the model's exact argmin can name a different row than the source.
