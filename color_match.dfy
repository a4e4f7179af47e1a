/** Nearest named colour lookup (app.py, `find_closest_color`).

    The source computes `sqrt` of the squared RGB distance to every row and
    takes pandas `idxmin`, the first position holding the minimum. This model
    ranks rows by the exact squared distance; `NearestAgreesWithRootDistance`
    shows that any strictly increasing root applied on top picks the same row. */
module ColorMatch {
  import opened Wrappers
  import opened ColorDataset

  /** Largest squared distance between two in-range colours: 3 * 255^2. */
  const MaxSqDist: nat := 195075

  /** The error pandas raises when `idxmin` is asked about an empty series. */
  datatype MatchError = EmptySeries

  function Square(x: int): (r: nat)
  {
    x * x
  }

  /** Squared Euclidean distance in the RGB cube. */
  function SqDist(q: Rgb, c: Rgb): (d: nat)
    ensures d == 0 <==> q == c
  {
    Square(c.r - q.r) + Square(c.g - q.g) + Square(c.b - q.b)
  }

  /** The `distances` series: one entry per palette row, in row order. */
  function Distances(palette: seq<ColorRow>, q: Rgb): seq<nat>
  {
    seq(|palette|, i requires 0 <= i < |palette| => SqDist(q, palette[i].Color()))
  }

  /** pandas `Series.idxmin` on a series with the default integer index:
      the first position holding the smallest value. */
  function IdxMin(ds: seq<int>): (k: nat)
    requires |ds| > 0
    ensures k < |ds|
    ensures forall j :: 0 <= j < |ds| ==> ds[k] <= ds[j]
    ensures forall j :: 0 <= j < k ==> ds[k] < ds[j]
    decreases |ds|
  {
    if |ds| == 1 then 0
    else
      var k := IdxMin(ds[..|ds| - 1]);
      if ds[|ds| - 1] < ds[k] then |ds| - 1 else k
  }

  /** Row `k` is as close to `q` as any row, and strictly closer than every
      row before it. */
  ghost predicate IsFirstNearest(palette: seq<ColorRow>, q: Rgb, k: nat)
  {
    k < |palette|
    && (forall j :: 0 <= j < |palette| ==>
          SqDist(q, palette[k].Color()) <= SqDist(q, palette[j].Color()))
    && (forall j :: 0 <= j < k ==>
          SqDist(q, palette[k].Color()) < SqDist(q, palette[j].Color()))
  }

  /** The index `idxmin` picks from the distance series of a non-empty palette. */
  function NearestIndex(palette: seq<ColorRow>, q: Rgb): (k: nat)
    requires |palette| > 0
    ensures IsFirstNearest(palette, q, k)
  {
    var ds := Distances(palette, q);
    assert forall i :: 0 <= i < |ds| ==> ds[i] == SqDist(q, palette[i].Color());
    IdxMin(ds)
  }

  /** At most one row is the first nearest one: `NearestIndex` is the only
      answer the tie-break rule allows. */
  lemma FirstNearestIsUnique(palette: seq<ColorRow>, q: Rgb, k1: nat, k2: nat)
    requires IsFirstNearest(palette, q, k1) && IsFirstNearest(palette, q, k2)
    ensures k1 == k2
  {
    var d1, d2 := SqDist(q, palette[k1].Color()), SqDist(q, palette[k2].Color());
    assert d1 <= d2 && d2 <= d1;
  }

  /** `find_closest_color`: the name of the first nearest row, or the error
      `idxmin` raises when the palette has no rows. */
  function FindClosestColor(q: Rgb, palette: seq<ColorRow>): (r: Result<string, MatchError>)
    ensures r.Failure? <==> |palette| == 0
    ensures r.Success? ==>
      exists k: nat :: IsFirstNearest(palette, q, k) && r.value == palette[k].name
  {
    if |palette| == 0 then Failure(EmptySeries)
    else
      var k := NearestIndex(palette, q);
      Success(palette[k].name)
  }

  /** A linear scan that keeps the first strictly smaller distance; it picks
      the same row as `idxmin`. */
  method ScanNearest(palette: seq<ColorRow>, q: Rgb) returns (k: nat)
    requires |palette| > 0
    ensures k == NearestIndex(palette, q)
  {
    ghost var ds := Distances(palette, q);
    k := 0;
    var best := SqDist(q, palette[0].Color());
    var i := 1;
    while i < |palette|
      invariant 1 <= i <= |palette|
      invariant k == IdxMin(ds[..i])
      invariant best == ds[k]
    {
      var d := SqDist(q, palette[i].Color());
      assert ds[..i + 1][..i] == ds[..i];
      if d < best {
        k, best := i, d;
      }
      i := i + 1;
    }
    assert ds[..|palette|] == ds;
  }

  /** Querying with the colour of a palette row finds distance 0: the chosen
      row has exactly the query's RGB and is the first row that does. */
  lemma SelfMatch(palette: seq<ColorRow>, q: Rgb, i: nat)
    requires i < |palette| && palette[i].Color() == q
    ensures var k := NearestIndex(palette, q);
      SqDist(q, palette[k].Color()) == 0 && palette[k].Color() == q && k <= i
      && forall j :: 0 <= j < k ==> palette[j].Color() != q
  {
    var k := NearestIndex(palette, q);
    assert SqDist(q, palette[i].Color()) == 0;
    assert SqDist(q, palette[k].Color()) <= 0;
    forall j | 0 <= j < k ensures palette[j].Color() != q {
      assert SqDist(q, palette[j].Color()) > 0;
    }
  }

  /** Two rows at the same distance from the query never leave the later one
      chosen: first-seen wins. */
  lemma TieGoesToFirst(palette: seq<ColorRow>, q: Rgb, i: nat, j: nat)
    requires i < j < |palette|
    requires SqDist(q, palette[i].Color()) == SqDist(q, palette[j].Color())
    ensures NearestIndex(palette, q) != j
  {
  }

  lemma {:induction false} MulMonotone(a: nat, b: int, c: int)
    requires b <= c
    ensures a * b <= a * c
  {
    if a > 0 {
      MulMonotone(a - 1, b, c);
      assert a * b == (a - 1) * b + b;
      assert a * c == (a - 1) * c + c;
    }
  }

  lemma SquareBound(x: int)
    requires -255 <= x <= 255
    ensures Square(x) <= 65025
  {
    var a: nat := if x < 0 then -x else x;
    assert Square(x) == a * a;
    MulMonotone(a, a, 255);
    MulMonotone(255, a, 255);
  }

  /** Between in-range colours the squared distance never exceeds 3 * 255^2. */
  lemma SqDistBound(q: Rgb, c: Rgb)
    requires InRange(q) && InRange(c)
    ensures SqDist(q, c) <= MaxSqDist
  {
    SquareBound(c.r - q.r);
    SquareBound(c.g - q.g);
    SquareBound(c.b - q.b);
  }

  /** Row `m` is the first minimum of the series `root(squared distance)`. */
  ghost predicate IsFirstMinUnder(palette: seq<ColorRow>, q: Rgb, root: int -> real, m: nat)
  {
    m < |palette|
    && (forall j :: 0 <= j < |palette| ==>
          root(SqDist(q, palette[m].Color())) <= root(SqDist(q, palette[j].Color())))
    && (forall j :: 0 <= j < m ==>
          root(SqDist(q, palette[m].Color())) < root(SqDist(q, palette[j].Color())))
  }

  /** The source ranks rows by `root(squared distance)` with `root` = `np.sqrt`.
      For any `root` that is strictly increasing on the squared distances that
      can occur between in-range colours, the row chosen on squared distances is
      the first minimum of the rooted series, and no other row is. */
  lemma NearestAgreesWithRootDistance(palette: seq<ColorRow>, q: Rgb, root: int -> real)
    requires |palette| > 0
    requires InRange(q)
    requires forall i :: 0 <= i < |palette| ==> InRange(palette[i].Color())
    requires forall x, y :: 0 <= x < y <= MaxSqDist ==> root(x) < root(y)
    ensures IsFirstMinUnder(palette, q, root, NearestIndex(palette, q))
    ensures forall m :: IsFirstMinUnder(palette, q, root, m) ==> m == NearestIndex(palette, q)
  {
    var k := NearestIndex(palette, q);
    var dk := SqDist(q, palette[k].Color());
    SqDistBound(q, palette[k].Color());
    forall j | 0 <= j < |palette|
      ensures root(dk) <= root(SqDist(q, palette[j].Color()))
      ensures dk < SqDist(q, palette[j].Color()) ==> root(dk) < root(SqDist(q, palette[j].Color()))
    {
      SqDistBound(q, palette[j].Color());
    }
  }

  /** The two-row palette black, white. */
  function BlackWhite(): seq<ColorRow>
  {
    [ColorRow("black", 0, 0, 0), ColorRow("white", 255, 255, 255)]
  }

  /** Pure black is named "black" in a black-then-white palette. */
  lemma BlackMatchesBlack()
    ensures FindClosestColor(Rgb(0, 0, 0), BlackWhite()) == Success("black")
  {
    var p, q := BlackWhite(), Rgb(0, 0, 0);
    assert SqDist(q, p[0].Color()) == 0;
    assert IsFirstNearest(p, q, 0);
    FirstNearestIsUnique(p, q, NearestIndex(p, q), 0);
  }

  /** Light grey (200,200,200) is nearer white than black. */
  lemma LightGreyMatchesWhite()
    ensures FindClosestColor(Rgb(200, 200, 200), BlackWhite()) == Success("white")
  {
    var p, q := BlackWhite(), Rgb(200, 200, 200);
    assert SqDist(q, p[0].Color()) == 120000;
    assert SqDist(q, p[1].Color()) == 9075;
  }
}
