/**
 * `process_raster_data`: crop every raster to a country, lay a square grid over the
 * country, intersect the grid with the country's shape, add one column of zonal means per
 * raster and one column of point means per CSV value column to the table of bins, and write
 * the table and one map per column. Map projections, polygon overlay, zonal statistics and
 * the point-in-polygon test are parameters of the model (`Geometry`); the bookkeeping
 * around them is modelled exactly.
 */
module Binner {
  import opened Wrappers
  import opened Text
  import opened Paths
  import opened Stats
  import opened Grouping
  import opened BinGrid

  // ---------------------------------------------------------------------------
  // Inputs and the geometry the libraries compute
  // ---------------------------------------------------------------------------

  /** A country shape or a bin: the pieces of a multipolygon. */
  datatype Region = Region(parts: seq<Polygon>)

  /** A row of the world-countries shapefile. */
  datatype CountryRow = CountryRow(name: string, shape: Region)

  /** A raster file: its path, its declared nodata value (None when unset) and band 1, row by row. */
  datatype RasterFile = RasterFile(path: string, nodata: Option<real>, band: seq<real>)

  /** A CSV row: its coordinates and its other cells (None for an empty cell). */
  datatype CsvRow = CsvRow(longitude: real, latitude: real, values: map<string, Option<real>>)

  datatype Csv = Csv(header: seq<string>, rows: seq<CsvRow>)

  /** What geopandas, rasterio and rasterstats compute, taken as given functions. */
  datatype Geometry = Geometry(
    boundsInMercator: seq<Region> -> Bounds,                // to_crs(epsg=3857).total_bounds
    overlay: (seq<Region>, seq<Polygon>) -> seq<Region>,    // gpd.overlay(.., how='intersection')
    reproject: RasterFile -> seq<real>,                     // band 1 of the file, reprojected to EPSG:3857
    zonalMean: (Region, seq<real>) -> Option<real>,         // rasterstats mean over one region
    toMercator: (real, real) -> Point,                      // a longitude/latitude point in EPSG:3857
    intersects: (Point, Region) -> bool)                    // the predicate of sjoin

  // ---------------------------------------------------------------------------
  // Nodata sentinel and mask
  // ---------------------------------------------------------------------------

  /**
   * `src.nodata if src.nodata else -32768`: a declared nodata value is used unless it is
   * unset or zero (both falsy), and then -32768 is. So the sentinel is never zero.
   */
  function Sentinel(nodata: Option<real>): (r: real)
    ensures r != 0.0
    ensures nodata.Some? && nodata.value != 0.0 ==> r == nodata.value
    ensures nodata.None? || nodata.value == 0.0 ==> r == -32768.0
  {
    if nodata.Some? && nodata.value != 0.0 then nodata.value else -32768.0
  }

  /** `np.where(band == sentinel, nan, band)`: exactly the pixels equal to the sentinel go missing. */
  function MaskNodata(band: seq<real>, sentinel: real): (r: seq<Option<real>>)
    ensures |r| == |band|
    ensures forall i :: 0 <= i < |band| ==> (r[i].None? <==> band[i] == sentinel)
    ensures forall i :: 0 <= i < |band| && band[i] != sentinel ==> r[i] == Some(band[i])
  {
    seq(|band|, i requires 0 <= i < |band| => if band[i] == sentinel then None else Some(band[i]))
  }

  // ---------------------------------------------------------------------------
  // The table of bins
  // ---------------------------------------------------------------------------

  /** A column of the table: one of the country's attribute columns, or one value per bin. */
  datatype Column = Attribute | Values(cells: seq<Option<real>>)

  /** The country's attribute columns, as the overlay copies them. */
  function AttributeColumns(attributes: seq<string>): (cols: map<string, Column>)
    ensures forall c :: c in cols <==> c in attributes
  {
    map c | c in attributes :: Attribute
  }

  /** Assigning `df[name] = ...`: a new name goes last, an existing one keeps its place. */
  function WithName(order: seq<string>, name: string): (r: seq<string>)
    ensures Distinct(order) ==> Distinct(r)
    ensures forall c :: c in r <==> c in order || c == name
  {
    if name in order then order else order + [name]
  }

  /** The column order after assigning `names` one after the other. */
  function WithNames(order: seq<string>, names: seq<string>): (r: seq<string>)
    ensures Distinct(order) ==> Distinct(r)
    ensures forall c :: c in r <==> c in order || c in names
    decreases names
  {
    if names == [] then order else WithNames(WithName(order, names[0]), names[1..])
  }

  /** The table `gpd.overlay` returns, then grows column by column. */
  class BinTable {
    var bins: seq<Region>
    var columns: map<string, Column>
    var order: seq<string>

    ghost predicate Valid()
      reads this
    {
      Distinct(order)
      && (forall c :: c in columns <==> c in order)
      && (forall c :: c in columns && columns[c].Values? ==> |columns[c].cells| == |bins|)
    }

    /** The overlay's result: the bins and the country's attribute columns. */
    constructor (bins: seq<Region>, attributes: seq<string>)
      ensures Valid()
      ensures this.bins == bins
      ensures order == WithNames([], attributes)
      ensures columns == AttributeColumns(attributes)
    {
      this.bins := bins;
      columns := AttributeColumns(attributes);
      order := WithNames([], attributes);
    }

    /** `intersection[name] = column`. */
    method SetColumn(name: string, column: Column)
      requires Valid()
      requires column.Values? ==> |column.cells| == |bins|
      modifies this
      ensures Valid()
      ensures bins == old(bins)
      ensures columns == old(columns)[name := column]
      ensures order == WithName(old(order), name)
    {
      columns := columns[name := column];
      order := WithName(order, name);
    }

    /** The raster loop: one zonal-mean column per raster, named after the file. */
    method AddRasterColumns(rasters: seq<RasterFile>, geo: Geometry)
      requires Valid()
      modifies this
      ensures Valid()
      ensures bins == old(bins)
      ensures columns == Assign(old(columns), RasterNames(rasters), RasterValues(rasters, bins, geo))
      ensures order == WithNames(old(order), RasterNames(rasters))
    {
      var names, values := RasterNames(rasters), RasterValues(rasters, bins, geo);
      var i := 0;
      while i < |rasters|
        invariant 0 <= i <= |rasters|
        invariant Valid()
        invariant bins == old(bins)
        invariant Assign(columns, names[i..], values[i..]) == Assign(old(columns), names, values)
        invariant WithNames(order, names[i..]) == WithNames(old(order), names)
      {
        var r := rasters[i];
        // The masked band is computed but not used: the zonal statistics read the
        // reprojected band straight from the file.
        var masked := MaskNodata(r.band, Sentinel(r.nodata));
        AssignStep(columns, names, values, i);
        assert names[i..][1..] == names[i + 1..];
        SetColumn(ColumnName(r.path), Values(ZonalColumn(bins, r, geo)));
        i := i + 1;
      }
    }

    /**
     * The CSV loop: for each value column `names` lists, the mean of the joined points per
     * bin. The join is taken before the loop, and it renames a value column that the table
     * already has at that point, so looking that column up fails; `ok` is false exactly then.
     */
    method AddPointColumns(names: seq<string>, rows: seq<CsvRow>, geo: Geometry) returns (ok: bool)
      requires Valid()
      modifies this
      ensures Valid()
      ensures bins == old(bins)
      ensures ok <==> forall c :: c in names ==> c !in old(columns)
      ensures ok ==> columns == Assign(old(columns), names, PointValues(names, rows, bins, geo))
      ensures ok ==> order == WithNames(old(order), names)
    {
      var values := PointValues(names, rows, bins, geo);
      // The columns of the join: the table's columns at the time of the join.
      var joinedColumns := columns.Keys;
      var i := 0;
      while i < |names|
        invariant 0 <= i <= |names|
        invariant Valid()
        invariant bins == old(bins)
        invariant forall j :: 0 <= j < i ==> names[j] !in joinedColumns
        invariant Assign(columns, names[i..], values[i..]) == Assign(old(columns), names, values)
        invariant WithNames(order, names[i..]) == WithNames(old(order), names)
      {
        var c := names[i];
        if c in joinedColumns {
          return false;
        }
        var column := Values(PointColumn(rows, c, bins, geo));
        assert values[i] == column;
        AssignStep(columns, names, values, i);
        assert names[i..][1..] == names[i + 1..];
        SetColumn(c, column);
        i := i + 1;
      }
      ok := true;
    }
  }

  // ---------------------------------------------------------------------------
  // Assigning columns one after the other
  // ---------------------------------------------------------------------------

  /** The columns after `df[names[k]] = values[k]` for k = 0, 1, ... in turn. */
  function Assign(cols: map<string, Column>, names: seq<string>, values: seq<Column>): map<string, Column>
    requires |names| == |values|
    decreases names
  {
    if names == [] then cols else Assign(cols[names[0] := values[0]], names[1..], values[1..])
  }

  lemma AssignStep(cols: map<string, Column>, names: seq<string>, values: seq<Column>, i: int)
    requires |names| == |values| && 0 <= i < |names|
    ensures Assign(cols, names[i..], values[i..]) == Assign(cols[names[i] := values[i]], names[i + 1..], values[i + 1..])
  {
    assert names[i..][1..] == names[i + 1..] && values[i..][1..] == values[i + 1..];
  }

  lemma {:induction false} AssignAppend(cols: map<string, Column>, n1: seq<string>, v1: seq<Column>, n2: seq<string>, v2: seq<Column>)
    requires |n1| == |v1| && |n2| == |v2|
    ensures Assign(cols, n1 + n2, v1 + v2) == Assign(Assign(cols, n1, v1), n2, v2)
    decreases n1
  {
    if n1 != [] {
      assert (n1 + n2)[1..] == n1[1..] + n2 && (v1 + v2)[1..] == v1[1..] + v2;
      AssignAppend(cols[n1[0] := v1[0]], n1[1..], v1[1..], n2, v2);
    } else {
      assert n1 + n2 == n2 && v1 + v2 == v2;
    }
  }

  /** Assigning adds a column for every name and changes no column that is not named. */
  lemma {:induction false} AssignKeeps(cols: map<string, Column>, names: seq<string>, values: seq<Column>, c: string)
    requires |names| == |values|
    ensures c in Assign(cols, names, values) <==> c in cols || c in names
    ensures c !in names && c in cols ==> Assign(cols, names, values)[c] == cols[c]
    decreases names
  {
    if names != [] {
      AssignKeeps(cols[names[0] := values[0]], names[1..], values[1..], c);
      assert forall d :: d in names <==> d == names[0] || d in names[1..];
    }
  }

  /** When a name is assigned several times, the last assignment wins. */
  lemma LastAssignmentWins(cols: map<string, Column>, names: seq<string>, values: seq<Column>, i: int)
    requires |names| == |values| && 0 <= i < |names|
    requires forall j :: i < j < |names| ==> names[j] != names[i]
    ensures names[i] in Assign(cols, names, values) && Assign(cols, names, values)[names[i]] == values[i]
  {
    assert names == names[..i] + names[i..] && values == values[..i] + values[i..];
    AssignAppend(cols, names[..i], values[..i], names[i..], values[i..]);
    var mid := Assign(cols, names[..i], values[..i]);
    AssignStep(mid, names, values, i);
    assert names[i] !in names[i + 1..];
    AssignKeeps(mid[names[i] := values[i]], names[i + 1..], values[i + 1..], names[i]);
  }

  // ---------------------------------------------------------------------------
  // Raster columns
  // ---------------------------------------------------------------------------

  /** The zonal mean of the reprojected band over each bin. */
  function ZonalColumn(bins: seq<Region>, r: RasterFile, geo: Geometry): (col: seq<Option<real>>)
    ensures |col| == |bins|
  {
    var band := geo.reproject(r);
    seq(|bins|, i requires 0 <= i < |bins| => geo.zonalMean(bins[i], band))
  }

  /**
   * Each bin's zonal mean depends on that bin alone: the column of two bin lists placed
   * one after the other is the two columns placed one after the other.
   */
  lemma ZonalColumnAppend(a: seq<Region>, b: seq<Region>, r: RasterFile, geo: Geometry)
    ensures ZonalColumn(a + b, r, geo) == ZonalColumn(a, r, geo) + ZonalColumn(b, r, geo)
  {
    var col, left, right := ZonalColumn(a + b, r, geo), ZonalColumn(a, r, geo), ZonalColumn(b, r, geo);
    forall i | 0 <= i < |col| ensures col[i] == (left + right)[i] {
      if i >= |a| {
        assert (a + b)[i] == b[i - |a|];
      }
    }
  }

  /** The column names of the rasters, in order. */
  function RasterNames(rasters: seq<RasterFile>): (names: seq<string>)
    ensures |names| == |rasters|
    ensures forall i :: 0 <= i < |rasters| ==> names[i] == ColumnName(rasters[i].path)
  {
    seq(|rasters|, i requires 0 <= i < |rasters| => ColumnName(rasters[i].path))
  }

  /** The columns of the rasters, in order. */
  function RasterValues(rasters: seq<RasterFile>, bins: seq<Region>, geo: Geometry): (values: seq<Column>)
    ensures |values| == |rasters|
  {
    seq(|rasters|, i requires 0 <= i < |rasters| => Values(ZonalColumn(bins, rasters[i], geo)))
  }

  // ---------------------------------------------------------------------------
  // Point columns
  // ---------------------------------------------------------------------------

  /** `df.columns.difference(['longitude', 'latitude'])`: the other names, sorted, once each. */
  function ValueColumns(header: seq<string>): (names: seq<string>)
    ensures StrictlySorted(names)
    ensures forall c :: c in names <==> c in header && c != "longitude" && c != "latitude"
  {
    SortedUnique(Without(header, "longitude", "latitude"))
  }

  function Without(s: seq<string>, a: string, b: string): (r: seq<string>)
    ensures forall c :: c in r <==> c in s && c != a && c != b
  {
    if s == [] then []
    else (if s[0] == a || s[0] == b then [] else [s[0]]) + Without(s[1..], a, b)
  }

  /** The value of a row's cell (missing when the row has none). */
  function ValueOf(row: CsvRow, c: string): Option<real> {
    if c in row.values then row.values[c] else None
  }

  predicate Hits(row: CsvRow, bin: Region, geo: Geometry) {
    geo.intersects(geo.toMercator(row.longitude, row.latitude), bin)
  }

  /** The values of column `c` of the rows the inner join pairs with `bin`, in row order. */
  function Joined(rows: seq<CsvRow>, c: string, bin: Region, geo: Geometry): (vs: seq<Option<real>>)
    ensures |vs| <= |rows|
  {
    if rows == [] then []
    else (if Hits(rows[0], bin, geo) then [ValueOf(rows[0], c)] else []) + Joined(rows[1..], c, bin, geo)
  }

  /** `joined.groupby('index_right')[c].mean()` aligned on the bins. */
  function PointColumn(rows: seq<CsvRow>, c: string, bins: seq<Region>, geo: Geometry): (col: seq<Option<real>>)
    ensures |col| == |bins|
  {
    seq(|bins|, b requires 0 <= b < |bins| => MeanOfPresent(Joined(rows, c, bins[b], geo)))
  }

  /**
   * Each bin's mean depends on that bin alone: the column of two bin lists placed one
   * after the other is the two columns placed one after the other.
   */
  lemma PointColumnAppend(rows: seq<CsvRow>, c: string, a: seq<Region>, b: seq<Region>, geo: Geometry)
    ensures PointColumn(rows, c, a + b, geo) == PointColumn(rows, c, a, geo) + PointColumn(rows, c, b, geo)
  {
    var col, left, right := PointColumn(rows, c, a + b, geo), PointColumn(rows, c, a, geo), PointColumn(rows, c, b, geo);
    forall i | 0 <= i < |col| ensures col[i] == (left + right)[i] {
      PointColumnAt(rows, c, a + b, geo, i);
      if i < |a| {
        PointColumnAt(rows, c, a, geo, i);
        assert (a + b)[i] == a[i];
      } else {
        PointColumnAt(rows, c, b, geo, i - |a|);
        assert (a + b)[i] == b[i - |a|];
      }
    }
  }

  /** Bin `i`'s entry of the point column. */
  lemma PointColumnAt(rows: seq<CsvRow>, c: string, bins: seq<Region>, geo: Geometry, i: int)
    requires 0 <= i < |bins|
    ensures PointColumn(rows, c, bins, geo)[i] == MeanOfPresent(Joined(rows, c, bins[i], geo))
  {
  }

  /** The point columns of the value names, in order. */
  function PointValues(names: seq<string>, rows: seq<CsvRow>, bins: seq<Region>, geo: Geometry): (values: seq<Column>)
    ensures |values| == |names|
  {
    seq(|names|, i requires 0 <= i < |names| => Values(PointColumn(rows, names[i], bins, geo)))
  }

  /** The CSV loop gives every value name its column of point means and changes no other column. */
  lemma PointColumnsAre(cols: map<string, Column>, header: seq<string>, rows: seq<CsvRow>, bins: seq<Region>, geo: Geometry, c: string)
    ensures var names := ValueColumns(header);
      var after := Assign(cols, names, PointValues(names, rows, bins, geo));
      (c in after <==> c in cols || c in names)
      && (c in names ==> after[c] == Values(PointColumn(rows, c, bins, geo)))
      && (c !in names && c in cols ==> after[c] == cols[c])
  {
    var names := ValueColumns(header);
    AssignKeeps(cols, names, PointValues(names, rows, bins, geo), c);
    if c in names {
      var i :| 0 <= i < |names| && names[i] == c;
      SortedNamesDiffer(names, i);
      LastAssignmentWins(cols, names, PointValues(names, rows, bins, geo), i);
    }
  }

  lemma SortedNamesDiffer(names: seq<string>, i: int)
    requires StrictlySorted(names) && 0 <= i < |names|
    ensures forall j :: i < j < |names| ==> names[j] != names[i]
  {
    forall j | i < j < |names| && names[j] == names[i] ensures false {
      BelowIrreflexive(names[i]);
    }
  }

  /** A point contributes its value to every bin it meets, and only to those. */
  lemma {:induction false} JoinedMembers(rows: seq<CsvRow>, c: string, bin: Region, geo: Geometry)
    ensures forall i :: 0 <= i < |rows| && Hits(rows[i], bin, geo) ==> ValueOf(rows[i], c) in Joined(rows, c, bin, geo)
    ensures forall v :: v in Joined(rows, c, bin, geo) ==> exists i :: 0 <= i < |rows| && Hits(rows[i], bin, geo) && v == ValueOf(rows[i], c)
  {
    if rows != [] {
      JoinedMembers(rows[1..], c, bin, geo);
      forall i | 1 <= i < |rows| ensures rows[i] == rows[1..][i - 1] { }
      forall v | v in Joined(rows[1..], c, bin, geo)
        ensures exists i :: 0 <= i < |rows| && Hits(rows[i], bin, geo) && v == ValueOf(rows[i], c)
      {
        var k :| 0 <= k < |rows[1..]| && Hits(rows[1..][k], bin, geo) && v == ValueOf(rows[1..][k], c);
        assert rows[k + 1] == rows[1..][k];
      }
    }
  }

  /**
   * The join keeps one entry per point that meets the bin, in row order, with no
   * deduplication: adding a row appends its value exactly when it meets the bin.
   */
  lemma {:induction false} JoinedAppend(rows: seq<CsvRow>, r: CsvRow, c: string, bin: Region, geo: Geometry)
    ensures Joined(rows + [r], c, bin, geo) == Joined(rows, c, bin, geo) + (if Hits(r, bin, geo) then [ValueOf(r, c)] else [])
  {
    if rows == [] {
      assert Joined([r], c, bin, geo) == (if Hits(r, bin, geo) then [ValueOf(r, c)] else []) + Joined([], c, bin, geo);
    } else {
      assert (rows + [r])[1..] == rows[1..] + [r];
      JoinedAppend(rows[1..], r, c, bin, geo);
    }
  }

  /** A bin that no point meets gets a missing mean. */
  lemma EmptyBinIsMissing(rows: seq<CsvRow>, c: string, bins: seq<Region>, geo: Geometry, b: int)
    requires 0 <= b < |bins|
    requires forall i :: 0 <= i < |rows| ==> !Hits(rows[i], bins[b], geo)
    ensures PointColumn(rows, c, bins, geo)[b].None?
  {
    JoinedMembers(rows, c, bins[b], geo);
  }

  /** A point that meets no bin is dropped by the inner join: adding it changes no mean. */
  lemma {:induction false} UnjoinedPointIsDropped(rows: seq<CsvRow>, extra: CsvRow, c: string, bin: Region, geo: Geometry)
    requires !Hits(extra, bin, geo)
    ensures Joined(rows + [extra], c, bin, geo) == Joined(rows, c, bin, geo)
  {
    if rows == [] {
      assert Joined([extra], c, bin, geo) == [] + Joined([], c, bin, geo);
    } else {
      assert (rows + [extra])[1..] == rows[1..] + [extra];
      UnjoinedPointIsDropped(rows[1..], extra, c, bin, geo);
    }
  }

  /**
   * The join does not deduplicate: a point meeting two bins contributes to the mean of
   * each, so both means are present when its value is.
   */
  lemma PointCountsInEveryBin(rows: seq<CsvRow>, c: string, bins: seq<Region>, geo: Geometry, i: int, b1: int, b2: int)
    requires 0 <= i < |rows| && 0 <= b1 < |bins| && 0 <= b2 < |bins|
    requires Hits(rows[i], bins[b1], geo) && Hits(rows[i], bins[b2], geo)
    ensures ValueOf(rows[i], c) in Joined(rows, c, bins[b1], geo)
    ensures ValueOf(rows[i], c) in Joined(rows, c, bins[b2], geo)
    ensures ValueOf(rows[i], c).Some? ==> PointColumn(rows, c, bins, geo)[b1].Some? && PointColumn(rows, c, bins, geo)[b2].Some?
  {
    JoinedMembers(rows, c, bins[b1], geo);
    JoinedMembers(rows, c, bins[b2], geo);
    if ValueOf(rows[i], c).Some? {
      var v1 := Joined(rows, c, bins[b1], geo);
      var v2 := Joined(rows, c, bins[b2], geo);
      var k1 :| 0 <= k1 < |v1| && v1[k1] == ValueOf(rows[i], c);
      var k2 :| 0 <= k2 < |v2| && v2[k2] == ValueOf(rows[i], c);
    }
  }

  // ---------------------------------------------------------------------------
  // The whole run
  // ---------------------------------------------------------------------------

  /** The rows of the world shapefile whose name is exactly `country`. */
  function CountryShapes(world: seq<CountryRow>, country: string): (shapes: seq<Region>)
    ensures |shapes| <= |world|
    ensures shapes == [] <==> forall i :: 0 <= i < |world| ==> world[i].name != country
  {
    if world == [] then []
    else (if world[0].name == country then [world[0].shape] else []) + CountryShapes(world[1..], country)
  }

  /** Where each raster's crop is written: the output directory and the raster's file name. */
  function CropPaths(rasters: seq<RasterFile>, outputDir: string): (paths: seq<string>)
    ensures |paths| == |rasters|
    ensures forall i :: 0 <= i < |rasters| ==> EndsWith(paths[i], Basename(rasters[i].path))
    ensures forall i :: 0 <= i < |rasters| ==> StartsWith(paths[i], outputDir)
  {
    forall i | 0 <= i < |rasters| ensures !StartsWith(Basename(rasters[i].path), "/") {
      var b := Basename(rasters[i].path);
      if b != [] {
        assert b[0] in b;
      }
    }
    seq(|rasters|, i requires 0 <= i < |rasters| => Join(outputDir, Basename(rasters[i].path)))
  }

  /** The maps: one `<column>.png` per column of the table, in column order. */
  function PlotPaths(order: seq<string>, outputDir: string): (paths: seq<string>)
    ensures |paths| == |order|
    ensures forall i :: 0 <= i < |order| ==> EndsWith(paths[i], order[i] + ".png")
    ensures forall i :: 0 <= i < |order| && !StartsWith(order[i], "/") ==> StartsWith(paths[i], outputDir)
  {
    forall i | 0 <= i < |order| && !StartsWith(order[i], "/") ensures !StartsWith(order[i] + ".png", "/") {
      var p := order[i] + ".png";
      if order[i] != [] {
        assert order[i][..1] == [order[i][0]] && p[..1] == [order[i][0]];
      } else {
        assert p[..1] == ".";
      }
    }
    seq(|order|, i requires 0 <= i < |order| => Join(outputDir, order[i] + ".png"))
  }

  /** The table written to `intersection.shp`: bins, columns and column order (the driver's
   * truncation of field names to ten characters is not modelled). */
  datatype TableValue = TableValue(bins: seq<Region>, columns: map<string, Column>, order: seq<string>)

  /** Why a run stops. */
  datatype Error = UnknownCountry | BadBinSize | ColumnClash

  /** The columns after the raster loop, starting from the country's attribute columns. */
  function RasterStage(attributes: seq<string>, rasters: seq<RasterFile>, bins: seq<Region>, geo: Geometry): map<string, Column> {
    Assign(AttributeColumns(attributes), RasterNames(rasters), RasterValues(rasters, bins, geo))
  }

  /** The column order after the raster loop. */
  function RasterOrder(attributes: seq<string>, rasters: seq<RasterFile>): seq<string> {
    WithNames(WithNames([], attributes), RasterNames(rasters))
  }

  /**
   * The table part of the run: the overlay's bins with the attribute columns, then the raster
   * loop, then (with a CSV) the point loop, which fails when a value column clashes with a
   * column already in the table.
   */
  function TableOf(bins: seq<Region>, attributes: seq<string>, rasters: seq<RasterFile>, csv: Option<Csv>, geo: Geometry)
    : (r: Result<TableValue, Error>)
    ensures r.Failure? <==> csv.Some? && exists c :: c in ValueColumns(csv.value.header) && c in RasterStage(attributes, rasters, bins, geo)
    ensures r.Failure? ==> r.error == ColumnClash
    ensures r.Success? ==> r.value.bins == bins
  {
    var cols := RasterStage(attributes, rasters, bins, geo);
    var order := RasterOrder(attributes, rasters);
    match csv
    case None => Success(TableValue(bins, cols, order))
    case Some(data) =>
      var names := ValueColumns(data.header);
      if exists c :: c in names && c in cols then Failure(ColumnClash)
      else
        var values := PointValues(names, data.rows, bins, geo);
        Success(TableValue(bins, Assign(cols, names, values), WithNames(order, names)))
  }

  /** Builds the table in a `BinTable`, column by column, as the run does. */
  method BuildTable(bins: seq<Region>, attributes: seq<string>, rasters: seq<RasterFile>, csv: Option<Csv>, geo: Geometry)
    returns (r: Result<TableValue, Error>)
    ensures r == TableOf(bins, attributes, rasters, csv, geo)
  {
    var table := new BinTable(bins, attributes);
    table.AddRasterColumns(rasters, geo);
    if csv.Some? {
      var names := ValueColumns(csv.value.header);
      var ok := table.AddPointColumns(names, csv.value.rows, geo);
      if !ok {
        return Failure(ColumnClash);
      }
    }
    r := Success(TableValue(table.bins, table.columns, table.order));
  }

  /**
   * `process_raster_data`. An unknown country fails before anything is written; otherwise
   * every raster is cropped, the grid is built from the country's bounds and the bin size,
   * the table is built over the bins the grid and the country share, and the table and one
   * map per column are written.
   */
  method ProcessRasterData(world: seq<CountryRow>, attributes: seq<string>, country: string,
                           rasters: seq<RasterFile>, csv: Option<Csv>, outputDir: string,
                           binSizeKm: int, geo: Geometry)
    returns (written: seq<string>, result: Result<TableValue, Error>)
    ensures result == Failure(UnknownCountry) <==> CountryShapes(world, country) == []
    ensures result == Failure(UnknownCountry) ==> written == []
    ensures result == Failure(BadBinSize) <==> CountryShapes(world, country) != [] && binSizeKm == 0
    ensures result.Failure? && result.error != UnknownCountry ==> written == CropPaths(rasters, outputDir)
    ensures result.Success? || result == Failure(ColumnClash) ==>
      var shapes := CountryShapes(world, country);
      var g := MakeGrid(geo.boundsInMercator(shapes), binSizeKm);
      shapes != [] && g.Success?
      && TableOf(geo.overlay(shapes, GridCells(g.value)), attributes, rasters, csv, geo) == result
    ensures result.Success? ==>
      written == CropPaths(rasters, outputDir) + [Join(outputDir, "intersection.shp")] + PlotPaths(result.value.order, outputDir)
  {
    var shapes := CountryShapes(world, country);
    if shapes == [] {
      return [], Failure(UnknownCountry);
    }
    written := CropPaths(rasters, outputDir);
    var grid := MakeGrid(geo.boundsInMercator(shapes), binSizeKm);
    if grid.Failure? {
      return written, Failure(BadBinSize);
    }
    var cells := BuildCells(grid.value);
    result := BuildTable(geo.overlay(shapes, cells), attributes, rasters, csv, geo);
    if result.Success? {
      written := written + [Join(outputDir, "intersection.shp")] + PlotPaths(result.value.order, outputDir);
    }
  }
}
