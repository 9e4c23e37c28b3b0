/**
 * The downloader's own bookkeeping around the catalogue search, the downloads and the
 * conversion of the downloaded HDF5 tiles: which directory entries are tiles, the
 * acquisition day and tile id read from a tile's name, which tiles belong to the chosen
 * country, one merged GeoTIFF per day, the days the search visits and the links it keeps,
 * the file name a download is saved under, and the cleaned-up country list.
 *
 * The catalogue, the downloads, the HDF5 reads and the mosaicking are not modelled; the
 * catalogue's answer per day and each download's outcome are parameters.
 */
module Downloader {
  import opened Wrappers
  import opened Text
  import opened Paths
  import opened Calendar
  import opened Grouping
  import opened BinGrid

  // ---------------------------------------------------------------------------
  // Tile files and their names
  // ---------------------------------------------------------------------------

  /** The directory entries whose names end in ".h5", in listing order. */
  function H5Files(listing: seq<string>): (r: seq<string>)
    ensures |r| <= |listing|
    ensures forall f :: f in r <==> f in listing && EndsWith(f, ".h5")
  {
    if listing == [] then []
    else
      var init, f := listing[..|listing| - 1], listing[|listing| - 1];
      assert listing == init + [f];
      H5Files(init) + (if EndsWith(f, ".h5") then [f] else [])
  }

  /**
   * The pattern `\.A(\d+)\.` tried at position `i`: a '.', an 'A', the longest run of digits
   * (at least one) and a '.' right after it. A shorter run would be followed by a digit, so
   * backtracking cannot give another match at the same position.
   */
  function DayAt(s: string, i: nat): (r: Option<string>)
    requires i <= |s|
    ensures r.Some? ==>
      i + |r.value| + 3 <= |s| && s[i] == '.' && s[i + 1] == 'A'
      && s[i + 2..i + 2 + |r.value|] == r.value && s[i + 2 + |r.value|] == '.'
    ensures r.Some? ==> r.value != [] && AllDigits(r.value)
  {
    if i + 2 <= |s| && s[i] == '.' && s[i + 1] == 'A' then
      var n := LeadingRun(s[i + 2..], IsDigit);
      if n >= 1 && i + 2 + n < |s| && s[i + 2 + n] == '.' then
        var t := s[i + 2..i + 2 + n];
        Some(t)
      else None
    else None
  }

  /** The leftmost match of the day pattern at or after position `i`. */
  function DayFrom(s: string, i: nat): (r: Option<string>)
    requires i <= |s|
    ensures r.None? ==> forall j :: i <= j <= |s| ==> DayAt(s, j).None?
    ensures r.Some? ==> r.value != [] && AllDigits(r.value)
    decreases |s| - i
  {
    if i == |s| then DayAt(s, i)
    else
      match DayAt(s, i)
      case Some(t) => Some(t)
      case None => DayFrom(s, i + 1)
  }

  /** `re.search('\.A(\d+)\.', name).group(1)`: the acquisition day, if the name has one. */
  function DayToken(name: string): (r: Option<string>)
    ensures r.Some? ==> r.value != [] && AllDigits(r.value)
  {
    DayFrom(name, 0)
  }

  /** The digit run of `d + "." + rest` is `d` when `d` is all digits. */
  lemma DigitRunOf(d: string, rest: string)
    requires AllDigits(d)
    ensures LeadingRun(d + "." + rest, IsDigit) == |d|
  {
    var s := d + "." + rest;
    assert s[|d|] == '.';
    assert forall k :: 0 <= k < |d| ==> s[k] == d[k];
  }

  /**
   * The day of a tile named the way the archive names them, a product name without a dot
   * followed by ".A", the day digits and a dot, is those digits.
   */
  lemma DayTokenOfArchiveName(product: string, day: string, rest: string)
    requires '.' !in product && day != [] && AllDigits(day)
    ensures DayToken(product + ".A" + day + "." + rest) == Some(day)
  {
    var s := product + ".A" + day + "." + rest;
    var p := |product|;
    forall k | 0 <= k < p ensures DayAt(s, k).None? {
      assert s[k] == product[k];
    }
    DayAtArchiveDot(product, day, rest);
    LeftmostDay(s, 0, p);
  }

  /** The pattern matches at the dot that ends the product name, capturing the day. */
  lemma DayAtArchiveDot(product: string, day: string, rest: string)
    requires day != [] && AllDigits(day)
    ensures |product| <= |product + ".A" + day + "." + rest|
    ensures DayAt(product + ".A" + day + "." + rest, |product|) == Some(day)
  {
    var s := product + ".A" + day + "." + rest;
    var p := |product|;
    assert s[p + 2..] == day + "." + rest;
    DigitRunOf(day, rest);
    assert s[p + 2..p + 2 + |day|] == day;
  }

  /** A match at `p` with none between `i` and `p` is the leftmost match from `i`. */
  lemma {:induction false} LeftmostDay(s: string, i: nat, p: nat)
    requires i <= p <= |s| && DayAt(s, p).Some?
    requires forall k :: i <= k < p ==> DayAt(s, k).None?
    ensures DayFrom(s, i) == DayAt(s, p)
    decreases p - i
  {
    if i < p {
      LeftmostDay(s, i + 1, p);
    }
  }

  /** The pattern `h\d{2}v\d{2}` tried at position `i`. */
  predicate TileAt(s: string, i: nat) {
    i + 6 <= |s| && s[i] == 'h' && IsDigit(s[i + 1]) && IsDigit(s[i + 2])
    && s[i + 3] == 'v' && IsDigit(s[i + 4]) && IsDigit(s[i + 5])
  }

  /** The leftmost position at or after `i` where the tile pattern matches. */
  function TileFrom(s: string, i: nat): (r: Option<nat>)
    requires i <= |s|
    ensures r.Some? ==> i <= r.value && TileAt(s, r.value) && forall k :: i <= k < r.value ==> !TileAt(s, k)
    ensures r.None? ==> forall k :: i <= k ==> !TileAt(s, k)
    decreases |s| - i
  {
    if TileAt(s, i) then Some(i)
    else if i == |s| then None
    else TileFrom(s, i + 1)
  }

  /** `re.search('h\d{2}v\d{2}', name).group()`: the tile id, if the name has one. */
  function TileId(name: string): (r: Option<string>)
    ensures r.Some? ==> |r.value| == 6 && r.value[0] == 'h' && r.value[3] == 'v'
    ensures r.Some? ==> exists i: nat :: TileAt(name, i) && name[i..i + 6] == r.value && forall k: nat :: k < i ==> !TileAt(name, k)
    ensures r.None? <==> forall i :: !TileAt(name, i)
  {
    match TileFrom(name, 0)
    case None => None
    case Some(i) => Some(name[i..i + 6])
  }

  /** The tile id of an archive name, a product, day and tile joined by dots, is its tile. */
  lemma TileIdOfArchiveName(product: string, day: string, tile: string, rest: string)
    requires 'h' !in product && 'h' !in day && TileAt(tile, 0) && |tile| == 6
    ensures TileId(product + ".A" + day + "." + tile + rest) == Some(tile)
  {
    var s := product + ".A" + day + "." + tile + rest;
    var p := |product| + |day| + 3;
    assert s[p..p + 6] == tile;
    assert TileAt(s, p);
    forall k | 0 <= k < p ensures !TileAt(s, k) {
      if k < |product| {
        assert s[k] == product[k];
      } else if |product| + 2 <= k < p - 1 {
        assert s[k] == day[k - |product| - 2];
      }
    }
  }

  // ---------------------------------------------------------------------------
  // The tile table and the country
  // ---------------------------------------------------------------------------

  /** A row of the world tile table: the country, a tile id and the tile's bounds. */
  datatype TileRow = TileRow(country: string, tileId: string, bounds: Bounds)

  /** The tile rows of the country as `process_h5_files` selects them: by the stripped name. */
  predicate TileSelected(table: seq<TileRow>, country: string, tileId: string) {
    exists i :: 0 <= i < |table| && table[i].country == Strip(country, IsSpace) && table[i].tileId == tileId
  }

  /** `total_bounds` of the rows in `rows`: the smallest box holding every row's box. */
  function TotalBounds(rows: seq<TileRow>): (r: Option<Bounds>)
    ensures r.None? <==> rows == []
    ensures r.Some? ==> forall i :: 0 <= i < |rows| ==>
      r.value.xmin <= rows[i].bounds.xmin && r.value.ymin <= rows[i].bounds.ymin
      && rows[i].bounds.xmax <= r.value.xmax && rows[i].bounds.ymax <= r.value.ymax
  {
    if rows == [] then None
    else
      var b := rows[0].bounds;
      match TotalBounds(rows[1..])
      case None => Some(b)
      case Some(c) =>
        Some(Bounds(Min(b.xmin, c.xmin), Min(b.ymin, c.ymin), Max(b.xmax, c.xmax), Max(b.ymax, c.ymax)))
  }

  /** The box is the smallest one: each of its sides is the side of some row's box. */
  lemma {:induction false} TotalBoundsTight(rows: seq<TileRow>)
    requires rows != []
    ensures var r := TotalBounds(rows).value;
      (exists i :: 0 <= i < |rows| && r.xmin == rows[i].bounds.xmin)
      && (exists i :: 0 <= i < |rows| && r.ymin == rows[i].bounds.ymin)
      && (exists i :: 0 <= i < |rows| && r.xmax == rows[i].bounds.xmax)
      && (exists i :: 0 <= i < |rows| && r.ymax == rows[i].bounds.ymax)
  {
    var r := TotalBounds(rows).value;
    var b := rows[0].bounds;
    if |rows| == 1 {
      assert r == b;
    } else {
      TotalBoundsTight(rows[1..]);
      var c := TotalBounds(rows[1..]).value;
      assert r == Bounds(Min(b.xmin, c.xmin), Min(b.ymin, c.ymin), Max(b.xmax, c.xmax), Max(b.ymax, c.ymax));
      var i1 :| 0 <= i1 < |rows| - 1 && c.xmin == rows[1..][i1].bounds.xmin;
      var i2 :| 0 <= i2 < |rows| - 1 && c.ymin == rows[1..][i2].bounds.ymin;
      var i3 :| 0 <= i3 < |rows| - 1 && c.xmax == rows[1..][i3].bounds.xmax;
      var i4 :| 0 <= i4 < |rows| - 1 && c.ymax == rows[1..][i4].bounds.ymax;
      assert r.xmin == rows[if r.xmin == b.xmin then 0 else i1 + 1].bounds.xmin;
      assert r.ymin == rows[if r.ymin == b.ymin then 0 else i2 + 1].bounds.ymin;
      assert r.xmax == rows[if r.xmax == b.xmax then 0 else i3 + 1].bounds.xmax;
      assert r.ymax == rows[if r.ymax == b.ymax then 0 else i4 + 1].bounds.ymax;
    }
  }

  function Min(a: real, b: real): real { if a <= b then a else b }
  function Max(a: real, b: real): real { if a <= b then b else a }

  /** The rows whose country is exactly `country`. */
  function RowsOf(table: seq<TileRow>, country: string): (r: seq<TileRow>)
    ensures forall x :: x in r <==> x in table && x.country == country
  {
    if table == [] then []
    else (if table[0].country == country then [table[0]] else []) + RowsOf(table[1..], country)
  }

  /**
   * `get_bounding_box`: the total bounds of the rows whose name is exactly `country`
   * (unstripped); with no such row pandas gives NaN bounds, modelled as None.
   */
  function BoundingBox(table: seq<TileRow>, country: string): (r: Option<Bounds>)
    ensures r.None? <==> forall i :: 0 <= i < |table| ==> table[i].country != country
  {
    var rows := RowsOf(table, country);
    assert rows != [] ==> rows[0] in rows;
    TotalBounds(rows)
  }

  /**
   * The two lookups disagree about surrounding whitespace: for a name with a leading space,
   * the tiles are those of the stripped name, while the bounding box looks for the name as
   * given and, when the table's names carry no leading space, finds nothing.
   */
  lemma CountryLookupsDisagree(table: seq<TileRow>, country: string, tileId: string)
    requires country != [] && country[0] == ' '
    requires forall i :: 0 <= i < |table| ==> table[i].country == [] || table[i].country[0] != ' '
    ensures BoundingBox(table, country).None?
    ensures TileSelected(table, country, tileId) <==> TileSelected(table, Strip(country, IsSpace), tileId)
  {
    StripIdempotent(country, IsSpace);
  }

  // ---------------------------------------------------------------------------
  // One day's conversion
  // ---------------------------------------------------------------------------

  /** The temporary GeoTIFF a selected tile is written to. */
  function TempPath(input: string, tileId: string): (p: string)
    ensures EndsWith(p, "temp_" + tileId + ".tif")
    ensures StartsWith(p, input)
  {
    assert ("temp_" + tileId + ".tif")[0] == 't';
    Join(input, "temp_" + tileId + ".tif")
  }

  predicate HasTile(f: string) {
    TileId(f).Some?
  }

  /**
   * The temporary files of the day's files, in order: one per file whose tile id belongs to
   * the country. Looking up the tile id of a file without one raises, so then there is none.
   */
  function Temps(files: seq<string>, table: seq<TileRow>, country: string, input: string): (r: Option<seq<string>>)
    ensures r.Some? ==> |r.value| <= |files|
  {
    if files == [] then Some([])
    else
      var init, f := files[..|files| - 1], files[|files| - 1];
      match Temps(init, table, country, input)
      case None => None
      case Some(ts) =>
        match TileId(f)
        case None => None
        case Some(tid) => Some(if TileSelected(table, country, tid) then ts + [TempPath(input, tid)] else ts)
  }

  /** The day fails exactly when one of its files has no tile id. */
  lemma {:induction false} TempsFailIffNoTileId(files: seq<string>, table: seq<TileRow>, country: string, input: string)
    ensures Temps(files, table, country, input).None? <==> exists i :: 0 <= i < |files| && !HasTile(files[i])
  {
    if files != [] {
      var init := files[..|files| - 1];
      TempsFailIffNoTileId(init, table, country, input);
      assert forall i :: 0 <= i < |init| ==> files[i] == init[i];
    }
  }

  /** File `f` is a selected tile whose temporary file is `t`. */
  predicate MakesTemp(f: string, table: seq<TileRow>, country: string, input: string, t: string) {
    HasTile(f) && TileSelected(table, country, TileId(f).value) && t == TempPath(input, TileId(f).value)
  }

  /**
   * Otherwise the temporary files are exactly those of the tile ids the country's rows
   * list: a file is converted if and only if its tile is selected.
   */
  lemma {:induction false} TempsAreSelectedTiles(files: seq<string>, table: seq<TileRow>, country: string, input: string, t: string)
    requires Temps(files, table, country, input).Some?
    ensures t in Temps(files, table, country, input).value <==>
      exists g :: g in files && MakesTemp(g, table, country, input, t)
  {
    if files != [] {
      var init, f := files[..|files| - 1], files[|files| - 1];
      assert files == init + [f];
      TempsStep(init, f, table, country, input, t);
      TempsAreSelectedTiles(init, table, country, input, t);
      MakesTempSnoc(init, f, table, country, input, t);
    }
  }

  lemma TempsStep(init: seq<string>, f: string, table: seq<TileRow>, country: string, input: string, t: string)
    requires Temps(init + [f], table, country, input).Some?
    ensures Temps(init, table, country, input).Some?
    ensures t in Temps(init + [f], table, country, input).value
        <==> t in Temps(init, table, country, input).value || MakesTemp(f, table, country, input, t)
  {
    TempsSnoc(init, f, table, country, input);
  }

  lemma MakesTempSnoc(init: seq<string>, f: string, table: seq<TileRow>, country: string, input: string, t: string)
    ensures (exists g :: g in init + [f] && MakesTemp(g, table, country, input, t))
        <==> (exists g :: g in init && MakesTemp(g, table, country, input, t))
             || MakesTemp(f, table, country, input, t)
  {
    var files := init + [f];
    assert forall g :: g in files <==> g in init || g == f;
  }

  /** The inner loop of a day: each file's tile id, and its temporary file when selected. */
  method CollectTemps(files: seq<string>, table: seq<TileRow>, country: string, input: string)
    returns (r: Option<seq<string>>)
    ensures r == Temps(files, table, country, input)
  {
    var rasters: seq<string> := [];
    var i := 0;
    while i < |files|
      invariant 0 <= i <= |files|
      invariant Temps(files[..i], table, country, input) == Some(rasters)
    {
      assert files[..i + 1] == files[..i] + [files[i]];
      TempsSnoc(files[..i], files[i], table, country, input);
      var tile := TileId(files[i]);
      if tile.None? {
        assert Temps(files[..i + 1], table, country, input).None?;
        PrefixMissingTile(files, table, country, input, i + 1);
        return None;
      }
      if TileSelected(table, country, tile.value) {
        rasters := rasters + [TempPath(input, tile.value)];
      }
      i := i + 1;
    }
    assert files[..i] == files;
    r := Some(rasters);
  }

  lemma TempsSnoc(init: seq<string>, f: string, table: seq<TileRow>, country: string, input: string)
    ensures Temps(init + [f], table, country, input) ==
      if Temps(init, table, country, input).None? || TileId(f).None? then None
      else
        var ts := Temps(init, table, country, input).value;
        Some(if TileSelected(table, country, TileId(f).value) then ts + [TempPath(input, TileId(f).value)] else ts)
  {
    var files := init + [f];
    assert files[..|files| - 1] == init && files[|files| - 1] == f;
  }

  /** A prefix with a file without a tile id makes the whole list fail. */
  lemma PrefixMissingTile(files: seq<string>, table: seq<TileRow>, country: string, input: string, n: nat)
    requires n <= |files| && Temps(files[..n], table, country, input).None?
    ensures Temps(files, table, country, input).None?
  {
    TempsFailIffNoTileId(files[..n], table, country, input);
    TempsFailIffNoTileId(files, table, country, input);
    var i :| 0 <= i < n && !HasTile(files[..n][i]);
    assert files[i] == files[..n][i];
  }

  /**
   * The clean-up loop `os.remove` of each temporary file. A tile listed twice on one day was
   * written to one file, so the second removal finds nothing and raises; `ok` is false
   * exactly then.
   */
  method RemoveTemps(temps: seq<string>) returns (ok: bool)
    ensures ok <==> Distinct(temps)
  {
    var onDisk: set<string> := set t | t in temps;
    var i := 0;
    while i < |temps|
      invariant 0 <= i <= |temps|
      invariant Distinct(temps[..i])
      invariant forall t :: t in onDisk <==> t in temps && t !in temps[..i]
    {
      if temps[i] !in onDisk {
        var j :| 0 <= j < i && temps[..i][j] == temps[i];
        return false;
      }
      onDisk := onDisk - {temps[i]};
      assert temps[..i + 1] == temps[..i] + [temps[i]];
      i := i + 1;
    }
    assert temps[..i] == temps;
    ok := true;
  }

  /** The output of one day: the temporary files, the merged GeoTIFF and the removed tiles. */
  datatype DayOutput = DayOutput(day: string, temps: seq<string>, output: string, removed: seq<string>)

  /** Why a day stops the conversion. */
  datatype DayError = NoTileId | NothingToMerge | TempRemovedTwice

  /** The merged GeoTIFF of a day, named after the country as given and the day. */
  function OutputPath(output: string, country: string, day: string): string {
    Join(output, country + "_" + day + ".tif")
  }

  /**
   * One day of `process_h5_files`: the selected tiles are written to temporary files and
   * merged (merging nothing raises), the temporary files are removed, the merged raster is
   * written, and every tile file of the day is removed, selected or not.
   */
  function PlanDay(table: seq<TileRow>, country: string, input: string, output: string, day: string, files: seq<string>)
    : (r: Result<DayOutput, DayError>)
    ensures r.Success? ==>
      r.value.day == day && r.value.output == OutputPath(output, country, day)
      && Temps(files, table, country, input) == Some(r.value.temps) && r.value.temps != [] && Distinct(r.value.temps)
      && r.value.removed == Removed(input, files)
  {
    match Temps(files, table, country, input)
    case None => Failure(NoTileId)
    case Some(ts) =>
      if ts == [] then Failure(NothingToMerge)
      else if !Distinct(ts) then Failure(TempRemovedTwice)
      else Success(DayOutput(day, ts, OutputPath(output, country, day), Removed(input, files)))
  }

  /** The paths of the day's tile files, in order. */
  function Removed(input: string, files: seq<string>): (r: seq<string>)
    ensures |r| == |files| && forall i :: 0 <= i < |files| ==> r[i] == Join(input, files[i])
  {
    seq(|files|, i requires 0 <= i < |files| => Join(input, files[i]))
  }

  /**
   * A day fails for exactly one of three reasons, in this order: a file without a tile id,
   * no file of the country to merge, or a tile listed twice.
   */
  lemma PlanDayFailures(table: seq<TileRow>, country: string, input: string, output: string, day: string, files: seq<string>)
    ensures var r := PlanDay(table, country, input, output, day, files);
      var ts := Temps(files, table, country, input);
      (r == Failure(NoTileId) <==> exists i :: 0 <= i < |files| && !HasTile(files[i]))
      && (r == Failure(NothingToMerge) <==> ts == Some([]))
      && (r == Failure(TempRemovedTwice) <==> ts.Some? && ts.value != [] && !Distinct(ts.value))
      && (r.Success? <==> ts.Some? && ts.value != [] && Distinct(ts.value))
  {
    TempsFailIffNoTileId(files, table, country, input);
  }

  /** The body of the day loop, step by step. */
  method ProcessDay(table: seq<TileRow>, country: string, input: string, output: string, day: string, files: seq<string>)
    returns (r: Result<DayOutput, DayError>)
    ensures r == PlanDay(table, country, input, output, day, files)
  {
    var rasters := CollectTemps(files, table, country, input);
    if rasters.None? {
      return Failure(NoTileId);
    }
    if rasters.value == [] {
      return Failure(NothingToMerge);
    }
    var ok := RemoveTemps(rasters.value);
    if !ok {
      return Failure(TempRemovedTwice);
    }
    var removed := RemoveTiles(input, files);
    r := Success(DayOutput(day, rasters.value, OutputPath(output, country, day), removed));
  }

  /** The loop removing every tile file of the day. */
  method RemoveTiles(input: string, files: seq<string>) returns (removed: seq<string>)
    ensures removed == Removed(input, files)
  {
    removed := [];
    for i := 0 to |files|
      invariant removed == Removed(input, files[..i])
    {
      assert files[..i + 1] == files[..i] + [files[i]];
      removed := removed + [Join(input, files[i])];
    }
    assert files[..|files|] == files;
  }

  // ---------------------------------------------------------------------------
  // The whole conversion
  // ---------------------------------------------------------------------------

  /** The day key of a tile file: a name without the day pattern makes `.group(1)` raise. */
  function DayKey(f: string): KeyOutcome {
    match DayToken(f)
    case None => Crash
    case Some(d) => Key(d)
  }

  /** Why the conversion stops. */
  datatype ConvertError = NoDayToken | DayFailed(day: string, reason: DayError)

  /** The plan of each day, in order. */
  function Plans(table: seq<TileRow>, country: string, input: string, output: string,
                 days: seq<string>, byDay: map<string, seq<string>>): (ps: seq<Result<DayOutput, DayError>>)
    requires forall j :: 0 <= j < |days| ==> days[j] in byDay
    ensures |ps| == |days|
  {
    seq(|days|, j requires 0 <= j < |days| => PlanDay(table, country, input, output, days[j], byDay[days[j]]))
  }

  /**
   * The outputs of the days converted in order up to the first failing plan, and that
   * failure (none when every plan succeeds).
   */
  function StopAtFailure(days: seq<string>, plans: seq<Result<DayOutput, DayError>>): (r: (seq<DayOutput>, Option<ConvertError>))
    requires |plans| == |days|
    ensures |r.0| <= |days|
  {
    if days == [] then ([], None)
    else
      match plans[0]
      case Failure(e) => ([], Some(DayFailed(days[0], e)))
      case Success(out) =>
        var rest := StopAtFailure(days[1..], plans[1..]);
        ([out] + rest.0, rest.1)
  }

  /** Every day before the stopping point converted to its output. */
  lemma {:induction false} StopAtFailurePrefix(days: seq<string>, plans: seq<Result<DayOutput, DayError>>)
    requires |plans| == |days|
    ensures var done := StopAtFailure(days, plans).0;
      forall k :: 0 <= k < |done| ==> plans[k] == Success(done[k])
  {
    if days != [] && plans[0].Success? {
      StopAtFailurePrefix(days[1..], plans[1..]);
      var rest := StopAtFailure(days[1..], plans[1..]).0;
      var done := StopAtFailure(days, plans).0;
      forall k | 1 <= k < |done| ensures plans[k] == Success(done[k]) {
        assert plans[k] == plans[1..][k - 1] && done[k] == rest[k - 1];
      }
    }
  }

  /**
   * Without a failure every day converted; a failure names the first day that did not,
   * with its reason.
   */
  lemma {:induction false} StopAtFailureFailure(days: seq<string>, plans: seq<Result<DayOutput, DayError>>)
    requires |plans| == |days|
    ensures var (done, failure) := StopAtFailure(days, plans);
      (failure.None? ==> |done| == |days|)
      && (failure.Some? ==>
            |done| < |days| && failure.value.DayFailed? && failure.value.day == days[|done|]
            && plans[|done|] == Failure(failure.value.reason))
  {
    if days != [] && plans[0].Success? {
      StopAtFailureFailure(days[1..], plans[1..]);
      var rest := StopAtFailure(days[1..], plans[1..]);
      if rest.1.Some? {
        assert days[1 + |rest.0|] == days[1..][|rest.0|];
        assert plans[1 + |rest.0|] == plans[1..][|rest.0|];
      }
    }
  }

  /** One step of `StopAtFailure`, taken at position `k`. */
  lemma StopAtFailureStep(days: seq<string>, plans: seq<Result<DayOutput, DayError>>, k: int)
    requires |plans| == |days| && 0 <= k < |days|
    ensures plans[k].Failure? ==> StopAtFailure(days[k..], plans[k..]) == ([], Some(DayFailed(days[k], plans[k].error)))
    ensures plans[k].Success? ==>
      var rest := StopAtFailure(days[k + 1..], plans[k + 1..]);
      StopAtFailure(days[k..], plans[k..]) == ([plans[k].value] + rest.0, rest.1)
  {
    assert days[k..][0] == days[k] && days[k..][1..] == days[k + 1..];
    assert plans[k..][0] == plans[k] && plans[k..][1..] == plans[k + 1..];
  }

  /** The loop over the days: each day, in order, is converted until one fails. */
  method ConvertDays(table: seq<TileRow>, country: string, input: string, output: string,
                     days: seq<string>, byDay: map<string, seq<string>>)
    returns (done: seq<DayOutput>, failure: Option<ConvertError>)
    requires forall j :: 0 <= j < |days| ==> days[j] in byDay
    ensures (done, failure) == StopAtFailure(days, Plans(table, country, input, output, days, byDay))
  {
    ghost var plans := Plans(table, country, input, output, days, byDay);
    done := [];
    var k := 0;
    assert days[k..] == days && plans[k..] == plans;
    assert done + StopAtFailure(days, plans).0 == StopAtFailure(days, plans).0;
    while k < |days|
      invariant 0 <= k <= |days|
      invariant var rest := StopAtFailure(days[k..], plans[k..]);
        StopAtFailure(days, plans) == (done + rest.0, rest.1)
    {
      StopAtFailureStep(days, plans, k);
      var r := ProcessDay(table, country, input, output, days[k], byDay[days[k]]);
      assert r == plans[k];
      if r.Failure? {
        assert done + [] == done;
        return done, Some(DayFailed(days[k], r.error));
      }
      assert done + ([r.value] + StopAtFailure(days[k + 1..], plans[k + 1..]).0)
          == (done + [r.value]) + StopAtFailure(days[k + 1..], plans[k + 1..]).0;
      done := done + [r.value];
      k := k + 1;
    }
    assert done + [] == done;
    failure := None;
  }

  /**
   * `process_h5_files`: the tiles are grouped by day (a tile without a day token stops
   * everything before any day is converted), then the days are converted in order of first
   * appearance, each from the tiles of that day.
   */
  method ProcessH5Files(table: seq<TileRow>, country: string, listing: seq<string>, input: string, output: string)
    returns (done: seq<DayOutput>, failure: Option<ConvertError>)
    ensures failure == Some(NoDayToken) <==> AnyCrash(H5Files(listing), DayKey)
    ensures failure == Some(NoDayToken) ==> done == []
    ensures failure != Some(NoDayToken) ==>
      var files := H5Files(listing);
      var days := KeyOrder(files, DayKey);
      |done| <= |days|
      && (forall k :: 0 <= k < |done| ==>
            PlanDay(table, country, input, output, days[k], Members(files, DayKey, days[k])) == Success(done[k]))
      && (failure.None? ==> |done| == |days|)
      && (failure.Some? ==>
            |done| < |days| && failure.value.DayFailed? && failure.value.day == days[|done|]
            && PlanDay(table, country, input, output, days[|done|], Members(files, DayKey, days[|done|]))
               == Failure(failure.value.reason))
  {
    var files := H5Files(listing);
    var grouped := GroupByKey(files, DayKey);
    if grouped.Failure? {
      return [], Some(NoDayToken);
    }
    done, failure := ConvertDays(table, country, input, output, grouped.value.keys, grouped.value.members);
    ghost var plans := Plans(table, country, input, output, grouped.value.keys, grouped.value.members);
    StopAtFailurePrefix(grouped.value.keys, plans);
    StopAtFailureFailure(grouped.value.keys, plans);
  }

  /**
   * A tile file with a day token is in the group of its own day and in no other, so only
   * that day's conversion merges or removes it.
   */
  lemma DayOwnsItsFiles(listing: seq<string>, i: int, day: string)
    requires 0 <= i < |H5Files(listing)| && DayToken(H5Files(listing)[i]).Some?
    ensures var files := H5Files(listing);
      (files[i] in Members(files, DayKey, day) <==> DayToken(files[i]) == Some(day))
  {
    var files := H5Files(listing);
    InOneGroupOnly(files, DayKey, i, day);
  }

  // ---------------------------------------------------------------------------
  // The catalogue search
  // ---------------------------------------------------------------------------

  /** A link of a granule; `href` may be absent. */
  datatype Link = Link(href: Option<string>)

  /** A catalogue entry: its `time_start` and its links. */
  datatype Granule = Granule(timeStart: string, links: seq<Link>)

  /** The catalogue's answer for one day: the HTTP status and the entries of the feed. */
  datatype Response = Response(status: int, granules: seq<Granule>)

  /** A link is a tile download: an https URL of an HDF5 file. */
  predicate IsTileLink(l: Link) {
    l.href.Some? && StartsWith(l.href.value, "https") && EndsWith(l.href.value, ".h5")
  }

  /** The tile links of one granule, in order. */
  function TileLinks(links: seq<Link>): (r: seq<string>)
    ensures forall u :: u in r <==> exists i :: 0 <= i < |links| && IsTileLink(links[i]) && links[i].href.value == u
  {
    if links == [] then []
    else
      (if IsTileLink(links[0]) then [links[0].href.value] else [])
      + (assert forall i :: 1 <= i < |links| ==> links[i] == links[1..][i - 1]; TileLinks(links[1..]))
  }

  /** The tile links of two link lists in turn are their tile links in turn: encounter order is kept. */
  lemma {:induction false} TileLinksAppend(a: seq<Link>, b: seq<Link>)
    ensures TileLinks(a + b) == TileLinks(a) + TileLinks(b)
  {
    if a != [] {
      assert (a + b)[0] == a[0] && (a + b)[1..] == a[1..] + b;
      TileLinksAppend(a[1..], b);
    } else {
      assert a + b == b;
    }
  }

  /** The date part of `time_start`: what comes before the first 'T'. */
  function GranuleDate(g: Granule): string {
    Split(g.timeStart, 'T')[0]
  }

  /** The links the search keeps from one day's answer. */
  function DayLinks(resp: Response, target: string): (r: seq<string>)
    ensures resp.status != 200 ==> r == []
  {
    if resp.status != 200 then []
    else GranuleLinks(resp.granules, target)
  }

  /** The tile links of the granules dated `target`, granule by granule. */
  function GranuleLinks(gs: seq<Granule>, target: string): (r: seq<string>)
    ensures forall u :: u in r <==>
      exists i :: 0 <= i < |gs| && GranuleDate(gs[i]) == target && u in TileLinks(gs[i].links)
  {
    if gs == [] then []
    else
      assert forall i :: 1 <= i < |gs| ==> gs[i] == gs[1..][i - 1];
      (if GranuleDate(gs[0]) == target then TileLinks(gs[0].links) else []) + GranuleLinks(gs[1..], target)
  }

  /** The kept links of two granule lists in turn are their kept links in turn: encounter order is kept. */
  lemma {:induction false} GranuleLinksAppend(a: seq<Granule>, b: seq<Granule>, target: string)
    ensures GranuleLinks(a + b, target) == GranuleLinks(a, target) + GranuleLinks(b, target)
  {
    if a != [] {
      assert (a + b)[0] == a[0] && (a + b)[1..] == a[1..] + b;
      GranuleLinksAppend(a[1..], b, target);
    } else {
      assert a + b == b;
    }
  }

  /** The date `k` days after `d`. */
  function DaysAfter(d: Date, k: nat): (r: Date)
    requires ValidDate(d)
    ensures ValidDate(r) && Ordinal(r) == Ordinal(d) + k
  {
    if k == 0 then d else NextDay(DaysAfter(d, k - 1))
  }

  /** The `n` days from `d` on, in order. */
  function Days(d: Date, n: nat): (r: seq<Date>)
    requires ValidDate(d)
    ensures |r| == n && forall k :: 0 <= k < n ==> r[k] == DaysAfter(d, k)
  {
    if n == 0 then [] else Days(d, n - 1) + [DaysAfter(d, n - 1)]
  }

  /** How many days the search visits: from start to end inclusive, none if start is later. */
  function DayCount(start: Date, end: Date): nat
    requires ValidDate(start) && ValidDate(end)
  {
    if Ordinal(end) < Ordinal(start) then 0 else Ordinal(end) - Ordinal(start) + 1
  }

  /** The links kept over the given days, day after day. */
  function LinksOver(days: seq<Date>, catalogue: string -> Response): seq<string>
    requires forall k :: 0 <= k < |days| ==> ValidDate(days[k])
  {
    if days == [] then []
    else
      var last := days[|days| - 1];
      LinksOver(days[..|days| - 1], catalogue) + DayLinks(catalogue(FormatDate(last)), FormatDate(last))
  }

  lemma LinksOverNextDay(d: Date, k: nat, catalogue: string -> Response)
    requires ValidDate(d)
    ensures var next := DaysAfter(d, k);
      LinksOver(Days(d, k + 1), catalogue) == LinksOver(Days(d, k), catalogue) + DayLinks(catalogue(FormatDate(next)), FormatDate(next))
  {
    var ds := Days(d, k + 1);
    assert ds[..k] == Days(d, k);
  }

  /** The last day `datetime` can represent; adding a day to it overflows. */
  const LastDate := Date(9999, 12, 31)

  /**
   * `search_nasa_cmr`: for each day from `start` to `end`, ask the catalogue for that day
   * and keep the tile links of the granules dated that day. Stepping past 31 December 9999
   * overflows, which loses every link found.
   */
  method SearchLinks(start: Date, end: Date, catalogue: string -> Response) returns (r: Result<seq<string>, string>)
    requires ValidDate(start) && ValidDate(end) && start.year <= 9999 && end.year <= 9999
    ensures r.Failure? <==> NotAfter(start, end) && end == LastDate
    ensures r.Success? ==> r.value == LinksOver(Days(start, DayCount(start, end)), catalogue)
  {
    var links: seq<string> := [];
    var current := start;
    ghost var k: nat := 0;
    StillToVisit(start, end, k);
    while NotAfter(current, end)
      invariant ValidDate(current) && current == DaysAfter(start, k)
      invariant NotAfter(current, end) <==> k < DayCount(start, end)
      invariant k <= DayCount(start, end)
      invariant links == LinksOver(Days(start, k), catalogue)
      invariant end == LastDate && NotAfter(start, end) ==> k < DayCount(start, end)
      decreases DayCount(start, end) - k
    {
      var target := FormatDate(current);
      links := links + DayLinks(catalogue(target), target);
      LinksOverNextDay(start, k, catalogue);
      assert links == LinksOver(Days(start, k + 1), catalogue);
      if current == LastDate {
        OverflowOnlyAtLastDate(start, end, k);
        return Failure("date value out of range");
      }
      BeforeLastDate(start, end, k);
      current := NextDay(current);
      k := k + 1;
      StillToVisit(start, end, k);
    }
    r := Success(links);
  }

  /** The search is still going exactly while fewer than the day count have been visited. */
  lemma StillToVisit(start: Date, end: Date, k: nat)
    requires ValidDate(start) && ValidDate(end)
    ensures NotAfter(DaysAfter(start, k), end) <==> k < DayCount(start, end)
  {
    NotAfterIsOrdinalOrder(DaysAfter(start, k), end);
  }

  /** Reaching the last date while still searching means the end is the last date. */
  lemma OverflowOnlyAtLastDate(start: Date, end: Date, k: nat)
    requires ValidDate(start) && ValidDate(end) && end.year <= 9999
    requires DaysAfter(start, k) == LastDate && k < DayCount(start, end)
    ensures NotAfter(start, end) && end == LastDate
  {
    StillToVisit(start, end, k);
    LastDateIsLast(end);
    NotAfterIsOrdinalOrder(start, end);
  }

  /** With the last date as end, a day before it leaves at least one more day to visit. */
  lemma BeforeLastDate(start: Date, end: Date, k: nat)
    requires ValidDate(start) && ValidDate(end)
    requires DaysAfter(start, k) != LastDate && k < DayCount(start, end)
    ensures end == LastDate ==> k + 1 < DayCount(start, end)
  {
    if end == LastDate && k + 1 == DayCount(start, end) {
      OrdinalInjective(DaysAfter(start, k), end);
    }
  }

  /** No valid date up to year 9999 comes after the last date. */
  lemma LastDateIsLast(d: Date)
    requires ValidDate(d) && d.year <= 9999 && NotAfter(LastDate, d)
    ensures d == LastDate
  {
  }

  /**
   * The search visits exactly the days from `start` to `end`, each of them once; when
   * `start` is after `end` it visits none.
   */
  lemma VisitsEachDayOnce(start: Date, end: Date, d: Date)
    requires ValidDate(start) && ValidDate(end) && ValidDate(d)
    ensures DayCount(start, end) == 0 <==> !NotAfter(start, end)
    ensures d in Days(start, DayCount(start, end)) <==> NotAfter(start, d) && NotAfter(d, end)
    ensures forall i, j :: 0 <= i < j < DayCount(start, end) ==> Days(start, DayCount(start, end))[i] != Days(start, DayCount(start, end))[j]
  {
    NotAfterIsOrdinalOrder(start, end);
    NotAfterIsOrdinalOrder(start, d);
    NotAfterIsOrdinalOrder(d, end);
    var n := DayCount(start, end);
    var ds := Days(start, n);
    if NotAfter(start, d) && NotAfter(d, end) {
      var k := Ordinal(d) - Ordinal(start);
      OrdinalInjective(ds[k], d);
    }
  }

  /** A link is kept for a day exactly when the answer is OK, the granule is of that day and the link is a tile link. */
  lemma KeptLinksAre(resp: Response, target: string, u: string)
    ensures u in DayLinks(resp, target) <==>
      resp.status == 200
      && exists i, j :: 0 <= i < |resp.granules| && GranuleDate(resp.granules[i]) == target
           && 0 <= j < |resp.granules[i].links| && IsTileLink(resp.granules[i].links[j])
           && resp.granules[i].links[j].href.value == u
  {
    if resp.status == 200 {
      var gs := resp.granules;
      if u in DayLinks(resp, target) {
        var i :| 0 <= i < |gs| && GranuleDate(gs[i]) == target && u in TileLinks(gs[i].links);
        var j :| 0 <= j < |gs[i].links| && IsTileLink(gs[i].links[j]) && gs[i].links[j].href.value == u;
      }
      if exists i, j :: 0 <= i < |gs| && GranuleDate(gs[i]) == target
           && 0 <= j < |gs[i].links| && IsTileLink(gs[i].links[j]) && gs[i].links[j].href.value == u {
        var i, j :| 0 <= i < |gs| && GranuleDate(gs[i]) == target
           && 0 <= j < |gs[i].links| && IsTileLink(gs[i].links[j]) && gs[i].links[j].href.value == u;
        assert u in TileLinks(gs[i].links);
      }
    }
  }

  // ---------------------------------------------------------------------------
  // Downloads
  // ---------------------------------------------------------------------------

  /** `url.strip().split('/')[-1]`: the name a download is saved under. */
  function DownloadName(url: string): (name: string)
    ensures '/' !in name
  {
    var parts := Split(Strip(url, IsSpace), '/');
    parts[|parts| - 1]
  }

  /** The saved name is the stripped URL's maximal suffix without '/'. */
  lemma DownloadNameIsLastSegment(url: string)
    ensures var u := Strip(url, IsSpace);
      var name := DownloadName(url);
      |name| <= |u| && name == u[|u| - |name|..] && (|name| < |u| ==> u[|u| - |name| - 1] == '/')
  {
    var u := Strip(url, IsSpace);
    assert DownloadName(url) == AfterLast(u, '/') by {
      AfterLastIsLastPiece(u, '/');
    }
  }

  /** The files the download loop saves, given which stripped URLs can be fetched. */
  function Saved(urls: seq<string>, dest: string, fetch: string -> bool): (r: seq<string>)
    ensures |r| <= |urls|
  {
    if urls == [] then []
    else
      var init, url := urls[..|urls| - 1], urls[|urls| - 1];
      var rest := Saved(init, dest, fetch);
      if fetch(Strip(url, IsSpace)) then rest + [Join(dest, DownloadName(url))] else rest
  }

  /**
   * `start_download_thread`: each URL is stripped and fetched to the destination folder
   * under its last segment; a failed download is reported and skipped, and the loop goes on.
   */
  method DownloadAll(urls: seq<string>, dest: string, fetch: string -> bool) returns (saved: seq<string>)
    ensures saved == Saved(urls, dest, fetch)
  {
    saved := [];
    var i := 0;
    while i < |urls|
      invariant 0 <= i <= |urls|
      invariant saved == Saved(urls[..i], dest, fetch)
    {
      var url := Strip(urls[i], IsSpace);
      var filename := DownloadName(urls[i]);
      ghost var next := urls[..i + 1];
      assert next[..|next| - 1] == urls[..i] && next[|next| - 1] == urls[i];
      if fetch(url) {
        saved := saved + [Join(dest, filename)];
      }
      i := i + 1;
    }
    assert urls[..i] == urls;
  }

  lemma {:induction false} SavedAppend(a: seq<string>, b: seq<string>, dest: string, fetch: string -> bool)
    ensures Saved(a + b, dest, fetch) == Saved(a, dest, fetch) + Saved(b, dest, fetch)
    decreases |b|
  {
    if b == [] {
      assert a + b == a;
    } else {
      var init := b[..|b| - 1];
      assert (a + b)[..|a + b| - 1] == a + init;
      assert (a + b)[|a + b| - 1] == b[|b| - 1];
      SavedAppend(a, init, dest, fetch);
    }
  }

  /** A failed download adds nothing and does not stop the downloads after it. */
  lemma FailedDownloadIsSkipped(before: seq<string>, url: string, after: seq<string>, dest: string, fetch: string -> bool)
    requires !fetch(Strip(url, IsSpace))
    ensures Saved(before + [url] + after, dest, fetch) == Saved(before, dest, fetch) + Saved(after, dest, fetch)
  {
    SavedAppend(before + [url], after, dest, fetch);
    var one := before + [url];
    assert one[..|one| - 1] == before && one[|one| - 1] == url;
    assert Saved(one, dest, fetch) == Saved(before, dest, fetch);
  }

  // ---------------------------------------------------------------------------
  // The country list
  // ---------------------------------------------------------------------------

  /** `Series.unique()`: each name once, in order of first appearance (`UniqueIsKeyOrder`). */
  function Unique(names: seq<string>): (r: seq<string>)
    ensures Distinct(r)
    ensures forall n :: n in r <==> n in names
  {
    if names == [] then []
    else
      var init, n := names[..|names| - 1], names[|names| - 1];
      assert names == init + [n];
      var rest := Unique(init);
      if n in rest then rest else rest + [n]
  }

  /**
   * `Unique` is the grouping's key order with each name as its own key, so its names come
   * in order of first appearance.
   */
  lemma {:induction false} UniqueIsKeyOrder(names: seq<string>)
    ensures Unique(names) == KeyOrder(names, n => Key(n))
  {
    if names != [] {
      UniqueIsKeyOrder(names[..|names| - 1]);
    }
  }

  /** `name.strip('"').strip()`: surrounding double quotes first, then surrounding whitespace. */
  function CleanName(name: string): (r: string)
    ensures r != [] ==> !IsSpace(r[0]) && !IsSpace(r[|r| - 1])
  {
    Strip(Strip(name, IsQuote), IsSpace)
  }

  /** A name wrapped in quotes, with no quote at either end inside, cleans to its stripped text. */
  lemma CleanNameOfQuoted(s: string)
    requires s != [] ==> !IsQuote(s[0]) && !IsQuote(s[|s| - 1])
    ensures CleanName("\"" + s + "\"") == Strip(s, IsSpace)
  {
    var q := "\"" + s + "\"";
    assert Strip(q, IsQuote) == s by {
      StripBoth(q, IsQuote, 1, 1);
      assert q[1..|q| - 1] == s;
    }
  }

  /** A name with nothing to strip at either end is kept as it is. */
  lemma CleanNameKeepsCleanName(s: string)
    requires s != [] ==> !IsQuote(s[0]) && !IsQuote(s[|s| - 1]) && !IsSpace(s[0]) && !IsSpace(s[|s| - 1])
    ensures CleanName(s) == s
  {
    assert s[0..|s|] == s;
    assert Strip(s, IsQuote) == s by {
      StripBoth(s, IsQuote, 0, 0);
    }
    assert Strip(s, IsSpace) == s by {
      StripBoth(s, IsSpace, 0, 0);
    }
  }

  /** `load_countries`: the cleaned unique names, in order of first appearance. */
  function LoadCountries(names: seq<string>): (r: seq<string>)
    ensures |r| == |Unique(names)| && forall i :: 0 <= i < |r| ==> r[i] == CleanName(Unique(names)[i])
  {
    var u := Unique(names);
    seq(|u|, i requires 0 <= i < |u| => CleanName(u[i]))
  }

  /** Every loaded country comes from a name in the table, and every name gives one. */
  lemma LoadedCountriesComeFromTable(names: seq<string>, c: string)
    ensures c in LoadCountries(names) <==> exists n :: n in names && CleanName(n) == c
  {
    var u := Unique(names);
    if exists n :: n in names && CleanName(n) == c {
      var n :| n in names && CleanName(n) == c;
      var i :| 0 <= i < |u| && u[i] == n;
      assert LoadCountries(names)[i] == c;
    }
  }

  /** Cleaning is idempotent on the whitespace: a cleaned name has nothing left to strip. */
  lemma CleanNameIsStripped(name: string)
    ensures Strip(CleanName(name), IsSpace) == CleanName(name)
  {
    StripIdempotent(Strip(name, IsQuote), IsSpace);
  }
}
