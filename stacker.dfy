/**
 * The stacker's own bookkeeping: which files of the folder are rasters, the month a file
 * belongs to (read from the `YYYYDDD` date in its name), the grouping by month, the
 * threshold that turns bright pixels into missing ones, the filter that keeps only the
 * rasters shaped like a month's first one, the per-pixel mean that skips missing pixels,
 * the names of the files written per month and which originals get deleted.
 *
 * Reading a raster, sigma clipping and plotting are not modelled; the reader and the
 * clipper are parameters.
 */
module Stacker {
  import opened Wrappers
  import opened Text
  import opened Paths
  import opened Calendar
  import opened Stats
  import opened Grouping

  // ---------------------------------------------------------------------------
  // The folder listing
  // ---------------------------------------------------------------------------

  /** A name the pattern `*.tif` matches: it ends in ".tif" and is not hidden. */
  predicate IsTifName(n: string) {
    EndsWith(n, ".tif") && n[0] != '.'
  }

  /** `glob.glob(os.path.join(folder, '*.tif'))`, in listing order. */
  function TifFiles(folder: string, listing: seq<string>): (r: seq<string>)
    ensures forall p :: p in r <==> exists n :: n in listing && IsTifName(n) && p == Join(folder, n)
  {
    if listing == [] then []
    else
      var init, n := listing[..|listing| - 1], listing[|listing| - 1];
      assert listing == init + [n];
      var rest := TifFiles(folder, init);
      if IsTifName(n) then rest + [Join(folder, n)] else rest
  }

  // ---------------------------------------------------------------------------
  // The month of a file
  // ---------------------------------------------------------------------------

  /** `s[:n]`. */
  function Take(s: string, n: nat): (r: string)
    ensures |r| <= n && StartsWith(s, r)
    ensures |s| <= n ==> r == s
  {
    if |s| <= n then s else s[..n]
  }

  /**
   * `base_name.split('_')[1][:7]`: the first seven characters of the second '_'-separated
   * piece; a name without '_' has no second piece and indexing raises.
   */
  function DatePart(base: string): (r: Option<string>)
    ensures r.None? <==> '_' !in base
    ensures r.Some? ==> |r.value| <= 7
  {
    var parts := Split(base, '_');
    SplitHasSecondPiece(base);
    if |parts| < 2 then None else Some(Take(parts[1], 7))
  }

  /** A split has a second piece exactly when the separator occurs. */
  lemma SplitHasSecondPiece(s: string)
    ensures |Split(s, '_')| >= 2 <==> '_' in s
  {
    var parts := Split(s, '_');
    JoinSplit(s, '_');
    if |parts| >= 2 {
      assert JoinWith(parts, '_') == parts[0] + ['_'] + JoinWith(parts[1..], '_');
      assert s[|parts[0]|] == '_';
    }
  }

  /**
   * The month key of a file: an IndexError (no '_' in the base name) is not caught and
   * stops the grouping; a ValueError from parsing the date skips the file.
   */
  function MonthKey(path: string): (r: KeyOutcome)
    ensures r.Crash? <==> '_' !in Basename(path)
  {
    match DatePart(Basename(path))
    case None => Crash
    case Some(d) =>
      match JulianToMonth(d)
      case None => Skip
      case Some(m) => Key(m)
  }

  /** The pieces of `country_day.tif` when neither part holds '_'. */
  lemma SplitCountryDay(country: string, rest: string)
    requires '_' !in country && '_' !in rest
    ensures Split(country + "_" + rest, '_') == [country, rest]
  {
    SplitAfterWord(country, "_" + rest, '_');
    var tail := "_" + rest;
    assert tail[1..] == rest;
    SplitAfterWord(rest, "", '_');
    assert rest + "" == rest;
    assert Split(tail, '_') == [""] + Split(rest, '_');
    assert country + "_" + rest == country + tail;
    assert country + "" == country;
  }

  /**
   * The two scripts fit together: a merged raster the downloader writes for a country
   * without '_' in its name and a seven-digit day is grouped by the month of that day, and
   * skipped when the day is not a date.
   */
  lemma DownloaderOutputMonth(dir: string, country: string, day: string)
    requires '_' !in country && '/' !in country && |day| == 7 && AllDigits(day)
    ensures MonthKey(Join(dir, country + "_" + day + ".tif"))
            == (match JulianToMonth(day) case None => Skip case Some(m) => Key(m))
  {
    var rest := day + ".tif";
    assert '_' !in rest && '/' !in rest by {
      assert forall i :: 0 <= i < |day| ==> IsDigit(rest[i]);
    }
    var name := country + "_" + rest;
    assert country + "_" + day + ".tif" == name;
    BasenameOfJoin(dir, name);
    SplitCountryDay(country, rest);
    assert rest[..7] == day;
  }

  /** The second '_'-separated piece of `a_b_rest` is `b`. */
  lemma SecondPiece(a: string, b: string, rest: string)
    requires '_' !in a && '_' !in b
    ensures |Split(a + "_" + b + "_" + rest, '_')| >= 2 && Split(a + "_" + b + "_" + rest, '_')[1] == b
  {
    var t := "_" + rest;
    var u := "_" + (b + t);
    assert a + "_" + b + "_" + rest == a + u;
    SplitAfterWord(a, u, '_');
    assert u[1..] == b + t;
    SplitAfterWord(b, t, '_');
    assert t[1..] == rest;
    assert Split(t, '_')[0] == "";
    assert Split(u, '_')[1] == b + "";
  }

  /** A date part that does not start with a digit is not a date. */
  lemma NotADate(d: string)
    requires d != [] && !IsDigit(d[0])
    ensures JulianToMonth(d).None?
  {
    assert !AllDigits(d);
  }

  /** The date part of `<a>_<word>_<rest>` is taken from `word`. */
  lemma DatePartOfWord(a: string, word: string, rest: string)
    requires '_' !in a && '_' !in word
    ensures DatePart(a + "_" + word + "_" + rest) == Some(Take(word, 7))
  {
    SecondPiece(a, word, rest);
  }

  /** A file named `<a>_<word>_<rest>` whose word does not start with a digit is skipped. */
  lemma WordNameSkipped(folder: string, a: string, word: string, rest: string)
    requires '_' !in a && '/' !in a
    requires word != [] && !IsDigit(word[0]) && '_' !in word && '/' !in word && '/' !in rest
    ensures MonthKey(Join(folder, a + "_" + word + "_" + rest)) == Skip
  {
    var name := a + "_" + word + "_" + rest;
    assert '/' !in name by {
      assert name == a + ("_" + (word + ("_" + rest)));
    }
    assert Basename(Join(folder, name)) == name by {
      BasenameOfJoin(folder, name);
    }
    assert DatePart(name) == Some(Take(word, 7)) by {
      DatePartOfWord(a, word, rest);
    }
    assert JulianToMonth(Take(word, 7)).None? by {
      NotADate(Take(word, 7));
    }
  }

  /**
   * The stacker's own outputs from an earlier run are never grouped: their second piece
   * is "mean" or "sigma", which is not a date.
   */
  lemma MeanOutputSkipped(folder: string, month: string)
    requires '/' !in month
    ensures MonthKey(MeanPath(folder, month)) == Skip
  {
    WordNameSkipped(folder, "output", "mean", month + ".tif");
  }

  lemma ClippedOutputSkipped(folder: string, month: string)
    requires '/' !in month
    ensures MonthKey(ClippedPath(folder, month)) == Skip
  {
    WordNameSkipped(folder, "output", "sigma", "clipped" + "_" + month + ".tif");
  }

  // ---------------------------------------------------------------------------
  // Pixels
  // ---------------------------------------------------------------------------

  /** A pixel above the threshold; a missing pixel (NaN) compares false. */
  predicate Above(v: Option<real>, t: real) {
    v.Some? && v.value > t
  }

  /** `data[data > t] = nan`, as a value. */
  function Threshold(s: seq<Option<real>>, t: real): (r: seq<Option<real>>)
    ensures |r| == |s|
    ensures forall i :: 0 <= i < |s| ==> if Above(s[i], t) then r[i].None? else r[i] == s[i]
  {
    seq(|s|, i requires 0 <= i < |s| => if Above(s[i], t) then None else s[i])
  }

  /** `data[data > t] = nan` on the band in place. */
  method ClipAbove(data: array<Option<real>>, t: real)
    modifies data
    ensures data[..] == Threshold(old(data[..]), t)
  {
    for i := 0 to data.Length
      invariant forall k :: 0 <= k < i ==> data[k] == Threshold(old(data[..]), t)[k]
      invariant forall k :: i <= k < data.Length ==> data[k] == old(data[k])
    {
      if Above(data[i], t) {
        data[i] := None;
      }
    }
  }

  /** After thresholding no present pixel is above the threshold. */
  lemma NothingAboveThreshold(s: seq<Option<real>>, t: real)
    ensures forall i :: 0 <= i < |s| ==> !Above(Threshold(s, t)[i], t)
  {
  }

  /** Thresholding twice at the same value changes nothing more; a lower threshold wins. */
  lemma ThresholdTwice(s: seq<Option<real>>, t1: real, t2: real)
    requires t1 <= t2
    ensures Threshold(Threshold(s, t2), t1) == Threshold(s, t1)
    ensures Threshold(Threshold(s, t1), t2) == Threshold(s, t1)
  {
    var a, b := Threshold(Threshold(s, t2), t1), Threshold(s, t1);
    assert forall i :: 0 <= i < |s| ==> a[i] == b[i];
    var c := Threshold(Threshold(s, t1), t2);
    assert forall i :: 0 <= i < |s| ==> c[i] == b[i];
  }

  /** The values of pixel `p` across the stack; an array too short for `p` gives nothing there. */
  function PixelColumn(arrays: seq<seq<Option<real>>>, p: nat): (col: seq<Option<real>>)
    ensures |col| == |arrays|
    ensures forall k :: 0 <= k < |arrays| && p < |arrays[k]| ==> col[k] == arrays[k][p]
  {
    seq(|arrays|, k requires 0 <= k < |arrays| => if p < |arrays[k]| then arrays[k][p] else None)
  }

  /** `np.nanmean(np.stack(arrays), axis=0)` over `n` pixels. */
  function MeanStack(arrays: seq<seq<Option<real>>>, n: nat): (r: seq<Option<real>>)
    ensures |r| == n
  {
    seq(n, p requires 0 <= p < n => MeanOfPresent(PixelColumn(arrays, p)))
  }

  /**
   * A pixel of the mean stack is missing exactly when it is missing in every array;
   * otherwise it lies between the smallest and largest present value there.
   */
  lemma MeanStackPixel(arrays: seq<seq<Option<real>>>, n: nat, p: nat, lo: real, hi: real)
    requires p < n && forall k :: 0 <= k < |arrays| ==> |arrays[k]| == n
    requires forall k :: 0 <= k < |arrays| && arrays[k][p].Some? ==> lo <= arrays[k][p].value <= hi
    ensures MeanStack(arrays, n)[p].None? <==> forall k :: 0 <= k < |arrays| ==> arrays[k][p].None?
    ensures MeanStack(arrays, n)[p].Some? ==> lo <= MeanStack(arrays, n)[p].value <= hi
  {
    var col := PixelColumn(arrays, p);
    if exists k :: 0 <= k < |arrays| && arrays[k][p].Some? {
      var k :| 0 <= k < |arrays| && arrays[k][p].Some?;
      assert col[k].Some?;
      MeanBetween(col, lo, hi);
    }
  }

  /** The mean of thresholded arrays is nowhere above the threshold. */
  lemma MeanOfThresholdedNotAbove(arrays: seq<seq<Option<real>>>, n: nat, t: real)
    requires forall k :: 0 <= k < |arrays| ==> exists s :: arrays[k] == Threshold(s, t)
    ensures forall p :: 0 <= p < n ==> !Above(MeanStack(arrays, n)[p], t)
  {
    forall p | 0 <= p < n ensures !Above(MeanStack(arrays, n)[p], t) {
      var col := PixelColumn(arrays, p);
      forall k | 0 <= k < |col| && col[k].Some? ensures col[k].value <= t {
        var s :| arrays[k] == Threshold(s, t);
        NothingAboveThreshold(s, t);
      }
      MeanAtMost(col, t);
    }
  }

  // ---------------------------------------------------------------------------
  // One month's rasters
  // ---------------------------------------------------------------------------

  /** The raster profile; the month's output uses the first file's with one band. */
  datatype Meta = Meta(driver: string, dtype: string, crs: string, count: int, height: int, width: int)

  /** The first band of a raster as read, with its shape and profile. */
  datatype Band = Band(height: nat, width: nat, pixels: seq<Option<real>>, meta: Meta)
  type Image = b: Band | |b.pixels| == b.height * b.width witness Band(0, 0, [], Meta("", "", "", 0, 0, 0))

  function ShapeOf(b: Band): (nat, nat) {
    (b.height, b.width)
  }

  /** `metadata.update(count=1)`. */
  function SingleBand(m: Meta): (r: Meta)
    ensures r.count == 1 && r.(count := m.count) == m
  {
    m.(count := 1)
  }

  /** The thresholded bands of the files shaped `shape`, in order. */
  function KeptWithShape(files: seq<string>, shape: (nat, nat), read: string -> Image, t: real): (r: seq<seq<Option<real>>>)
    ensures |r| <= |files|
    ensures forall k :: 0 <= k < |r| ==> |r[k]| == shape.0 * shape.1
    ensures forall k :: 0 <= k < |r| ==> exists f :: f in files && ShapeOf(read(f)) == shape && r[k] == Threshold(read(f).pixels, t)
    ensures forall i :: 0 <= i < |files| && ShapeOf(read(files[i])) == shape ==> Threshold(read(files[i]).pixels, t) in r
  {
    if files == [] then []
    else
      var init, f := files[..|files| - 1], files[|files| - 1];
      var rest := KeptWithShape(init, shape, read, t);
      assert forall g :: g in init ==> g in files;
      assert forall i :: 0 <= i < |init| ==> files[i] == init[i];
      if ShapeOf(read(f)) == shape then rest + [Threshold(read(f).pixels, t)] else rest
  }

  /**
   * Keeping distributes over concatenation: the kept arrays of `a + b` are those of `a`
   * followed by those of `b`, so every file of the shape is kept once, in file order.
   */
  lemma {:induction false} KeptWithShapeAppend(a: seq<string>, b: seq<string>, shape: (nat, nat), read: string -> Image, t: real)
    ensures KeptWithShape(a + b, shape, read, t) == KeptWithShape(a, shape, read, t) + KeptWithShape(b, shape, read, t)
    decreases |b|
  {
    if b == [] {
      assert a + b == a;
    } else {
      var init, f := b[..|b| - 1], b[|b| - 1];
      assert (a + b)[..|a + b| - 1] == a + init && (a + b)[|a + b| - 1] == f;
      KeptWithShapeAppend(a, init, shape, read, t);
    }
  }

  /** A single file is kept, thresholded, exactly when it has the shape. */
  lemma KeptWithShapeOne(f: string, shape: (nat, nat), read: string -> Image, t: real)
    ensures KeptWithShape([f], shape, read, t) == if ShapeOf(read(f)) == shape then [Threshold(read(f).pixels, t)] else []
  {
    assert [f][..0] == [];
  }

  /** The arrays stacked for a month: those shaped like the month's first file. */
  function Kept(files: seq<string>, read: string -> Image, t: real): seq<seq<Option<real>>> {
    if files == [] then [] else KeptWithShape(files, ShapeOf(read(files[0])), read, t)
  }

  /** The first file always sets the reference shape, so it is always stacked. */
  lemma {:induction false} FirstFileKept(files: seq<string>, read: string -> Image, t: real)
    requires files != []
    ensures Kept(files, read, t) != [] && Kept(files, read, t)[0] == Threshold(read(files[0]).pixels, t)
  {
    FirstOfPrefixKept(files, |files|, read, t);
    assert files[..|files|] == files;
  }

  lemma {:induction false} FirstOfPrefixKept(files: seq<string>, n: nat, read: string -> Image, t: real)
    requires 1 <= n <= |files|
    ensures var r := KeptWithShape(files[..n], ShapeOf(read(files[0])), read, t);
      r != [] && r[0] == Threshold(read(files[0]).pixels, t)
    decreases n
  {
    var pre := files[..n];
    assert pre[..|pre| - 1] == files[..n - 1] && pre[|pre| - 1] == files[n - 1];
    if n == 1 {
      assert files[..0] == [];
    } else {
      FirstOfPrefixKept(files, n - 1, read, t);
    }
  }

  /** All stacked arrays have the first file's shape, so they can be stacked pixel by pixel. */
  lemma KeptShareShape(files: seq<string>, read: string -> Image, t: real)
    requires files != []
    ensures forall k :: 0 <= k < |Kept(files, read, t)| ==> |Kept(files, read, t)[k]| == |read(files[0]).pixels|
  {
  }

  /** A copy of a band in a fresh array. */
  method ToArray(s: seq<Option<real>>) returns (a: array<Option<real>>)
    ensures fresh(a) && a[..] == s
  {
    a := new Option<real>[|s|](i requires 0 <= i < |s| => s[i]);
  }

  /**
   * The per-file loop of a month: read the first band, threshold it in place, take the
   * reference shape and profile from the first file, and keep the bands of that shape.
   */
  method CollectMonth(files: seq<string>, read: string -> Image, t: real)
    returns (arrays: seq<seq<Option<real>>>, meta: Option<Meta>)
    ensures arrays == Kept(files, read, t)
    ensures meta.None? <==> files == []
    ensures files != [] ==> meta == Some(SingleBand(read(files[0]).meta))
  {
    arrays := [];
    meta := None;
    var reference: Option<(nat, nat)> := None;
    for i := 0 to |files|
      invariant i == 0 <==> reference.None?
      invariant i == 0 <==> meta.None?
      invariant i == 0 ==> arrays == []
      invariant i > 0 ==> reference == Some(ShapeOf(read(files[0])))
      invariant i > 0 ==> meta == Some(SingleBand(read(files[0]).meta))
      invariant i > 0 ==> arrays == KeptWithShape(files[..i], ShapeOf(read(files[0])), read, t)
    {
      var src := read(files[i]);
      var data := ToArray(src.pixels);
      ClipAbove(data, t);
      if reference.None? {
        reference := Some(ShapeOf(src));
        meta := Some(SingleBand(src.meta));
        assert files[..1][..0] == [];
      }
      ghost var pre := files[..i + 1];
      assert pre[..|pre| - 1] == files[..i] && pre[|pre| - 1] == files[i];
      if ShapeOf(src) == reference.value {
        arrays := arrays + [data[..]];
      }
    }
    if files != [] {
      assert files[..|files|] == files;
    }
  }

  // ---------------------------------------------------------------------------
  // Writing a month
  // ---------------------------------------------------------------------------

  /** A file written for a month: a single-band raster or the plot. */
  datatype Written = Tif(path: string, meta: Meta, pixels: seq<Option<real>>) | Plot(path: string)

  // The output names, `output_mean_{month}.tif`, `output_sigma_clipped_{month}.tif` and
  // `output_plot_{month}.pdf`, written piece by piece around their '_' separators.
  function MeanPath(folder: string, month: string): string {
    Join(folder, "output" + "_" + "mean" + "_" + (month + ".tif"))
  }
  function ClippedPath(folder: string, month: string): string {
    Join(folder, "output" + "_" + "sigma" + "_" + ("clipped" + "_" + month + ".tif"))
  }
  function PlotPath(folder: string, month: string): string {
    Join(folder, "output" + "_" + "plot" + "_" + (month + ".pdf"))
  }

  /** The flags of a run. */
  datatype Options = Options(threshold: real, meanStacking: bool, sigmaStacking: bool, monthlyStacking: bool, deleteOriginals: bool)

  /**
   * `stack_and_save`: nothing without arrays; otherwise the mean stack when asked for, the
   * mean of the sigma-clipped stack when asked for, and the plot, in that order.
   */
  function StackAndSave(arrays: seq<seq<Option<real>>>, month: string, folder: string, meta: Meta, opts: Options,
                        clip: seq<seq<Option<real>>> -> seq<seq<Option<real>>>): (r: seq<Written>)
    ensures arrays == [] <==> r == []
    ensures arrays != [] ==>
      |r| == (if opts.meanStacking then 1 else 0) + (if opts.sigmaStacking then 1 else 0) + 1
      && r[|r| - 1] == Plot(PlotPath(folder, month))
    ensures arrays != [] && opts.meanStacking ==>
      r[0] == Tif(MeanPath(folder, month), meta, MeanStack(arrays, |arrays[0]|))
    ensures arrays != [] && opts.sigmaStacking ==>
      r[|r| - 2] == Tif(ClippedPath(folder, month), meta, MeanStack(clip(arrays), |arrays[0]|))
  {
    if arrays == [] then []
    else
      var n := |arrays[0]|;
      (if opts.meanStacking then [Tif(MeanPath(folder, month), meta, MeanStack(arrays, n))] else [])
      + (if opts.sigmaStacking then [Tif(ClippedPath(folder, month), meta, MeanStack(clip(arrays), n))] else [])
      + [Plot(PlotPath(folder, month))]
  }

  /** What one month produces: the files written and the originals deleted. */
  datatype MonthOutput = MonthOutput(month: string, written: seq<Written>, deleted: seq<string>)

  /** The whole of one month, as a value. */
  function MonthResult(month: string, files: seq<string>, folder: string, opts: Options, read: string -> Image,
                       clip: seq<seq<Option<real>>> -> seq<seq<Option<real>>>): (r: MonthOutput)
    ensures files != [] ==> r.written != [] && r.written[|r.written| - 1] == Plot(PlotPath(folder, month))
    ensures r.deleted == (if opts.deleteOriginals then files else [])
  {
    var deleted := if opts.deleteOriginals then files else [];
    if files == [] then MonthOutput(month, [], deleted)
    else
      FirstFileKept(files, read, opts.threshold);
      var arrays := Kept(files, read, opts.threshold);
      MonthOutput(month, StackAndSave(arrays, month, folder, SingleBand(read(files[0]).meta), opts, clip), deleted)
  }

  /** One month of `process_tif_files`: collect, stack and save, then delete when asked. */
  method ProcessMonth(month: string, files: seq<string>, folder: string, opts: Options, read: string -> Image,
                      clip: seq<seq<Option<real>>> -> seq<seq<Option<real>>>) returns (out: MonthOutput)
    ensures out == MonthResult(month, files, folder, opts, read, clip)
  {
    var arrays, meta := CollectMonth(files, read, opts.threshold);
    var written: seq<Written> := [];
    if arrays != [] {
      written := StackAndSave(arrays, month, folder, meta.value, opts, clip);
    }
    var deleted: seq<string> := [];
    if opts.deleteOriginals {
      for i := 0 to |files|
        invariant deleted == files[..i]
      {
        deleted := deleted + [files[i]];
      }
      assert files[..|files|] == files;
    }
    out := MonthOutput(month, written, deleted);
  }

  // ---------------------------------------------------------------------------
  // The whole run
  // ---------------------------------------------------------------------------

  /**
   * `process_tif_files`: without monthly stacking nothing happens. Otherwise the rasters
   * are grouped by month (a name without '_' stops the run before any month is processed)
   * and every month, in order of first appearance, is processed from its files.
   */
  method ProcessTifFiles(folder: string, listing: seq<string>, opts: Options, read: string -> Image,
                         clip: seq<seq<Option<real>>> -> seq<seq<Option<real>>>)
    returns (r: Result<seq<MonthOutput>, string>)
    ensures !opts.monthlyStacking ==> r == Success([])
    ensures opts.monthlyStacking ==> (r.Failure? <==> AnyCrash(TifFiles(folder, listing), MonthKey))
    ensures opts.monthlyStacking && r.Success? ==>
      var files := TifFiles(folder, listing);
      var months := KeyOrder(files, MonthKey);
      |r.value| == |months|
      && forall k :: 0 <= k < |months| ==>
           r.value[k] == MonthResult(months[k], Members(files, MonthKey, months[k]), folder, opts, read, clip)
  {
    if !opts.monthlyStacking {
      return Success([]);
    }
    var files := TifFiles(folder, listing);
    var grouped := GroupByKey(files, MonthKey);
    if grouped.Failure? {
      return Failure(grouped.error);
    }
    var outs := ProcessMonths(grouped.value.keys, grouped.value.members, folder, opts, read, clip);
    r := Success(outs);
  }

  /** The loop over the months, in order. */
  method ProcessMonths(months: seq<string>, byMonth: map<string, seq<string>>, folder: string, opts: Options,
                       read: string -> Image, clip: seq<seq<Option<real>>> -> seq<seq<Option<real>>>)
    returns (outs: seq<MonthOutput>)
    requires forall m :: m in months ==> m in byMonth
    ensures |outs| == |months|
    ensures forall k :: 0 <= k < |months| ==> outs[k] == MonthResult(months[k], byMonth[months[k]], folder, opts, read, clip)
  {
    outs := [];
    for k := 0 to |months|
      invariant |outs| == k
      invariant forall j :: 0 <= j < k ==> outs[j] == MonthResult(months[j], byMonth[months[j]], folder, opts, read, clip)
    {
      var out := ProcessMonth(months[k], byMonth[months[k]], folder, opts, read, clip);
      outs := outs + [out];
    }
  }

  /**
   * Only a file of the month is deleted with it: a file whose date does not parse is in
   * no month, so it is never stacked or deleted.
   */
  lemma OnlyTheMonthsFilesAreDeleted(files: seq<string>, folder: string, opts: Options, read: string -> Image,
                                     clip: seq<seq<Option<real>>> -> seq<seq<Option<real>>>, month: string, f: string)
    requires f in MonthResult(month, Members(files, MonthKey, month), folder, opts, read, clip).deleted
    ensures f in files && opts.deleteOriginals && MonthKey(f) == Key(month)
  {
  }
}
