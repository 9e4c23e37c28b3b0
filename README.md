# Black Marble Utilities — a verified model of the bookkeeping

Black Marble Utilities is a set of three scripts for NASA's Black Marble night-lights
rasters:

- `Downloader.py` searches the CMR catalogue day by day. It downloads the `.h5` tiles,
  groups them by acquisition day, converts the country's tiles into temporary GeoTIFFs and
  merges each day into `<country>_<day>.tif`.
- `Stacker.py` groups those rasters by calendar month (read from the `YYYYDDD` day in
  their names). It turns pixels above a threshold into missing values, keeps only the
  rasters shaped like the month's first one, and writes the per-pixel mean (and optionally
  a sigma-clipped mean) per month. It can also delete the originals.
- `Binner.py` lays a square grid over a country and intersects it with the country shape.
  It adds one column of zonal means per raster and one column of point means per CSV value
  column to the table of bins.

Almost everything these scripts do with pixels and geometry is a call into geopandas,
rasterio, rasterstats, h5py or astropy. This project models the scripts' own logic around
those calls and proves what it promises. That logic covers:

- file filters and name parsing
- the group-by loops
- the day loop of the catalogue search
- the link filter
- the ordinal-date conversion
- the grid arithmetic
- the nodata sentinel and the threshold
- the shape filter
- the per-pixel and per-bin means that skip missing values
- output names
- error paths
- which files get deleted

Foreign computations are parameters of the model:

- the catalogue's responses and whether a download succeeds (Downloader)
- the raster reader and the sigma clipper (Stacker)
- projections, overlay, zonal statistics and the point-in-polygon test (Binner)

Files:

- `wrappers.dfy`: `Option` and `Result`.
- `text.dfy`: digits, strip, split, suffixes and string order.
- `paths.dfy`: `os.path.join`, `basename` and `splitext`.
- `calendar.dfy`: leap years, ordinal days, the next day, `strptime('%Y%j')` and
  `strftime('%Y-%m')`.
- `stats.dfy`: the mean of the values that are present.
- `grouping.dfy`: the insertion-ordered group-by loop. Both the downloader (by day) and
  the stacker (by month) run it.
- `grid.dfy`: the bin grid.
- `binner.dfy`, `downloader.dfy`, `stacker.dfy`: one per script.

Numbers are mathematical: pixels and coordinates are `real`, and a missing value (NaN) is
`None`.

Where the intended design and the code disagree, the model follows the code:

- **Nodata is not excluded from the zonal means.** The NaN-masked band (`Binner.py:72`) is
  never used afterwards. Reprojection and zonal statistics read the band straight from the
  file. `Binner.MaskNodata` models the mask. `Binner.ZonalColumn` does not use it.
- **The point join is not injective.** The inner spatial join does not deduplicate. A
  point that meets several bins counts in the mean of each (`Binner.PointCountsInEveryBin`).
  Within one bin, every meeting point contributes its own entry, equal values included
  (`Binner.JoinedAppend`).
- **The CSV value columns are processed sorted, each name once**
  (`Index.difference`).
- **A clash stops the point loop.** The join is taken before that loop. A value column
  whose name is already a column of the table at that moment is renamed by the join, so
  looking it up fails and the run stops (`Binner.BinTable.AddPointColumns`).
- **A day with no selected tile fails.** Merging an empty list of rasters raises.
- **A tile listed twice for one day fails.** Its temporary file is removed twice, and the
  second removal raises.
- **A name without a day token fails.** A `.h5` name without `.A<digits>.` makes the
  `re.search(...).group` call raise. This stops the whole conversion.
- **A name without `_` fails.** In the stacker, a `.tif` base name without `_` raises an
  IndexError that is not caught. This stops the grouping before any month is processed.

## Model

| member | source | states |
|---|---|---|
| BinGrid.MakeGrid | Binner.py:49-54 | the side is the bin size times 1000; rows and cols are the ceilings of the extents over the side; a zero bin size fails |
| BinGrid.BuildCells | Binner.py:56-62 | the nested loop builds exactly the column-major list of cells `GridCells` |
| BinGrid.GridSize | Binner.py:56-62 | the grid has rows times cols cells, none when either count is not positive |
| BinGrid.GridIndex | Binner.py:57-58 | cell (x, y) is at list position x·rows + y |
| BinGrid.CellIsSquare | Binner.py:59-62 | every cell is an axis-aligned square whose side is the bin size in metres |
| BinGrid.CellsTile | Binner.py:59-62 | every point of the cols × rows rectangle anchored at (xmin, ymin) lies in exactly one cell |
| BinGrid.GridCoversBounds | Binner.py:52-54 | with positive extents and bin size, the grid has at least one row and column and covers the bounding box |
| BinGrid.NegativeBinSizeGivesNoCells | Binner.py:53-58 | a negative bin size gives non-positive counts, so the loops build no cell |
| Binner.Sentinel | Binner.py:70 | the declared nodata value unless it is unset or zero, else -32768; never zero |
| Binner.MaskNodata | Binner.py:72 | exactly the pixels equal to the sentinel become missing; every other pixel is kept |
| Paths.Stem | Binner.py:98 | the name up to its last '.', unless the dots are all leading, as `splitext` does |
| Paths.ColumnNameOfTif | Binner.py:98 | the column of `<dir>/<stem>.tif` is `<stem>` |
| Binner.BinTable.constructor | Binner.py:64-65 | the overlay's table holds the bins and the country's attribute columns |
| Binner.BinTable.SetColumn | Binner.py:99 | assigning a column replaces or appends that one column, and a new name goes last |
| Binner.BinTable.AddRasterColumns | Binner.py:68-99 | after the raster loop the columns are the assignments of each raster's zonal means under its name, in order |
| Binner.LastAssignmentWins | Binner.py:98-99 | a later raster with the same column name overwrites the earlier column |
| Binner.AssignKeeps | Binner.py:99 | assigning adds a column per name and changes no other column |
| Binner.ZonalColumn | Binner.py:97-99 | one zonal mean per bin, in bin order; ZonalColumnAppend gives the per-bin independence |
| Binner.ZonalColumnAppend | Binner.py:97-99 | each bin's zonal mean depends on that bin alone: the column of two bin lists in turn is their two columns in turn |
| Binner.ValueColumns | Binner.py:109 | the CSV columns other than longitude and latitude, sorted, once each |
| Binner.BinTable.AddPointColumns | Binner.py:108-111 | succeeds iff no value column is already a table column; then each value column holds its per-bin point means |
| Binner.PointColumnsAre | Binner.py:109-111 | after the CSV loop every value column holds its point means and other columns are unchanged |
| Binner.JoinedMembers | Binner.py:108 | a bin's joined values are exactly the values of the points that meet it |
| Binner.EmptyBinIsMissing | Binner.py:110-111 | a bin no point meets gets a missing mean |
| Binner.JoinedAppend | Binner.py:108-110 | adding a row appends its value to a bin's joined list exactly when it meets the bin: one entry per meeting point, in row order, with repeated values kept |
| Binner.PointColumn | Binner.py:110-111 | one point mean per bin, in bin order; PointColumnAppend, JoinedAppend, JoinedMembers and EmptyBinIsMissing give each bin's value |
| Binner.PointColumnAppend | Binner.py:110-111 | each bin's point mean depends on that bin alone: the column of two bin lists in turn is their two columns in turn |
| Binner.UnjoinedPointIsDropped | Binner.py:108 | a point that meets no bin changes no mean (inner join) |
| Binner.PointCountsInEveryBin | Binner.py:108-110 | a point meeting two bins counts in the mean of both |
| Binner.CountryShapes | Binner.py:39 | the selection is empty iff no row's name equals the country exactly |
| Binner.CropPaths | Binner.py:44-46 | each crop path starts with the output directory and ends with the raster's file name |
| Binner.PlotPaths | Binner.py:116-120 | one `<column>.png` per table column, in column order, inside the output directory unless the column name is absolute |
| Binner.TableOf | Binner.py:64-111 | the table fails exactly when a CSV value column clashes with a column present after the raster loop |
| Binner.BuildTable | Binner.py:64-111 | building the table column by column gives `TableOf` |
| Binner.ProcessRasterData | Binner.py:36-120 | an unknown country fails with nothing written; a zero bin size fails after the crops; on success the written files are the crops, `intersection.shp` and the column maps |
| Stats.Present | Binner.py:110 | the present values, in order; empty iff every value is missing |
| Stats.MeanOfPresent | Binner.py:110 | the mean is missing iff every value is missing |
| Stats.MeanWithin | Binner.py:110 | the mean of values between lo and hi lies between lo and hi |
| Stats.MeanBetween | Binner.py:110 | a mean of present values lies between their bounds |
| Stats.MeanOfConstant | Binner.py:110 | present values that are all equal have that value as mean |
| Stats.MeanSkipsMissing | Stacker.py:50 | inserting a missing value changes no mean |
| Stats.MeanAtMost | Stacker.py:50 | the mean of values at most h is at most h |
| Grouping.GroupByKey | Downloader.py:70-75 | fails iff some key raises an uncaught error; otherwise keys in order of first appearance, each with its items in listing order |
| Grouping.KeyOrder | Downloader.py:73-75 | the keys are distinct and exactly the keys of some item |
| Grouping.Members | Downloader.py:75 | a group holds exactly the items with that key |
| Grouping.GroupsPartition | Downloader.py:70-75 | the groups together hold each keyed item once per listing and nothing else |
| Grouping.InOneGroupOnly | Stacker.py:81-84 | an item with a key is in its key's group and in no other |
| Grouping.MembersAppend | Downloader.py:75 | the group of a listing split in two is the first part's group followed by the second's, so each group keeps listing order |
| Grouping.KeyedAppend | Downloader.py:70-75 | the keyed items of a listing split in two are the first part's followed by the second's |
| Grouping.KeyOrderFirstAppearance | Downloader.py:73-75 | when one key precedes another in the key order, an item with the first key is listed before every item with the second: keys come in order of first appearance |
| Downloader.H5Files | Downloader.py:67 | exactly the entries whose names end in ".h5" |
| Downloader.DayAt | Downloader.py:72 | a match at i is ".A", a non-empty digit run and "." |
| Downloader.DayFrom | Downloader.py:72 | no match is found only when the pattern matches nowhere from `i` on; a found day is a non-empty run of digits |
| Downloader.LeftmostDay | Downloader.py:72 | a match at `p` with none between `i` and `p` is the one the search returns |
| Downloader.DayToken | Downloader.py:72 | a found day is a non-empty run of digits; LeftmostDay and DayTokenOfArchiveName say which run |
| Downloader.DayAtArchiveDot | Downloader.py:72 | the pattern matches at the dot ending the product name and captures the day |
| Downloader.DayTokenOfArchiveName | Downloader.py:72 | an archive name `<product>.A<day>.<rest>` has day token `<day>` |
| Downloader.TileFrom | Downloader.py:84 | the first position from i where `h` two digits `v` two digits occurs |
| Downloader.TileId | Downloader.py:84 | the leftmost `hNNvNN` substring: six characters at a match position with no match before it; none iff there is no match |
| Downloader.TileIdOfArchiveName | Downloader.py:84 | an archive name with a tile after the day has that tile id |
| Downloader.CountryLookupsDisagree | Downloader.py:64 | a name with leading space finds no bounding box but selects the tiles of the stripped name |
| Downloader.RowsOf | Downloader.py:150 | exactly the table rows whose country equals the name |
| Downloader.TotalBounds | Downloader.py:151 | no bounds iff no rows; otherwise they contain every row's box |
| Downloader.TotalBoundsTight | Downloader.py:151 | each side of the box is the same side of some row's box, so no smaller box contains them all |
| Downloader.BoundingBox | Downloader.py:149-151 | no bounding box iff no row's country equals the name exactly |
| Downloader.TempPath | Downloader.py:97 | the temporary file path starts with the input folder and ends with `temp_<tile>.tif` |
| Downloader.TempsFailIffNoTileId | Downloader.py:83-84 | a day's conversion raises iff one of its files has no tile id |
| Downloader.TempsAreSelectedTiles | Downloader.py:83-113 | the temporary files are exactly those of the day's files whose tile is selected for the stripped country |
| Downloader.Temps | Downloader.py:80-113 | never more temporary files than day files; TempsFailIffNoTileId and TempsAreSelectedTiles give the failure case and the contents |
| Downloader.PrefixMissingTile | Downloader.py:83-84 | a file without tile id stops the loop whatever follows |
| Downloader.CollectTemps | Downloader.py:80-113 | the per-file loop gives `Temps` |
| Downloader.RemoveTemps | Downloader.py:123-124 | removing the temporary files succeeds iff none is listed twice |
| Downloader.PlanDay | Downloader.py:78-142 | a converted day writes `<country>_<day>.tif` and removes its `.h5` files |
| Downloader.RemoveTiles | Downloader.py:141-142 | the loop removes each of the day's files from the input folder, in order |
| Downloader.PlanDayFailures | Downloader.py:83-124 | a day fails for a missing tile id, for nothing to merge, or for a temp removed twice, each exactly when its cause holds |
| Downloader.ProcessDay | Downloader.py:78-142 | one day's loop gives `PlanDay` |
| Downloader.StopAtFailure | Downloader.py:78-142 | the converted days never outnumber the days |
| Downloader.StopAtFailurePrefix | Downloader.py:78-142 | every day before the stopping point converted to the output it reports |
| Downloader.StopAtFailureFailure | Downloader.py:78-142 | without a failure every day converted; a failure names the first day whose plan failed, with its reason |
| Downloader.ConvertDays | Downloader.py:78-142 | the loop over the days stops at the first failing day, giving `StopAtFailure` of the days' plans |
| Downloader.ProcessH5Files | Downloader.py:61-142 | a file without day token stops the run before any day; otherwise the days of first appearance are converted in order |
| Downloader.DayOwnsItsFiles | Downloader.py:70-75 | a file with a day token is in its day's group and in no other |
| Downloader.TileLinks | Downloader.py:172-175 | kept links are exactly the hrefs starting "https" and ending ".h5"; TileLinksAppend gives their order |
| Downloader.TileLinksAppend | Downloader.py:172-175 | the tile links of two link lists in turn are their tile links in turn, so links stay in encounter order, repeats included |
| Downloader.DayLinks | Downloader.py:166-175 | a non-200 response adds nothing |
| Downloader.GranuleLinks | Downloader.py:169-175 | a link is kept iff it is a tile link of a granule dated the target day; GranuleLinksAppend gives their order |
| Downloader.GranuleLinksAppend | Downloader.py:169-175 | the kept links of two granule lists in turn are their kept links in turn, so granules contribute in encounter order |
| Downloader.KeptLinksAre | Downloader.py:166-176 | a day's links are the tile links of its granules dated that day, from a 200 response |
| Calendar.NextDay | Downloader.py:177 | the next day is a valid date one ordinal later |
| Calendar.NotAfterIsOrdinalOrder | Downloader.py:158 | date comparison is ordinal comparison |
| Downloader.DaysAfter | Downloader.py:177 | k days on is a valid date k ordinals later |
| Downloader.Days | Downloader.py:157-177 | the visited days are start, start + 1, ... in order |
| Downloader.SearchLinks | Downloader.py:153-178 | the search overflows iff it must step past 9999-12-31; otherwise it returns the links of every day from start to end |
| Downloader.StillToVisit | Downloader.py:158 | the loop runs on iff fewer than `DayCount` days are visited |
| Downloader.VisitsEachDayOnce | Downloader.py:157-177 | every day from start to end is visited, once, and none when start is after end |
| Downloader.DownloadName | Downloader.py:194-195 | the file name holds no '/' |
| Downloader.DownloadNameIsLastSegment | Downloader.py:194-195 | the file name is the stripped URL's text after its last '/' |
| Downloader.DownloadAll | Downloader.py:193-208 | the download loop saves exactly `Saved` |
| Downloader.SavedAppend | Downloader.py:193-208 | the loop's result over two lists is the results one after the other |
| Downloader.FailedDownloadIsSkipped | Downloader.py:198-208 | a failed download saves nothing and the loop goes on |
| Downloader.Unique | Downloader.py:147 | each name once, no other |
| Downloader.UniqueIsKeyOrder | Downloader.py:147 | the unique names are the grouping's key order with each name its own key, so they come in order of first appearance |
| Downloader.CleanName | Downloader.py:147 | the cleaned name has no surrounding whitespace |
| Downloader.CleanNameOfQuoted | Downloader.py:147 | a name in surrounding quotes cleans to its inner text with the surrounding whitespace stripped |
| Downloader.CleanNameKeepsCleanName | Downloader.py:147 | a name with no quote or whitespace at either end is kept unchanged |
| Downloader.LoadedCountriesComeFromTable | Downloader.py:147 | a loaded name is the cleaning of a table name, and every table name gives one |
| Downloader.LoadCountries | Downloader.py:145-147 | one cleaned name per unique table name, in the same order; LoadedCountriesComeFromTable gives the contents |
| Downloader.CleanNameIsStripped | Downloader.py:147 | a cleaned name is unchanged by stripping whitespace again |
| Text.StripIdempotent | Downloader.py:64 | stripping twice is stripping once |
| Calendar.ParseYearDay | Stacker.py:29 | a parsed `%Y%j` has five to seven characters, a day from 1 to 366 and a year at most 9999, and the string is the year's four digits followed by the day's digits |
| Calendar.ParseYearDayOfDigits | Stacker.py:29 | the seven digits of year y, day j parse as (y, j) |
| Calendar.ParseYearDayOfShortDigits | Stacker.py:29 | four year digits followed by one to three day digits, such as "20201", also parse as (y, j) |
| Calendar.JulianToMonth | Stacker.py:28-31 | a month key exists only for a string `strptime('%Y%j')` accepts; JulianToMonthIsMonthOfDay gives the key |
| Calendar.MonthOfDay | Stacker.py:29 | day d of year y lies in the returned month |
| Calendar.MonthsFillYear | Stacker.py:29 | the month lengths add up to the year's length |
| Calendar.JulianToMonthIsMonthOfDay | Stacker.py:28-29 | `YYYYDDD` gives `YYYY-MM` with MM the month holding day DDD of year YYYY |
| Calendar.Day60 | Stacker.py:28-29 | day 60 is 29 February in a leap year and 1 March otherwise |
| Calendar.Day366OfCommonYear | Stacker.py:28-29 | day 366 of a common year is read as January of the next year |
| Calendar.JulianToMonthGivesMonth | Stacker.py:28-29 | every result is a month of a year from 1 to 9999 |
| Calendar.FormatYearMonthInjective | Stacker.py:29 | different months print differently |
| Stacker.TifFiles | Stacker.py:74 | exactly the folder's non-hidden names ending in ".tif", joined to the folder |
| Stacker.DatePart | Stacker.py:80 | there is no date part iff the base name has no '_'; otherwise at most seven characters |
| Stacker.SplitHasSecondPiece | Stacker.py:80 | a second '_'-piece exists iff the name holds '_' |
| Stacker.MonthKey | Stacker.py:78-86 | the grouping stops iff the base name has no '_' |
| Stacker.DatePartOfWord | Stacker.py:80 | the date part of `<a>_<word>_<rest>` is the first seven characters of `<word>` |
| Stacker.DownloaderOutputMonth | Stacker.py:78-86 | a merged day raster `<country>_<YYYYDDD>.tif` goes to the month of its day, or is skipped when that day is not a date |
| Stacker.WordNameSkipped | Stacker.py:80-86 | a name whose second piece does not start with a digit is skipped |
| Stacker.MeanOutputSkipped | Stacker.py:80-86 | the stacker's own mean output `output_mean_<month>.tif` has a date piece `mean` that is no month, so it is never grouped again |
| Stacker.ClippedOutputSkipped | Stacker.py:80-86 | the stacker's own clipped output `output_sigma_clipped_<month>.tif` has a date piece `sigma` that is no month, so it is never grouped again |
| Stacker.Threshold | Stacker.py:95 | every pixel above the threshold becomes missing and every other pixel is unchanged |
| Stacker.ClipAbove | Stacker.py:95 | thresholding in place leaves the array equal to `Threshold` of its old contents |
| Stacker.NothingAboveThreshold | Stacker.py:95 | no present pixel is above the threshold afterwards |
| Stacker.ThresholdTwice | Stacker.py:95 | thresholding again at a higher value changes nothing; a lower value wins |
| Stacker.MeanStackPixel | Stacker.py:50 | a mean pixel is missing iff it is missing in every array, else between the arrays' bounds there |
| Stacker.MeanStack | Stacker.py:50 | one mean pixel per position; MeanStackPixel gives each pixel |
| Stacker.MeanOfThresholdedNotAbove | Stacker.py:50 | the mean of thresholded arrays is nowhere above the threshold |
| Stacker.SingleBand | Stacker.py:98-99 | the output profile is the first file's with count 1 |
| Stacker.KeptWithShape | Stacker.py:100-103 | every kept array has the reference shape and is the thresholded band of such a file; every file of that shape has its thresholded band kept |
| Stacker.KeptWithShapeAppend | Stacker.py:99-103 | the kept arrays of two runs of files concatenate, so the files of the shape are kept once each, in file order |
| Stacker.FirstFileKept | Stacker.py:96-101 | the first file sets the reference shape, so its band is always stacked first |
| Stacker.KeptShareShape | Stacker.py:96-103 | all stacked arrays have the size of the first file's band |
| Stacker.CollectMonth | Stacker.py:89-103 | the per-file loop keeps `Kept`; the profile is the first file's with one band |
| Stacker.StackAndSave | Stacker.py:38-69 | nothing without arrays; otherwise the mean stack, the clipped mean stack and the plot, as the flags ask |
| Stacker.MonthResult | Stacker.py:88-108 | a month with files always writes its plot, and deletes exactly its files when asked |
| Stacker.ProcessMonth | Stacker.py:88-108 | one month's processing gives `MonthResult` |
| Stacker.ProcessMonths | Stacker.py:88 | every month is processed, in order |
| Stacker.ProcessTifFiles | Stacker.py:73-108 | nothing without monthly stacking; the run stops iff a name has no '_'; otherwise each month of first appearance is processed from its files |
| Stacker.OnlyTheMonthsFilesAreDeleted | Stacker.py:107-108 | a deleted file is a file of that month, so an unparsed file is never deleted |

## Left out

- Reading and writing rasters, shapefiles, HDF5 files and CSV files is not modelled. The
  model works on their contents as values, or on the names of the files written.
- Binner.ZonalColumn: the zonal means come from the `Geometry` parameter. Reprojection,
  the overlay and the point-in-polygon test are parameters too.
- Binner.ProcessRasterData: the crop contents, the map rendering and the CRS changes are
  not modelled. Nor is `os.makedirs`. Every crop is taken to succeed: the ValueError
  `mask(..., crop=True)` raises when the country does not overlap a raster
  (`Binner.py:19-21`) is not modelled.
- Binner.TableOf: the CSV rows always carry coordinates and numeric values. The
  AttributeError of a CSV without longitude or latitude (`Binner.py:104`) and the error of
  averaging a non-numeric column (`Binner.py:110`) are not modelled.
- Downloader.PlanDay: the tile bounds from the boundary table (`Downloader.py:93-94`) are
  not modelled. Nor are the GeoTIFF profile or the merged pixels.
- Downloader.PlanDay: a NoTileId failure reports no files written. Yet the temporary files
  of the selected files before the failing one were already written and stay in the input
  folder (`Downloader.py:84-113`).
- Downloader.SearchLinks: the HTTP request is modelled as the `catalogue` parameter. The
  bounding-box and page-size query parameters are not modelled. Nor is the JSON decoding.
- Downloader.DownloadAll: the request, the bearer token, the SSL context and the user
  agent are not modelled. `fetch` says whether a download succeeds.
- The `main` functions are not modelled: argument parsing, the Tkinter folder dialog,
  and the module-level shapefile loads. Nor is the chaining of search, download and
  conversion in `Downloader.py:39-58` and `Downloader.py:181-216`. Its parts are modelled
  one by one.
- `strptime('%Y-%m-%d')` of the command-line dates is not modelled. `SearchLinks` takes
  valid dates.
- Calendar.FormatDate, Calendar.FormatYearMonth: years are printed with four digits.
  Years below 1000 print unpadded on some platforms, which also changes the month key of
  `JulianToMonth`.
- Calendar.ParseYearDay, Downloader.DayAt, Downloader.TileAt: only ASCII digits are
  accepted. Python's `\d` in `strptime` and in the day and tile patterns also matches
  other Unicode digits.
- The listing order of `os.listdir` and `glob` is taken as given.
- Stacker.CollectMonth: the float32 cast of the band (`Stacker.py:94`) is not modelled.
  Pixels are exact reals.
- Stacker.StackAndSave: sigma clipping is the `clip` parameter, and astropy's algorithm is
  not modelled. The plot's contents are not modelled; only its file name is.
- Stacker.ProcessMonth: a failing `os.remove` is not modelled.
- IEEE floating point is not modelled: NaN propagation, the all-NaN warning of `nanmean`,
  and rounding in the grid arithmetic. Missing values are `None` and numbers are exact.
