/**
  The whole validation pass: scan (when a dump folder is given), merge, icon
  check, implied and orphaned categories, key formats, and the exit status.
  File contents, the folder listing and the image folder are parameters.
 */
module Validator {
  import opened Maybe
  import opened AmiiboId
  import opened Database
  import opened Scan
  import opened Checks
  import opened ErrorBits

  /** The findings of one run, one field per category. */
  datatype Report = Report(
    missingArgs: bool,
    missingFromJson: seq<(string, string)>,
    missingBin: set<string>,
    missingImage: map<string, string>,
    missingGameSeries: map<string, set<string>>,
    missingAmiiboSeries: map<string, set<string>>,
    noAmiiboInGameSeries: set<string>,
    noAmiiboInSeries: set<string>,
    noAmiiboForCharacter: set<string>,
    invalidAmiiboSeriesIds: set<string>,
    invalidAmiiboIds: set<string>,
    invalidCharacterIds: set<string>,
    invalidGameSeriesIds: set<string>,
    invalidTypeIds: set<string>)

  /** The report of a run that was given no arguments. */
  const NoArgumentsReport: Report :=
    Report(true, [], {}, map[], map[], map[], {}, {}, {}, {}, {}, {}, {}, {})

  /** Where the run throws: the folder listing, or a substring past the end of a string. */
  datatype CrashSite =
    | FolderListing         // the dump folder argument is empty once trimmed, which the listing rejects
    | ImageCheck            // the icon loop: a key shorter than 18, or a missing icon whose value is the dump folder itself
    | GameSeriesCheck       // a declared game series key is shorter than 2
    | AmiiboSeriesCheck     // a declared amiibo series key is shorter than 2
    | CharacterCheck        // a declared character key is shorter than 2

  /** A run either returns an exit status with its findings or stops with an exception. */
  datatype Outcome = Exited(code: bv32, report: Report) | Threw(site: CrashSite)

  /** Whether a report has at least one finding of a category. */
  predicate HasFindings(r: Report, c: Category) {
    match c
    case MissingArgs => r.missingArgs
    case MissingBin => r.missingBin != {}
    case MissingFromJson => r.missingFromJson != []
    case MissingImage => r.missingImage != map[]
    case MissingGameSeries => r.missingGameSeries != map[]
    case MissingAmiiboSeries => r.missingAmiiboSeries != map[]
    case NoAmiiboInGameSeries => r.noAmiiboInGameSeries != {}
    case NoAmiiboInSeries => r.noAmiiboInSeries != {}
    case NoAmiiboForCharacter => r.noAmiiboForCharacter != {}
    case InvalidAmiiboSeriesId => r.invalidAmiiboSeriesIds != {}
    case InvalidAmiiboId => r.invalidAmiiboIds != {}
    case InvalidCharacterId => r.invalidCharacterIds != {}
    case InvalidGameSeriesId => r.invalidGameSeriesIds != {}
    case InvalidTypeId => r.invalidTypeIds != {}
  }

  /** The categories a report raises. */
  function Raised(r: Report): set<Category> {
    set c: Category | c in AllCategories && HasFindings(r, c)
  }

  /** The exit status of a report: the OR of the flags of the raised categories. */
  function ExitCode(r: Report): bv32 {
    ToMask(Raised(r))
  }

  /** A declared key shorter than 2 makes Substring(2) throw, but only once an amiibo is compared with it. */
  predicate ThrowsOnDeclared(declared: set<string>, amiibos: set<string>) {
    amiibos != {} && exists d :: d in declared && |d| < 2
  }

  /** The dump folder argument with one trailing backslash removed. */
  function TrimFolder(arg: string): (path: string)
    ensures arg == path || arg == path + "\\"
    ensures |path| < |arg| <==> |arg| > 0 && arg[|arg| - 1] == '\\'
    ensures path == "" <==> arg == "" || arg == "\\"
  {
    if |arg| > 0 && arg[|arg| - 1] == '\\' then arg[..|arg| - 1] else arg
  }

  /** A dump folder, when one was given, is a path the listing accepts: it is not empty. */
  predicate FolderListable(scan: Option<DumpFolder>) {
    scan.Some? ==> scan.value.path != ""
  }

  /** The dump folder the icon report shows paths relative to; empty when none was given. */
  function FolderPath(scan: Option<DumpFolder>): string {
    if scan.Some? then scan.value.path else ""
  }

  /**
    The icon report shows a value that starts with a non-empty dump folder by
    dropping the folder and one separator; that substring throws when the
    value is no longer than the folder.
   */
  predicate DisplayThrows(folder: string, value: string) {
    folder != "" && folder <= value && |value| < |folder| + 1
  }

  /** The display throws exactly for a value equal to a non-empty folder. */
  lemma DisplayThrowsIff(folder: string, value: string)
    ensures DisplayThrows(folder, value) <==> folder != "" && value == folder
  {
    if folder <= value && |value| <= |folder| {
      assert value == folder[..|value|];
    }
  }

  /** The scan's result when a dump folder was given, and an empty one otherwise. */
  function Scanned(catalog: Catalog, scan: Option<DumpFolder>): ScanResult {
    if scan.Some? then ScanDumps(scan.value.dumps, catalog.amiibos.Keys) else ScanResult(map[], [])
  }

  /** The map the icon check walks: dumped identifiers with their paths, catalog-only amiibos with their names. */
  function Merged(catalog: Catalog, scan: Option<DumpFolder>): map<string, string> {
    Merge(Scanned(catalog, scan).discovered, catalog.amiibos)
  }

  /**
    The first check, in program order, that throws. The icon loop comes first;
    the orphan checks can only throw once it has passed and there is an amiibo.
   */
  function CrashSiteOf(merged: map<string, string>, folder: string, images: set<string>, catalog: Catalog): (site: Option<CrashSite>)
    ensures (exists k :: k in merged && |k| < AmiiboIdLength) ==> site == Some(ImageCheck)
    ensures site.Some? && site.value != ImageCheck ==>
      catalog.amiibos != map[] && forall k :: k in merged ==> |k| >= AmiiboIdLength
  {
    var amiibos := catalog.amiibos.Keys;
    if exists k :: k in merged && |k| < AmiiboIdLength then Some(ImageCheck)
    else if exists k :: k in merged && ImageName(k) !in images && DisplayThrows(folder, merged[k]) then Some(ImageCheck)
    else if ThrowsOnDeclared(catalog.gameSeries.Keys, amiibos) then Some(GameSeriesCheck)
    else if ThrowsOnDeclared(catalog.amiiboSeries.Keys, amiibos) then Some(AmiiboSeriesCheck)
    else if ThrowsOnDeclared(catalog.characters.Keys, amiibos) then Some(CharacterCheck)
    else None
  }

  /** With no crash site every declared key is long enough for the orphan checks. */
  lemma NoCrashSiteDeclaredSliceable(merged: map<string, string>, folder: string, images: set<string>, catalog: Catalog)
    requires CrashSiteOf(merged, folder, images, catalog).None?
    ensures DeclaredSliceable(catalog.gameSeries.Keys, catalog.amiibos.Keys)
    ensures DeclaredSliceable(catalog.amiiboSeries.Keys, catalog.amiibos.Keys)
    ensures DeclaredSliceable(catalog.characters.Keys, catalog.amiibos.Keys)
  {
    var amiibos := catalog.amiibos.Keys;
    assert !ThrowsOnDeclared(catalog.gameSeries.Keys, amiibos);
    assert !ThrowsOnDeclared(catalog.amiiboSeries.Keys, amiibos);
    assert !ThrowsOnDeclared(catalog.characters.Keys, amiibos);
  }

  /** The findings of a run that reaches the end; every finding names an entry of what was checked. */
  function Findings(catalog: Catalog, scan: Option<DumpFolder>, images: set<string>): (r: Report)
    requires CrashSiteOf(Merged(catalog, scan), FolderPath(scan), images, catalog).None?
    ensures !r.missingArgs
    ensures r.missingBin <= catalog.amiibos.Keys && r.missingImage.Keys <= Merged(catalog, scan).Keys
    ensures r.noAmiiboInGameSeries <= catalog.gameSeries.Keys
    ensures r.noAmiiboInSeries <= catalog.amiiboSeries.Keys
    ensures r.noAmiiboForCharacter <= catalog.characters.Keys
    ensures r.invalidAmiiboSeriesIds <= catalog.amiiboSeries.Keys && r.invalidAmiiboIds <= catalog.amiibos.Keys
    ensures r.invalidCharacterIds <= catalog.characters.Keys && r.invalidGameSeriesIds <= catalog.gameSeries.Keys
    ensures r.invalidTypeIds <= catalog.types.Keys
  {
    var amiibos := catalog.amiibos.Keys;
    var scanned := Scanned(catalog, scan);
    NoCrashSiteDeclaredSliceable(Merged(catalog, scan), FolderPath(scan), images, catalog);
    Report(
      false,
      scanned.missingFromJson,
      if scan.Some? then MissingBins(amiibos, scanned.discovered) else {},
      MissingImages(Merged(catalog, scan), images),
      MissingGroups(GameSeriesCode, amiibos, catalog.gameSeries.Keys),
      MissingGroups(AmiiboSeriesCode, amiibos, catalog.amiiboSeries.Keys),
      Orphans(GameSeriesCode, catalog.gameSeries.Keys, amiibos),
      Orphans(AmiiboSeriesCode, catalog.amiiboSeries.Keys, amiibos),
      Orphans(CharacterCode, catalog.characters.Keys, amiibos),
      InvalidKeys(AmiiboSeriesIdLength, catalog.amiiboSeries.Keys),
      InvalidKeys(AmiiboIdLength, amiibos),
      InvalidKeys(CharacterIdLength, catalog.characters.Keys),
      InvalidKeys(GameSeriesIdLength, catalog.gameSeries.Keys),
      InvalidKeys(TypeIdLength, catalog.types.Keys))
  }

  /**
    A run with a catalog path; `scan` holds the dump folder when one was given,
    and `images` the icon names the existence test finds in the icon folder.
    An empty dump folder path makes the listing throw before any dump is read.
    A run that reaches the end returns the flags of exactly the categories it found.
   */
  function Run(catalog: Catalog, scan: Option<DumpFolder>, images: set<string>): (r: Outcome)
    ensures !FolderListable(scan) ==> r == Threw(FolderListing)
    ensures r.Exited? ==> r.code == ExitCode(r.report) && !r.report.missingArgs
    ensures r.Exited? ==> FromMask(r.code) == Raised(r.report)
    ensures r.Exited? ==> (r.code == 0 <==> forall c :: !HasFindings(r.report, c))
  {
    if !FolderListable(scan) then Threw(FolderListing)
    else match CrashSiteOf(Merged(catalog, scan), FolderPath(scan), images, catalog)
    case Some(site) => Threw(site)
    case None =>
      var report := Findings(catalog, scan, images);
      ExitCodeBits(report);
      Exited(ExitCode(report), report)
  }

  /**
    The program: with no arguments it returns the "missing arguments" flag
    without reading anything; otherwise the first argument names the catalog
    and a second one, when present, the dump folder whose files are `dumps`.
   */
  function Validate(args: seq<string>, catalog: Catalog, dumps: seq<Dump>, images: set<string>): (r: Outcome)
    ensures |args| == 0 ==> r == Exited(1, NoArgumentsReport)
    ensures |args| == 0 ==> FromMask(r.code) == {MissingArgs}
    ensures r.Exited? ==> r.code == ExitCode(r.report)
    ensures r.Exited? && |args| > 0 ==> !r.report.missingArgs
    ensures |args| == 1 ==> r == Run(catalog, None, images)
    ensures |args| >= 2 ==> r == Run(catalog, Some(DumpFolder(TrimFolder(args[1]), dumps)), images)
  {
    if |args| < 1 then
      ExitCodeBits(NoArgumentsReport);
      MissingArgsOnly();
      Exited(Flag(MissingArgs), NoArgumentsReport)
    else
      Run(catalog, if |args| > 1 then Some(DumpFolder(TrimFolder(args[1]), dumps)) else None, images)
  }

  /** A dump folder argument throws at the listing exactly when it is empty or a lone backslash. */
  lemma EmptyFolderArgumentThrows(args: seq<string>, catalog: Catalog, dumps: seq<Dump>, images: set<string>)
    requires |args| >= 2
    ensures Validate(args, catalog, dumps, images) == Threw(FolderListing) <==> args[1] == "" || args[1] == "\\"
  {
    ListingThrowsIff(catalog, Some(DumpFolder(TrimFolder(args[1]), dumps)), images);
  }

  /** Only the folder listing throws `FolderListing`, and it does exactly for an empty dump folder path. */
  lemma ListingThrowsIff(catalog: Catalog, scan: Option<DumpFolder>, images: set<string>)
    ensures Run(catalog, scan, images) == Threw(FolderListing) <==> scan.Some? && scan.value.path == ""
  {
  }

  /** The raised categories of the no-argument report. */
  lemma MissingArgsOnly()
    ensures Raised(NoArgumentsReport) == {MissingArgs}
    ensures ExitCode(NoArgumentsReport) == Flag(MissingArgs)
  {
    AllCategoriesDistinct();
    assert Raised(NoArgumentsReport) == {MissingArgs};
    ToMaskSingle(MissingArgs);
  }

  /** The exit status has a category's bit set exactly when the report has a finding of it. */
  lemma ExitCodeBits(r: Report)
    ensures forall c :: (ExitCode(r) & Flag(c) != 0) <==> HasFindings(r, c)
    ensures ExitCode(r) == 0 <==> forall c :: !HasFindings(r, c)
    ensures FromMask(ExitCode(r)) == Raised(r)
  {
    forall c ensures (ExitCode(r) & Flag(c) != 0) <==> HasFindings(r, c) {
      AllCategoriesDistinct();
      ToMaskBit(Raised(r), c);
    }
    assert ExitCode(r) == 0 <==> forall c :: !HasFindings(r, c) by {
      AllCategoriesDistinct();
      ToMaskZero(Raised(r));
    }
    assert FromMask(ExitCode(r)) == Raised(r) by {
      FromToMask(Raised(r));
    }
  }

  /** Every catalog amiibo key is long enough for the icon name and every scanned dump reaches offset 0x5C. */
  predicate InputsLongEnough(catalog: Catalog, scan: Option<DumpFolder>) {
    && (forall k :: k in catalog.amiibos ==> |k| >= AmiiboIdLength)
    && (scan.Some? ==> forall d :: d in scan.value.dumps ==> |d.1| >= DumpIdOffset + DumpIdBytes)
  }

  /** Once there is an amiibo, every declared key is long enough to drop its first two characters. */
  predicate DeclaredLongEnough(catalog: Catalog) {
    && DeclaredSliceable(catalog.gameSeries.Keys, catalog.amiibos.Keys)
    && DeclaredSliceable(catalog.amiiboSeries.Keys, catalog.amiibos.Keys)
    && DeclaredSliceable(catalog.characters.Keys, catalog.amiibos.Keys)
  }

  /** No entry whose icon is missing has a non-empty folder as its whole value. */
  predicate FolderNotAValue(merged: map<string, string>, folder: string, images: set<string>) {
    forall k :: k in merged && |k| >= AmiiboIdLength && ImageName(k) !in images ==> folder == "" || merged[k] != folder
  }

  /** Every key a run looks at is long enough for the substrings it takes. */
  predicate Sliceable(catalog: Catalog, scan: Option<DumpFolder>) {
    InputsLongEnough(catalog, scan) && DeclaredLongEnough(catalog)
  }

  /**
    The dump folder, when given, is a path the listing accepts, and no entry
    whose icon is missing is shown with a value equal to it.
   */
  predicate FolderUsable(catalog: Catalog, scan: Option<DumpFolder>, images: set<string>) {
    FolderListable(scan) && FolderNotAValue(Merged(catalog, scan), FolderPath(scan), images)
  }

  /** The identifiers the merged map holds: those of the dumps, if scanned, and the catalog's. */
  lemma MergedKeys(catalog: Catalog, scan: Option<DumpFolder>)
    ensures Merged(catalog, scan).Keys == (if scan.Some? then DumpIds(scan.value.dumps) else {}) + catalog.amiibos.Keys
  {
  }

  /** Every merged key is long enough for the icon name exactly when every catalog key is and every scanned dump reaches 0x5C. */
  lemma MergedShortIff(catalog: Catalog, scan: Option<DumpFolder>)
    ensures AllSliceable(Merged(catalog, scan).Keys) <==> InputsLongEnough(catalog, scan)
  {
    MergedKeys(catalog, scan);
    if scan.Some? {
      forall d | d in scan.value.dumps
        ensures DumpId(d.1) in DumpIds(scan.value.dumps)
        ensures |DumpId(d.1)| < AmiiboIdLength <==> |d.1| < DumpIdOffset + DumpIdBytes
      {
        DumpIdFullLength(d.1);
      }
    }
  }

  /** No check throws exactly when every key is long enough and no missing icon is shown as the folder itself. */
  lemma CrashSiteNoneIff(merged: map<string, string>, folder: string, images: set<string>, catalog: Catalog)
    ensures CrashSiteOf(merged, folder, images, catalog).None? <==>
      AllSliceable(merged.Keys) && FolderNotAValue(merged, folder, images) && DeclaredLongEnough(catalog)
  {
    forall k | k in merged {
      DisplayThrowsIff(folder, merged[k]);
    }
  }

  /**
    A run throws exactly when the dump folder path is empty or a substring runs
    past the end of a string: a catalog amiibo key or a dump shorter than 0x5C
    bytes fails the icon name, a missing icon whose value is the dump folder
    itself fails the relative display, and a declared key shorter than 2 fails
    its orphan check once there is an amiibo.
   */
  lemma RunThrowsIff(catalog: Catalog, scan: Option<DumpFolder>, images: set<string>)
    ensures Run(catalog, scan, images).Exited? <==> Sliceable(catalog, scan) && FolderUsable(catalog, scan, images)
    ensures scan.Some? && scan.value.path != "" && (exists d :: d in scan.value.dumps && |d.1| < DumpIdOffset + DumpIdBytes) ==>
      Run(catalog, scan, images) == Threw(ImageCheck)
  {
    RunExitsIffNoCrashSite(catalog, scan, images);
    CrashSiteNoneIff(Merged(catalog, scan), FolderPath(scan), images, catalog);
    MergedShortIff(catalog, scan);
  }

  /** A run exits exactly when the folder can be listed and no check throws, and throws where the first one does. */
  lemma RunExitsIffNoCrashSite(catalog: Catalog, scan: Option<DumpFolder>, images: set<string>)
    ensures var site := CrashSiteOf(Merged(catalog, scan), FolderPath(scan), images, catalog);
      && (Run(catalog, scan, images).Exited? <==> FolderListable(scan) && site.None?)
      && (FolderListable(scan) && site.Some? ==> Run(catalog, scan, images) == Threw(site.value))
  {
  }

  /**
    A catalog amiibo with no dump and no icon, whose name is exactly the dump
    folder, makes the icon report throw: its value starts with the folder and
    has nothing after it.
   */
  lemma NameEqualToFolderThrows(catalog: Catalog, folder: DumpFolder, images: set<string>, k: string)
    requires k in catalog.amiibos && |k| >= AmiiboIdLength && ImageName(k) !in images
    requires k !in DumpIds(folder.dumps)
    requires folder.path != "" && catalog.amiibos[k].name == folder.path
    ensures Run(catalog, Some(folder), images) == Threw(ImageCheck)
  {
    var merged := Merged(catalog, Some(folder));
    assert merged[k] == folder.path;
    DisplayThrowsIff(folder.path, merged[k]);
    assert k in merged && ImageName(k) !in images && DisplayThrows(folder.path, merged[k]);
  }

  /** The findings of a run that did not throw, given the scan it did. */
  lemma RunFindings(catalog: Catalog, scan: Option<DumpFolder>, images: set<string>)
    requires Sliceable(catalog, scan) && FolderUsable(catalog, scan, images)
    ensures Run(catalog, scan, images).Exited?
    ensures var r := Run(catalog, scan, images).report;
      var discovered := if scan.Some? then DumpIds(scan.value.dumps) else {};
      && ReportedIds(r.missingFromJson) == discovered - catalog.amiibos.Keys
      && r.missingBin == (if scan.Some? then catalog.amiibos.Keys - discovered else {})
      && r.missingImage.Keys <= discovered + catalog.amiibos.Keys
  {
    RunThrowsIff(catalog, scan, images);
  }

  /** An amiibo both catalogued and dumped is reported neither as missing from the JSON nor as missing its bin. */
  lemma CataloguedAndDumpedNotReported(catalog: Catalog, folder: DumpFolder, images: set<string>, i: nat)
    requires i < |folder.dumps| && DumpId(folder.dumps[i].1) in catalog.amiibos
    requires Sliceable(catalog, Some(folder)) && FolderUsable(catalog, Some(folder), images)
    ensures Run(catalog, Some(folder), images).Exited?
    ensures var r := Run(catalog, Some(folder), images).report;
      && DumpId(folder.dumps[i].1) !in ReportedIds(r.missingFromJson)
      && DumpId(folder.dumps[i].1) !in r.missingBin
  {
    RunThrowsIff(catalog, Some(folder), images);
    assert folder.dumps[i] in folder.dumps;
  }

  /**
    A dump whose identifier the catalog lacks is reported once, with the path of
    the first dump that yields it, and still reaches the icon check under that path.
   */
  lemma UnknownDumpReportedOnce(catalog: Catalog, folder: DumpFolder, images: set<string>, i: nat)
    requires FirstWithId(folder.dumps, i) && DumpId(folder.dumps[i].1) !in catalog.amiibos
    requires Sliceable(catalog, Some(folder)) && FolderUsable(catalog, Some(folder), images)
    ensures Run(catalog, Some(folder), images).Exited?
    ensures var r := Run(catalog, Some(folder), images).report;
      var id := DumpId(folder.dumps[i].1);
      && (exists a :: 0 <= a < |r.missingFromJson| && r.missingFromJson[a] == (id, folder.dumps[i].0))
      && (forall a, b :: 0 <= a < b < |r.missingFromJson| ==> r.missingFromJson[a].0 != r.missingFromJson[b].0)
      && (ImageName(id) !in images ==> id in r.missingImage && r.missingImage[id] == folder.dumps[i].0)
  {
    RunThrowsIff(catalog, Some(folder), images);
    var a := FirstUnknownReported(folder.dumps, catalog.amiibos.Keys, i);
  }

  /** Without a dump folder nothing is reported as missing from the JSON or missing its bin, and every amiibo is checked under its name. */
  lemma NoScanNoScanFindings(catalog: Catalog, images: set<string>)
    requires Sliceable(catalog, None)
    ensures Run(catalog, None, images).Exited?
    ensures var r := Run(catalog, None, images).report;
      && r.missingFromJson == [] && r.missingBin == {}
      && forall k :: k in r.missingImage ==> k in catalog.amiibos && r.missingImage[k] == catalog.amiibos[k].name
  {
    RunThrowsIff(catalog, None, images);
  }

  /** A key of any collection is reported invalid exactly when it has the wrong length or is not "0x" and hex digits. */
  lemma InvalidKeysExact(catalog: Catalog, scan: Option<DumpFolder>, images: set<string>)
    requires Sliceable(catalog, scan) && FolderUsable(catalog, scan, images)
    ensures Run(catalog, scan, images).Exited?
    ensures var r := Run(catalog, scan, images).report;
      && (forall k :: k in catalog.amiiboSeries ==> (k in r.invalidAmiiboSeriesIds <==> |k| != 4 || !IsHexId(k)))
      && (forall k :: k in catalog.amiibos ==> (k in r.invalidAmiiboIds <==> |k| != 18 || !IsHexId(k)))
      && (forall k :: k in catalog.characters ==> (k in r.invalidCharacterIds <==> |k| != 6 || !IsHexId(k)))
      && (forall k :: k in catalog.gameSeries ==> (k in r.invalidGameSeriesIds <==> |k| != 5 || !IsHexId(k)))
      && (forall k :: k in catalog.types ==> (k in r.invalidTypeIds <==> |k| != 4 || !IsHexId(k)))
      && r.invalidAmiiboSeriesIds <= catalog.amiiboSeries.Keys && r.invalidAmiiboIds <= catalog.amiibos.Keys
      && r.invalidCharacterIds <= catalog.characters.Keys && r.invalidGameSeriesIds <= catalog.gameSeries.Keys
      && r.invalidTypeIds <= catalog.types.Keys
  {
    RunThrowsIff(catalog, scan, images);
  }

  /**
    Against the pattern as the .NET engine evaluates it, each collection's
    invalid keys are everything the engine reports plus only keys the engine
    lets through because of one final line feed.
   */
  lemma InvalidKeysAgainstEngine(catalog: Catalog, scan: Option<DumpFolder>, images: set<string>)
    requires Sliceable(catalog, scan) && FolderUsable(catalog, scan, images)
    ensures Run(catalog, scan, images).Exited?
    ensures var r := Run(catalog, scan, images).report;
      && CoversAsWritten(AmiiboSeriesIdLength, catalog.amiiboSeries.Keys, r.invalidAmiiboSeriesIds)
      && CoversAsWritten(AmiiboIdLength, catalog.amiibos.Keys, r.invalidAmiiboIds)
      && CoversAsWritten(CharacterIdLength, catalog.characters.Keys, r.invalidCharacterIds)
      && CoversAsWritten(GameSeriesIdLength, catalog.gameSeries.Keys, r.invalidGameSeriesIds)
      && CoversAsWritten(TypeIdLength, catalog.types.Keys, r.invalidTypeIds)
  {
    RunThrowsIff(catalog, scan, images);
    InvalidKeysCoverAsWritten(AmiiboSeriesIdLength, catalog.amiiboSeries.Keys);
    InvalidKeysCoverAsWritten(AmiiboIdLength, catalog.amiibos.Keys);
    InvalidKeysCoverAsWritten(CharacterIdLength, catalog.characters.Keys);
    InvalidKeysCoverAsWritten(GameSeriesIdLength, catalog.gameSeries.Keys);
    InvalidKeysCoverAsWritten(TypeIdLength, catalog.types.Keys);
  }
}
