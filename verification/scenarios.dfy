/**
  Concrete runs of the model: a catalog with one amiibo and nothing declared,
  with and without a dump folder, an empty dump folder path, and a run with
  no arguments.
 */
module Scenarios {
  import opened Maybe
  import opened AmiiboId
  import opened Database
  import opened Checks
  import opened ErrorBits
  import opened Validator

  const MarioKey: string := "0xaaaa000002120102"

  /** One amiibo named "Mario" and no other entries. */
  const MarioCatalog: Catalog := Catalog(map[], map[MarioKey := Amiibo("Mario", map[])], map[], map[], map[])

  /** The catalog run reaches the end: the only key is full length and nothing is declared. */
  lemma MarioRunExits()
    ensures Run(MarioCatalog, None, {}).Exited?
  {
    MergedKeys(MarioCatalog, None);
    assert Merged(MarioCatalog, None).Keys == {MarioKey};
    CrashSiteNoneIff(Merged(MarioCatalog, None), FolderPath(None), {}, MarioCatalog);
  }

  /** The amiibo implies the game series "0xaaa", which is undeclared, so it forms that group alone. */
  lemma MarioGroups()
    ensures MissingGroups(GameSeriesCode, {MarioKey}, {}) == map["0xaaa" := {MarioKey}]
  {
    assert ImpliedKey(GameSeriesCode, MarioKey) == "0xaaa";
    assert ImpliedKeys(GameSeriesCode, {MarioKey}) == {"0xaaa"};
    var groups := MissingGroups(GameSeriesCode, {MarioKey}, {});
    assert groups.Keys == {"0xaaa"};
    assert groups["0xaaa"] == {MarioKey};
  }

  /** The run reports exactly that group as a missing game series. */
  lemma MarioFindings()
    ensures Run(MarioCatalog, None, {}).Exited?
    ensures Run(MarioCatalog, None, {}).report.missingGameSeries == map["0xaaa" := {MarioKey}]
  {
    MarioRunExits();
    MarioGameSeriesField();
    MarioGroups();
  }

  /** The report's missing game series are the groups of the catalog's one amiibo against no declared series. */
  lemma MarioGameSeriesField()
    ensures Run(MarioCatalog, None, {}).Exited? ==>
      Run(MarioCatalog, None, {}).report.missingGameSeries == MissingGroups(GameSeriesCode, {MarioKey}, {})
  {
    RunExitsIffNoCrashSite(MarioCatalog, None, {});
    assert MarioCatalog.amiibos.Keys == {MarioKey} && MarioCatalog.gameSeries.Keys == {};
  }

  /**
    With only the catalog path, the one-amiibo catalog reports the game series
    "0xaaa" as missing, listing that amiibo, and the exit status has its bit.
   */
  lemma MarioScenario()
    ensures var r := Validate(["api"], MarioCatalog, [], {});
      && r.Exited?
      && r.report.missingGameSeries == map["0xaaa" := {MarioKey}]
      && r.code & Flag(MissingGameSeries) != 0
  {
    var r := Run(MarioCatalog, None, {});
    assert Validate(["api"], MarioCatalog, [], {}) == r;
    MarioFindings();
    assert HasFindings(r.report, MissingGameSeries) by {
      assert "0xaaa" in r.report.missingGameSeries;
    }
    ExitCodeBits(r.report);
  }

  /**
    Given a dump folder argument "Mario" that holds no dumps, the amiibo
    named "Mario" has no icon and is shown relative to the folder. Its name
    is the folder itself, so the substring after it runs past the end.
   */
  lemma FolderNamedLikeAmiiboScenario()
    ensures Validate(["api", "Mario"], MarioCatalog, [], {}) == Threw(ImageCheck)
  {
    assert TrimFolder("Mario") == "Mario";
    assert Scan.DumpIds([]) == {};
    NameEqualToFolderThrows(MarioCatalog, Scan.DumpFolder("Mario", []), {}, MarioKey);
  }

  /**
    A dump folder argument that is a lone backslash trims to the empty path,
    which the folder listing rejects before any dump is read.
   */
  lemma LoneBackslashFolderScenario(catalog: Catalog, dumps: seq<Scan.Dump>, images: set<string>)
    ensures Validate(["api", "\\"], catalog, dumps, images) == Threw(FolderListing)
  {
    assert TrimFolder("\\") == "";
  }

  /** With no arguments the status is exactly 1, whatever the catalog, dumps and images. */
  lemma NoArgumentsScenario(catalog: Catalog, dumps: seq<Scan.Dump>, images: set<string>)
    ensures Validate([], catalog, dumps, images) == Exited(1, NoArgumentsReport)
  {
  }
}
