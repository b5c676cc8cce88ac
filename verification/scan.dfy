/**
  The dump scan: every dump file yields an identifier; the first path seen for
  an identifier is kept, identifiers the catalog lacks are reported once, and
  catalog entries with no dump are reported as missing their bin file. The
  catalog-only entries are then merged in, keyed to their names, so the image
  check sees one map of identifier to path-or-name.
 */
module Scan {
  import opened Hex
  import opened AmiiboId
  import opened Database

  /** A dump file: its path and its contents. */
  type Dump = (string, seq<byte>)

  /**
    The second argument with one trailing backslash removed, and the `.bin`
    files found under it in enumeration order.
   */
  datatype DumpFolder = DumpFolder(path: string, dumps: seq<Dump>)

  /**
    What the scan builds: the identifiers found, each with the path it was
    first seen at, and the "Missing From JSON" reports in scan order.
   */
  datatype ScanResult = ScanResult(discovered: map<string, string>, missingFromJson: seq<(string, string)>)

  /** Every identifier some dump yields. */
  function DumpIds(dumps: seq<Dump>): set<string> {
    set d | d in dumps :: DumpId(d.1)
  }

  /** The dump at `i` is the first one with its identifier. */
  ghost predicate FirstWithId(dumps: seq<Dump>, i: int) {
    0 <= i < |dumps| && forall j :: 0 <= j < i ==> DumpId(dumps[j].1) != DumpId(dumps[i].1)
  }

  /** The identifiers a list of "Missing From JSON" reports names. */
  function ReportedIds(reports: seq<(string, string)>): set<string> {
    set e | e in reports :: e.0
  }

  /** The identifiers found are those of the dumps, each with the path of the first dump that yields it. */
  ghost predicate FirstPathsKept(dumps: seq<Dump>, discovered: map<string, string>) {
    && discovered.Keys == DumpIds(dumps)
    && (forall i :: FirstWithId(dumps, i) ==> discovered[DumpId(dumps[i].1)] == dumps[i].0)
  }

  /**
    "Missing From JSON" names, once each and with its first path, exactly the
    identifiers found that the catalog lacks.
   */
  ghost predicate UnknownReportedOnce(dumps: seq<Dump>, catalog: set<string>, r: ScanResult) {
    && (forall a, b :: 0 <= a < b < |r.missingFromJson| ==> r.missingFromJson[a].0 != r.missingFromJson[b].0)
    && (forall e :: e in r.missingFromJson ==> e.0 in r.discovered && r.discovered[e.0] == e.1)
    && ReportedIds(r.missingFromJson) == DumpIds(dumps) - catalog
  }

  /**
    One iteration of the scan: the identifier joins the map with its path
    unless it is already there, and it is reported only when neither the
    catalog nor the map has it.
   */
  function Step(prev: ScanResult, dump: Dump, catalog: set<string>): (r: ScanResult)
    ensures r.discovered.Keys == prev.discovered.Keys + {DumpId(dump.1)}
    ensures forall k :: k in prev.discovered ==> r.discovered[k] == prev.discovered[k]
    ensures DumpId(dump.1) !in prev.discovered ==> r.discovered[DumpId(dump.1)] == dump.0
    ensures if DumpId(dump.1) in catalog || DumpId(dump.1) in prev.discovered
      then r.missingFromJson == prev.missingFromJson
      else r.missingFromJson == prev.missingFromJson + [(DumpId(dump.1), dump.0)]
  {
    var (path, content) := dump;
    var id := DumpId(content);
    var reports :=
      if id !in catalog && id !in prev.discovered then prev.missingFromJson + [(id, path)]
      else prev.missingFromJson;
    var found := if id !in prev.discovered then prev.discovered[id := path] else prev.discovered;
    ScanResult(found, reports)
  }

  /** The scan over the dump files in enumeration order. */
  function ScanDumps(dumps: seq<Dump>, catalog: set<string>): (r: ScanResult)
    ensures r.discovered.Keys == DumpIds(dumps)
    ensures forall i :: FirstWithId(dumps, i) ==> r.discovered[DumpId(dumps[i].1)] == dumps[i].0
    ensures forall a, b :: 0 <= a < b < |r.missingFromJson| ==> r.missingFromJson[a].0 != r.missingFromJson[b].0
    ensures forall e :: e in r.missingFromJson ==> e.0 in r.discovered && r.discovered[e.0] == e.1
    ensures ReportedIds(r.missingFromJson) == DumpIds(dumps) - catalog
    decreases |dumps|
  {
    if dumps == [] then ScanResult(map[], [])
    else
      var prev := ScanDumps(dumps[..|dumps| - 1], catalog);
      StepKeepsFirstPaths(dumps, catalog, prev);
      StepReportsOnce(dumps, catalog, prev);
      Step(prev, dumps[|dumps| - 1], catalog)
  }

  /** One step keeps the first path of every identifier. */
  lemma StepKeepsFirstPaths(dumps: seq<Dump>, catalog: set<string>, prev: ScanResult)
    requires dumps != []
    requires FirstPathsKept(dumps[..|dumps| - 1], prev.discovered)
    ensures FirstPathsKept(dumps, Step(prev, dumps[|dumps| - 1], catalog).discovered)
  {
    var r := Step(prev, dumps[|dumps| - 1], catalog);
    DumpIdsSnoc(dumps);
    forall i | FirstWithId(dumps, i) ensures r.discovered[DumpId(dumps[i].1)] == dumps[i].0 {
      FirstPathSurvivesStep(dumps, catalog, prev, i);
    }
  }

  /** The first path of one identifier survives the step. */
  lemma FirstPathSurvivesStep(dumps: seq<Dump>, catalog: set<string>, prev: ScanResult, i: int)
    requires dumps != []
    requires FirstPathsKept(dumps[..|dumps| - 1], prev.discovered)
    requires FirstWithId(dumps, i)
    ensures Step(prev, dumps[|dumps| - 1], catalog).discovered[DumpId(dumps[i].1)] == dumps[i].0
  {
    if i < |dumps| - 1 {
      EarlierFirstPath(dumps, prev.discovered, i);
    } else {
      FirstWithIdSnoc(dumps);
    }
  }

  /** A first occurrence before the last dump is a first occurrence of the prefix, so its path is already kept. */
  lemma EarlierFirstPath(dumps: seq<Dump>, discovered: map<string, string>, i: int)
    requires FirstWithId(dumps, i) && i < |dumps| - 1
    requires FirstPathsKept(dumps[..|dumps| - 1], discovered)
    ensures DumpId(dumps[i].1) in discovered && discovered[DumpId(dumps[i].1)] == dumps[i].0
  {
    var prefix := dumps[..|dumps| - 1];
    assert prefix[i] == dumps[i];
    assert forall j :: 0 <= j < i ==> prefix[j] == dumps[j];
    assert FirstWithId(prefix, i);
    assert prefix[i] in prefix;
  }

  /** One step reports a new unknown identifier once, with the path it keeps for it. */
  lemma StepReportsOnce(dumps: seq<Dump>, catalog: set<string>, prev: ScanResult)
    requires dumps != []
    requires FirstPathsKept(dumps[..|dumps| - 1], prev.discovered)
    requires UnknownReportedOnce(dumps[..|dumps| - 1], catalog, prev)
    ensures UnknownReportedOnce(dumps, catalog, Step(prev, dumps[|dumps| - 1], catalog))
  {
    var r := Step(prev, dumps[|dumps| - 1], catalog);
    StepKeepsReportsDistinct(prev, dumps[|dumps| - 1], catalog);
    StepReportedIds(dumps, catalog, prev);
    forall e | e in r.missingFromJson ensures e.0 in r.discovered && r.discovered[e.0] == e.1 {
      ReportSurvivesStep(prev, dumps[|dumps| - 1], catalog, e);
    }
  }

  /** A step appends a report only for an identifier not yet in the map, so no identifier is reported twice. */
  lemma StepKeepsReportsDistinct(prev: ScanResult, dump: Dump, catalog: set<string>)
    requires forall a, b :: 0 <= a < b < |prev.missingFromJson| ==> prev.missingFromJson[a].0 != prev.missingFromJson[b].0
    requires forall x :: x in prev.missingFromJson ==> x.0 in prev.discovered
    ensures var reports := Step(prev, dump, catalog).missingFromJson;
      forall a, b :: 0 <= a < b < |reports| ==> reports[a].0 != reports[b].0
  {
    var before := prev.missingFromJson;
    var reports := Step(prev, dump, catalog).missingFromJson;
    if reports != before {
      forall a, b | 0 <= a < b < |reports| ensures reports[a].0 != reports[b].0 {
        assert reports[a] == before[a];
        if b == |before| {
          assert before[a] in before;
        } else {
          assert reports[b] == before[b];
        }
      }
    }
  }

  /** After a step the reported identifiers are still exactly the unknown ones found so far. */
  lemma StepReportedIds(dumps: seq<Dump>, catalog: set<string>, prev: ScanResult)
    requires dumps != []
    requires prev.discovered.Keys == DumpIds(dumps[..|dumps| - 1])
    requires ReportedIds(prev.missingFromJson) == DumpIds(dumps[..|dumps| - 1]) - catalog
    ensures ReportedIds(Step(prev, dumps[|dumps| - 1], catalog).missingFromJson) == DumpIds(dumps) - catalog
  {
    var dump := dumps[|dumps| - 1];
    DumpIdsSnoc(dumps);
    if DumpId(dump.1) !in catalog && DumpId(dump.1) !in prev.discovered {
      ReportedIdsSnoc(prev.missingFromJson, (DumpId(dump.1), dump.0));
    }
  }

  /** A report made so far, or made by the step, names an identifier with the path the map keeps for it. */
  lemma ReportSurvivesStep(prev: ScanResult, dump: Dump, catalog: set<string>, e: (string, string))
    requires forall x :: x in prev.missingFromJson ==> x.0 in prev.discovered && prev.discovered[x.0] == x.1
    requires e in Step(prev, dump, catalog).missingFromJson
    ensures e.0 in Step(prev, dump, catalog).discovered
    ensures Step(prev, dump, catalog).discovered[e.0] == e.1
  {
    if e !in prev.missingFromJson {
      assert e == (DumpId(dump.1), dump.0);
    }
  }

  /** Appending a dump adds its identifier to the identifiers found so far. */
  lemma DumpIdsSnoc(dumps: seq<Dump>)
    requires dumps != []
    ensures DumpIds(dumps) == DumpIds(dumps[..|dumps| - 1]) + {DumpId(dumps[|dumps| - 1].1)}
  {
    var prefix := dumps[..|dumps| - 1];
    assert dumps == prefix + [dumps[|dumps| - 1]];
  }

  /**
    First occurrences before the last dump are first occurrences in the prefix,
    and the last dump is a first occurrence only when the prefix lacks its identifier.
   */
  lemma FirstWithIdSnoc(dumps: seq<Dump>)
    requires dumps != []
    ensures forall i :: 0 <= i < |dumps| - 1 && FirstWithId(dumps, i) ==> FirstWithId(dumps[..|dumps| - 1], i)
    ensures FirstWithId(dumps, |dumps| - 1) <==> DumpId(dumps[|dumps| - 1].1) !in DumpIds(dumps[..|dumps| - 1])
  {
    var n := |dumps|;
    var prefix := dumps[..n - 1];
    var id := DumpId(dumps[n - 1].1);
    if id in DumpIds(prefix) {
      var d :| d in prefix && DumpId(d.1) == id;
      var j :| 0 <= j < n - 1 && prefix[j] == d;
      assert DumpId(dumps[j].1) == id;
    } else {
      forall j | 0 <= j < n - 1 ensures DumpId(dumps[j].1) != id {
        assert dumps[j] == prefix[j];
        assert prefix[j] in prefix;
      }
    }
  }

  lemma ReportedIdsSnoc(reports: seq<(string, string)>, e: (string, string))
    ensures ReportedIds(reports + [e]) == ReportedIds(reports) + {e.0}
  {
    assert forall x :: x in reports + [e] <==> x in reports || x == e;
  }

  /** The first dump yielding an identifier the catalog lacks is reported, with its path. */
  lemma FirstUnknownReported(dumps: seq<Dump>, catalog: set<string>, i: int) returns (a: nat)
    requires FirstWithId(dumps, i) && DumpId(dumps[i].1) !in catalog
    ensures a < |ScanDumps(dumps, catalog).missingFromJson|
    ensures ScanDumps(dumps, catalog).missingFromJson[a] == (DumpId(dumps[i].1), dumps[i].0)
  {
    var id := DumpId(dumps[i].1);
    var r := ScanDumps(dumps, catalog);
    assert dumps[i] in dumps;
    assert id in ReportedIds(r.missingFromJson);
    assert r.discovered[id] == dumps[i].0;
    a := ReportedWithPath(r.missingFromJson, r.discovered, id);
  }

  /** A reported identifier appears in a report together with the path the map keeps for it. */
  lemma ReportedWithPath(reports: seq<(string, string)>, discovered: map<string, string>, id: string) returns (a: nat)
    requires id in ReportedIds(reports)
    requires forall e :: e in reports ==> e.0 in discovered && discovered[e.0] == e.1
    ensures id in discovered
    ensures a < |reports| && reports[a] == (id, discovered[id])
  {
    var e :| e in reports && e.0 == id;
    a :| 0 <= a < |reports| && reports[a] == e;
  }

  /** "Missing Bin": catalog amiibos no dump yields. */
  function MissingBins(amiibos: set<string>, discovered: map<string, string>): (missing: set<string>)
    ensures missing <= amiibos && missing !! discovered.Keys
    ensures amiibos <= missing + discovered.Keys
  {
    amiibos - discovered.Keys
  }

  /** Adds every catalog amiibo with no dump, keyed to its name. */
  function Merge(discovered: map<string, string>, amiibos: map<string, Amiibo>): (merged: map<string, string>)
    ensures merged.Keys == discovered.Keys + amiibos.Keys
    ensures forall k :: k in discovered ==> merged[k] == discovered[k]
    ensures forall k :: k in amiibos && k !in discovered ==> merged[k] == amiibos[k].name
  {
    discovered + map k | k in amiibos && k !in discovered :: amiibos[k].name
  }
}
