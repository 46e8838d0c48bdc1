/** The whole run the `Photos` constructor performs: scan the export tree,
    match every sidecar, give the media files nobody claimed a second
    chance as extra files, and build the three reports. A title that is not
    a string ends the run in the middle of the matching pass, before any
    report is written. */
module Photos {
  import opened JsText
  import opened Paths
  import opened JsCollections
  import opened Scanner
  import opened Store
  import opened Matcher
  import opened Reconciler
  import opened Report

  /** How the run ends: stopped by a title crash with the store as the
      matching pass left it, or completed with one outcome per sidecar, one
      per media file, and the three reports. */
  datatype RunResult =
    | Crashed(store: Store, matched: seq<MatchOutcome>)
    | Completed(store: Store, matched: seq<MatchOutcome>, reconciled: seq<FileOutcome>,
                jsonCsv: string, filesCsv: string, extraCsv: string)

  /** A sidecar on which `matchJson` raises: outside the custom table, with a
      title that is missing or not a string. */
  predicate CrashesOn(jsonPath: string, custom: map<string, string>, sidecars: map<string, JsonContent>) {
    ParseName(jsonPath) !in custom && Read(sidecars, jsonPath) == TitleNotString
  }

  /** `new Photos(...)`: the run on a tree, the two custom tables and the
      sidecars' contents. The store it leaves is always well formed, and it
      crashes exactly when one of the scanned sidecars would crash. */
  function Run(root: string, entries: seq<Entry>, custom: map<string, string>,
               customExtra: map<string, string>, sidecars: map<string, JsonContent>): (r: RunResult)
    ensures Valid(r.store)
    ensures r.Crashed? <==>
      exists j :: j in Scan(root, entries, IgnoreFiles).1 && CrashesOn(j, custom, sidecars)
    ensures r.Completed? ==>
      && |r.matched| == |Scan(root, entries, IgnoreFiles).1|
      && |r.reconciled| == |Scan(root, entries, IgnoreFiles).0|
  {
    var (files, jsons) := Scan(root, entries, IgnoreFiles);
    ScanPartitions(root, entries, IgnoreFiles);
    MatchAllKeepsValid(EmptyStore(), jsons, files, custom, sidecars);
    MatchAllCrash(EmptyStore(), jsons, files, custom, sidecars);
    var (s1, outs) := MatchAll(EmptyStore(), jsons, files, custom, sidecars);
    if EndsInCrash(outs) then Crashed(s1, outs)
    else
      var (s2, fouts) := ReconcileAll(s1, files, customExtra);
      Completed(s2, outs, fouts, JsonCsv(s2), FilesCsv(s2), ExtraCsv(s2))
  }

  /** The matching pass ends in a crash exactly when one of its sidecars
      crashes: whatever the store, the first such sidecar stops it. */
  lemma {:induction false} MatchAllCrash(s: Store, jsons: seq<string>, files: seq<string>,
                                         custom: map<string, string>, sidecars: map<string, JsonContent>)
    ensures EndsInCrash(MatchAll(s, jsons, files, custom, sidecars).1) <==>
        exists j :: j in jsons && CrashesOn(j, custom, sidecars)
    decreases |jsons|
  {
    if |jsons| > 0 {
      var step := MatchJson(s, jsons[0], files, custom, sidecars);
      MatchAllStepwise(s, jsons, files, custom, sidecars);
      var outs := MatchAll(s, jsons, files, custom, sidecars).1;
      if step.1 != TitleCrash {
        var rest := jsons[1..];
        MatchAllCrash(step.0, rest, files, custom, sidecars);
        var outs1 := MatchAll(step.0, rest, files, custom, sidecars).1;
        OutcomesCons(step.1, outs1);
        assert !CrashesOn(jsons[0], custom, sidecars);
        assert forall j :: j in jsons <==> j == jsons[0] || j in rest;
      } else {
        assert outs[0] == TitleCrash;
        assert CrashesOn(jsons[0], custom, sidecars);
      }
    }
  }

  /** What a completed run records: a sidecar is matched exactly when its
      outcome says so, a media file is owned exactly when it was matched
      before the second pass or that pass attached it, and every owned file
      is a media file of the tree. */
  lemma RunAccounts(root: string, entries: seq<Entry>, custom: map<string, string>,
                    customExtra: map<string, string>, sidecars: map<string, JsonContent>)
    requires Run(root, entries, custom, customExtra, sidecars).Completed?
    ensures var r := Run(root, entries, custom, customExtra, sidecars);
      var (files, jsons) := Scan(root, entries, IgnoreFiles);
      && (forall i :: 0 <= i < |jsons| ==> (jsons[i] in r.store.jsonToFile.items <==> r.matched[i].Matched?))
      && (forall i :: 0 <= i < |files| ==> (files[i] in r.store.fileToJson.items <==> r.reconciled[i] != Unmatched))
      && (forall f :: f in r.store.fileToJson.items ==> f in files)
  {
    var (files, jsons) := Scan(root, entries, IgnoreFiles);
    ScanPartitions(root, entries, IgnoreFiles);
    var s0 := EmptyStore();
    MatchAllOutcomes(s0, jsons, files, custom, sidecars);
    MatchAllKeeps(s0, jsons, files, custom, sidecars);
    var (s1, outs) := MatchAll(s0, jsons, files, custom, sidecars);
    ReconcileAllClassifies(s1, files, customExtra);
    ReconcileAllOnlyAttaches(s1, files, customExtra);
  }
}
