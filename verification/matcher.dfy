/** `matchJsonFiles` and `matchJson`: every sidecar, in scan order, is tied
    to the media file its title points at. Reading and parsing the sidecar is
    abstracted into what the matcher can observe of it (`JsonContent`); the
    custom-name table is a parameter. */
module Matcher {
  import opened Optional
  import opened JsText
  import opened Paths
  import opened JsCollections
  import opened Store
  import opened Normalizer

  /** What `readFileSync` + `JSON.parse` + `data.title` yield for a sidecar:
      an error inside the `try` (the file cannot be read, is not JSON, or is
      JSON `null`), a title that is missing or not a string, or a string
      title. */
  datatype JsonContent = Unreadable | TitleNotString | Titled(title: string)

  /** How one sidecar ends. `TitleCrash` is the `TypeError` the sanitising
      call raises outside the `try` when the title is not a string; it ends
      the whole run. */
  datatype MatchOutcome =
    | Matched(filePath: string)
    | DuplicateMatch(filePath: string)
    | FileMissing(fileName: string)
    | AmbiguousName
    | JsonError
    | TitleCrash

  /** The sidecar's content; a path with no content recorded is unreadable. */
  function Read(sidecars: map<string, JsonContent>, jsonPath: string): (c: JsonContent)
    ensures jsonPath !in sidecars ==> c == Unreadable
  {
    if jsonPath in sidecars then sidecars[jsonPath] else Unreadable
  }

  /** The media-file set as a set. */
  function FileSet(files: seq<string>): (fs: set<string>)
    ensures forall f :: f in fs <==> f in files
  {
    set f | f in files
  }

  /** The store after one sidecar relates to the store before it as the
      outcome says: a match is an `addMatch` of a media file nobody owned,
      a duplicate names an owned media file, and only a match changes the
      store. */
  ghost predicate Settles(s: Store, jsonPath: string, res: (Store, MatchOutcome), files: seq<string>) {
    && (res.1.Matched? ==>
          && res.1.filePath in files
          && res.1.filePath !in s.fileToJson.items
          && res.0 == AddMatch(s, jsonPath, res.1.filePath))
    && (!res.1.Matched? ==> res.0 == s)
    && (res.1.DuplicateMatch? ==> res.1.filePath in files && res.1.filePath in s.fileToJson.items)
  }

  /** The end of `matchJson` once a candidate path is known: a media file
      that exists is claimed through `addMatch`, one that does not is
      reported missing. */
  function Claim(s: Store, jsonPath: string, filePath: string, fileName: string, files: seq<string>): (res: (Store, MatchOutcome))
    ensures filePath !in files ==> res == (s, FileMissing(fileName))
    ensures filePath in files && filePath in s.fileToJson.items ==> res == (s, DuplicateMatch(filePath))
    ensures filePath in files && filePath !in s.fileToJson.items ==>
      res == (AddMatch(s, jsonPath, filePath), Matched(filePath))
    ensures Settles(s, jsonPath, res, files)
  {
    if filePath !in files then (s, FileMissing(fileName))
    else if filePath in s.fileToJson.items then (s, DuplicateMatch(filePath))
    else (AddMatch(s, jsonPath, filePath), Matched(filePath))
  }

  /** `matchJson` from the sanitising step on, for a string title. */
  function MatchTitled(s: Store, jsonPath: string, title: string, files: seq<string>): (res: (Store, MatchOutcome))
    ensures Settles(s, jsonPath, res, files)
    ensures res.1 != TitleCrash && res.1 != JsonError
  {
    var dir := Dirname(jsonPath);
    match DeriveFileName(ParseName(jsonPath), title, dir, FileSet(files))
    case AmbiguousExtension => (s, AmbiguousName)
    case Derived(imageFilename) =>
      Claim(s, jsonPath, Join(dir, imageFilename), imageFilename, files)
  }

  /** `matchJson(jsonPath)`. A sidecar whose name (without `.json`) is in the
      custom table takes the file named there, in its own directory, without
      its content being read, and never falls back to the title. Otherwise
      the title is read and turned into a file name by the derivation. Only
      a match changes the store. */
  function MatchJson(s: Store, jsonPath: string, files: seq<string>, custom: map<string, string>,
                     sidecars: map<string, JsonContent>): (res: (Store, MatchOutcome))
    ensures Settles(s, jsonPath, res, files)
    ensures res.1 == TitleCrash <==> ParseName(jsonPath) !in custom && Read(sidecars, jsonPath) == TitleNotString
    ensures res.1 == JsonError <==> ParseName(jsonPath) !in custom && Read(sidecars, jsonPath) == Unreadable
    ensures res.1 == AmbiguousName ==> ParseName(jsonPath) !in custom && Read(sidecars, jsonPath).Titled?
    ensures ParseName(jsonPath) in custom ==> CustomClaim(jsonPath, files, custom, res.1)
  {
    var jsonBasename := ParseName(jsonPath);
    if jsonBasename in custom then
      var customFilename := custom[jsonBasename];
      Claim(s, jsonPath, Join(Dirname(jsonPath), customFilename), customFilename, files)
    else
      match Read(sidecars, jsonPath)
      case Unreadable => (s, JsonError)
      case TitleNotString => (s, TitleCrash)
      case Titled(title) => MatchTitled(s, jsonPath, title, files)
  }

  /** The outcome of a custom-table hit concerns only the file the table
      names, in the sidecar's directory: it is matched or a duplicate when
      that file exists, and missing (under the table's name) exactly when
      it does not. */
  ghost predicate CustomClaim(jsonPath: string, files: seq<string>, custom: map<string, string>, o: MatchOutcome)
    requires ParseName(jsonPath) in custom
  {
    var name := custom[ParseName(jsonPath)];
    var p := Join(Dirname(jsonPath), name);
    && (o.Matched? || o.DuplicateMatch? || o.FileMissing?)
    && (o.Matched? ==> o.filePath == p)
    && (o.DuplicateMatch? ==> o.filePath == p)
    && (o.FileMissing? <==> p !in files)
    && (o.FileMissing? ==> o.fileName == name)
  }

  /** A custom-table hit never looks at the sidecar's content, and only the
      file the table names in the sidecar's directory can be claimed. */
  lemma CustomIgnoresContent(s: Store, jsonPath: string, files: seq<string>, custom: map<string, string>,
                             sidecars1: map<string, JsonContent>, sidecars2: map<string, JsonContent>)
    requires ParseName(jsonPath) in custom
    ensures MatchJson(s, jsonPath, files, custom, sidecars1) == MatchJson(s, jsonPath, files, custom, sidecars2)
    ensures var o := MatchJson(s, jsonPath, files, custom, sidecars1).1;
      var p := Join(Dirname(jsonPath), custom[ParseName(jsonPath)]);
      && (o.Matched? || o.DuplicateMatch? || o.FileMissing?)
      && (o.Matched? ==> o.filePath == p)
      && (o.DuplicateMatch? ==> o.filePath == p)
      && (o.FileMissing? <==> p !in files)
  {
  }

  /** Away from the custom table, a sidecar with a string title claims
      exactly the file the derivation names in the sidecar's directory. */
  lemma TitledMatchesDerived(s: Store, jsonPath: string, files: seq<string>, custom: map<string, string>,
                             sidecars: map<string, JsonContent>)
    requires ParseName(jsonPath) !in custom
    requires Read(sidecars, jsonPath).Titled?
    ensures var d := DeriveFileName(ParseName(jsonPath), Read(sidecars, jsonPath).title, Dirname(jsonPath), FileSet(files));
      var o := MatchJson(s, jsonPath, files, custom, sidecars).1;
      && (d.AmbiguousExtension? <==> o == AmbiguousName)
      && (d.Derived? ==>
            var p := Join(Dirname(jsonPath), d.fileName);
            && (o == Matched(p) <==> p in files && p !in s.fileToJson.items)
            && (o == DuplicateMatch(p) <==> p in files && p in s.fileToJson.items)
            && (o == FileMissing(d.fileName) <==> p !in files))
  {
  }

  /** `for (const jsonPath of this.jsonSet) this.matchJson(jsonPath)`: the
      sidecars in scan order, one outcome each, until a title crash ends the
      run (its outcome is the last one). */
  function MatchAll(s: Store, jsons: seq<string>, files: seq<string>, custom: map<string, string>,
                    sidecars: map<string, JsonContent>): (res: (Store, seq<MatchOutcome>))
    ensures |res.1| <= |jsons|
    ensures |res.1| == |jsons| || EndsInCrash(res.1)
    ensures CrashOnlyLast(res.1)
    decreases |jsons|
  {
    if |jsons| == 0 then (s, [])
    else
      var step := MatchJson(s, jsons[0], files, custom, sidecars);
      if step.1 == TitleCrash then (step.0, [step.1])
      else
        var rest := MatchAll(step.0, jsons[1..], files, custom, sidecars);
        OutcomesCons(step.1, rest.1);
        (rest.0, [step.1] + rest.1)
  }

  /** The outcomes end in a crash. */
  predicate EndsInCrash(outs: seq<MatchOutcome>) {
    |outs| > 0 && outs[|outs| - 1] == TitleCrash
  }

  /** No outcome but the last is a crash. */
  predicate CrashOnlyLast(outs: seq<MatchOutcome>) {
    forall i :: 0 <= i < |outs| - 1 ==> outs[i] != TitleCrash
  }

  /** Putting an outcome other than a crash in front changes neither whether
      the outcomes end in a crash nor that only the last one may be one. */
  lemma OutcomesCons(o: MatchOutcome, outs: seq<MatchOutcome>)
    requires o != TitleCrash
    ensures EndsInCrash([o] + outs) <==> EndsInCrash(outs)
    ensures CrashOnlyLast(outs) ==> CrashOnlyLast([o] + outs)
  {
    var os := [o] + outs;
    if |outs| > 0 {
      assert os[|outs|] == outs[|outs| - 1];
    }
    if CrashOnlyLast(outs) {
      forall i | 0 <= i < |os| - 1 ensures os[i] != TitleCrash {
        if i > 0 { assert os[i] == outs[i - 1]; }
      }
    }
  }

  /** The outcome of each processed sidecar is the one `matchJson` gives it
      against the store the earlier sidecars left. */
  lemma {:induction false} MatchAllStepwise(s: Store, jsons: seq<string>, files: seq<string>,
                                            custom: map<string, string>, sidecars: map<string, JsonContent>)
    requires |jsons| > 0
    ensures var (s1, o) := MatchJson(s, jsons[0], files, custom, sidecars);
      var res := MatchAll(s, jsons, files, custom, sidecars);
      && res.1[0] == o
      && (o != TitleCrash ==> res == (MatchAll(s1, jsons[1..], files, custom, sidecars).0,
                                     [o] + MatchAll(s1, jsons[1..], files, custom, sidecars).1))
  {
  }

  /** The store's invariant survives the whole pass, provided the sidecars
      are distinct and none of them was matched before. */
  lemma {:induction false} MatchAllKeepsValid(s: Store, jsons: seq<string>, files: seq<string>,
                                              custom: map<string, string>, sidecars: map<string, JsonContent>)
    requires Valid(s)
    requires NoDup(jsons)
    requires forall j :: j in jsons ==> j !in s.jsonToFile.items
    ensures Valid(MatchAll(s, jsons, files, custom, sidecars).0)
    decreases |jsons|
  {
    if |jsons| > 0 {
      var step := MatchJson(s, jsons[0], files, custom, sidecars);
      assert Valid(step.0);
      if step.1 != TitleCrash {
        NoDupTail(jsons);
        StepRecords(s, jsons[0], step, files);
        MatchAllKeepsValid(step.0, jsons[1..], files, custom, sidecars);
      }
    }
  }

  /** One sidecar's effect on the two primary maps: it is matched exactly
      when its outcome is `Matched`, and no other sidecar's match and no
      other file's owner changes. */
  lemma StepRecords(s: Store, jsonPath: string, res: (Store, MatchOutcome), files: seq<string>)
    requires Settles(s, jsonPath, res, files)
    requires jsonPath !in s.jsonToFile.items
    ensures jsonPath in res.0.jsonToFile.items <==> res.1.Matched?
    ensures res.1.Matched? ==> res.0.jsonToFile.items[jsonPath] == res.1.filePath
    ensures forall j :: j != jsonPath ==> (j in res.0.jsonToFile.items <==> j in s.jsonToFile.items)
    ensures forall j :: j in s.jsonToFile.items ==> j in res.0.jsonToFile.items && res.0.jsonToFile.items[j] == s.jsonToFile.items[j]
    ensures forall f :: f in res.0.fileToJson.items ==> f in s.fileToJson.items || f in files
    ensures forall f :: f in s.fileToJson.items ==> f in res.0.fileToJson.items && res.0.fileToJson.items[f] == s.fileToJson.items[f]
  {
  }

  /** After the pass, a processed sidecar is matched exactly when its own
      outcome was `Matched`. */
  lemma {:induction false} MatchAllOutcomes(s: Store, jsons: seq<string>, files: seq<string>,
                                            custom: map<string, string>, sidecars: map<string, JsonContent>)
    requires NoDup(jsons)
    requires forall j :: j in jsons ==> j !in s.jsonToFile.items
    ensures var (r, outs) := MatchAll(s, jsons, files, custom, sidecars);
      forall i :: 0 <= i < |outs| ==> (jsons[i] in r.jsonToFile.items <==> outs[i].Matched?)
    decreases |jsons|
  {
    if |jsons| > 0 {
      var step := MatchJson(s, jsons[0], files, custom, sidecars);
      StepRecords(s, jsons[0], step, files);
      MatchAllStepwise(s, jsons, files, custom, sidecars);
      if step.1 != TitleCrash {
        var rest := jsons[1..];
        NoDupTail(jsons);
        MatchAllOutcomes(step.0, rest, files, custom, sidecars);
        MatchAllKeeps(step.0, rest, files, custom, sidecars);
        MatchAllOnlyProcessed(step.0, rest, files, custom, sidecars);
        var res1 := MatchAll(step.0, rest, files, custom, sidecars);
        HeadTail(jsons);
        OutcomesStep(jsons[0], rest, step.1, res1.1, step.0.jsonToFile.items.Keys, res1.0.jsonToFile.items.Keys);
      }
    }
  }

  /** The outcome-to-match correspondence extends from the rest of the
      sidecars to the whole when the first one is matched exactly when its
      outcome says so and the rest neither undo nor repeat it. */
  lemma OutcomesStep(j0: string, rest: seq<string>, o: MatchOutcome, outs1: seq<MatchOutcome>,
                     mid: set<string>, after: set<string>)
    requires |outs1| <= |rest| && j0 !in rest
    requires j0 in mid <==> o.Matched?
    requires forall j :: j in mid ==> j in after
    requires forall j :: j in after ==> j in mid || j in rest[..|outs1|]
    requires forall i :: 0 <= i < |outs1| ==> (rest[i] in after <==> outs1[i].Matched?)
    ensures var outs := [o] + outs1;
      forall i :: 0 <= i < |outs| ==> (([j0] + rest)[i] in after <==> outs[i].Matched?)
  {
    var outs := [o] + outs1;
    var jsons := [j0] + rest;
    assert j0 !in rest[..|outs1|];
    forall i | 0 <= i < |outs| ensures jsons[i] in after <==> outs[i].Matched? {
      if i > 0 {
        assert outs[i] == outs1[i - 1] && jsons[i] == rest[i - 1];
      }
    }
  }

  /** After the pass, a processed sidecar whose outcome was `Matched` is
      mapped to the file that outcome names. */
  lemma {:induction false} MatchAllMatchedTo(s: Store, jsons: seq<string>, files: seq<string>,
                                             custom: map<string, string>, sidecars: map<string, JsonContent>)
    requires NoDup(jsons)
    requires forall j :: j in jsons ==> j !in s.jsonToFile.items
    ensures var (r, outs) := MatchAll(s, jsons, files, custom, sidecars);
      forall i :: 0 <= i < |outs| && outs[i].Matched? ==>
        jsons[i] in r.jsonToFile.items && r.jsonToFile.items[jsons[i]] == outs[i].filePath
    decreases |jsons|
  {
    if |jsons| > 0 {
      var step := MatchJson(s, jsons[0], files, custom, sidecars);
      StepRecords(s, jsons[0], step, files);
      MatchAllStepwise(s, jsons, files, custom, sidecars);
      if step.1 != TitleCrash {
        var rest := jsons[1..];
        NoDupTail(jsons);
        MatchAllMatchedTo(step.0, rest, files, custom, sidecars);
        MatchAllKeeps(step.0, rest, files, custom, sidecars);
        var res1 := MatchAll(step.0, rest, files, custom, sidecars);
        HeadTail(jsons);
        MatchedToStep(jsons[0], rest, step.1, res1.1, step.0.jsonToFile.items, res1.0.jsonToFile.items);
      }
    }
  }

  /** The outcome-to-file correspondence extends from the rest of the
      sidecars to the whole when the first one's match is kept. */
  lemma MatchedToStep(j0: string, rest: seq<string>, o: MatchOutcome, outs1: seq<MatchOutcome>,
                      mid: map<string, string>, after: map<string, string>)
    requires |outs1| <= |rest|
    requires o.Matched? ==> j0 in mid && mid[j0] == o.filePath
    requires forall j :: j in mid ==> j in after && after[j] == mid[j]
    requires forall i :: 0 <= i < |outs1| && outs1[i].Matched? ==>
      rest[i] in after && after[rest[i]] == outs1[i].filePath
    ensures var outs := [o] + outs1;
      var jsons := [j0] + rest;
      forall i :: 0 <= i < |outs| && outs[i].Matched? ==>
        jsons[i] in after && after[jsons[i]] == outs[i].filePath
  {
    var outs := [o] + outs1;
    var jsons := [j0] + rest;
    forall i | 0 <= i < |outs| && outs[i].Matched? ensures jsons[i] in after && after[jsons[i]] == outs[i].filePath {
      if i > 0 {
        assert outs[i] == outs1[i - 1] && jsons[i] == rest[i - 1];
      }
    }
  }

  /** The pass only adds: earlier matches and owners stay as they were, and
      every newly owned file is a media file. */
  lemma {:induction false} MatchAllKeeps(s: Store, jsons: seq<string>, files: seq<string>,
                                         custom: map<string, string>, sidecars: map<string, JsonContent>)
    requires NoDup(jsons)
    requires forall j :: j in jsons ==> j !in s.jsonToFile.items
    ensures var r := MatchAll(s, jsons, files, custom, sidecars).0;
      && (forall j :: j in s.jsonToFile.items ==> j in r.jsonToFile.items && r.jsonToFile.items[j] == s.jsonToFile.items[j])
      && (forall f :: f in s.fileToJson.items ==> f in r.fileToJson.items && r.fileToJson.items[f] == s.fileToJson.items[f])
      && (forall f :: f in r.fileToJson.items ==> f in s.fileToJson.items || f in files)
    decreases |jsons|
  {
    if |jsons| > 0 {
      var step := MatchJson(s, jsons[0], files, custom, sidecars);
      StepRecords(s, jsons[0], step, files);
      if step.1 != TitleCrash {
        NoDupTail(jsons);
        MatchAllKeeps(step.0, jsons[1..], files, custom, sidecars);
      }
    }
  }

  /** Only processed sidecars (and earlier ones) are matched after the
      pass. */
  lemma {:induction false} MatchAllOnlyProcessed(s: Store, jsons: seq<string>, files: seq<string>,
                                                 custom: map<string, string>, sidecars: map<string, JsonContent>)
    ensures var (r, outs) := MatchAll(s, jsons, files, custom, sidecars);
      forall j :: j in r.jsonToFile.items ==> j in s.jsonToFile.items || j in jsons[..|outs|]
    decreases |jsons|
  {
    if |jsons| > 0 {
      var step := MatchJson(s, jsons[0], files, custom, sidecars);
      StepOnlyAdds(s, jsons[0], step, files);
      MatchAllStepwise(s, jsons, files, custom, sidecars);
      if step.1 != TitleCrash {
        var rest := jsons[1..];
        MatchAllOnlyProcessed(step.0, rest, files, custom, sidecars);
        var res1 := MatchAll(step.0, rest, files, custom, sidecars);
        PrefixCovers(s.jsonToFile.items.Keys, step.0.jsonToFile.items.Keys, res1.0.jsonToFile.items.Keys,
                     jsons, |res1.1|);
      }
    }
  }

  /** One sidecar matches at most itself. */
  lemma StepOnlyAdds(s: Store, jsonPath: string, res: (Store, MatchOutcome), files: seq<string>)
    requires Settles(s, jsonPath, res, files)
    ensures forall j :: j in res.0.jsonToFile.items ==> j in s.jsonToFile.items || j == jsonPath
  {
  }

  /** Keys added by the first element and then by a prefix of the rest are
      keys added by a prefix of the whole. */
  lemma PrefixCovers(before: set<string>, mid: set<string>, after: set<string>, jsons: seq<string>, n: nat)
    requires |jsons| > 0 && n < |jsons|
    requires forall j :: j in mid ==> j in before || j == jsons[0]
    requires forall j :: j in after ==> j in mid || j in jsons[1..][..n]
    ensures forall j :: j in after ==> j in before || j in jsons[..n + 1]
  {
    assert jsons[..n + 1] == [jsons[0]] + jsons[1..][..n];
  }
}
