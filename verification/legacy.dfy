/** The older matcher revision (`index.js`). It scans the export tree the
    same breadth-first way with a shorter ignore list, and for every sidecar
    only checks whether the file its title names exists: the title is not
    sanitised, not truncated, and a missing extension is not recovered; a
    duplicate index on the sidecar is recognised only when it is a single
    digit. Nothing is recorded: each sidecar ends in a log line. */
module Legacy {
  import opened Optional
  import opened JsText
  import opened Paths
  import opened JsCollections
  import opened Scanner
  import opened Store
  import opened Normalizer
  import opened Matcher

  /** `specialJsonFiles`: the only catalog files this revision skips. */
  const SpecialJsonFiles: seq<string> := [
    "print-subscriptions.json",
    "shared_album_comments.json",
    "user-generated-memory-titles.json",
    "metadata.json"
  ]

  /** `getSuffix(jsonPath)`: the single-digit duplicate index that ends the
      sidecar's base name without `.json`, or the empty string. */
  function LegacySuffix(jsonPath: string): (r: string)
    ensures var b := BasenameWithout(jsonPath, ".json");
      && (!EndsWith(b, ")") ==> r == "")
      && (r == "" <==> TrailingDigitIndex(b).None?)
      && (r != "" ==> IsIndex(r) && |r| == 3 && EndsWith(b, r))
  {
    var basename := BasenameWithout(jsonPath, ".json");
    if !EndsWith(basename, ")") then ""
    else match TrailingDigitIndex(basename)
      case None => ""
      case Some(m) => m
  }

  /** The path `indexJson` looks for: the title in the sidecar's directory,
      with the duplicate index, if any, put between the title's stem and its
      extension. */
  function LegacyCandidate(jsonPath: string, title: string): (p: string)
    ensures StartsWith(p, Dirname(jsonPath) + [Sep])
    ensures EndsWith(p, ParseExt(title))
    ensures Sep !in title ==> |p| == |Dirname(jsonPath)| + 1 + |title| + |LegacySuffix(jsonPath)|
  {
    var suffix := LegacySuffix(jsonPath);
    var dir := Dirname(jsonPath);
    var ext := ParseExt(title);
    var name := if suffix == "" then title else ParseName(title) + suffix + ext;
    assert EndsWith(name, ext) by {
      if suffix == "" {
        EndsWithTrans(title, Basename(title), ext);
      } else {
        assert name[|name| - |ext|..] == ext;
      }
    }
    if Sep !in title then ParseRecombines(title); CandidateAt(dir, name, ext)
    else CandidateAt(dir, name, ext)
  }

  /** The candidate `name` joined onto the sidecar's directory. */
  function CandidateAt(dir: string, name: string, ext: string): (p: string)
    requires EndsWith(name, ext)
    ensures p == Join(dir, name)
    ensures StartsWith(p, dir + [Sep]) && EndsWith(p, ext)
  {
    var p := Join(dir, name);
    assert p[..|dir| + 1] == dir + [Sep];
    EndsWithTrans(p, name, ext);
    p
  }

  /** Where the candidate lies for a title without separators: in the
      sidecar's directory, named after the raw title, with the index (when
      there is one) ahead of the extension, so that the candidate's own
      extension is the title's and its stem is the title's stem followed by
      the index; a title without an extension gets the index at its end. */
  lemma LegacyCandidateShape(jsonPath: string, title: string)
    requires Sep !in title
    ensures var p := LegacyCandidate(jsonPath, title);
      var sfx := LegacySuffix(jsonPath);
      && Dirname(p) == Dirname(jsonPath)
      && (sfx == "" ==> Basename(p) == title)
      && (sfx != "" && ParseExt(title) == "" ==> Basename(p) == title + sfx)
      && (sfx != "" && ParseExt(title) != "" ==>
            && ParseExt(Basename(p)) == ParseExt(title)
            && ParseName(Basename(p)) == ParseName(title) + sfx)
  {
    var sfx := LegacySuffix(jsonPath);
    var stem := ParseName(title);
    var ext := ParseExt(title);
    if sfx == "" {
      JoinSplits(Dirname(jsonPath), title);
    } else {
      var n := stem + sfx + ext;
      PartsHaveNoSep(title);
      IndexHasNoSep(sfx);
      assert Sep !in n;
      JoinSplits(Dirname(jsonPath), n);
      if ext != "" {
        InsertBeforeExt(stem, sfx, ext);
      } else {
        ParseRecombines(title);
        assert stem == title;
        assert n == title + sfx;
      }
    }
  }

  /** The stem and the extension of a name without separators have none. */
  lemma PartsHaveNoSep(title: string)
    requires Sep !in title
    ensures Sep !in ParseName(title) && Sep !in ParseExt(title)
  {
    ParseRecombines(title);
    var stem := ParseName(title);
    assert forall c :: c in stem ==> c in stem + ParseExt(title);
  }

  lemma IndexHasNoSep(t: string)
    requires IsIndex(t)
    ensures Sep !in t
  {
    forall i | 0 <= i < |t| ensures t[i] != Sep {
      if 0 < i < |t| - 1 { assert IsDigit(t[i]); }
    }
  }

  /** Text put between a stem and an extension becomes part of the stem. */
  lemma InsertBeforeExt(stem: string, sfx: string, ext: string)
    requires |sfx| >= 2 && ext != "" && ext[0] == '.'
    requires forall k :: 1 <= k < |ext| ==> ext[k] != '.'
    ensures ExtOf(stem + sfx + ext) == ext && StemOf(stem + sfx + ext) == stem + sfx
  {
    assert |stem + sfx + ext| >= 3;
    SplitAtExt(stem + sfx, ext);
  }

  /** How `indexJson` ends for one sidecar. */
  datatype LegacyOutcome = Found(imagePath: string) | Missing(imagePath: string) | LegacyJsonError

  /** `indexJson(jsonPath)`. A sidecar that cannot be read or parsed, and
      one whose title is not a string (on which `path.join` throws inside
      the `try`), log a JSON error; otherwise the candidate is looked up in
      the media-file set. */
  function IndexJson(jsonPath: string, files: seq<string>, sidecars: map<string, JsonContent>): (r: LegacyOutcome)
    ensures r == LegacyJsonError <==> !Read(sidecars, jsonPath).Titled?
    ensures r.Found? ==> r.imagePath in files
    ensures r.Missing? ==> r.imagePath !in files
    ensures Read(sidecars, jsonPath).Titled? ==>
      r.imagePath == LegacyCandidate(jsonPath, Read(sidecars, jsonPath).title)
  {
    match Read(sidecars, jsonPath)
    case Titled(title) =>
      var imagePath := LegacyCandidate(jsonPath, title);
      if imagePath in FileSet(files) then Found(imagePath) else Missing(imagePath)
    case _ => LegacyJsonError
  }

  /** The whole revision: scan with the short ignore list, then index every
      sidecar in scan order. It returns the media files, the sidecars and
      one outcome per sidecar: every `.json` path of the tree outside the
      short list is indexed once, a sidecar logs a JSON error exactly when it
      has no string title, and it finds its file exactly when the candidate
      its title names is one of the tree's media files. */
  function LegacyRun(root: string, entries: seq<Entry>, sidecars: map<string, JsonContent>)
    : (r: (seq<string>, seq<string>, seq<LegacyOutcome>))
    ensures |r.2| == |r.1| && NoDup(r.1)
    ensures forall p :: p in r.1 <==>
      p in PathsUnder(root, entries) && EndsWith(p, ".json") && Basename(p) !in SpecialJsonFiles
    ensures forall i :: 0 <= i < |r.1| ==>
      (r.2[i] == LegacyJsonError <==> !Read(sidecars, r.1[i]).Titled?)
    ensures forall i :: 0 <= i < |r.1| && Read(sidecars, r.1[i]).Titled? ==>
      var c := LegacyCandidate(r.1[i], Read(sidecars, r.1[i]).title);
      r.2[i].Found? <==> c in PathsUnder(root, entries) && !EndsWith(c, ".json")
    ensures forall i :: 0 <= i < |r.1| && r.2[i] != LegacyJsonError ==>
      r.2[i].imagePath == LegacyCandidate(r.1[i], Read(sidecars, r.1[i]).title)
  {
    var (files, jsons) := Scan(root, entries, SpecialJsonFiles);
    ScanPartitions(root, entries, SpecialJsonFiles);
    var outs := IndexAll(jsons, files, sidecars);
    IndexAllReads(jsons, files, outs, sidecars);
    assert forall p :: p in files <==> p in PathsUnder(root, entries) && !EndsWith(p, ".json");
    (files, jsons, outs)
  }

  /** Each outcome is a JSON error exactly when the sidecar has no string
      title, and otherwise is found exactly when its candidate is a media
      file. */
  lemma IndexAllReads(jsons: seq<string>, files: seq<string>, outs: seq<LegacyOutcome>,
                      sidecars: map<string, JsonContent>)
    requires outs == IndexAll(jsons, files, sidecars)
    ensures forall i :: 0 <= i < |jsons| ==>
      (outs[i] == LegacyJsonError <==> !Read(sidecars, jsons[i]).Titled?)
    ensures forall i :: 0 <= i < |jsons| && Read(sidecars, jsons[i]).Titled? ==>
      (outs[i].Found? <==> LegacyCandidate(jsons[i], Read(sidecars, jsons[i]).title) in files)
    ensures forall i :: 0 <= i < |jsons| && outs[i] != LegacyJsonError ==>
      outs[i].imagePath == LegacyCandidate(jsons[i], Read(sidecars, jsons[i]).title)
  {
  }

  /** `indexJson` on every sidecar in order. */
  function IndexAll(jsons: seq<string>, files: seq<string>, sidecars: map<string, JsonContent>): (outs: seq<LegacyOutcome>)
    ensures |outs| == |jsons|
    ensures forall i :: 0 <= i < |jsons| ==> outs[i] == IndexJson(jsons[i], files, sidecars)
  {
    seq(|jsons|, i requires 0 <= i < |jsons| => IndexJson(jsons[i], files, sidecars))
  }

  /** The two ignore lists differ: the numbered copy `metadata(1).json` is a
      sidecar to this revision and ignored by the newer one, in any
      directory. */
  lemma MetadataCopyContrast(dir: string)
    ensures Place(Join(dir, "metadata(1).json"), SpecialJsonFiles) == Sidecar
    ensures Place(Join(dir, "metadata(1).json"), IgnoreFiles) == Ignored
  {
    var n := "metadata(1).json";
    var p := Join(dir, n);
    assert Basename(p) == n by {
      JoinSplits(dir, n);
    }
    assert EndsWith(p, ".json") by {
      assert p[|p| - 5..] == n[|n| - 5..];
      assert n[|n| - 5..] == ".json";
    }
    MetadataCopyListed();
  }

  /** Only the newer list names the numbered copy. */
  lemma MetadataCopyListed()
    ensures "metadata(1).json" in IgnoreFiles
    ensures "metadata(1).json" !in SpecialJsonFiles
  {
    assert "metadata(1).json" == IgnoreFiles[4];
  }

  /** A sidecar carrying a multi-digit index such as `(12)` gets no suffix
      here, while the newer revision inserts that index. */
  lemma MultiDigitIndexContrast(jsonPath: string)
    requires Sep in jsonPath && EndsWith(jsonPath, ".json")
    requires TrailingIndex(ParseName(jsonPath)).Some? && |TrailingIndex(ParseName(jsonPath)).value| > 3
    ensures LegacySuffix(jsonPath) == ""
    ensures DuplicateSuffix(ParseName(jsonPath)) == TrailingIndex(ParseName(jsonPath))
  {
    var b := ParseName(jsonPath);
    JsonBasenamesAgree(jsonPath);
    IndexEndsWithParen(b);
    if TrailingDigitIndex(b).Some? {
      SingleDigitIndexAgrees(b);
    }
  }

  /** Where neither revision repairs anything the two agree: a title with no
      illegal character, an extension and at most 51 characters, on a
      sidecar with no index or a single-digit one, is looked for at the same
      path by both. */
  lemma RevisionsAgreeOnCleanTitles(jsonPath: string, title: string, files: seq<string>)
    requires Sep in jsonPath && EndsWith(jsonPath, ".json")
    requires forall i :: 0 <= i < |title| ==> !IsIllegal(title[i])
    requires ParseExt(title) != "" && |title| <= NameLimit
    requires TrailingIndex(ParseName(jsonPath)).None? || |TrailingIndex(ParseName(jsonPath)).value| == 3
    ensures var d := DeriveFileName(ParseName(jsonPath), title, Dirname(jsonPath), FileSet(files));
      && d.Derived?
      && Join(Dirname(jsonPath), d.fileName) == LegacyCandidate(jsonPath, title)
  {
    assert Sep !in title by {
      assert IsIllegal(Sep);
    }
    SuffixesAgree(jsonPath);
    CleanDerivation(ParseName(jsonPath), title, Dirname(jsonPath), FileSet(files));
    CandidateParts(jsonPath, title);
  }

  /** Both branches of the candidate are the title's stem, the index and the
      title's extension, in the sidecar's directory. */
  lemma CandidateParts(jsonPath: string, title: string)
    requires Sep !in title
    ensures LegacyCandidate(jsonPath, title)
         == Join(Dirname(jsonPath), ParseName(title) + LegacySuffix(jsonPath) + ParseExt(title))
  {
    var sfx := LegacySuffix(jsonPath);
    if sfx == "" {
      var n, e := ParseName(title), ParseExt(title);
      assert n + sfx + e == title by {
        ParseRecombines(title);
        assert n + sfx == n;
      }
    }
  }

  /** Where the index is absent or a single digit, both revisions read the
      same duplicate index off the sidecar's name. */
  lemma SuffixesAgree(jsonPath: string)
    requires Sep in jsonPath && EndsWith(jsonPath, ".json")
    requires TrailingIndex(ParseName(jsonPath)).None? || |TrailingIndex(ParseName(jsonPath)).value| == 3
    ensures LegacySuffix(jsonPath) == DuplicateSuffix(ParseName(jsonPath)).GetOr("")
  {
    var b := ParseName(jsonPath);
    JsonBasenamesAgree(jsonPath);
    if TrailingIndex(b).Some? {
      var t := TrailingIndex(b).value;
      IndexEndsWithParen(b);
      assert TrailingDigitIndex(b) == Some(t);
    } else if TrailingDigitIndex(b).Some? {
      SingleDigitIndexAgrees(b);
    }
  }

  /** The newer revision on a title that needs no repair: the title's stem,
      the sidecar's index, the title's extension. */
  lemma CleanDerivation(b: string, title: string, dir: string, fs: set<string>)
    requires forall i :: 0 <= i < |title| ==> !IsIllegal(title[i])
    requires ParseExt(title) != "" && |title| <= NameLimit
    ensures DeriveFileName(b, title, dir, fs)
         == Derived(ParseName(title) + DuplicateSuffix(b).GetOr("") + ParseExt(title))
  {
    SanitiseClean(title);
    assert Sep !in title by {
      assert IsIllegal(Sep);
    }
    ParseRecombines(title);
    var stem := ParseName(title);
    var ext := ParseExt(title);
    assert HandleMissingExt(dir, stem, ext, title, fs) == Some((ext, title));
    assert ChosenExt(title, dir, fs) == ext;
    TruncationLaw(b, title, dir, fs);
  }

  /** A title that is missing or not a string is only a logged JSON error
      here, while in the newer revision it ends the run. */
  lemma MissingTitleContrast(s: Store, jsonPath: string, files: seq<string>, custom: map<string, string>,
                             sidecars: map<string, JsonContent>)
    requires ParseName(jsonPath) !in custom
    requires Read(sidecars, jsonPath) == TitleNotString
    ensures IndexJson(jsonPath, files, sidecars) == LegacyJsonError
    ensures MatchJson(s, jsonPath, files, custom, sidecars).1 == TitleCrash
  {
  }
}
