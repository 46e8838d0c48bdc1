/** The file-name derivation of `matchJson`: from a sidecar's declared
    `title` and its own base name, the name the export most likely gave the
    media file. The steps run in a fixed order: sanitise illegal characters,
    split into stem and extension, recover a missing extension by probing the
    media-file set, truncate to the export's 51-character limit, and re-append
    the sidecar's duplicate index. */
module Normalizer {
  import opened Optional
  import opened JsText
  import opened Paths
  import opened JsCollections

  /** The export cuts file names (stem plus extension) to this many
      characters. */
  const NameLimit: nat := 51

  /** The extensions probed, in order, when a title has none. */
  const ProbeExtensions: seq<string> := [".jpg", ".png", ".gif", ".jpeg"]

  /** The probe extensions `e` for which `dir/stem + e` is a media file. */
  ghost function ExistingProbes(dir: string, stem: string, files: set<string>): set<string> {
    ProbesAmong(dir, stem, files, ProbeExtensions)
  }

  /** The extensions of `exts` for which `dir/stem + e` is a media file. */
  ghost function ProbesAmong(dir: string, stem: string, files: set<string>, exts: seq<string>): set<string> {
    set e | e in exts && Probed(dir, stem, files, e)
  }

  /** `dir/stem + e` is a media file. */
  predicate Probed(dir: string, stem: string, files: set<string>, e: string) {
    Join(dir, stem + e) in files
  }

  /** The probe extensions that hit, in probing order. */
  function Hits(dir: string, stem: string, files: set<string>, exts: seq<string>): (h: seq<string>)
    ensures forall e :: e in h <==> e in exts && Probed(dir, stem, files, e)
    ensures NoDup(exts) ==> NoDup(h)
    decreases |exts|
  {
    if |exts| == 0 then []
    else (if Probed(dir, stem, files, exts[0]) then [exts[0]] else []) + Hits(dir, stem, files, exts[1..])
  }

  lemma NoDupCard(h: seq<string>)
    requires NoDup(h)
    ensures |set e | e in h| == |h|
  {
    if |h| > 0 {
      NoDupCard(h[1..]);
      assert (set e | e in h) == {h[0]} + (set e | e in h[1..]);
    }
  }

  /** Among distinct extensions, the existing ones are the elements of the
      hit list, one each. */
  lemma ProbesAreHits(dir: string, stem: string, files: set<string>, exts: seq<string>)
    requires NoDup(exts)
    ensures var h := Hits(dir, stem, files, exts);
      var S := ProbesAmong(dir, stem, files, exts);
      && |S| == |h|
      && (|h| == 0 <==> S == {})
      && (|h| == 1 ==> S == {h[0]})
  {
    var h := Hits(dir, stem, files, exts);
    var S := ProbesAmong(dir, stem, files, exts);
    assert S == (set e | e in h);
    NoDupCard(h);
    if |h| == 1 {
      assert h == [h[0]];
    }
  }

  lemma ProbeExtensionsDistinct()
    ensures NoDup(ProbeExtensions)
  {
  }

  datatype Recovery = Recovered(ext: string) | NoneFound | Ambiguous

  /** Missing-extension recovery: exactly one existing probe is adopted, none
      leaves the extension empty, and more than one is ambiguous. */
  function RecoverExtension(dir: string, stem: string, files: set<string>): (r: Recovery)
    ensures r.Recovered? <==> |ExistingProbes(dir, stem, files)| == 1
    ensures r.Recovered? ==> ExistingProbes(dir, stem, files) == {r.ext}
    ensures r == NoneFound <==> ExistingProbes(dir, stem, files) == {}
    ensures r == Ambiguous <==> |ExistingProbes(dir, stem, files)| >= 2
  {
    var h := Hits(dir, stem, files, ProbeExtensions);
    ProbeExtensionsDistinct();
    ProbesAreHits(dir, stem, files, ProbeExtensions);
    // `found` counts the hits and `newExt` holds the last one
    var found := |h|;
    if found == 1 then Recovered(h[found - 1])
    else if found > 1 then Ambiguous
    else NoneFound
  }

  /** The duplicate index `(n)` that ends the sidecar's base name, if any. */
  function DuplicateSuffix(jsonBasename: string): (r: Option<string>)
    ensures r.Some? ==> IsIndex(r.value) && EndsWith(jsonBasename, r.value)
    ensures forall t :: IsIndex(t) && EndsWith(jsonBasename, t) ==> r == Some(t)
  {
    if EndsWith(jsonBasename, ")") then TrailingIndex(jsonBasename) else None
  }

  datatype Derivation = Derived(fileName: string) | AmbiguousExtension

  /** Steps 1-5 of `matchJson` on a sidecar with base name `jsonBasename` in
      directory `dir` whose JSON declares `title`. */
  function DeriveFileName(jsonBasename: string, title: string, dir: string, files: set<string>): (d: Derivation)
    ensures d.AmbiguousExtension? <==>
      ParseExt(Sanitise(title)) == "" && |ExistingProbes(dir, ParseName(Sanitise(title)), files)| >= 2
  {
    // replace illegal chars
    FromSanitised(jsonBasename, Sanitise(title), dir, files)
  }

  /** Steps 2-5, from the sanitised title on. */
  function FromSanitised(jsonBasename: string, imageFilename: string, dir: string, files: set<string>): (d: Derivation)
    ensures d.AmbiguousExtension? <==>
      ParseExt(imageFilename) == "" && |ExistingProbes(dir, ParseName(imageFilename), files)| >= 2
  {
    var ext := ParseExt(imageFilename);
    var basename := ParseName(imageFilename);
    match HandleMissingExt(dir, basename, ext, imageFilename, files)
    case None => AmbiguousExtension
    case Some((ext1, imageFilename1)) =>
      var (basename2, imageFilename2) := HandleLimit(basename, ext1, imageFilename1);
      Derived(HandleSuffix(jsonBasename, basename2, ext1, imageFilename2))
  }

  /** Step 3: with no extension, probe for one. The new extension and file
      name, or `None` when the probe is ambiguous. */
  function HandleMissingExt(dir: string, basename: string, ext: string, imageFilename: string, files: set<string>): (r: Option<(string, string)>)
    ensures r.None? <==> ext == "" && |ExistingProbes(dir, basename, files)| >= 2
    ensures ext != "" ==> r == Some((ext, imageFilename))
    ensures ext == "" && |ExistingProbes(dir, basename, files)| == 1 ==>
      r.Some? && ExistingProbes(dir, basename, files) == {r.value.0} && r.value.1 == basename + r.value.0
    ensures ext == "" && ExistingProbes(dir, basename, files) == {} ==> r == Some(("", imageFilename))
    ensures imageFilename == basename + ext && r.Some? ==> r.value.1 == basename + r.value.0
  {
    if ext != "" then Some((ext, imageFilename))
    else match RecoverExtension(dir, basename, files)
      case Recovered(newExt) => Some((newExt, basename + newExt))
      case NoneFound => Some((ext, imageFilename))
      case Ambiguous => None
  }

  /** Step 4: a name longer than the limit keeps its extension and loses the
      end of its stem. Returns the new stem and file name. */
  function HandleLimit(basename: string, ext: string, imageFilename: string): (r: (string, string))
    ensures |imageFilename| <= NameLimit ==> r == (basename, imageFilename)
    ensures |imageFilename| > NameLimit ==> r.1 == r.0 + ext && StartsWith(basename, r.0)
    ensures |imageFilename| > NameLimit && |ext| <= NameLimit && imageFilename == basename + ext
      ==> |r.1| == NameLimit
    ensures |imageFilename| > NameLimit && |ext| > NameLimit ==> r.0 == ""
  {
    if |imageFilename| > NameLimit then
      var b := SubstringTo(basename, NameLimit - |ext|);
      (b, b + ext)
    else (basename, imageFilename)
  }

  /** Step 5: the sidecar's duplicate index goes between the (already
      truncated) stem and the extension. */
  function HandleSuffix(jsonBasename: string, basename: string, ext: string, imageFilename: string): (r: string)
    ensures DuplicateSuffix(jsonBasename).None? ==> r == imageFilename
    ensures DuplicateSuffix(jsonBasename).Some? ==> r == basename + DuplicateSuffix(jsonBasename).value + ext
  {
    match DuplicateSuffix(jsonBasename)
    case Some(suffix) => basename + suffix + ext
    case None => imageFilename
  }

  /** The extension the derivation settles on for the sanitised title `s`:
      its own, else the one recovered by probing, else none. */
  function ChosenExt(s: string, dir: string, files: set<string>): string {
    match HandleMissingExt(dir, ParseName(s), ParseExt(s), s, files)
    case Some((e, _)) => e
    case None => ""
  }

  /** Steps 4 and 5 on a stem and an extension. */
  lemma {:induction false} LimitThenSuffix(jsonBasename: string, stem: string, ext: string)
    ensures var (kept, name4) := HandleLimit(stem, ext, stem + ext);
      var n := HandleSuffix(jsonBasename, kept, ext, name4);
      var sfx := DuplicateSuffix(jsonBasename).GetOr("");
      && n == kept + sfx + ext
      && StartsWith(stem, kept)
      && (|stem + ext| <= NameLimit ==> kept == stem)
      && (|stem + ext| > NameLimit && |ext| <= NameLimit ==> |kept + ext| == NameLimit)
      && (|ext| > NameLimit ==> kept == "")
  {
    var (kept, name4) := HandleLimit(stem, ext, stem + ext);
    assert name4 == kept + ext;
  }

  /** With a title free of separators (as every sanitised title is), steps
      4 and 5 act on the title's stem and the extension step 3 settles on. */
  lemma FromSanitisedLaw(jsonBasename: string, s: string, dir: string, files: set<string>)
    requires Sep !in s
    requires FromSanitised(jsonBasename, s, dir, files).Derived?
    ensures var n := FromSanitised(jsonBasename, s, dir, files).fileName;
      var stem := ParseName(s);
      var ext := ChosenExt(s, dir, files);
      var (kept, _) := HandleLimit(stem, ext, stem + ext);
      n == HandleSuffix(jsonBasename, kept, ext, kept + ext)
  {
    var stem := ParseName(s);
    ParseRecombines(s);
    var step3 := HandleMissingExt(dir, stem, ParseExt(s), s, files);
    assert step3.Some?;
    assert step3.value.1 == stem + step3.value.0;
  }

  /** A sanitised title has no separator in it. */
  lemma SanitisedHasNoSep(title: string)
    ensures Sep !in Sanitise(title)
  {
    var s := Sanitise(title);
    assert IsIllegal(Sep);
    forall i | 0 <= i < |s| ensures s[i] != Sep {
      assert !IsIllegal(title[i]) ==> s[i] == title[i];
    }
  }

  /** The truncation law. With `stem` the sanitised title's stem, `ext` the
      chosen extension and `sfx` the sidecar's duplicate index (or nothing),
      the derived name is a prefix of `stem`, then `sfx`, then `ext`: the
      whole stem when stem and extension fit in 51 characters, otherwise a
      prefix cut so that prefix plus extension is exactly 51 long. The suffix
      is appended after truncation, so the name exceeds 51 characters only by
      the suffix (when the extension itself fits). */
  lemma TruncationLaw(jsonBasename: string, title: string, dir: string, files: set<string>)
    requires DeriveFileName(jsonBasename, title, dir, files).Derived?
    ensures var n := DeriveFileName(jsonBasename, title, dir, files).fileName;
      var stem := ParseName(Sanitise(title));
      var ext := ChosenExt(Sanitise(title), dir, files);
      var sfx := DuplicateSuffix(jsonBasename).GetOr("");
      Truncated(n, stem, sfx, ext)
  {
    var s := Sanitise(title);
    SanitisedHasNoSep(title);
    FromSanitisedLaw(jsonBasename, s, dir, files);
    LimitThenSuffixTruncates(jsonBasename, ParseName(s), ChosenExt(s, dir, files));
  }

  /** `n` is `stem`, cut to fit the limit together with `ext`, then `sfx`,
      then `ext`. */
  ghost predicate Truncated(n: string, stem: string, sfx: string, ext: string) {
    && |sfx + ext| <= |n|
    && EndsWith(n, sfx + ext)
    && StartsWith(stem, n[..|n| - |sfx + ext|])
    && (|stem + ext| <= NameLimit ==> n == stem + sfx + ext)
    && (|stem + ext| > NameLimit && |ext| <= NameLimit ==> |n| == NameLimit + |sfx|)
    && (|ext| > NameLimit ==> n == sfx + ext)
  }

  lemma {:induction false} LimitThenSuffixTruncates(jsonBasename: string, stem: string, ext: string)
    ensures var (kept, _) := HandleLimit(stem, ext, stem + ext);
      Truncated(HandleSuffix(jsonBasename, kept, ext, kept + ext), stem,
                DuplicateSuffix(jsonBasename).GetOr(""), ext)
  {
    LimitThenSuffix(jsonBasename, stem, ext);
    var (kept, _) := HandleLimit(stem, ext, stem + ext);
    var sfx := DuplicateSuffix(jsonBasename).GetOr("");
    var n := HandleSuffix(jsonBasename, kept, ext, kept + ext);
    assert n == kept + sfx + ext;
    assert n[..|n| - |sfx + ext|] == kept;
    assert n[|n| - |sfx + ext|..] == sfx + ext;
  }

  /** Sanitising is the first step, and it is idempotent: a title that is
      already sanitised derives the same name. */
  lemma SanitiseComesFirst(jsonBasename: string, title: string, dir: string, files: set<string>)
    ensures DeriveFileName(jsonBasename, Sanitise(title), dir, files)
         == DeriveFileName(jsonBasename, title, dir, files)
  {
    SanitiseIdempotent(title);
  }

  /** A title that needs none of the repairs (no illegal character, an
      extension, at most 51 characters) and a sidecar without a duplicate
      index derive the title itself. */
  lemma CleanTitleIsKept(jsonBasename: string, title: string, dir: string, files: set<string>)
    requires forall i :: 0 <= i < |title| ==> !IsIllegal(title[i])
    requires ParseExt(title) != "" && |title| <= NameLimit
    requires DuplicateSuffix(jsonBasename).None?
    ensures DeriveFileName(jsonBasename, title, dir, files) == Derived(title)
  {
    SanitiseClean(title);
    var ext := ParseExt(title);
    var stem := ParseName(title);
    assert HandleMissingExt(dir, stem, ext, title, files) == Some((ext, title));
    assert HandleLimit(stem, ext, title) == (stem, title);
  }

  /** Truncating before re-appending the index matters. For a clean title
      whose stem is 50 characters long, with extension `.mp4`, on a sidecar
      carrying `(1)`, the derived name keeps the index after the first 47
      characters of the stem; appending the index first and truncating
      afterwards would have cut the index off again. */
  lemma TruncateBeforeSuffix(stem: string, dir: string, files: set<string>)
    requires |stem| == 50
    requires forall i :: 0 <= i < |stem| ==> !IsIllegal(stem[i])
    ensures DeriveFileName(stem + ".mp4" + "(1)", stem + ".mp4", dir, files)
         == Derived(stem[..47] + "(1)" + ".mp4")
    ensures SubstringTo(stem + "(1)", NameLimit - 4) + ".mp4" == stem[..47] + ".mp4"
  {
    var title := stem + ".mp4";
    var jb := title + "(1)";
    assert Sanitise(title) == title && ParseExt(title) == ".mp4" && ParseName(title) == stem by {
      Mp4Title(stem);
    }
    assert DuplicateSuffix(jb) == Some("(1)") by {
      IndexOne(title);
    }
    LongCleanTitle(jb, title, dir, files);
    IndexFirstIsCut(stem);
  }

  /** Appending `(1)` to a 50-character stem and then cutting to leave room
      for `.mp4` drops the index. */
  lemma IndexFirstIsCut(stem: string)
    requires |stem| == 50
    ensures SubstringTo(stem + "(1)", NameLimit - 4) == stem[..47]
  {
    assert (stem + "(1)")[..47] == stem[..47];
  }

  /** A clean title with an extension that is too long keeps its extension
      and the first characters of its stem, and the sidecar's index goes in
      between. */
  lemma LongCleanTitle(jsonBasename: string, title: string, dir: string, files: set<string>)
    requires Sanitise(title) == title && ParseExt(title) != "" && ParseName(title) + ParseExt(title) == title
    requires |title| > NameLimit && |ParseExt(title)| <= NameLimit
    ensures var ext := ParseExt(title);
      var kept := ParseName(title)[..NameLimit - |ext|];
      DeriveFileName(jsonBasename, title, dir, files)
        == Derived(kept + DuplicateSuffix(jsonBasename).GetOr("") + ext)
  {
    var ext := ParseExt(title);
    var stem := ParseName(title);
    var kept := stem[..NameLimit - |ext|];
    assert HandleMissingExt(dir, stem, ext, title, files) == Some((ext, title));
    assert HandleLimit(stem, ext, title) == (kept, kept + ext);
    assert DeriveFileName(jsonBasename, title, dir, files)
        == Derived(HandleSuffix(jsonBasename, kept, ext, kept + ext));
    SuffixBetween(jsonBasename, kept, ext);
  }

  /** Step 5 on a stem and an extension puts the index, if any, between. */
  lemma SuffixBetween(jsonBasename: string, kept: string, ext: string)
    ensures HandleSuffix(jsonBasename, kept, ext, kept + ext)
         == kept + DuplicateSuffix(jsonBasename).GetOr("") + ext
  {
    if DuplicateSuffix(jsonBasename).None? {
      assert kept + "" == kept;
    }
  }

  /** A base name ending in `(1)` carries the duplicate index `(1)`. */
  lemma IndexOne(prefix: string)
    ensures DuplicateSuffix(prefix + "(1)") == Some("(1)")
  {
    var jb := prefix + "(1)";
    assert jb[|jb| - 3..] == "(1)";
    assert IsIndex("(1)");
  }

  /** The clean title `stem.mp4` sanitises to itself and parses into `stem`
      and `.mp4`. */
  lemma Mp4Title(stem: string)
    requires |stem| > 0
    requires forall i :: 0 <= i < |stem| ==> !IsIllegal(stem[i])
    ensures Sanitise(stem + ".mp4") == stem + ".mp4"
    ensures ParseExt(stem + ".mp4") == ".mp4" && ParseName(stem + ".mp4") == stem
  {
    CleanMp4(stem);
    assert Sep !in stem by {
      assert IsIllegal(Sep);
    }
    Mp4Parses(stem);
  }

  lemma Mp4Parses(stem: string)
    requires |stem| > 0 && Sep !in stem
    ensures ParseExt(stem + ".mp4") == ".mp4" && ParseName(stem + ".mp4") == stem
  {
    var title := stem + ".mp4";
    assert Sep !in title by {
      assert forall c :: c in title ==> c in stem || c in ".mp4";
    }
    assert Basename(title) == title;
    SplitAtExt(stem, ".mp4");
  }

  lemma CleanMp4(stem: string)
    requires forall i :: 0 <= i < |stem| ==> !IsIllegal(stem[i])
    ensures forall i :: 0 <= i < |stem + ".mp4"| ==> !IsIllegal((stem + ".mp4")[i])
    ensures Sanitise(stem + ".mp4") == stem + ".mp4"
  {
    var title := stem + ".mp4";
    var m := |stem|;
    forall i | 0 <= i < |title| ensures !IsIllegal(title[i]) {
      if i >= m { assert title[i] == ".mp4"[i - m]; }
    }
    SanitiseClean(title);
  }
}
