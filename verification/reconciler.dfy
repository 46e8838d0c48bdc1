/** `checkForUnmachedFiles`: every media file no sidecar claimed is offered
    to five heuristics in a fixed order. Each heuristic that applies proposes
    a "main" file; the first proposal whose main file already has an owner
    attaches the media file to that owner as an extra file. A heuristic whose
    proposal fails lets the next one try. */
module Reconciler {
  import opened Optional
  import opened JsText
  import opened Paths
  import opened JsCollections
  import opened Store
  import opened Normalizer

  datatype Rule = CustomName | MotionPhoto | EditedVariant | LivePhoto | LegacyOriginal

  /** The heuristics in the order they are tried. */
  const Rules: seq<Rule> := [CustomName, MotionPhoto, EditedVariant, LivePhoto, LegacyOriginal]

  /** The extension a motion-photo video's still is looked for with. */
  const StillExt: string := ".jpg"

  /** The main file a heuristic proposes for media file `f`, or `None` when
      the heuristic does not apply to it. `customExtra` is the custom table of
      base names of extra files to base names of their main files. */
  function Candidate(rule: Rule, f: string, customExtra: map<string, string>): (r: Option<string>)
    ensures r.Some? <==> Applies(rule, f, customExtra)
  {
    match rule
    case CustomName =>
      if Basename(f) in customExtra then Some(Join(Dirname(f), customExtra[Basename(f)])) else None
    case MotionPhoto =>
      if Includes(f, "MVIMG") then Some(StripSuffix(f, ".MP4") + StillExt) else None
    case EditedVariant =>
      if Includes(f, "-edited") then Some(RemoveAll(f, "-edited")) else None
    case LivePhoto =>
      if IsLivePhotoVideo(f) then Some(Join(Dirname(f), LiveStillName(Basename(f)))) else None
    case LegacyOriginal =>
      if Includes(f, "/original_") && EndsWith(f, ").jpg")
      then Some(WithoutIndex(StripSuffix(f, ".jpg")) + ".jpg") else None
  }

  /** Each heuristic proposes a main file exactly when it applies, and the
      file it proposes is the one it means to (`Proposes`). */
  lemma CandidateProposes(rule: Rule, f: string, customExtra: map<string, string>)
    ensures Candidate(rule, f, customExtra).Some? <==> Applies(rule, f, customExtra)
    ensures Candidate(rule, f, customExtra).Some? ==> Proposes(rule, f, customExtra, Candidate(rule, f, customExtra).value)
  {
    match rule
    case CustomName =>
      if Basename(f) in customExtra && Sep !in customExtra[Basename(f)] {
        JoinSplits(Dirname(f), customExtra[Basename(f)]);
      }
    case MotionPhoto =>
      MotionProposalHolds(f);
    case EditedVariant =>
      if Includes(f, "-edited") {
        RemoveAllSplits(f, "-edited");
      }
    case LivePhoto =>
      JoinSplits(Dirname(f), LiveStillName(Basename(f)));
    case LegacyOriginal =>
      if Includes(f, "/original_") && EndsWith(f, ").jpg") {
        OriginalProposalHolds(f);
      }
  }

  /** When each heuristic applies, stated on its own. */
  predicate Applies(rule: Rule, f: string, customExtra: map<string, string>) {
    match rule
    case CustomName => Basename(f) in customExtra
    case MotionPhoto => Includes(f, "MVIMG")
    case EditedVariant => Includes(f, "-edited")
    case LivePhoto => IsLivePhotoVideo(f)
    case LegacyOriginal => Includes(f, "/original_") && EndsWith(f, ").jpg")
  }

  predicate IsLivePhotoVideo(f: string) {
    EndsWith(f, "MP") || EndsWith(f, "MP~1") || EndsWith(f, "MP~2")
  }

  /** What main file `m` each heuristic means to propose for `f`, stated
      without the string operations that build it. */
  ghost predicate Proposes(rule: Rule, f: string, customExtra: map<string, string>, m: string) {
    match rule
    case CustomName => CustomProposal(f, customExtra, m)
    case MotionPhoto => MotionProposal(f, m)
    case EditedVariant => EditedProposal(f, m)
    case LivePhoto => LiveProposal(f, m)
    case LegacyOriginal => OriginalProposal(f, m)
  }

  /** The file the table names for `f`'s base name, in `f`'s directory. */
  ghost predicate CustomProposal(f: string, customExtra: map<string, string>, m: string) {
    && Basename(f) in customExtra
    && (Sep !in customExtra[Basename(f)] ==>
          Dirname(m) == Dirname(f) && Basename(m) == customExtra[Basename(f)])
  }

  /** `f` with `.jpg` in place of one trailing `.MP4`, or after `f` when it
      does not end in `.MP4`. */
  ghost predicate MotionProposal(f: string, m: string) {
    && EndsWith(m, StillExt)
    && (EndsWith(f, ".MP4") ==> m[..|m| - |StillExt|] + ".MP4" == f)
    && (!EndsWith(f, ".MP4") ==> m[..|m| - |StillExt|] == f)
  }

  /** `f` without every `-edited` that `split` finds in it. */
  ghost predicate EditedProposal(f: string, m: string) {
    m == JoinWith(SplitOn(f, "-edited"), "")
  }

  /** The still of a live-photo video, in the video's directory. */
  ghost predicate LiveProposal(f: string, m: string) {
    Dirname(m) == Dirname(f) && Basename(m) == LiveStillName(Basename(f))
  }

  /** A `.jpg` path without the duplicate index that ends its stem: `f` is
      the proposal's stem, then the index, then `.jpg`; with no index there,
      the proposal is `f` itself. */
  ghost predicate OriginalProposal(f: string, m: string) {
    && EndsWith(m, ".jpg")
    && (forall t :: IsIndex(t) && EndsWith(f, t + ".jpg") ==> m[..|m| - 4] + t + ".jpg" == f)
    && ((forall t :: IsIndex(t) ==> !EndsWith(f, t + ".jpg")) ==> m == f)
  }

  lemma MotionProposalHolds(f: string)
    ensures MotionProposal(f, StripSuffix(f, ".MP4") + StillExt)
  {
    var k := StripSuffix(f, ".MP4");
    var m := k + StillExt;
    assert m[..|m| - |StillExt|] == k;
    assert m[|m| - |StillExt|..] == StillExt;
  }

  lemma OriginalProposalHolds(f: string)
    requires EndsWith(f, ").jpg")
    ensures OriginalProposal(f, WithoutIndex(StripSuffix(f, ".jpg")) + ".jpg")
  {
    assert EndsWith(f, ".jpg") by {
      assert f[|f| - 4..] == f[|f| - 5..][1..];
    }
    var stem := StripSuffix(f, ".jpg");
    assert stem == f[..|f| - 4];
    var w := WithoutIndex(stem);
    var m := w + ".jpg";
    assert m[..|m| - 4] == w;
    assert m[|m| - 4..] == ".jpg";
    forall t | IsIndex(t) && EndsWith(f, t + ".jpg") ensures m[..|m| - 4] + t + ".jpg" == f {
      EndsWithSplit(f, t, ".jpg");
      assert TrailingIndex(stem) == Some(t);
      assert w + t == stem;
    }
    if TrailingIndex(stem).Some? {
      var t := TrailingIndex(stem).value;
      EndsWithSplit(f, t, ".jpg");
      assert IsIndex(t) && EndsWith(f, t + ".jpg");
    } else {
      assert m == f;
    }
  }

  /** The base name of the still a live-photo video `b` belongs to. The
      video's name and extension are cut, as one, to their first 47
      characters when `.jpg` would not otherwise fit within the 51-character
      limit, and parsed again; a duplicate index that ends the stem moves
      behind the extension, and `.jpg` is appended. */
  function LiveStillName(b: string): (r: string)
    ensures EndsWith(r, StillExt)
    ensures |r| <= NameLimit
    ensures Sep !in b ==> Sep !in r
    ensures var c := if |b| + |StillExt| <= NameLimit then b else b[..NameLimit - |StillExt|];
      && (TrailingIndex(StemOf(c)).None? ==> r == c + StillExt)
      && (TrailingIndex(StemOf(c)).Some? ==>
            r == WithoutIndex(StemOf(c)) + ExtOf(c) + TrailingIndex(StemOf(c)).value + StillExt)
    ensures |b| + |StillExt| > NameLimit ==> |r| == NameLimit
  {
    var m := IndexBehindExt(CutForStill(b));
    assert (m + StillExt)[|m|..] == StillExt;
    if Sep !in b then
      AbsentFromPart(m, b, StillExt, Sep);
      m + StillExt
    else m + StillExt
  }

  /** The video's base name, cut to its first 47 characters when name plus
      `.jpg` would exceed the limit. */
  function CutForStill(b: string): (cut: string)
    ensures multiset(cut) <= multiset(b)
    ensures |b| + |StillExt| <= NameLimit ==> cut == b
    ensures |b| + |StillExt| > NameLimit ==> cut == b[..NameLimit - |StillExt|]
    ensures |b| + |StillExt| > NameLimit ==> |cut| == NameLimit - |StillExt|
  {
    if |b| + |StillExt| > NameLimit then
      var cut := SubstringTo(b, NameLimit - |StillExt|);
      assert b == cut + b[|cut|..];
      cut
    else b
  }

  /** A duplicate index that ends the stem of `cut` moves behind the
      extension; the characters are only rearranged. */
  function IndexBehindExt(cut: string): (m: string)
    ensures multiset(m) == multiset(cut)
    ensures TrailingIndex(StemOf(cut)).None? ==> m == cut
    ensures TrailingIndex(StemOf(cut)).Some? ==>
      m == WithoutIndex(StemOf(cut)) + ExtOf(cut) + TrailingIndex(StemOf(cut)).value
  {
    var name := StemOf(cut);
    var ext := ExtOf(cut);
    match TrailingIndex(name)
    case Some(suffix) =>
      var kept := SliceTo(name, 0 - |suffix|);
      assert kept + suffix == name by {
        assert kept == name[..|name| - |suffix|];
      }
      kept + ext + suffix
    case None => name + ext
  }

  /** The live-photo rule proposes, in the video's directory, the still
      `LiveStillName` names; for a video whose base name leaves room for
      `.jpg` and carries no duplicate index that is the video's path with
      `.jpg` appended. */
  lemma LivePhotoMain(f: string)
    requires Sep in f && IsLivePhotoVideo(f)
    ensures var c := Candidate(LivePhoto, f, map[]);
      && c.Some?
      && Dirname(c.value) == Dirname(f)
      && Basename(c.value) == LiveStillName(Basename(f))
      && |Basename(c.value)| <= NameLimit
      && (|Basename(f)| + |StillExt| <= NameLimit && TrailingIndex(StemOf(Basename(f))).None? ==> c.value == f + StillExt)
  {
    var b := Basename(f);
    var name := LiveStillName(b);
    assert Candidate(LivePhoto, f, map[]) == Some(Join(Dirname(f), name));
    JoinSplits(Dirname(f), name);
    if |b| + |StillExt| <= NameLimit && TrailingIndex(StemOf(b)).None? {
      ShortLiveStill(f);
    }
  }

  lemma ShortLiveStill(f: string)
    requires Sep in f
    requires |Basename(f)| + |StillExt| <= NameLimit && TrailingIndex(StemOf(Basename(f))).None?
    ensures Join(Dirname(f), LiveStillName(Basename(f))) == f + StillExt
  {
    var b := Basename(f);
    assert LiveStillName(b) == b + StillExt;
    SplitJoins(f);
    JoinAppend(Dirname(f), b, StillExt);
  }

  /** How one media file ends in the reconciliation pass. */
  datatype FileOutcome = AlreadyOwned | Attached(rule: Rule, main: string) | Unmatched

  /** Heuristic `rule` proposes a main file that already has an owner. */
  predicate Succeeds(s: Store, f: string, customExtra: map<string, string>, rule: Rule) {
    var c := Candidate(rule, f, customExtra);
    c.Some? && c.value in s.fileToJson.items
  }

  /** `o` reports the first of `rules` to succeed for `f`, or that none
      did. */
  ghost predicate FirstOf(s: Store, f: string, customExtra: map<string, string>, rules: seq<Rule>, o: FileOutcome) {
    && o != AlreadyOwned
    && (o == Unmatched <==> forall k :: 0 <= k < |rules| ==> !Succeeds(s, f, customExtra, rules[k]))
    && (o.Attached? ==>
          && Candidate(o.rule, f, customExtra) == Some(o.main)
          && o.main in s.fileToJson.items
          && exists k :: 0 <= k < |rules| && rules[k] == o.rule
               && forall k' :: 0 <= k' < k ==> !Succeeds(s, f, customExtra, rules[k']))
  }

  /** The heuristics of `rules`, in order, until one succeeds. */
  function TryRules(s: Store, f: string, customExtra: map<string, string>, rules: seq<Rule>): (res: (Store, FileOutcome))
    ensures FirstOf(s, f, customExtra, rules, res.1)
    ensures res.1 == Unmatched ==> res.0 == s
    ensures res.1.Attached? ==> res.0 == TryAddExtra(s, f, res.1.main).0
    decreases |rules|
  {
    if |rules| == 0 then (s, Unmatched)
    else if Succeeds(s, f, customExtra, rules[0]) then
      var main := Candidate(rules[0], f, customExtra).value;
      assert FirstOf(s, f, customExtra, rules, Attached(rules[0], main)) by {
        assert rules[0] == Attached(rules[0], main).rule;
      }
      (TryAddExtra(s, f, main).0, Attached(rules[0], main))
    else
      var res := TryRules(s, f, customExtra, rules[1..]);
      FirstOfShift(s, f, customExtra, rules, res.1);
      res
  }

  /** When the first heuristic fails, the first success among the rest is
      the first success overall. */
  lemma FirstOfShift(s: Store, f: string, customExtra: map<string, string>, rules: seq<Rule>, o: FileOutcome)
    requires |rules| > 0 && !Succeeds(s, f, customExtra, rules[0])
    requires FirstOf(s, f, customExtra, rules[1..], o)
    ensures FirstOf(s, f, customExtra, rules, o)
  {
    assert forall k :: 1 <= k < |rules| ==> rules[k] == rules[1..][k - 1];
    if o.Attached? {
      var k :| 0 <= k < |rules[1..]| && rules[1..][k] == o.rule
           && forall k' :: 0 <= k' < k ==> !Succeeds(s, f, customExtra, rules[1..][k']);
      assert rules[k + 1] == o.rule;
      forall k' | 0 <= k' < k + 1 ensures !Succeeds(s, f, customExtra, rules[k']) {
        if k' > 0 { assert rules[k'] == rules[1..][k' - 1]; }
      }
    }
  }

  /** One iteration of the pass for media file `f`: an owned file is
      skipped; otherwise the heuristics run in order. Only `f` can gain an
      owner, no sidecar gains or loses its primary file, and the store's
      invariant is kept. */
  function ReconcileFile(s: Store, f: string, customExtra: map<string, string>): (res: (Store, FileOutcome))
    ensures f in s.fileToJson.items <==> res.1 == AlreadyOwned
    ensures !res.1.Attached? ==> res.0 == s
    ensures res.1.Attached? ==> res.1.main in s.fileToJson.items
    ensures res.1.Attached? && res.1.main in s.fileToJson.items ==>
      var owner := s.fileToJson.items[res.1.main];
      && res.0.fileToJson.items == s.fileToJson.items[f := owner]
      && res.0.extras.items == s.extras.items[owner := ExtrasOf(s, owner) + [f]]
    ensures res.0.jsonToFile == s.jsonToFile
    ensures Valid(s) ==> Valid(res.0)
  {
    if f in s.fileToJson.items then (s, AlreadyOwned)
    else TryRules(s, f, customExtra, Rules)
  }

  /** The pass over the media files in scan order. */
  function ReconcileAll(s: Store, files: seq<string>, customExtra: map<string, string>): (res: (Store, seq<FileOutcome>))
    ensures |res.1| == |files|
    ensures res.0.jsonToFile == s.jsonToFile
    ensures Valid(s) ==> Valid(res.0)
    decreases |files|
  {
    if |files| == 0 then (s, [])
    else
      var step := ReconcileFile(s, files[0], customExtra);
      var rest := ReconcileAll(step.0, files[1..], customExtra);
      (rest.0, [step.1] + rest.1)
  }

  /** The pass over a non-empty list is one step followed by the pass over
      the rest. */
  lemma ReconcileAllCons(s: Store, f: string, rest: seq<string>, customExtra: map<string, string>)
    ensures var step := ReconcileFile(s, f, customExtra);
      var tail := ReconcileAll(step.0, rest, customExtra);
      ReconcileAll(s, [f] + rest, customExtra) == (tail.0, [step.1] + tail.1)
  {
    assert ([f] + rest)[0] == f && ([f] + rest)[1..] == rest;
  }

  /** Every heuristic is in the list that is tried. */
  lemma AllRulesTried()
    ensures forall rule :: rule in Rules
  {
    forall rule ensures rule in Rules {
      match rule
      case CustomName => assert Rules[0] == rule;
      case MotionPhoto => assert Rules[1] == rule;
      case EditedVariant => assert Rules[2] == rule;
      case LivePhoto => assert Rules[3] == rule;
      case LegacyOriginal => assert Rules[4] == rule;
    }
  }

  /** The rule that attached a file is the first heuristic, in the fixed
      order, whose proposal had an owner. */
  lemma FirstSuccessWins(s: Store, f: string, customExtra: map<string, string>)
    requires f !in s.fileToJson.items
    ensures var o := ReconcileFile(s, f, customExtra).1;
      && (o == Unmatched <==> forall rule :: !Succeeds(s, f, customExtra, rule))
      && (o.Attached? ==>
            && Succeeds(s, f, customExtra, o.rule)
            && (forall k :: 0 <= k < |Rules| && Rules[k] != o.rule && Succeeds(s, f, customExtra, Rules[k]) ==>
                  exists k' :: 0 <= k' < k && Rules[k'] == o.rule))
  {
    var o := ReconcileFile(s, f, customExtra).1;
    assert FirstOf(s, f, customExtra, Rules, o);
    AllRulesTried();
    FirstOfMeans(s, f, customExtra, Rules, o);
  }

  /** What `FirstOf` says when `rules` lists every heuristic: no heuristic
      at all succeeds for an unmatched file, and the attaching one comes
      before every other that would succeed. */
  lemma FirstOfMeans(s: Store, f: string, customExtra: map<string, string>, rules: seq<Rule>, o: FileOutcome)
    requires FirstOf(s, f, customExtra, rules, o)
    requires forall rule :: rule in rules
    ensures o == Unmatched <==> forall rule :: !Succeeds(s, f, customExtra, rule)
    ensures o.Attached? ==>
      && Succeeds(s, f, customExtra, o.rule)
      && (forall k :: 0 <= k < |rules| && rules[k] != o.rule && Succeeds(s, f, customExtra, rules[k]) ==>
            exists k' :: 0 <= k' < k && rules[k'] == o.rule)
  {
    if o == Unmatched {
      NoneSucceeds(s, f, customExtra, rules);
    }
    if o.Attached? {
      AttachedFirst(s, f, customExtra, rules, o);
    }
  }

  /** When no heuristic of a list holding them all succeeds, none does. */
  lemma NoneSucceeds(s: Store, f: string, customExtra: map<string, string>, rules: seq<Rule>)
    requires forall k :: 0 <= k < |rules| ==> !Succeeds(s, f, customExtra, rules[k])
    requires forall rule :: rule in rules
    ensures forall rule :: !Succeeds(s, f, customExtra, rule)
  {
    forall rule ensures !Succeeds(s, f, customExtra, rule) {
      assert rule in rules;
      var k :| 0 <= k < |rules| && rules[k] == rule;
    }
  }

  /** The attaching heuristic precedes every other one that succeeds. */
  lemma AttachedFirst(s: Store, f: string, customExtra: map<string, string>, rules: seq<Rule>, o: FileOutcome)
    requires FirstOf(s, f, customExtra, rules, o) && o.Attached?
    ensures forall k :: 0 <= k < |rules| && rules[k] != o.rule && Succeeds(s, f, customExtra, rules[k]) ==>
      exists k' :: 0 <= k' < k && rules[k'] == o.rule
  {
    var k0 :| 0 <= k0 < |rules| && rules[k0] == o.rule
         && forall k' :: 0 <= k' < k0 ==> !Succeeds(s, f, customExtra, rules[k']);
    forall k | 0 <= k < |rules| && rules[k] != o.rule && Succeeds(s, f, customExtra, rules[k])
      ensures exists k' :: 0 <= k' < k && rules[k'] == o.rule
    {
      assert k0 < k;
    }
  }

  /** After the pass, each media file has an owner exactly when its outcome
      is not `Unmatched` (the files are distinct, as in the scanned set). */
  lemma {:induction false} ReconcileAllClassifies(s: Store, files: seq<string>, customExtra: map<string, string>)
    requires NoDup(files)
    ensures var (r, outs) := ReconcileAll(s, files, customExtra);
      forall i :: 0 <= i < |files| ==> (files[i] in r.fileToJson.items <==> outs[i] != Unmatched)
    decreases |files|
  {
    if |files| > 0 {
      var step := ReconcileFile(s, files[0], customExtra);
      var rest := files[1..];
      NoDupTail(files);
      ReconcileAllClassifies(step.0, rest, customExtra);
      ReconcileAllOnlyAttaches(step.0, rest, customExtra);
      var res1 := ReconcileAll(step.0, rest, customExtra);
      var (r, outs) := ReconcileAll(s, files, customExtra);
      assert r == res1.0 && outs == [step.1] + res1.1;
      forall i | 0 <= i < |files| ensures files[i] in r.fileToJson.items <==> outs[i] != Unmatched {
        if i > 0 {
          assert outs[i] == res1.1[i - 1] && files[i] == rest[i - 1];
        }
      }
    }
  }

  /** The pass takes no owner away and gives one only to files it visits. */
  lemma {:induction false} ReconcileAllOnlyAttaches(s: Store, files: seq<string>, customExtra: map<string, string>)
    ensures var r := ReconcileAll(s, files, customExtra).0;
      && (forall g :: g in s.fileToJson.items ==> g in r.fileToJson.items && r.fileToJson.items[g] == s.fileToJson.items[g])
      && (forall g :: g in r.fileToJson.items ==> g in s.fileToJson.items || g in files)
    decreases |files|
  {
    if |files| > 0 {
      var step := ReconcileFile(s, files[0], customExtra);
      ReconcileFileOnlyAttaches(s, files[0], customExtra);
      ReconcileAllOnlyAttaches(step.0, files[1..], customExtra);
      var r := ReconcileAll(s, files, customExtra).0;
      assert r == ReconcileAll(step.0, files[1..], customExtra).0;
      HeadTail(files);
      KeepsAndAdds(s.fileToJson.items, step.0.fileToJson.items, r.fileToJson.items, files[0], files[1..]);
    }
  }

  /** One step of the pass takes no owner away and gives one only to the
      file it visits. */
  lemma ReconcileFileOnlyAttaches(s: Store, f: string, customExtra: map<string, string>)
    ensures var r := ReconcileFile(s, f, customExtra).0;
      && (forall g :: g in s.fileToJson.items ==> g in r.fileToJson.items && r.fileToJson.items[g] == s.fileToJson.items[g])
      && (forall g :: g in r.fileToJson.items ==> g in s.fileToJson.items || g == f)
  {
  }

  /** A map that keeps the entries of `m0` and adds only `f`, followed by one
      that keeps those and adds only keys of `rest`, keeps `m0` and adds only
      keys of `[f] + rest`. */
  lemma KeepsAndAdds(m0: map<string, string>, m1: map<string, string>, m2: map<string, string>, f: string, rest: seq<string>)
    requires forall g :: g in m0 ==> g in m1 && m1[g] == m0[g]
    requires forall g :: g in m1 ==> g in m0 || g == f
    requires forall g :: g in m1 ==> g in m2 && m2[g] == m1[g]
    requires forall g :: g in m2 ==> g in m1 || g in rest
    ensures forall g :: g in m0 ==> g in m2 && m2[g] == m0[g]
    ensures forall g :: g in m2 ==> g in m0 || g in [f] + rest
  {
  }

  /** An extra attached earlier in the pass can be the main file of a later
      one, so the order of the media files matters. Take `p` such as
      `d/MVIMG_1`, with the still `p.jpg` matched to its sidecar. The motion
      video `p.MP4` is attached to it through the motion-photo rule, and
      then `p-edited.MP4` through the edited-variant rule, whose main file
      is that extra. In the opposite order the edited video finds no owned
      main file. */
  lemma ExtraServesAsMain(p: string)
    requires Includes(p, "MVIMG") && !Includes(p, "-edited")
    ensures var j := p + ".jpg.json";
      var s := AddMatch(EmptyStore(), j, p + ".jpg");
      var (r, outs) := ReconcileAll(s, [p + ".MP4", p + "-edited.MP4"], map[]);
      && outs == [Attached(MotionPhoto, p + ".jpg"), Attached(EditedVariant, p + ".MP4")]
      && j in r.extras.items && r.extras.items[j] == [p + ".MP4", p + "-edited.MP4"]
    ensures var s := AddMatch(EmptyStore(), p + ".jpg.json", p + ".jpg");
      ReconcileAll(s, [p + "-edited.MP4", p + ".MP4"], map[]).1
        == [Unmatched, Attached(MotionPhoto, p + ".jpg")]
  {
    var s := AddMatch(EmptyStore(), p + ".jpg.json", p + ".jpg");
    assert s.fileToJson.items == map[p + ".jpg" := p + ".jpg.json"];
    ForwardOrder(p, s);
    ReverseOrder(p, s);
  }

  lemma ForwardOrder(p: string, s: Store)
    requires Includes(p, "MVIMG") && !Includes(p, "-edited")
    requires s.fileToJson.items == map[p + ".jpg" := p + ".jpg.json"]
    ensures var j := p + ".jpg.json";
      var (r, outs) := ReconcileAll(s, [p + ".MP4", p + "-edited.MP4"], map[]);
      && outs == [Attached(MotionPhoto, p + ".jpg"), Attached(EditedVariant, p + ".MP4")]
      && j in r.extras.items && r.extras.items[j] == ExtrasOf(s, j) + [p + ".MP4", p + "-edited.MP4"]
  {
    var still := p + ".jpg";
    var video := p + ".MP4";
    var edited := p + "-edited.MP4";
    VideoStep(p, s);
    var s1 := TryAddExtra(s, video, still).0;
    EditedStep(p, s1);
    TwoExtras(s, video, still, edited, video);
    ReconcileTwo(s, video, edited, map[]);
  }

  lemma ReverseOrder(p: string, s: Store)
    requires Includes(p, "MVIMG") && !Includes(p, "-edited")
    requires s.fileToJson.items == map[p + ".jpg" := p + ".jpg.json"]
    ensures ReconcileAll(s, [p + "-edited.MP4", p + ".MP4"], map[]).1
        == [Unmatched, Attached(MotionPhoto, p + ".jpg")]
  {
    EditedFirst(p, s);
    VideoStep(p, s);
    ReconcileTwo(s, p + "-edited.MP4", p + ".MP4", map[]);
  }

  /** The pass over two media files is the two steps in turn. */
  lemma ReconcileTwo(s: Store, a: string, b: string, customExtra: map<string, string>)
    ensures var st1 := ReconcileFile(s, a, customExtra);
      var st2 := ReconcileFile(st1.0, b, customExtra);
      ReconcileAll(s, [a, b], customExtra) == (st2.0, [st1.1, st2.1])
  {
    var st1 := ReconcileFile(s, a, customExtra);
    var st2 := ReconcileFile(st1.0, b, customExtra);
    var t := ReconcileAll(st1.0, [b], customExtra);
    assert t == (st2.0, [st2.1]) by {
      assert [b][1..] == [];
      assert ReconcileAll(st2.0, [], customExtra) == (st2.0, []);
      assert [st2.1] + [] == [st2.1];
    }
    assert ReconcileAll(s, [a, b], customExtra) == (t.0, [st1.1] + t.1) by {
      assert [a, b][1..] == [b];
    }
    assert [st1.1] + [st2.1] == [st1.1, st2.1];
  }

  /** Two extras attached in turn to files of the same owner end that
      owner's extra list in the order they were attached. */
  lemma TwoExtras(s: Store, f1: string, m1: string, f2: string, m2: string)
    requires m1 in s.fileToJson.items
    requires var s1 := TryAddExtra(s, f1, m1).0;
      m2 in s1.fileToJson.items && s1.fileToJson.items[m2] == s.fileToJson.items[m1]
    ensures var j := s.fileToJson.items[m1];
      var s2 := TryAddExtra(TryAddExtra(s, f1, m1).0, f2, m2).0;
      j in s2.extras.items && s2.extras.items[j] == ExtrasOf(s, j) + [f1, f2]
  {
    var j := s.fileToJson.items[m1];
    var s1 := TryAddExtra(s, f1, m1).0;
    assert ExtrasOf(s1, j) == ExtrasOf(s, j) + [f1];
    assert ExtrasOf(s, j) + [f1] + [f2] == ExtrasOf(s, j) + [f1, f2];
  }

  /** The motion video is attached to its still. */
  lemma VideoStep(p: string, s: Store)
    requires Includes(p, "MVIMG")
    requires s.fileToJson.items == map[p + ".jpg" := p + ".jpg.json"]
    ensures ReconcileFile(s, p + ".MP4", map[]) == (TryAddExtra(s, p + ".MP4", p + ".jpg").0, Attached(MotionPhoto, p + ".jpg"))
    ensures TryAddExtra(s, p + ".MP4", p + ".jpg").0.fileToJson.items
         == map[p + ".jpg" := p + ".jpg.json", p + ".MP4" := p + ".jpg.json"]
  {
    var f := p + ".MP4";
    assert Candidate(MotionPhoto, f, map[]) == Some(p + ".jpg") by {
      MotionCandidate(p, ".MP4");
    }
    assert f !in s.fileToJson.items by {
      assert f[|p| + 1] != (p + ".jpg")[|p| + 1];
    }
    assert !Succeeds(s, f, map[], Rules[0]);
    FirstSuccessIs(s, f, map[], 1);
  }

  /** The edited video, once the motion video is owned, is attached to it. */
  lemma EditedStep(p: string, s1: Store)
    requires Includes(p, "MVIMG") && !Includes(p, "-edited")
    requires s1.fileToJson.items == map[p + ".jpg" := p + ".jpg.json", p + ".MP4" := p + ".jpg.json"]
    ensures ReconcileFile(s1, p + "-edited.MP4", map[])
         == (TryAddExtra(s1, p + "-edited.MP4", p + ".MP4").0, Attached(EditedVariant, p + ".MP4"))
  {
    var f := p + "-edited.MP4";
    var video := p + ".MP4";
    assert !Succeeds(s1, f, map[], MotionPhoto) by {
      MotionCandidate(p, "-edited.MP4");
      assert |p + "-edited" + StillExt| != |p + ".jpg"| && |p + "-edited" + StillExt| != |video|;
    }
    assert Succeeds(s1, f, map[], Rules[2]) by {
      EditedVideoCandidate(p);
      assert video in s1.fileToJson.items;
    }
    assert f !in s1.fileToJson.items by {
      assert |f| != |p + ".jpg"| && |f| != |video|;
    }
    assert forall k :: 0 <= k < 2 ==> !Succeeds(s1, f, map[], Rules[k]) by {
      assert Rules[1] == MotionPhoto;
    }
    FirstSuccessIs(s1, f, map[], 2);
    assert Candidate(Rules[2], f, map[]).value == video by {
      EditedVideoCandidate(p);
    }
  }

  /** The edited video, while the motion video has no owner, matches
      nothing. */
  lemma EditedFirst(p: string, s: Store)
    requires Includes(p, "MVIMG") && !Includes(p, "-edited")
    requires s.fileToJson.items == map[p + ".jpg" := p + ".jpg.json"]
    ensures ReconcileFile(s, p + "-edited.MP4", map[]) == (s, Unmatched)
  {
    var f := p + "-edited.MP4";
    assert |f| != |p + ".jpg"|;
    forall k | 0 <= k < |Rules| ensures !Succeeds(s, f, map[], Rules[k]) {
      EditedFails(p, s, Rules[k]);
    }
  }

  /** No heuristic finds an owned main file for `p-edited.MP4` while only
      the still is owned. */
  lemma EditedFails(p: string, s: Store, rule: Rule)
    requires Includes(p, "MVIMG") && !Includes(p, "-edited")
    requires s.fileToJson.items == map[p + ".jpg" := p + ".jpg.json"]
    ensures !Succeeds(s, p + "-edited.MP4", map[], rule)
  {
    var f := p + "-edited.MP4";
    match rule
    case CustomName =>
    case MotionPhoto =>
      assert Candidate(MotionPhoto, f, map[]) == Some(p + "-edited" + StillExt) by {
        MotionCandidate(p, "-edited.MP4");
      }
      assert |p + "-edited" + StillExt| != |p + ".jpg"|;
    case EditedVariant =>
      assert Candidate(EditedVariant, f, map[]) == Some(p + ".MP4") by {
        EditedVideoCandidate(p);
      }
      assert (p + ".MP4")[|p| + 1] != (p + ".jpg")[|p| + 1];
    case LivePhoto =>
      assert !IsLivePhotoVideo(f) by {
        assert f[|f| - 2..][1] == '4' && f[|f| - 4..][3] == '4';
      }
    case LegacyOriginal =>
      assert !EndsWith(f, ").jpg") by {
        assert f[|f| - 5..][4] == '4';
      }
  }

  /** When a file has no owner and the heuristic at position `i` is the first
      to succeed, the pass attaches the file through it. */
  lemma FirstSuccessIs(s: Store, f: string, customExtra: map<string, string>, i: nat)
    requires f !in s.fileToJson.items
    requires i < |Rules| && Succeeds(s, f, customExtra, Rules[i])
    requires forall k :: 0 <= k < i ==> !Succeeds(s, f, customExtra, Rules[k])
    ensures var main := Candidate(Rules[i], f, customExtra).value;
      ReconcileFile(s, f, customExtra) == (TryAddExtra(s, f, main).0, Attached(Rules[i], main))
  {
    var o := ReconcileFile(s, f, customExtra).1;
    assert FirstOf(s, f, customExtra, Rules, o);
    var k :| 0 <= k < |Rules| && Rules[k] == o.rule
         && forall k' :: 0 <= k' < k ==> !Succeeds(s, f, customExtra, Rules[k']);
    assert Succeeds(s, f, customExtra, Rules[k]);
    assert k == i;
  }

  /** The motion-photo rule proposes, for a path that includes `MVIMG`, the
      path with a trailing `.MP4` cut off and `.jpg` appended. */
  lemma MotionCandidate(p: string, q: string)
    requires Includes(p, "MVIMG")
    ensures Candidate(MotionPhoto, p + q, map[]) == Some(StripSuffix(p + q, ".MP4") + StillExt)
    ensures q == ".MP4" ==> StripSuffix(p + q, ".MP4") == p
    ensures q == "-edited.MP4" ==> StripSuffix(p + q, ".MP4") == p + "-edited"
  {
    IncludesExtend(p, q, "MVIMG");
    var f := p + q;
    if q == ".MP4" {
      assert f[|f| - 4..] == ".MP4";
    }
    if q == "-edited.MP4" {
      assert f[|f| - 4..] == ".MP4";
      assert f[..|f| - 4] == p + "-edited";
    }
  }

  /** The edited-variant rule proposes `p + q` for `p-editedq` when neither
      part includes `-edited`: only its `-` starts it, so two occurrences can
      never overlap. */
  lemma EditedCandidate(p: string, q: string)
    requires !Includes(p, "-edited") && !Includes(q, "-edited")
    ensures Candidate(EditedVariant, p + "-edited" + q, map[]) == Some(p + q)
  {
    var e := "-edited";
    IncludesInfix(p, e, q);
    assert e[0] !in e[1..] by {
      assert e[1..] == "edited";
    }
    RemoveOnce(p, e, q);
  }

  /** The case of an edited `.MP4` video. */
  lemma EditedVideoCandidate(p: string)
    requires !Includes(p, "-edited")
    ensures Candidate(EditedVariant, p + "-edited.MP4", map[]) == Some(p + ".MP4")
  {
    ShortExcludes(".MP4", "-edited");
    EditedCandidate(p, ".MP4");
    assert p + "-edited.MP4" == p + "-edited" + ".MP4";
  }
}
