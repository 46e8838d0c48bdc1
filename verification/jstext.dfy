/** The JavaScript string primitives the matcher relies on, each with the
    semantics it has in the ECMAScript standard. A Dafny `char` stands for one
    UTF-16 code unit, so lengths and cut positions agree with `String.length`,
    `substring` and `slice`. */
module JsText {
  import opened Optional

  /** `s.startsWith(p)` */
  predicate StartsWith(s: string, p: string) {
    |p| <= |s| && s[..|p|] == p
  }

  /** `s.endsWith(p)` */
  predicate EndsWith(s: string, p: string) {
    |p| <= |s| && s[|s| - |p|..] == p
  }

  /** `s.includes(p)`: `p` occurs at some position of `s`. */
  predicate Includes(s: string, p: string)
    decreases |s|
  {
    StartsWith(s, p) || (|s| > 0 && Includes(s[1..], p))
  }

  /** `s.substring(0, end)`: the end index is clamped into `[0, |s|]`, so a
      negative end gives the empty string and an end past the string gives
      all of it. */
  function SubstringTo(s: string, end: int): (r: string)
    ensures StartsWith(s, r)
    ensures end <= 0 ==> r == ""
    ensures 0 <= end <= |s| ==> |r| == end
    ensures end >= |s| ==> r == s
  {
    s[..if end < 0 then 0 else if end > |s| then |s| else end]
  }

  /** `s.slice(0, end)`: a negative end counts back from the end of the
      string (and is clamped at 0); a non-negative one is clamped at `|s|`. */
  function SliceTo(s: string, end: int): (r: string)
    ensures StartsWith(s, r)
    ensures -|s| <= end < 0 ==> |r| == |s| + end
    ensures end < -|s| ==> r == ""
    ensures 0 <= end <= |s| ==> |r| == end
  {
    if end < 0 then s[..if |s| + end < 0 then 0 else |s| + end]
    else s[..if end > |s| then |s| else end]
  }

  /** `xs.join(sep)`: the empty list joins to the empty string. */
  function JoinWith(xs: seq<string>, sep: string): (r: string)
    ensures |xs| == 1 ==> r == xs[0]
    decreases |xs|
  {
    if |xs| == 0 then ""
    else if |xs| == 1 then xs[0]
    else xs[0] + sep + JoinWith(xs[1..], sep)
  }

  /** `s.split(sep)` for a non-empty separator. */
  function SplitOn(s: string, sep: string): (r: seq<string>)
    requires |sep| > 0
    ensures |r| >= 1
    decreases |s|
  {
    if |s| == 0 then [""]
    else if StartsWith(s, sep) then [""] + SplitOn(s[|sep|..], sep)
    else
      var rest := SplitOn(s[1..], sep);
      [[s[0]] + rest[0]] + rest[1..]
  }

  /** `s.replaceAll(p, '')` for a non-empty literal pattern: occurrences are
      found left to right, do not overlap, and the text produced by a removal
      is not searched again. */
  function RemoveAll(s: string, p: string): (r: string)
    requires |p| > 0
    ensures |r| <= |s|
    ensures r == s <==> !Includes(s, p)
    decreases |s|
  {
    if |s| == 0 then s
    else if StartsWith(s, p) then RemoveAll(s[|p|..], p)
    else [s[0]] + RemoveAll(s[1..], p)
  }

  /** What `replaceAll(p, '')` removes is every occurrence `s.split(p)`
      finds: the result is the pieces between them, joined with nothing. */
  lemma {:induction false} RemoveAllSplits(s: string, p: string)
    requires |p| > 0
    ensures RemoveAll(s, p) == JoinWith(SplitOn(s, p), "")
    decreases |s|
  {
    if |s| > 0 {
      if StartsWith(s, p) {
        RemoveAllSplits(s[|p|..], p);
        var rest := SplitOn(s[|p|..], p);
        assert JoinWith([""] + rest, "") == "" + "" + JoinWith(rest, "");
      } else {
        RemoveAllSplits(s[1..], p);
        JoinEmptyFront([s[0]], SplitOn(s[1..], p));
      }
    }
  }

  /** Joining with nothing in between: text put in front of the first piece
      lands in front of the whole. */
  lemma {:induction false} JoinEmptyFront(x: string, xs: seq<string>)
    requires |xs| >= 1
    ensures JoinWith([x + xs[0]] + xs[1..], "") == x + JoinWith(xs, "")
  {
    var ys := [x + xs[0]] + xs[1..];
    if |xs| > 1 {
      var j := JoinWith(xs[1..], "");
      assert ys[1..] == xs[1..];
      calc {
        JoinWith(ys, "");
        (x + xs[0]) + "" + j;
        { assert (x + xs[0]) + "" + j == x + (xs[0] + "" + j); }
        x + (xs[0] + "" + j);
        x + JoinWith(xs, "");
      }
    }
  }

  /** `"-edi-editedted".replaceAll("-edited", '')` is `"-edited"`: the text a
      removal brings together is not searched again, so the result can still
      include the pattern. */
  lemma RemoveAllSinglePass()
    ensures RemoveAll("-edi-editedted", "-edited") == "-edited"
    ensures Includes("-edited", "-edited")
  {
    var p := "-edited";
    var s := "-edi-editedted";
    assert s == "-edi" + p + "ted";
    assert p[0] !in p[1..];
    assert !Includes("-edi", p) by { ShortExcludes("-edi", p); }
    assert !Includes("ted", p) by { ShortExcludes("ted", p); }
    RemoveOnce("-edi", p, "ted");
    assert "-edi" + "ted" == p;
    assert StartsWith(p, p);
  }

  /** A suffix of a suffix is a suffix. */
  lemma EndsWithTrans(a: string, b: string, c: string)
    requires EndsWith(a, b) && EndsWith(b, c)
    ensures EndsWith(a, c)
  {
    assert a[|a| - |c|..] == a[|a| - |b|..][|b| - |c|..];
  }

  /** A string includes any pattern placed inside it. */
  lemma {:induction false} IncludesInfix(a: string, p: string, b: string)
    ensures Includes(a + p + b, p)
    decreases |a|
  {
    if |a| == 0 {
      assert (a + p + b)[..|p|] == p;
    } else {
      IncludesInfix(a[1..], p, b);
      assert (a + p + b)[1..] == a[1..] + p + b;
    }
  }

  /** Text appended after an occurrence keeps it. */
  lemma {:induction false} IncludesExtend(s: string, q: string, p: string)
    requires Includes(s, p)
    ensures Includes(s + q, p)
    decreases |s|
  {
    if StartsWith(s, p) {
      assert (s + q)[..|p|] == s[..|p|];
    } else {
      IncludesExtend(s[1..], q, p);
      assert (s + q)[1..] == s[1..] + q;
    }
  }

  /** A string shorter than the pattern does not include it. */
  lemma {:induction false} ShortExcludes(s: string, p: string)
    requires |s| < |p|
    ensures !Includes(s, p)
    decreases |s|
  {
    if |s| > 0 {
      ShortExcludes(s[1..], p);
    }
  }

  /** Removing a pattern whose first character does not recur in it (so no
      two occurrences can overlap), placed between two parts that do not
      include it, leaves exactly the two parts joined. */
  lemma {:induction false} RemoveOnce(a: string, p: string, b: string)
    requires |p| > 0 && p[0] !in p[1..]
    requires !Includes(a, p) && !Includes(b, p)
    ensures RemoveAll(a + p + b, p) == a + b
    decreases |a|
  {
    var s := a + p + b;
    if |a| == 0 {
      assert s == p + b;
      RemoveAfterOccurrence(p, b);
    } else {
      var a' := a[1..];
      assert !Includes(a', p);
      calc {
        RemoveAll(s, p);
        { NoOccurrenceAtFront(a, p, b); RemoveKeepsFront(s, p); }
        [s[0]] + RemoveAll(s[1..], p);
        { assert s[0] == a[0] && s[1..] == a' + p + b; }
        [a[0]] + RemoveAll(a' + p + b, p);
        { RemoveOnce(a', p, b); }
        [a[0]] + (a' + b);
        { ConsFront(a, b); }
        a + b;
      }
    }
  }

  /** The first character of `a` put back in front of the rest of `a + b`. */
  lemma ConsFront(a: string, b: string)
    requires |a| > 0
    ensures [a[0]] + (a[1..] + b) == a + b
  {
    assert a == [a[0]] + a[1..];
  }

  /** Where no occurrence starts, the first character is kept and the rest
      is searched. */
  lemma RemoveKeepsFront(s: string, p: string)
    requires |s| > 0 && |p| > 0 && !StartsWith(s, p)
    ensures RemoveAll(s, p) == [s[0]] + RemoveAll(s[1..], p)
  {
  }

  /** An occurrence at the front is removed and the rest is searched. */
  lemma RemoveAfterOccurrence(p: string, b: string)
    requires |p| > 0 && !Includes(b, p)
    ensures RemoveAll(p + b, p) == b
  {
    var s := p + b;
    assert s[..|p|] == p;
    assert s[|p|..] == b;
  }

  /** No occurrence of `p` starts inside a non-empty part `a` that does not
      include it, when `p`'s first character does not recur in `p`. */
  lemma NoOccurrenceAtFront(a: string, p: string, b: string)
    requires |a| > 0 && |p| > 0 && p[0] !in p[1..]
    requires !Includes(a, p)
    ensures !StartsWith(a + p + b, p)
  {
    var s := a + p + b;
    if |a| >= |p| {
      assert s[..|p|] == a[..|p|];
    } else {
      assert p[1..][|a| - 1] == p[|a|];
      assert s[..|p|][|a|] == p[0];
    }
  }

  /** A string ending in `u` ends in `t + u` exactly when what precedes that
      `u` ends in `t`. */
  lemma EndsWithSplit(s: string, t: string, u: string)
    requires EndsWith(s, u)
    ensures EndsWith(s, t + u) <==> EndsWith(s[..|s| - |u|], t)
  {
    var h := s[..|s| - |u|];
    if |t| + |u| <= |s| {
      assert s[|s| - |t| - |u|..] == h[|h| - |t|..] + s[|s| - |u|..];
      if EndsWith(s, t + u) {
        assert h[|h| - |t|..] == (t + u)[..|t|];
      }
    }
  }

  /** `s.replaceAll(/<lit>$/g, '')` for a regular expression that is a literal
      anchored at the end: only the one trailing occurrence is removed. */
  function StripSuffix(s: string, suffix: string): (r: string)
    ensures EndsWith(s, suffix) ==> r + suffix == s
    ensures !EndsWith(s, suffix) ==> r == s
  {
    if EndsWith(s, suffix) then s[..|s| - |suffix|] else s
  }

  // ---------------------------------------------------------------------
  // Illegal characters: /[\\/:*?"<>|%&]/g

  /** The characters the exporter cannot keep in a file name. */
  const IllegalChars: string := "\\/:*?\"<>|%&"

  predicate IsIllegal(c: char) {
    c in IllegalChars
  }

  /** `s.replaceAll(/[\\/:*?"<>|%&]/g, '_')` */
  function Sanitise(s: string): (r: string)
    ensures |r| == |s|
    ensures forall i :: 0 <= i < |s| && IsIllegal(s[i]) ==> r[i] == '_'
    ensures forall i :: 0 <= i < |s| && !IsIllegal(s[i]) ==> r[i] == s[i]
    decreases |s|
  {
    if |s| == 0 then ""
    else [if IsIllegal(s[0]) then '_' else s[0]] + Sanitise(s[1..])
  }

  /** Sanitising leaves no illegal character behind, so a second pass changes
      nothing. */
  lemma SanitiseIdempotent(s: string)
    ensures forall i :: 0 <= i < |Sanitise(s)| ==> !IsIllegal(Sanitise(s)[i])
    ensures Sanitise(Sanitise(s)) == Sanitise(s)
  {
    var r := Sanitise(s);
    assert !IsIllegal('_');
    assert forall i :: 0 <= i < |r| ==> !IsIllegal(r[i]);
    var r2 := Sanitise(r);
    assert forall i :: 0 <= i < |r| ==> r2[i] == r[i];
  }

  /** A string the sanitiser would leave alone is returned unchanged. */
  lemma SanitiseClean(s: string)
    requires forall i :: 0 <= i < |s| ==> !IsIllegal(s[i])
    ensures Sanitise(s) == s
  {
  }

  // ---------------------------------------------------------------------
  // Duplicate-index suffixes: /\(\d+\)$/ and /\(\d\)$/

  /** `\d` without the `u` flag: the ASCII digits. */
  predicate IsDigit(c: char) {
    '0' <= c <= '9'
  }

  /** A duplicate index such as `(1)` or `(12)`: a parenthesised, non-empty
      run of digits. */
  ghost predicate IsIndex(t: string) {
    && |t| >= 3
    && t[0] == '('
    && t[|t| - 1] == ')'
    && forall i :: 1 <= i < |t| - 1 ==> IsDigit(t[i])
  }

  /** The start of the longest run of digits that ends just before `j`. */
  function DigitRunStart(s: string, j: nat): (k: nat)
    requires j <= |s|
    ensures k <= j
    ensures forall i :: k <= i < j ==> IsDigit(s[i])
    ensures k == 0 || !IsDigit(s[k - 1])
    decreases j
  {
    if j > 0 && IsDigit(s[j - 1]) then DigitRunStart(s, j - 1) else j
  }

  /** `s.match(/\(\d+\)$/g)?.[0]`: the duplicate index ending `s`, if any.
      At most one suffix of a string can be an index, so the match is
      unique. */
  function TrailingIndex(s: string): (r: Option<string>)
    ensures r.Some? ==> IsIndex(r.value) && EndsWith(s, r.value)
    ensures forall t :: IsIndex(t) && EndsWith(s, t) ==> r == Some(t)
  {
    if |s| >= 3 && s[|s| - 1] == ')' then
      var k := DigitRunStart(s, |s| - 1);
      if 1 <= k < |s| - 1 && s[k - 1] == '(' then Some(s[k - 1..]) else None
    else None
  }

  /** `s.match(/\(\d\)$/)?.[0]`: the single-digit duplicate index ending `s`,
      if any. */
  function TrailingDigitIndex(s: string): (r: Option<string>)
    ensures r.Some? ==> IsIndex(r.value) && |r.value| == 3 && EndsWith(s, r.value)
    ensures forall t :: IsIndex(t) && |t| == 3 && EndsWith(s, t) ==> r == Some(t)
  {
    if |s| >= 3 && s[|s| - 3] == '(' && IsDigit(s[|s| - 2]) && s[|s| - 1] == ')'
    then Some(s[|s| - 3..])
    else None
  }

  /** `s.replaceAll(/\(\d+\)$/g, '')`: drop the trailing duplicate index. */
  function WithoutIndex(s: string): (r: string)
    ensures TrailingIndex(s).Some? ==> r + TrailingIndex(s).value == s
    ensures TrailingIndex(s).None? ==> r == s
  {
    match TrailingIndex(s)
    case Some(t) => s[..|s| - |t|]
    case None => s
  }

  /** Whatever the single-digit expression matches, the multi-digit one
      matches too, with the same text. */
  lemma SingleDigitIndexAgrees(s: string)
    requires TrailingDigitIndex(s).Some?
    ensures TrailingIndex(s) == TrailingDigitIndex(s)
  {
  }

  /** A two-digit index is seen by the multi-digit expression and missed by
      the single-digit one. */
  lemma TwoDigitIndexMissedBySingleDigit()
    ensures TrailingIndex("IMG_0001(12)") == Some("(12)")
    ensures TrailingDigitIndex("IMG_0001(12)") == None
  {
    var s := "IMG_0001(12)";
    var t := "(12)";
    assert s[|s| - 4..] == t;
    assert IsIndex(t);
  }

  /** A match of the index expression always ends with `)`, so the source's
      `endsWith(')')` test before matching never changes the outcome. */
  lemma IndexEndsWithParen(s: string)
    requires TrailingIndex(s).Some?
    ensures EndsWith(s, ")")
  {
    var t := TrailingIndex(s).value;
    assert s[|s| - 1] == t[|t| - 1];
  }
}
