/** The parts of Node's `path` module (POSIX flavour) that the matcher uses.
    A path is a string whose components are separated by `/`. `Join` glues a
    directory and a name with one separator; the normalisation `path.join`
    also performs (collapsing `.`, `..` and repeated separators) is not
    modelled, and the paths the scanner produces never need it. */
module Paths {
  import opened Optional
  import opened JsText

  const Sep: char := '/'

  /** `s.lastIndexOf(c)` with the not-found case as `None`. */
  function LastIndexOf(s: string, c: char): (r: Option<nat>)
    ensures r.Some? ==> r.value < |s| && s[r.value] == c
    ensures r.Some? ==> forall k :: r.value < k < |s| ==> s[k] != c
    ensures r.None? <==> c !in s
    decreases |s|
  {
    if |s| == 0 then None
    else if s[|s| - 1] == c then Some(|s| - 1)
    else LastIndexOf(s[..|s| - 1], c)
  }

  /** `path.basename(p)`: the text after the last separator. */
  function Basename(p: string): (b: string)
    ensures Sep !in b
    ensures EndsWith(p, b)
    ensures Sep !in p ==> b == p
  {
    match LastIndexOf(p, Sep)
    case Some(i) => p[i + 1..]
    case None => p
  }

  /** `path.dirname(p)`: the text before the last separator, or `.` for a
      bare name. (For `/x` Node answers `/`; here it is the empty string,
      which `Join` turns back into `/x` all the same.) */
  function Dirname(p: string): (d: string)
  {
    match LastIndexOf(p, Sep)
    case Some(i) => p[..i]
    case None => "."
  }

  /** `path.join(dir, name)` for a name with no separator in it. */
  function Join(dir: string, name: string): (p: string)
    ensures EndsWith(p, name)
    ensures |p| == |dir| + 1 + |name|
  {
    dir + [Sep] + name
  }

  /** Joining a name onto a directory and splitting it again gives back the
      directory and the name. */
  lemma JoinSplits(dir: string, name: string)
    requires Sep !in name
    ensures Basename(Join(dir, name)) == name
    ensures Dirname(Join(dir, name)) == dir
  {
    var p := Join(dir, name);
    assert p[|dir|] == Sep;
    assert forall k :: |dir| < k < |p| ==> p[k] == name[k - |dir| - 1];
    assert LastIndexOf(p, Sep) == Some(|dir|);
  }

  /** Text appended to a joined path is appended to its name. */
  lemma JoinAppend(dir: string, name: string, more: string)
    ensures Join(dir, name + more) == Join(dir, name) + more
  {
    assert dir + [Sep] + (name + more) == (dir + [Sep] + name) + more;
  }

  /** Splitting a path that has a directory part and joining the parts again
      gives back the path. */
  lemma SplitJoins(p: string)
    requires Sep in p
    ensures Join(Dirname(p), Basename(p)) == p
  {
    var i := LastIndexOf(p, Sep).value;
    assert p == p[..i] + [Sep] + p[i + 1..];
  }

  /** Two names joined onto directories give the same path only if the
      names are equal and so are the directories. */
  lemma JoinInjective(d1: string, n1: string, d2: string, n2: string)
    requires Sep !in n1 && Sep !in n2
    requires Join(d1, n1) == Join(d2, n2)
    ensures d1 == d2 && n1 == n2
  {
    JoinSplits(d1, n1);
    JoinSplits(d2, n2);
  }

  /** `path.parse(b).ext` for a base name `b`: from the last `.` to the end,
      unless there is no `.`, the only `.` that could start it is the first
      character (`.bashrc`), or the name is exactly `..`. */
  function ExtOf(b: string): (e: string)
    ensures e != "" ==> e[0] == '.' && |e| < |b| && EndsWith(b, e)
    ensures e != "" ==> forall k :: 1 <= k < |e| ==> e[k] != '.'
    ensures e == "" ==> b == ".." || forall k :: 0 < k < |b| ==> b[k] != '.'
    ensures b == ".." ==> e == ""
  {
    if b == ".." then ""
    else match LastIndexOf(b, '.')
      case None => ""
      case Some(i) => if i == 0 then "" else b[i..]
  }

  /** `path.parse(b).name` for a base name `b`: what precedes the extension. */
  function StemOf(b: string): (n: string)
    ensures n + ExtOf(b) == b
  {
    b[..|b| - |ExtOf(b)|]
  }

  /** `path.parse(p).ext` */
  function ParseExt(p: string): string {
    ExtOf(Basename(p))
  }

  /** `path.parse(p).name` */
  function ParseName(p: string): string {
    StemOf(Basename(p))
  }

  /** `path.parse(p).name + path.parse(p).ext` is `path.parse(p).base`, which
      is the whole of a name without separators. */
  lemma ParseRecombines(p: string)
    requires Sep !in p
    ensures ParseName(p) + ParseExt(p) == p
  {
  }

  /** A name other than `..` with a `.` after its first character and none
      after that `.` splits there into stem and extension. */
  lemma ExtAt(b: string, m: nat)
    requires 0 < m < |b| && b[m] == '.' && b != ".."
    requires forall k :: m < k < |b| ==> b[k] != '.'
    ensures ExtOf(b) == b[m..] && StemOf(b) == b[..m]
  {
    assert LastIndexOf(b, '.') == Some(m);
  }

  /** A non-empty stem followed by an extension (a `.` and no further `.`)
      splits back into the two, unless together they are `..`. */
  lemma SplitAtExt(stem: string, ext: string)
    requires |stem| > 0 && ext != "" && ext[0] == '.' && stem + ext != ".."
    requires forall k :: 1 <= k < |ext| ==> ext[k] != '.'
    ensures ExtOf(stem + ext) == ext && StemOf(stem + ext) == stem
  {
    var n := stem + ext;
    var m := |stem|;
    assert n[m..] == ext;
    assert n[..m] == stem;
    forall k | m < k < |n| ensures n[k] != '.' {
      assert n[k] == ext[k - m];
    }
    ExtAt(n, m);
  }

  /** `path.basename(p, suffix)`: the base name with `suffix` cut off its
      end, unless the base name is nothing but the suffix; a path that is
      exactly the suffix gives the empty string. */
  function BasenameWithout(p: string, suffix: string): (b: string)
    ensures StartsWith(Basename(p), b)
    ensures |suffix| > 0 && p == suffix ==> b == ""
    ensures |suffix| > 0 && p != suffix && EndsWith(Basename(p), suffix) && Basename(p) != suffix ==> b + suffix == Basename(p)
    ensures !EndsWith(Basename(p), suffix) && p != suffix ==> b == Basename(p)
  {
    if |suffix| > 0 && p == suffix then ""
    else CutSuffix(Basename(p), suffix)
  }

  /** `s` without `suffix` at its end, unless that would leave nothing. */
  function CutSuffix(s: string, suffix: string): (b: string)
    ensures StartsWith(s, b)
    ensures |suffix| > 0 && EndsWith(s, suffix) && s != suffix ==> b + suffix == s
    ensures !(|suffix| > 0 && EndsWith(s, suffix) && s != suffix) ==> b == s
  {
    if |suffix| > 0 && EndsWith(s, suffix) && s != suffix then
      var k := |s| - |suffix|;
      assert s[..k] + s[k..] == s;
      s[..k]
    else
      assert s[..|s|] == s;
      s
  }

  /** A suffix without separators that ends a path also ends its base name. */
  lemma BasenameKeepsSuffix(p: string, s: string)
    requires EndsWith(p, s) && Sep !in s
    ensures EndsWith(Basename(p), s)
  {
    var b := Basename(p);
    if LastIndexOf(p, Sep).Some? {
      var i := LastIndexOf(p, Sep).value;
      assert b[|b| - |s|..] == p[|p| - |s|..];
    }
  }

  /** The extension of a base name that ends in `.json` is `.json`, except
      for the base name `.json` itself, which has none. */
  lemma JsonExt(b: string)
    requires EndsWith(b, ".json")
    ensures b == ".json" ==> ExtOf(b) == ""
    ensures b != ".json" ==> ExtOf(b) == ".json"
  {
    var j := |b| - 5;
    assert b[j..] == ".json";
    assert b[j] == '.';
    if b == ".json" {
      assert LastIndexOf(b, '.') == Some(0);
    } else {
      assert forall k :: j < k < |b| ==> b[k] != '.' by {
        forall k | j < k < |b| ensures b[k] != '.' {
          assert b[k] == ".json"[k - j];
        }
      }
      assert LastIndexOf(b, '.') == Some(j);
      assert b != "..";
    }
  }

  /** For a sidecar path the two ways the revisions compute "the name without
      `.json`" agree: `path.parse(p).name` and `path.basename(p, '.json')`. */
  lemma JsonBasenamesAgree(p: string)
    requires Sep in p && EndsWith(p, ".json")
    ensures ParseName(p) == BasenameWithout(p, ".json")
  {
    BasenameKeepsSuffix(p, ".json");
    JsonExt(Basename(p));
    assert p != ".json";
  }
}
