/** The directory scanner (`scanDirs`): a breadth-first walk of the export
    tree that sorts every entry into the queue of directories still to visit,
    the media-file set, the sidecar set, or nowhere (ignored catalog files).
    The file system is given as a tree of listings, in the order
    `readdirSync` returns them; JavaScript `Set`s are modelled by their
    iteration order, a sequence without repetitions. */
module Scanner {
  import opened JsText
  import opened Paths
  import opened JsCollections

  /** One entry of a directory listing: a sub-directory together with its own
      listing, or anything that is not a directory. */
  datatype Entry = Directory(name: string, entries: seq<Entry>) | File(name: string)

  /** A directory waiting in the breadth-first queue, with its listing. */
  datatype Pending = Pending(path: string, entries: seq<Entry>)

  /** Where the scanner puts a path that is not a directory. */
  datatype Placement = MediaFile | Ignored | Sidecar

  /** Catalog-level JSON files of the export that describe no single media
      file (src/photos.js). */
  const IgnoreFiles: seq<string> := [
    "print-subscriptions.json",
    "shared_album_comments.json",
    "user-generated-memory-titles.json",
    "metadata.json",
    "metadata(1).json",
    "metadata(2).json"
  ]

  /** The three-way decision for a non-directory path: no `.json` suffix makes
      it a media file, an ignore-listed base name drops it, and every other
      `.json` file is a sidecar. */
  function Place(p: string, ignore: seq<string>): (r: Placement)
    ensures r == MediaFile <==> !EndsWith(p, ".json")
    ensures r == Ignored <==> EndsWith(p, ".json") && Basename(p) in ignore
    ensures r == Sidecar <==> EndsWith(p, ".json") && Basename(p) !in ignore
  {
    if !EndsWith(p, ".json") then MediaFile
    else if Basename(p) in ignore then Ignored
    else Sidecar
  }

  /** The scanner's working state: the queue of directories still to list
      (`dirList`), and the two sets built so far (`fileSet`, `jsonSet`). */
  datatype ScanState = ScanState(queue: seq<Pending>, files: seq<string>, sidecars: seq<string>)

  /** One entry of the listing of `dir`. */
  function Visit(dir: string, e: Entry, ignore: seq<string>, st: ScanState): ScanState {
    var p := Join(dir, e.name);
    match e
    case Directory(_, children) => st.(queue := st.queue + [Pending(p, children)])
    case File(_) =>
      match Place(p, ignore)
      case MediaFile => st.(files := SetAdd(st.files, p))
      case Ignored => st
      case Sidecar => st.(sidecars := SetAdd(st.sidecars, p))
  }

  /** The whole listing of `dir`, entry by entry. */
  function VisitAll(dir: string, es: seq<Entry>, ignore: seq<string>, st: ScanState): (r: ScanState)
    ensures QueueSize(r.queue) <= QueueSize(st.queue) + EntriesSize(es)
    decreases |es|
  {
    if |es| == 0 then st
    else
      var st' := Visit(dir, es[0], ignore, st);
      assert QueueSize(st'.queue) <= QueueSize(st.queue) + EntrySize(es[0]) by {
        if es[0].Directory? {
          QueueSizeConcat(st.queue, [Pending(Join(dir, es[0].name), es[0].entries)]);
        }
      }
      VisitAll(dir, es[1..], ignore, st')
  }

  /** `while (dirList.length) { const dir = dirList.shift(); ... }` */
  function Drain(st: ScanState, ignore: seq<string>): ScanState
    decreases QueueSize(st.queue)
  {
    if |st.queue| == 0 then st
    else
      var d := st.queue[0];
      var st' := VisitAll(d.path, d.entries, ignore, st.(queue := st.queue[1..]));
      assert QueueSize(st.queue) == PendingSize(d) + QueueSize(st.queue[1..]) by {
        QueueSizeConcat([d], st.queue[1..]);
        assert st.queue == [d] + st.queue[1..];
      }
      Drain(st', ignore)
  }

  /** The scan from the root directory: the media files and the sidecars, in
      discovery order. */
  function Scan(root: string, entries: seq<Entry>, ignore: seq<string>): (r: (seq<string>, seq<string>))
    ensures NoDup(r.0) && NoDup(r.1)
    ensures forall p :: p in r.0 ==> !EndsWith(p, ".json")
    ensures forall p :: p in r.1 ==> EndsWith(p, ".json") && Basename(p) !in ignore
  {
    var st0 := ScanState([Pending(root, entries)], [], []);
    var st := Drain(st0, ignore);
    DrainPlaces(st0, ignore, MediaFile);
    (st.files, st.sidecars)
  }

  // ---------------------------------------------------------------------
  // Termination measure: the number of entries still to be seen.

  function EntrySize(e: Entry): nat
    decreases e
  {
    match e
    case File(_) => 1
    case Directory(_, es) => 1 + EntriesSize(es)
  }

  function EntriesSize(es: seq<Entry>): nat
    decreases es
  {
    if |es| == 0 then 0 else EntrySize(es[0]) + EntriesSize(es[1..])
  }

  function PendingSize(d: Pending): nat {
    1 + EntriesSize(d.entries)
  }

  function QueueSize(q: seq<Pending>): nat {
    if |q| == 0 then 0 else PendingSize(q[0]) + QueueSize(q[1..])
  }

  lemma QueueSizeConcat(a: seq<Pending>, b: seq<Pending>)
    ensures QueueSize(a + b) == QueueSize(a) + QueueSize(b)
  {
    if |a| > 0 {
      assert (a + b)[1..] == a[1..] + b;
      QueueSizeConcat(a[1..], b);
    } else {
      assert a + b == b;
    }
  }

  // ---------------------------------------------------------------------
  // What the scan finds: every non-directory path of the tree, placed.

  /** The paths of all non-directory entries at or below `e` in `dir`. */
  ghost function PathsOf(dir: string, e: Entry): set<string>
    decreases e
  {
    match e
    case File(n) => {Join(dir, n)}
    case Directory(n, es) => PathsUnder(Join(dir, n), es)
  }

  ghost function PathsUnder(dir: string, es: seq<Entry>): set<string>
    decreases es
  {
    if |es| == 0 then {} else PathsOf(dir, es[0]) + PathsUnder(dir, es[1..])
  }

  ghost function QueuePaths(q: seq<Pending>): set<string> {
    if |q| == 0 then {} else PathsUnder(q[0].path, q[0].entries) + QueuePaths(q[1..])
  }

  /** The paths of `s` that the scanner puts in `pl`. */
  ghost function Among(s: set<string>, ignore: seq<string>, pl: Placement): set<string> {
    set p | p in s && Place(p, ignore) == pl
  }

  /** The set the scan state keeps for placement `pl` (nothing for `Ignored`). */
  function Bucket(st: ScanState, pl: Placement): seq<string> {
    match pl
    case MediaFile => st.files
    case Sidecar => st.sidecars
    case Ignored => []
  }

  /** Everything already placed in `pl`, plus what the queue will place there. */
  ghost function Destined(st: ScanState, ignore: seq<string>, pl: Placement): set<string> {
    (set p | p in Bucket(st, pl)) + Among(QueuePaths(st.queue), ignore, pl)
  }

  /** The scan state never holds a path in the wrong set, nor one twice. */
  ghost predicate WellPlaced(st: ScanState, ignore: seq<string>) {
    && NoDup(st.files) && NoDup(st.sidecars)
    && (forall p :: p in st.files ==> Place(p, ignore) == MediaFile)
    && (forall p :: p in st.sidecars ==> Place(p, ignore) == Sidecar)
  }

  lemma QueuePathsConcat(a: seq<Pending>, b: seq<Pending>)
    ensures QueuePaths(a + b) == QueuePaths(a) + QueuePaths(b)
  {
    if |a| > 0 {
      assert (a + b)[1..] == a[1..] + b;
      QueuePathsConcat(a[1..], b);
    } else {
      assert a + b == b;
    }
  }

  lemma VisitWellPlaced(dir: string, e: Entry, ignore: seq<string>, st: ScanState)
    requires WellPlaced(st, ignore)
    ensures WellPlaced(Visit(dir, e, ignore, st), ignore)
  {
  }

  lemma VisitFilePlaces(dir: string, n: string, ignore: seq<string>, st: ScanState, pl: Placement)
    requires pl != Ignored
    ensures var p := Join(dir, n);
      Destined(Visit(dir, File(n), ignore, st), ignore, pl)
         == Destined(st, ignore, pl) + Among({p}, ignore, pl)
  {
    var p := Join(dir, n);
    var r := Visit(dir, File(n), ignore, st);
    assert r.queue == st.queue;
    if Place(p, ignore) == pl {
      assert Among({p}, ignore, pl) == {p};
      SetAddContents(Bucket(st, pl), p);
      assert Bucket(r, pl) == SetAdd(Bucket(st, pl), p);
    } else {
      assert Among({p}, ignore, pl) == {};
      assert Bucket(r, pl) == Bucket(st, pl);
    }
  }

  lemma {:induction false} VisitPlaces(dir: string, e: Entry, ignore: seq<string>, st: ScanState, pl: Placement)
    requires pl != Ignored
    ensures Destined(Visit(dir, e, ignore, st), ignore, pl)
         == Destined(st, ignore, pl) + Among(PathsOf(dir, e), ignore, pl)
  {
    match e
    case Directory(n, children) =>
      var p := Join(dir, n);
      var r := Visit(dir, e, ignore, st);
      QueuePathsConcat(st.queue, [Pending(p, children)]);
      assert QueuePaths([Pending(p, children)]) == PathsUnder(p, children);
      assert Bucket(r, pl) == Bucket(st, pl);
    case File(n) =>
      VisitFilePlaces(dir, n, ignore, st, pl);
  }

  lemma {:induction false} VisitAllPlaces(dir: string, es: seq<Entry>, ignore: seq<string>, st: ScanState, pl: Placement)
    requires pl != Ignored
    requires WellPlaced(st, ignore)
    ensures WellPlaced(VisitAll(dir, es, ignore, st), ignore)
    ensures Destined(VisitAll(dir, es, ignore, st), ignore, pl)
         == Destined(st, ignore, pl) + Among(PathsUnder(dir, es), ignore, pl)
    decreases |es|
  {
    if |es| > 0 {
      var st' := Visit(dir, es[0], ignore, st);
      VisitWellPlaced(dir, es[0], ignore, st);
      VisitPlaces(dir, es[0], ignore, st, pl);
      VisitAllPlaces(dir, es[1..], ignore, st', pl);
      assert PathsUnder(dir, es) == PathsOf(dir, es[0]) + PathsUnder(dir, es[1..]);
    }
  }

  lemma {:induction false} DrainPlaces(st: ScanState, ignore: seq<string>, pl: Placement)
    requires pl != Ignored
    requires WellPlaced(st, ignore)
    ensures WellPlaced(Drain(st, ignore), ignore)
    ensures (set p | p in Bucket(Drain(st, ignore), pl)) == Destined(st, ignore, pl)
    decreases QueueSize(st.queue)
  {
    if |st.queue| == 0 {
      assert Among(QueuePaths(st.queue), ignore, pl) == {};
    } else {
      var d := st.queue[0];
      var st0 := st.(queue := st.queue[1..]);
      var st' := VisitAll(d.path, d.entries, ignore, st0);
      assert QueueSize(st.queue) == PendingSize(d) + QueueSize(st.queue[1..]) by {
        QueueSizeConcat([d], st.queue[1..]);
        assert st.queue == [d] + st.queue[1..];
      }
      VisitAllPlaces(d.path, d.entries, ignore, st0, pl);
      DrainPlaces(st', ignore, pl);
      assert QueuePaths(st.queue) == PathsUnder(d.path, d.entries) + QueuePaths(st.queue[1..]);
    }
  }

  /** The scan's set for `pl` is exactly the paths of the tree placed there. */
  lemma ScanFinds(root: string, entries: seq<Entry>, ignore: seq<string>, pl: Placement)
    requires pl != Ignored
    ensures var fin := Drain(ScanState([Pending(root, entries)], [], []), ignore);
      && WellPlaced(fin, ignore)
      && (set p | p in Bucket(fin, pl)) == Among(PathsUnder(root, entries), ignore, pl)
  {
    var st := ScanState([Pending(root, entries)], [], []);
    assert QueuePaths(st.queue) == PathsUnder(root, entries);
    DrainPlaces(st, ignore, pl);
  }

  /** The scan partitions the non-directory paths of the tree: the media-file
      set is exactly the paths without a `.json` suffix, the sidecar set is
      exactly the `.json` paths whose base name is not ignore-listed, neither
      set repeats a path, and so the two are disjoint and no ignore-listed
      name is a sidecar. */
  lemma {:induction false} ScanPartitions(root: string, entries: seq<Entry>, ignore: seq<string>)
    ensures var (files, sidecars) := Scan(root, entries, ignore);
      && (forall p :: p in files <==> p in PathsUnder(root, entries) && !EndsWith(p, ".json"))
      && (forall p :: p in sidecars <==> p in PathsUnder(root, entries) && EndsWith(p, ".json") && Basename(p) !in ignore)
      && NoDup(files) && NoDup(sidecars)
      && (forall p :: p in files ==> p !in sidecars)
      && (forall p :: p in sidecars ==> Basename(p) !in ignore)
  {
    var fin := Drain(ScanState([Pending(root, entries)], [], []), ignore);
    assert Scan(root, entries, ignore) == (fin.files, fin.sidecars);
    ScanFinds(root, entries, ignore, MediaFile);
    ScanFinds(root, entries, ignore, Sidecar);
    assert Bucket(fin, MediaFile) == fin.files;
    assert Bucket(fin, Sidecar) == fin.sidecars;
    forall p ensures p in fin.files <==> p in PathsUnder(root, entries) && !EndsWith(p, ".json") {
      assert p in fin.files <==> p in (set q | q in fin.files);
      assert p in Among(PathsUnder(root, entries), ignore, MediaFile)
        <==> p in PathsUnder(root, entries) && Place(p, ignore) == MediaFile;
      assert Place(p, ignore) == MediaFile <==> !EndsWith(p, ".json");
    }
    forall p ensures p in fin.sidecars <==> p in PathsUnder(root, entries) && EndsWith(p, ".json") && Basename(p) !in ignore {
      assert p in fin.sidecars <==> p in (set q | q in fin.sidecars);
      assert p in Among(PathsUnder(root, entries), ignore, Sidecar)
        <==> p in PathsUnder(root, entries) && Place(p, ignore) == Sidecar;
      assert Place(p, ignore) == Sidecar <==> EndsWith(p, ".json") && Basename(p) !in ignore;
    }
  }
}
