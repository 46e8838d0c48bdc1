/** The association store: `jsonToFileMap` (sidecar to its primary media
    file), `fileToJsonMap` (every owned media file, primary or extra, to its
    sidecar) and `jsonToExtraFilesMap` (sidecar to its extra files, in the
    order they were attached). The store only grows. */
module Store {
  import opened JsCollections

  datatype Store = Store(
    jsonToFile: OrderedMap<string>,
    fileToJson: OrderedMap<string>,
    extras: OrderedMap<seq<string>>)

  function EmptyStore(): (s: Store)
    ensures Valid(s)
    ensures s.jsonToFile.items == map[] && s.fileToJson.items == map[] && s.extras.items == map[]
  {
    Store(EmptyMap(), EmptyMap(), EmptyMap())
  }

  /** `fileToJsonMap` undoes `jsonToFileMap`: the primary pairs agree in both
      directions. */
  ghost predicate PrimaryInverse(s: Store) {
    var J := s.jsonToFile.items;
    var F := s.fileToJson.items;
    forall j :: j in J ==> J[j] in F && F[J[j]] == j
  }

  /** `f` is the primary file of its owner. */
  ghost predicate IsPrimary(s: Store, f: string) {
    var J := s.jsonToFile.items;
    var F := s.fileToJson.items;
    f in F && F[f] in J && J[F[f]] == f
  }

  /** `f` is one of its owner's extra files. */
  ghost predicate IsExtra(s: Store, f: string) {
    var F := s.fileToJson.items;
    var X := s.extras.items;
    f in F && F[f] in X && f in X[F[f]]
  }

  /** The store's invariant: the three maps keep their key orders; primary
      pairs are mutual inverses; every owned file is its owner's primary or
      one of its owner's extras; every extra list belongs to a matched
      sidecar, repeats no file, lists only files owned by that sidecar, and
      never its primary. */
  ghost predicate Valid(s: Store) {
    && s.jsonToFile.Valid() && s.fileToJson.Valid() && s.extras.Valid()
    && PrimaryInverse(s)
    && OwnedAccounted(s)
    && ExtraListsWellFormed(s)
    && ExtrasOwned(s)
  }

  ghost predicate OwnedAccounted(s: Store) {
    var J := s.jsonToFile.items;
    var F := s.fileToJson.items;
    var X := s.extras.items;
    forall f :: f in F ==> F[f] in J && (J[F[f]] == f || (F[f] in X && f in X[F[f]]))
  }

  ghost predicate ExtraListsWellFormed(s: Store) {
    var J := s.jsonToFile.items;
    var X := s.extras.items;
    forall j :: j in X ==> j in J && NoDup(X[j])
  }

  ghost predicate ExtrasOwned(s: Store) {
    forall j, f :: j in s.extras.items && f in s.extras.items[j] ==> ExtraOwned(s, j, f)
  }

  /** `f` is owned by the matched sidecar `j` and is not its primary. */
  ghost predicate ExtraOwned(s: Store, j: string, f: string) {
    var J := s.jsonToFile.items;
    var F := s.fileToJson.items;
    j in J && f in F && F[f] == j && J[j] != f
  }

  /** `addMatch(jsonPath, filePath)`: a file that already has an owner is a
      duplicate match and leaves the store as it was (the first claim wins);
      otherwise both directions are set and the extras are untouched. The
      primary pairs stay mutual inverses either way, and the whole invariant
      is kept when the sidecar had no match yet. */
  function AddMatch(s: Store, jsonPath: string, filePath: string): (r: Store)
    ensures filePath in s.fileToJson.items ==> r == s
    ensures filePath !in s.fileToJson.items ==>
      && r.jsonToFile.items == s.jsonToFile.items[jsonPath := filePath]
      && r.fileToJson.items == s.fileToJson.items[filePath := jsonPath]
      && r.extras == s.extras
    ensures PrimaryInverse(s) ==> PrimaryInverse(r)
    ensures Valid(s) && jsonPath !in s.jsonToFile.items ==> Valid(r)
    ensures filePath in r.fileToJson.items
  {
    if filePath in s.fileToJson.items then s
    else Store(s.jsonToFile.Set(jsonPath, filePath), s.fileToJson.Set(filePath, jsonPath), s.extras)
  }

  /** `tryToAddExtraFile(filePath, mainFilePath)`: it fails, changing
      nothing, exactly when the main file has no owner; otherwise `filePath`
      goes to the end of the owner's extra list and is mapped to the owner,
      and nothing else changes. It does not look at whether `filePath` itself
      is owned: the invariant is kept when it is not. */
  function TryAddExtra(s: Store, filePath: string, mainFilePath: string): (res: (Store, bool))
    ensures !res.1 <==> mainFilePath !in s.fileToJson.items
    ensures !res.1 ==> res.0 == s
    ensures res.1 ==>
      var j := s.fileToJson.items[mainFilePath];
      var r := res.0;
      && r.jsonToFile == s.jsonToFile
      && r.fileToJson.items == s.fileToJson.items[filePath := j]
      && r.extras.items == s.extras.items[j := ExtrasOf(s, j) + [filePath]]
    ensures Valid(s) && filePath !in s.fileToJson.items ==> Valid(res.0)
  {
    if mainFilePath !in s.fileToJson.items then (s, false)
    else
      var j := s.fileToJson.items[mainFilePath];
      var r := WithExtra(s, filePath, j);
      assert Valid(s) && filePath !in s.fileToJson.items ==> Valid(r) by {
        if Valid(s) && filePath !in s.fileToJson.items {
          ExtraKeepsValid(s, filePath, j);
        }
      }
      (r, true)
  }

  /** The extra list of `j` (`[]` when it has none). */
  function ExtrasOf(s: Store, j: string): seq<string> {
    if j in s.extras.items then s.extras.items[j] else []
  }

  /** The store after attaching `f` as an extra of `j`. */
  function WithExtra(s: Store, f: string, j: string): Store {
    Store(s.jsonToFile, s.fileToJson.Set(f, j), s.extras.Set(j, ExtrasOf(s, j) + [f]))
  }

  lemma ExtraKeepsValid(s: Store, f: string, j: string)
    requires Valid(s)
    requires f !in s.fileToJson.items
    requires j in s.jsonToFile.items
    ensures Valid(WithExtra(s, f, j))
  {
    ExtraKeepsInverse(s, f, j);
    ExtraKeepsAccounted(s, f, j);
    ExtraKeepsLists(s, f, j);
    ExtraKeepsOwned(s, f, j);
  }

  lemma ExtraKeepsInverse(s: Store, f: string, j: string)
    requires PrimaryInverse(s)
    requires f !in s.fileToJson.items
    ensures PrimaryInverse(WithExtra(s, f, j))
  {
  }

  lemma ExtraKeepsAccounted(s: Store, f: string, j: string)
    requires OwnedAccounted(s)
    requires f !in s.fileToJson.items
    requires j in s.jsonToFile.items
    ensures OwnedAccounted(WithExtra(s, f, j))
  {
    var r := WithExtra(s, f, j);
    var J := s.jsonToFile.items;
    var F := s.fileToJson.items;
    var X := s.extras.items;
    var F' := r.fileToJson.items;
    var X' := r.extras.items;
    forall g | g in F' ensures F'[g] in J && (J[F'[g]] == g || (F'[g] in X' && g in X'[F'[g]])) {
      if g == f {
        assert X'[j] == ExtrasOf(s, j) + [f];
      } else {
        assert F'[g] == F[g];
        if J[F[g]] != g {
          assert F[g] in X && g in X[F[g]];
          if F[g] == j {
            assert g in ExtrasOf(s, j);
            assert X'[j] == ExtrasOf(s, j) + [f];
          }
        }
      }
    }
  }

  lemma ExtraKeepsLists(s: Store, f: string, j: string)
    requires ExtraListsWellFormed(s) && ExtrasOwned(s)
    requires f !in s.fileToJson.items
    requires j in s.jsonToFile.items
    ensures ExtraListsWellFormed(WithExtra(s, f, j))
  {
    var X' := WithExtra(s, f, j).extras.items;
    assert f !in ExtrasOf(s, j);
    assert X'[j] == ExtrasOf(s, j) + [f];
  }

  lemma ExtraKeepsOwned(s: Store, f: string, j: string)
    requires ExtrasOwned(s) && PrimaryInverse(s)
    requires f !in s.fileToJson.items
    requires j in s.jsonToFile.items
    ensures ExtrasOwned(WithExtra(s, f, j))
  {
    var r := WithExtra(s, f, j);
    forall j0, g | j0 in r.extras.items && g in r.extras.items[j0] ensures ExtraOwned(r, j0, g) {
      ExtraOwnedAt(s, f, j, j0, g);
    }
  }

  /** One entry of an extra list after attaching `f` to `j`. */
  lemma ExtraOwnedAt(s: Store, f: string, j: string, j0: string, g: string)
    requires ExtrasOwned(s) && PrimaryInverse(s)
    requires f !in s.fileToJson.items
    requires j in s.jsonToFile.items
    requires j0 in WithExtra(s, f, j).extras.items && g in WithExtra(s, f, j).extras.items[j0]
    ensures ExtraOwned(WithExtra(s, f, j), j0, g)
  {
    var r := WithExtra(s, f, j);
    var J := s.jsonToFile.items;
    var F := s.fileToJson.items;
    var X := s.extras.items;
    var F' := r.fileToJson.items;
    var X' := r.extras.items;
    assert f != J[j];
    if j0 == j {
      assert X'[j] == ExtrasOf(s, j) + [f];
      if g != f {
        assert g in ExtrasOf(s, j);
        assert j in X && g in X[j];
        assert g in F && F'[g] == F[g];
      }
    } else {
      assert X'[j0] == X[j0];
      assert g in X[j0];
      assert g in F && F'[g] == F[g];
    }
  }

  /** With the invariant, every media file is exactly one of: the primary of
      its owner, an extra of its owner, or not owned at all. */
  lemma OwnershipExclusive(s: Store, f: string)
    requires Valid(s)
    ensures IsPrimary(s, f) || IsExtra(s, f) || f !in s.fileToJson.items
    ensures !(IsPrimary(s, f) && IsExtra(s, f))
    ensures f !in s.fileToJson.items ==> !IsPrimary(s, f) && !IsExtra(s, f)
  {
  }

  /** Collision law: when a second sidecar derives a file the first already
      claimed, the second `addMatch` keeps the first association. */
  lemma SecondClaimRejected(s: Store, j1: string, j2: string, f: string)
    ensures var r := AddMatch(AddMatch(s, j1, f), j2, f);
      r == AddMatch(s, j1, f) && f in r.fileToJson.items
  {
  }

  /** No two sidecars share a primary file. */
  lemma PrimaryInjective(s: Store, j1: string, j2: string)
    requires PrimaryInverse(s)
    requires j1 in s.jsonToFile.items && j2 in s.jsonToFile.items
    requires s.jsonToFile.items[j1] == s.jsonToFile.items[j2]
    ensures j1 == j2
  {
  }
}
