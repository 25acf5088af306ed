/**
 * Properties that relate several store transitions: how consecutive merges
 * compose, the invariants every transition keeps (custom entries are
 * user-added, ids are unique across the catalog, a selection resolves), and
 * the add-select-remove lifecycle of a custom wallpaper.
 */
module StoreProperties {
  import opened Wrappers
  import opened Text
  import opened Url
  import opened Wallpapers
  import opened RecommendedFonts
  import opened PreferencesStore

  /* ---------- the shallow merge ---------- */

  /** Merging an empty patch is the identity. */
  lemma MergeEmpty(s: State)
    ensures Merge(s, map[]) == s
  {
  }

  /** Clearing the wallpaper twice is clearing it once. */
  lemma ClearWallpaperIdempotent(s: State)
    ensures ClearWallpaper(ClearWallpaper(s)) == ClearWallpaper(s)
  {
    var once := ClearWallpaper(s);
    var twice := ClearWallpaper(once);
    assert Agree(once, twice, {});
  }

  /** A later theme choice overwrites an earlier one completely. */
  lemma SetThemeLastWins(s: State, first: string, second: string)
    ensures SetTheme(SetTheme(s, first), second) == SetTheme(s, second)
  {
    assert Agree(SetTheme(SetTheme(s, first), second), SetTheme(s, second), {});
  }

  /** The first-visit font is one of the recommended fonts. */
  lemma InitialFontIsRecommended()
    ensures IsRecommendedFont(InitialState.font)
  {
    assert InitialState.font == RecommendedFontNames[0];
  }

  /* ---------- adding ---------- */

  /** Adding a wallpaper never touches the selection, whether or not it succeeds. */
  lemma AddKeepsSelection(parse: UrlParser, s: State, name: string, url: string,
                          category: Option<WallpaperCategory>, idClock: int, idSuffix: string, createdAt: int)
    ensures AddCustomWallpaper(parse, s, name, url, category, idClock, idSuffix, createdAt).0.selectedWallpaperId
            == s.selectedWallpaperId
  {
  }

  /** A blank name is stored as the default name. */
  lemma BlankNameDefaults(name: string)
    requires forall k :: 0 <= k < |name| ==> IsTrimmable(name[k])
    ensures WallpaperName(name) == "Custom Wallpaper"
  {
  }

  /** A name with visible text is stored trimmed. */
  lemma NameIsTrimmed()
    ensures WallpaperName("  Sunset \n") == "Sunset"
  {
    assert "  Sunset \n" == "  " + "Sunset" + " \n";
    TrimAround("  ", "Sunset", " \n");
  }

  /* ---------- invariant: custom entries are user-added ---------- */

  predicate CustomAreUserAdded(s: State) {
    forall i :: 0 <= i < |s.customWallpapers| ==> s.customWallpapers[i].isUserAdded
  }

  lemma InitialCustomAreUserAdded()
    ensures CustomAreUserAdded(InitialState)
  {
  }

  lemma AddKeepsUserAdded(parse: UrlParser, s: State, name: string, url: string,
                          category: Option<WallpaperCategory>, idClock: int, idSuffix: string, createdAt: int)
    requires CustomAreUserAdded(s)
    ensures CustomAreUserAdded(AddCustomWallpaper(parse, s, name, url, category, idClock, idSuffix, createdAt).0)
  {
    var r := AddCustomWallpaper(parse, s, name, url, category, idClock, idSuffix, createdAt);
    if r.1 {
      var n := |s.customWallpapers|;
      forall i | 0 <= i < |r.0.customWallpapers| ensures r.0.customWallpapers[i].isUserAdded {
        if i < n {
          assert r.0.customWallpapers[i] == r.0.customWallpapers[..n][i] == s.customWallpapers[i];
        }
      }
    }
  }

  lemma RemoveKeepsUserAdded(s: State, id: string)
    requires CustomAreUserAdded(s)
    ensures CustomAreUserAdded(RemoveCustomWallpaper(s, id))
  {
    var r := RemoveCustomWallpaper(s, id);
    forall i | 0 <= i < |r.customWallpapers| ensures r.customWallpapers[i].isUserAdded {
      assert r.customWallpapers[i] in r.customWallpapers;
    }
  }

  /** While custom entries are user-added, a removal changes the snapshot
      exactly when some custom entry carries the id; the defensive
      `isUserAdded` test never fires. */
  lemma RemoveSucceedsIffPresent(s: State, id: string)
    requires CustomAreUserAdded(s)
    ensures RemoveCustomWallpaper(s, id) != s <==>
            exists i :: 0 <= i < |s.customWallpapers| && s.customWallpapers[i].id == id
  {
  }

  /* ---------- invariant: ids are unique across the catalog ---------- */

  /* The catalog invariants below take the curated list as a parameter
     `curated`; the store's catalog is `CuratedWallpapers(loadedAt)`, for
     which the `Initial...` lemmas establish them. */

  /** No two wallpapers of the catalog, curated or custom, share an id. */
  predicate CatalogIdsUnique(curated: seq<Wallpaper>, s: State) {
    UniqueIds(curated + s.customWallpapers)
  }

  lemma InitialCatalogIdsUnique(loadedAt: int)
    ensures CatalogIdsUnique(CuratedWallpapers(loadedAt), InitialState)
  {
    InitialListEmpty();
    CuratedIdsUnique(loadedAt);
    EmptyListCatalogUnique(CuratedWallpapers(loadedAt), InitialState);
  }

  /** A first visit starts with no custom wallpapers. */
  lemma InitialListEmpty()
    ensures InitialState.customWallpapers == []
  {
  }

  /** With no custom wallpapers the catalog's ids are the curated ones. */
  lemma EmptyListCatalogUnique(curated: seq<Wallpaper>, s: State)
    requires UniqueIds(curated)
    requires s.customWallpapers == []
    ensures CatalogIdsUnique(curated, s)
  {
    assert curated + s.customWallpapers == curated;
  }

  /** Filtering loses the filtered id and invents none. */
  lemma WithoutDropsOnlyId(ws: seq<Wallpaper>, id: string)
    ensures Ids(Without(ws, id)) <= Ids(ws) - {id}
  {
    var r := Without(ws, id);
    forall x | x in Ids(r) ensures x in Ids(ws) - {id} {
      var i :| 0 <= i < |r| && r[i].id == x;
      assert r[i] in r;
      var j :| 0 <= j < |ws| && ws[j] == r[i];
    }
  }

  /** Filtering keeps ids unique and only drops ids. */
  lemma {:induction false} WithoutKeepsUnique(ws: seq<Wallpaper>, id: string)
    requires UniqueIds(ws)
    ensures UniqueIds(Without(ws, id))
    ensures Ids(Without(ws, id)) <= Ids(ws) - {id}
  {
    var r := Without(ws, id);
    WithoutDropsOnlyId(ws, id);
    if ws != [] {
      var tail := ws[1..];
      assert UniqueIds(tail) by {
        forall i, j | 0 <= i < j < |tail| ensures tail[i].id != tail[j].id {
          assert tail[i] == ws[i + 1] && tail[j] == ws[j + 1];
        }
      }
      WithoutKeepsUnique(tail, id);
      if ws[0].id != id {
        var rest := Without(tail, id);
        assert r == [ws[0]] + rest;
        assert ws[0].id !in Ids(tail) by {
          forall j | 0 <= j < |tail| ensures tail[j].id != ws[0].id {
            assert tail[j] == ws[j + 1];
          }
        }
        UniqueIdsConcat([ws[0]], rest);
      }
    }
  }

  /** Removing keeps catalog ids unique. */
  lemma RemoveKeepsIdsUnique(curated: seq<Wallpaper>, s: State, id: string)
    requires CatalogIdsUnique(curated, s)
    ensures CatalogIdsUnique(curated, RemoveCustomWallpaper(s, id))
  {
    var r := RemoveCustomWallpaper(s, id);
    UniqueIdsConcat(curated, s.customWallpapers);
    if r != s {
      WithoutKeepsUnique(s.customWallpapers, id);
      UniqueIdsConcat(curated, r.customWallpapers);
    }
  }

  /** Adding keeps catalog ids unique provided the generated id is not already
      a custom id: it cannot be a curated one, since no curated id carries
      the generated prefix (`CuratedIdsNotGenerated`). */
  lemma AddKeepsIdsUnique(parse: UrlParser, curated: seq<Wallpaper>, s: State, name: string, url: string,
                          category: Option<WallpaperCategory>, idClock: int, idSuffix: string, createdAt: int)
    requires CatalogIdsUnique(curated, s)
    requires forall i :: 0 <= i < |curated| ==> !StartsWith(curated[i].id, CustomIdPrefix)
    requires GenerateWallpaperId(idClock, idSuffix) !in Ids(s.customWallpapers)
    ensures CatalogIdsUnique(curated, AddCustomWallpaper(parse, s, name, url, category, idClock, idSuffix, createdAt).0)
  {
    var r := AddCustomWallpaper(parse, s, name, url, category, idClock, idSuffix, createdAt);
    if r.1 {
      var ws := s.customWallpapers;
      var w := r.0.customWallpapers[|ws|];
      assert r.0.customWallpapers == ws + [w];
      AppendGeneratedKeepsUnique(curated, ws, w);
    }
  }

  /** Appending an entry with a generated id that is new to the user's list
      keeps a catalog's ids unique when no curated id looks generated. */
  lemma AppendGeneratedKeepsUnique(curated: seq<Wallpaper>, ws: seq<Wallpaper>, w: Wallpaper)
    requires UniqueIds(curated + ws)
    requires forall i :: 0 <= i < |curated| ==> !StartsWith(curated[i].id, CustomIdPrefix)
    requires StartsWith(w.id, CustomIdPrefix) && w.id !in Ids(ws)
    ensures UniqueIds(curated + (ws + [w]))
  {
    UniqueIdsConcat(curated, ws);
    UniqueIdsConcat(ws, [w]);
    assert w.id !in Ids(curated) by {
      forall i | 0 <= i < |curated| ensures curated[i].id != w.id {
        assert !StartsWith(curated[i].id, CustomIdPrefix);
      }
    }
    UniqueIdsConcat(curated, ws + [w]);
  }

  /** The id of a curated wallpaper names no custom entry in a catalog with
      unique ids, so removing it changes nothing. */
  lemma RemoveCuratedIsNoOp(curated: seq<Wallpaper>, s: State, i: nat)
    requires CatalogIdsUnique(curated, s)
    requires i < |curated|
    ensures RemoveCustomWallpaper(s, curated[i].id) == s
  {
    UniqueIdsConcat(curated, s.customWallpapers);
    assert curated[i].id in Ids(curated);
    assert curated[i].id !in Ids(s.customWallpapers);
  }

  /** After a successful removal in a catalog with unique ids, a lookup of
      the id finds nothing. */
  lemma RemovedIdNoLongerResolves(curated: seq<Wallpaper>, s: State, id: string)
    requires CatalogIdsUnique(curated, s)
    requires RemoveCustomWallpaper(s, id) != s
    ensures FindById(curated + RemoveCustomWallpaper(s, id).customWallpapers, id).None?
  {
    var r := RemoveCustomWallpaper(s, id);
    UniqueIdsConcat(curated, s.customWallpapers);
    var j :| 0 <= j < |s.customWallpapers| && s.customWallpapers[j].id == id;
    assert id in Ids(s.customWallpapers);
    assert id !in Ids(curated);
    FindByIdConcat(curated, r.customWallpapers, id);
  }

  /* ---------- invariant: a selection resolves ---------- */

  /** The selected id, if any, names some wallpaper of the catalog. The store
      does not enforce this on `setSelectedWallpaper`, but no other
      transition breaks it. */
  predicate SelectionResolves(curated: seq<Wallpaper>, s: State) {
    s.selectedWallpaperId.Some? ==>
      FindById(curated + s.customWallpapers, s.selectedWallpaperId.value).Some?
  }

  /** For the store's catalog, `SelectionResolves` says `getWallpaperById`
      finds the selection. */
  lemma SelectionResolvesMeansFound(loadedAt: int, s: State)
    requires s.selectedWallpaperId.Some?
    ensures SelectionResolves(CuratedWallpapers(loadedAt), s) <==>
            GetWallpaperById(loadedAt, s.selectedWallpaperId.value, s.customWallpapers).Some?
  {
  }

  lemma RemoveKeepsSelectionResolving(curated: seq<Wallpaper>, s: State, id: string)
    requires SelectionResolves(curated, s)
    ensures SelectionResolves(curated, RemoveCustomWallpaper(s, id))
  {
    if Deletable(s.customWallpapers, id) && s.selectedWallpaperId.Some? && s.selectedWallpaperId.value != id {
      WithoutKeepsOtherIds(curated, s.customWallpapers, id, s.selectedWallpaperId.value);
    }
  }

  /** Filtering out one id keeps every other id resolvable in the catalog. */
  lemma WithoutKeepsOtherIds(curated: seq<Wallpaper>, ws: seq<Wallpaper>, id: string, x: string)
    requires x != id
    requires FindById(curated + ws, x).Some?
    ensures FindById(curated + Without(ws, id), x).Some?
  {
    var kept := Without(ws, id);
    FindByIdConcat(curated, ws, x);
    FindByIdConcat(curated, kept, x);
    if FindById(curated, x).None? {
      var j :| 0 <= j < |ws| && ws[j].id == x;
      assert ws[j] in kept;
    }
  }

  lemma AddKeepsSelectionResolving(parse: UrlParser, curated: seq<Wallpaper>, s: State, name: string, url: string,
                                   category: Option<WallpaperCategory>, idClock: int, idSuffix: string, createdAt: int)
    requires SelectionResolves(curated, s)
    ensures SelectionResolves(curated, AddCustomWallpaper(parse, s, name, url, category, idClock, idSuffix, createdAt).0)
  {
    var r := AddCustomWallpaper(parse, s, name, url, category, idClock, idSuffix, createdAt);
    AddKeepsSelection(parse, s, name, url, category, idClock, idSuffix, createdAt);
    if r.1 && s.selectedWallpaperId.Some? {
      var x := s.selectedWallpaperId.value;
      var n := |s.customWallpapers|;
      var w := r.0.customWallpapers[n];
      assert r.0.customWallpapers == s.customWallpapers + [w];
      assert curated + r.0.customWallpapers == (curated + s.customWallpapers) + [w];
      FindByIdConcat(curated + s.customWallpapers, [w], x);
    }
  }

  lemma ClearMakesSelectionResolve(curated: seq<Wallpaper>, s: State)
    ensures SelectionResolves(curated, ClearWallpaper(s))
  {
  }

  /* ---------- lifecycle ---------- */

  /** Removing a just-appended user-added entry whose id was new restores
      the custom list. */
  lemma {:induction false} RemoveAppendedEntry(ws: seq<Wallpaper>, w: Wallpaper)
    requires w.id !in Ids(ws)
    ensures FindById(ws + [w], w.id) == Some(w)
    ensures Without(ws + [w], w.id) == ws
  {
    FindByIdConcat(ws, [w], w.id);
    WithoutConcat(ws, [w], w.id);
    WithoutAbsent(ws, w.id);
    assert Without([w], w.id) == [];
  }

  /** Removing an appended user-added entry whose id was new, and not the
      selection, gives back the snapshot before the append. */
  lemma RemoveUndoesAppend(s: State, w: Wallpaper)
    requires w.isUserAdded && w.id !in Ids(s.customWallpapers)
    requires s.selectedWallpaperId != Some(w.id)
    ensures RemoveCustomWallpaper(Append(s, w), w.id) == s
  {
    var s1 := Append(s, w);
    assert s1.customWallpapers == s.customWallpapers + [w];
    RemoveAppendedEntry(s.customWallpapers, w);
    var r := RemoveCustomWallpaper(s1, w.id);
    assert Agree(r, s, {});
  }

  /** Agreement composes: what two steps leave alone, their sequence leaves alone. */
  lemma AgreeTrans(a: State, b: State, c: State, x: set<Field>, y: set<Field>)
    requires Agree(a, b, x) && Agree(b, c, y)
    ensures Agree(a, c, x + y)
  {
  }

  /** Selecting an appended user-added entry whose id was new and then
      removing it gives back the snapshot before the append, with the
      selection cleared in the same step. */
  lemma RemoveSelectedUndoesAppend(s: State, w: Wallpaper)
    requires w.isUserAdded && w.id !in Ids(s.customWallpapers)
    ensures RemoveCustomWallpaper(SetSelectedWallpaper(Append(s, w), Some(w.id)), w.id) == ClearWallpaper(s)
  {
    var s1 := Append(s, w);
    assert s1.customWallpapers == s.customWallpapers + [w];
    var s2 := SetSelectedWallpaper(s1, Some(w.id));
    RemoveAppendedEntry(s.customWallpapers, w);
    assert Deletable(s2.customWallpapers, w.id);
    var r := RemoveCustomWallpaper(s2, w.id);
    assert r.customWallpapers == s.customWallpapers && r.selectedWallpaperId.None?;
    var c := ClearWallpaper(s);
    AgreeTrans(s, s1, s2, {CustomWallpapers}, {SelectedWallpaperId});
    AgreeTrans(s, s2, r, {CustomWallpapers, SelectedWallpaperId}, {CustomWallpapers, SelectedWallpaperId});
    assert Agree(r, c, {});
  }

  /** Adding a wallpaper and then removing it by its new id undoes the add,
      provided the id was new and not the current selection. */
  lemma AddThenRemove(parse: UrlParser, s: State, name: string, url: string,
                      category: Option<WallpaperCategory>, idClock: int, idSuffix: string, createdAt: int)
    requires IsValidImageUrl(parse, url)
    requires GenerateWallpaperId(idClock, idSuffix) !in Ids(s.customWallpapers)
    requires s.selectedWallpaperId != Some(GenerateWallpaperId(idClock, idSuffix))
    ensures RemoveCustomWallpaper(AddCustomWallpaper(parse, s, name, url, category, idClock, idSuffix, createdAt).0,
                                  GenerateWallpaperId(idClock, idSuffix)) == s
  {
    RemoveUndoesAppend(s, NewCustomWallpaper(name, url, category, idClock, idSuffix, createdAt));
  }

  /** Adding a wallpaper, selecting it and removing it leaves the snapshot
      the add started from, with the selection cleared. */
  lemma AddSelectRemove(parse: UrlParser, s: State, name: string, url: string,
                        category: Option<WallpaperCategory>, idClock: int, idSuffix: string, createdAt: int)
    requires IsValidImageUrl(parse, url)
    requires GenerateWallpaperId(idClock, idSuffix) !in Ids(s.customWallpapers)
    ensures var id := GenerateWallpaperId(idClock, idSuffix);
            var s1 := AddCustomWallpaper(parse, s, name, url, category, idClock, idSuffix, createdAt).0;
            RemoveCustomWallpaper(SetSelectedWallpaper(s1, Some(id)), id) == ClearWallpaper(s)
  {
    RemoveSelectedUndoesAppend(s, NewCustomWallpaper(name, url, category, idClock, idSuffix, createdAt));
  }

  /** The first-visit lifecycle: add "Sunset" (a `.webp` URL), select it,
      remove it; the custom list is empty again and nothing is selected. */
  lemma FirstVisitLifecycle(parse: UrlParser, idClock: int, idSuffix: string, createdAt: int)
    requires parse("https://cdn/s.webp") == Some(ParsedUrl("/s.webp", []))
    ensures var (s1, added) := AddCustomWallpaper(parse, InitialState, "Sunset", "https://cdn/s.webp",
                                                   None, idClock, idSuffix, createdAt);
            var id := GenerateWallpaperId(idClock, idSuffix);
            var s3 := RemoveCustomWallpaper(SetSelectedWallpaper(s1, Some(id)), id);
            && added
            && s1.customWallpapers[0].name == "Sunset"
            && s3.customWallpapers == []
            && s3.selectedWallpaperId.None?
  {
    SunsetUrlIsValid(parse);
    SunsetNameIsKept();
    LifecycleFromEmpty(parse, InitialState, "Sunset", "https://cdn/s.webp", idClock, idSuffix, createdAt);
  }

  /** The `.webp` address of the lifecycle is accepted. */
  lemma SunsetUrlIsValid(parse: UrlParser)
    requires parse("https://cdn/s.webp") == Some(ParsedUrl("/s.webp", []))
    ensures IsValidImageUrl(parse, "https://cdn/s.webp")
  {
    assert ToLower(".webp") == ".webp";
    AcceptsImageExtension(parse, "https://cdn/s.webp", ".webp");
  }

  /** A name without surrounding blanks is stored as given. */
  lemma SunsetNameIsKept()
    ensures WallpaperName("Sunset") == "Sunset"
  {
    assert "Sunset" == [] + "Sunset" + [];
    TrimAround([], "Sunset", []);
  }

  /** Add, select and remove, starting from an empty custom list. */
  lemma LifecycleFromEmpty(parse: UrlParser, s: State, name: string, url: string,
                           idClock: int, idSuffix: string, createdAt: int)
    requires s.customWallpapers == []
    requires IsValidImageUrl(parse, url)
    ensures var (s1, added) := AddCustomWallpaper(parse, s, name, url, None, idClock, idSuffix, createdAt);
            var id := GenerateWallpaperId(idClock, idSuffix);
            var s3 := RemoveCustomWallpaper(SetSelectedWallpaper(s1, Some(id)), id);
            && added
            && s1.customWallpapers == [NewCustomWallpaper(name, url, None, idClock, idSuffix, createdAt)]
            && s3.customWallpapers == []
            && s3.selectedWallpaperId.None?
  {
    AddSelectRemove(parse, s, name, url, None, idClock, idSuffix, createdAt);
  }

  /** Adding with a URL the validator rejects leaves the snapshot as it was. */
  lemma AddRejectsNonImage(parse: UrlParser, s: State, idClock: int, idSuffix: string, createdAt: int)
    requires parse("https://x.com/a.psd") == Some(ParsedUrl("/a.psd", []))
    ensures AddCustomWallpaper(parse, s, "X", "https://x.com/a.psd", None, idClock, idSuffix, createdAt) == (s, false)
  {
    RejectsOtherExtension(parse);
  }
}
