# Preferences core of kana-dojo, modelled in Dafny

kana-dojo keeps every user setting in one preferences store. The settings
are the kana display, theme, glass mode, font, silent mode, hotkeys,
pronunciation, furigana, theme preview and the wallpaper choice. The store
also holds the list of wallpapers the user added. This project models that
store as an immutable snapshot (`PreferencesStore.State`). Each mutator is a
pure transition from the old snapshot and its inputs to the new one, and goes
through `Merge`, the store's shallow-merge `set`.

It also models the wallpaper catalog helpers:

- the nine curated wallpapers;
- the lookup of a wallpaper by id over curated and user entries;
- the image-URL validator, with the WHATWG URL parser as an abstract function;
- the shape of generated ids.

Finally it models the list of recommended fonts and its membership test.

Modules, one per file:

- `Wrappers` (`wrappers.dfy`): the `Option` type.
- `Text` (`text.dfy`): the JavaScript string operations the core relies on.
  These are `trim`, `toLowerCase` on URL paths, `startsWith`/`endsWith`, and
  the decimal rendering of an integer.
- `Url` (`url.dfy`): what `new URL(input)` exposes to the validator. The
  parser is a parameter `parse: string -> Option<ParsedUrl>`; `None` stands
  for the `TypeError` the constructor throws.
- `Wallpapers` (`wallpapers.dfy`): the `Wallpaper` record, the curated
  catalog, id generation, lookup and URL validation.
- `RecommendedFonts` (`fonts.dfy`): the eight names and `isRecommendedFont`.
- `PreferencesStore` (`preferences_store.dfy`): the snapshot, the initial
  snapshot, the merge and every mutator.
- `StoreProperties` (`store_properties.dfy`): facts that relate several
  transitions. These are the invariants the mutators keep and the
  add-select-remove lifecycle.

Clock and randomness readings are inputs:

- `idClock` and `idSuffix` are the `Date.now()` reading and the
  `Math.random()` digits that make a generated id.
- `createdAt` is the separate `Date.now()` reading stored on the record.
- `loadedAt` is the reading taken when the curated list is built.

## Model

| member | source | states |
|---|---|---|
| PreferencesStore.Merge | features/Preferences/store/usePreferencesStore.ts:59-61 | The shallow merge: every field the patch names takes the patch's value, and every field it does not name keeps its old value |
| PreferencesStore.SetDisplayKana | features/Preferences/store/usePreferencesStore.ts:63 | `setDisplayKana` stores the flag and leaves every other field, the wallpaper fields included, as it was |
| PreferencesStore.SetTheme | features/Preferences/store/usePreferencesStore.ts:65 | `setTheme` stores the theme name and changes no other field |
| PreferencesStore.SetGlassMode | features/Preferences/store/usePreferencesStore.ts:67 | `setGlassMode` stores the flag and changes no other field |
| PreferencesStore.SetFont | features/Preferences/store/usePreferencesStore.ts:69 | `setFont` stores the font name in `font` and changes no other field |
| PreferencesStore.SetSilentMode | features/Preferences/store/usePreferencesStore.ts:71 | `setSilentMode` stores the flag in `silentMode` and changes no other field |
| PreferencesStore.SetHotkeys | features/Preferences/store/usePreferencesStore.ts:73 | `setHotkeys` stores the flag in `hotkeysOn` and changes no other field |
| PreferencesStore.SetPronunciationEnabled | features/Preferences/store/usePreferencesStore.ts:77-78 | `setPronunciationEnabled` stores the flag and changes no other field |
| PreferencesStore.SetPronunciationSpeed | features/Preferences/store/usePreferencesStore.ts:80 | `setPronunciationSpeed` stores the speed verbatim and changes no other field |
| PreferencesStore.SetPronunciationPitch | features/Preferences/store/usePreferencesStore.ts:82 | `setPronunciationPitch` stores the pitch verbatim and changes no other field |
| PreferencesStore.SetPronunciationVoiceName | features/Preferences/store/usePreferencesStore.ts:84 | `setPronunciationVoiceName` stores the name or null and changes no other field |
| PreferencesStore.SetFuriganaEnabled | features/Preferences/store/usePreferencesStore.ts:86 | `setFuriganaEnabled` stores the flag and changes no other field |
| PreferencesStore.SetThemePreview | features/Preferences/store/usePreferencesStore.ts:90 | `setThemePreview` stores the flag and changes no other field |
| PreferencesStore.SetSelectedWallpaper | features/Preferences/store/usePreferencesStore.ts:96 | `setSelectedWallpaper` stores any id, or null, unchecked, and changes no other field |
| PreferencesStore.ClearWallpaper | features/Preferences/store/usePreferencesStore.ts:143 | `clearWallpaper` always leaves no selection and changes no other field |
| PreferencesStore.WallpaperName | features/Preferences/store/usePreferencesStore.ts:107 | The stored name is never empty. A name made only of whitespace becomes "Custom Wallpaper"; any other name is stored trimmed |
| PreferencesStore.NewCustomWallpaper | features/Preferences/store/usePreferencesStore.ts:105-112 | The new record has a generated `custom-` id, the defaulted trimmed name and the URL verbatim. Its category is the given one or `custom`. It is user-added, stamped `createdAt`, and has no thumbnail or source |
| PreferencesStore.Append | features/Preferences/store/usePreferencesStore.ts:114-116 | The custom list grows by exactly one entry at its end, the old entries stay in front unchanged, and no other field changes |
| PreferencesStore.AddCustomWallpaper | features/Preferences/store/usePreferencesStore.ts:98-118 | Answers true exactly when the URL validates. On false the snapshot is unchanged. On true exactly the new record is appended at the end and nothing else changes |
| PreferencesStore.Without | features/Preferences/store/usePreferencesStore.ts:132 | The filter keeps exactly the entries whose id differs. It is shorter whenever some entry has the id |
| PreferencesStore.WithoutConcat | features/Preferences/store/usePreferencesStore.ts:132 | Filtering distributes over concatenation, so kept entries keep their relative order |
| PreferencesStore.WithoutAbsent | features/Preferences/store/usePreferencesStore.ts:132 | Filtering by an id no entry has returns the list unchanged |
| PreferencesStore.RemoveCustomWallpaper | features/Preferences/store/usePreferencesStore.ts:120-141 | The snapshot stays unchanged if the first custom entry with the id is missing or not user-added. Otherwise the list is filtered and a selection of that id is cleared in the same step. Any other selection is kept, and no other field changes |
| PreferencesStore.RemoveDeletesEveryMatch | features/Preferences/store/usePreferencesStore.ts:131-133 | After a removal that goes ahead, the list is shorter and no remaining custom entry carries the id |
| PreferencesStore.RemoveAbsentIsNoOp | features/Preferences/store/usePreferencesStore.ts:122-128 | Removing an id no custom entry carries, a curated id included, leaves the snapshot unchanged |
| StoreProperties.MergeEmpty | features/Preferences/store/usePreferencesStore.ts:59-61 | Merging an empty partial record is the identity |
| StoreProperties.ClearWallpaperIdempotent | features/Preferences/store/usePreferencesStore.ts:143 | Clearing twice gives the same snapshot as clearing once |
| StoreProperties.SetThemeLastWins | features/Preferences/store/usePreferencesStore.ts:65 | Two theme choices in a row leave the same snapshot as the second choice alone |
| StoreProperties.InitialFontIsRecommended | features/Preferences/store/usePreferencesStore.ts:68 | The first-visit font "Zen Maru Gothic" is a recommended font |
| StoreProperties.AddKeepsSelection | features/Preferences/store/usePreferencesStore.ts:114-116 | Adding a wallpaper, whether it succeeds or not, never changes the selection |
| StoreProperties.BlankNameDefaults | features/Preferences/store/usePreferencesStore.ts:107 | A blank or whitespace-only name is stored as "Custom Wallpaper" |
| StoreProperties.NameIsTrimmed | features/Preferences/store/usePreferencesStore.ts:107 | "  Sunset \n" is stored as "Sunset" |
| StoreProperties.InitialCustomAreUserAdded | features/Preferences/store/usePreferencesStore.ts:94 | On a first visit every custom entry is user-added (there are none) |
| StoreProperties.AddKeepsUserAdded | features/Preferences/store/usePreferencesStore.ts:105-116 | Adding keeps every custom entry user-added |
| StoreProperties.RemoveKeepsUserAdded | features/Preferences/store/usePreferencesStore.ts:132 | Removing keeps every custom entry user-added |
| StoreProperties.RemoveSucceedsIffPresent | features/Preferences/store/usePreferencesStore.ts:122-128 | While custom entries are user-added, a removal changes the snapshot if and only if some custom entry carries the id. The defensive `isUserAdded` test never refuses |
| StoreProperties.InitialCatalogIdsUnique | features/Preferences/data/wallpapers.ts:27-111 | On a first visit no two wallpapers of the catalog, curated or custom, share an id |
| StoreProperties.WithoutDropsOnlyId | features/Preferences/store/usePreferencesStore.ts:132 | The ids left after filtering are among the old ids, minus the filtered one |
| StoreProperties.WithoutKeepsUnique | features/Preferences/store/usePreferencesStore.ts:132 | Filtering a list with distinct ids leaves a list with distinct ids |
| StoreProperties.RemoveKeepsIdsUnique | features/Preferences/store/usePreferencesStore.ts:120-141 | Removing keeps the catalog's ids distinct |
| StoreProperties.AddKeepsIdsUnique | features/Preferences/store/usePreferencesStore.ts:105-116 | Adding keeps the catalog's ids distinct when the generated id is new among the custom ids and no curated id has the `custom-` prefix |
| StoreProperties.AppendGeneratedKeepsUnique | features/Preferences/store/usePreferencesStore.ts:115 | Appending an entry with a fresh `custom-` id keeps ids distinct when no curated id has that prefix |
| StoreProperties.RemoveCuratedIsNoOp | features/Preferences/store/usePreferencesStore.ts:122-128 | In a catalog with distinct ids, removing a curated id changes nothing |
| StoreProperties.RemovedIdNoLongerResolves | features/Preferences/store/usePreferencesStore.ts:132 | In a catalog with distinct ids, a lookup of an id after its removal finds nothing |
| StoreProperties.SelectionResolvesMeansFound | features/Preferences/data/wallpapers.ts:116-121 | For the store's catalog, "the selection resolves" holds exactly when `getWallpaperById` finds the selected id |
| StoreProperties.RemoveKeepsSelectionResolving | features/Preferences/store/usePreferencesStore.ts:131-139 | A selection that resolves before a removal still resolves after it, because a selection of the removed id is cleared |
| StoreProperties.WithoutKeepsOtherIds | features/Preferences/store/usePreferencesStore.ts:132 | Filtering out one id keeps every other id resolvable in the catalog |
| StoreProperties.AddKeepsSelectionResolving | features/Preferences/store/usePreferencesStore.ts:114-116 | Adding keeps a resolving selection resolving |
| StoreProperties.ClearMakesSelectionResolve | features/Preferences/store/usePreferencesStore.ts:143 | After clearing, the selection trivially resolves |
| StoreProperties.RemoveAppendedEntry | features/Preferences/store/usePreferencesStore.ts:132 | Appending an entry with a new id and filtering that id out gives back the list; the lookup finds the appended entry |
| StoreProperties.RemoveUndoesAppend | features/Preferences/store/usePreferencesStore.ts:114-139 | Removing a just-appended user-added entry with a new, unselected id gives back the earlier snapshot |
| StoreProperties.RemoveSelectedUndoesAppend | features/Preferences/store/usePreferencesStore.ts:131-139 | Appending, selecting and removing that entry gives the earlier snapshot with the selection cleared |
| StoreProperties.AddThenRemove | features/Preferences/store/usePreferencesStore.ts:98-141 | `removeCustomWallpaper` of the generated id undoes a successful `addCustomWallpaper` when the id was new and unselected |
| StoreProperties.AddSelectRemove | features/Preferences/store/usePreferencesStore.ts:96-143 | Add, select, then remove gives the same snapshot as `clearWallpaper` on the snapshot before the add |
| StoreProperties.LifecycleFromEmpty | features/Preferences/store/usePreferencesStore.ts:96-141 | From an empty custom list, add-select-remove leaves one entry after the add, then an empty list and no selection |
| StoreProperties.FirstVisitLifecycle | features/Preferences/store/usePreferencesStore.ts:96-141 | From the first-visit snapshot, adding "Sunset" with a `.webp` URL succeeds under that name. Selecting and removing it leaves no custom entry and no selection |
| StoreProperties.SunsetUrlIsValid | features/Preferences/data/wallpapers.ts:130-136 | A URL whose path ends in `.webp` is accepted |
| StoreProperties.SunsetNameIsKept | features/Preferences/store/usePreferencesStore.ts:107 | A name without surrounding whitespace is stored as given |
| StoreProperties.AddRejectsNonImage | features/Preferences/store/usePreferencesStore.ts:98-103 | A `.psd` URL is refused with false and the snapshot untouched |
| Wallpapers.CuratedWallpapers | features/Preferences/data/wallpapers.ts:27-111 | The built-in list has nine entries. None is user-added, and each is stamped with the load-time clock reading. The entries' ids, names, URLs, categories and sources are the source's literal data |
| Wallpapers.UniqueIdsConcat | features/Preferences/data/wallpapers.ts:120 | Ids are distinct across a concatenation if and only if each side's are and no id is on both sides |
| Wallpapers.GenerateWallpaperId | features/Preferences/data/wallpapers.ts:151-153 | A generated id starts with `custom-`, then the decimal numeral of the clock reading, then `-` and the random suffix |
| Wallpapers.FindById | features/Preferences/data/wallpapers.ts:120 | `find` returns nothing exactly when no entry matches. Otherwise it returns a matching entry with no match before it |
| Wallpapers.FindByIdConcat | features/Preferences/data/wallpapers.ts:120 | A first-match search of `a ++ b` is the search of `a`, or of `b` when `a` has no match |
| Wallpapers.FindByIdUnique | features/Preferences/data/wallpapers.ts:120 | With distinct ids, searching an entry's id finds that entry |
| Wallpapers.FindInEither | features/Preferences/data/wallpapers.ts:120 | Searching two lists in sequence: the first list's match wins, else the second's. None exactly when neither list matches |
| Wallpapers.GetWallpaperById | features/Preferences/data/wallpapers.ts:116-121 | The result carries the requested id. A curated match wins over a user entry; otherwise it is the user list's first match. None exactly when no list matches |
| Wallpapers.IsValidImageUrl | features/Preferences/data/wallpapers.ts:127-146 | False when parsing fails. Otherwise true exactly when the path's last characters, lower-cased, spell one of `.jpg`, `.jpeg`, `.png`, `.webp`, `.gif`, or the query has a `w` or `width` key. The lemmas `RejectsUnparsable`, `RejectsSchemeless`, `AcceptsImageExtension`, `AcceptsSizeParameter` and `RejectsOtherwise` give the cases one by one |
| Wallpapers.ValidExtensionCaseInsensitive | features/Preferences/data/wallpapers.ts:130-136 | The extension test holds if and only if the path's last characters, lower-cased, spell one of the five extensions |
| Wallpapers.CuratedAreBuiltIn | features/Preferences/data/wallpapers.ts:27-111 | No curated wallpaper is user-added |
| Wallpapers.CuratedIdsUnique | features/Preferences/data/wallpapers.ts:27-111 | The nine curated ids are pairwise distinct |
| Wallpapers.CuratedIdsNotGenerated | features/Preferences/data/wallpapers.ts:27-111 | No curated id starts with `custom-` |
| Wallpapers.GeneratedIdNeverCurated | features/Preferences/data/wallpapers.ts:151-153 | A generated id never names a curated wallpaper, so its lookup falls through to the user's list |
| Wallpapers.RejectsUnparsable | features/Preferences/data/wallpapers.ts:128-145 | A URL the parser rejects is never valid |
| Wallpapers.RejectsSchemeless | features/Preferences/data/wallpapers.ts:128-129 | With a conforming parser, input without a scheme separator is rejected |
| Wallpapers.AcceptsImageExtension | features/Preferences/data/wallpapers.ts:130-136 | A parsed path ending in an accepted extension, in any letter case, is accepted |
| Wallpapers.AcceptsSizeParameter | features/Preferences/data/wallpapers.ts:139-142 | A `w` or `width` query key is accepted whatever the path |
| Wallpapers.RejectsOtherwise | features/Preferences/data/wallpapers.ts:142 | A parsed URL with neither an accepted extension nor a size key is rejected |
| Wallpapers.RejectsOtherExtension | features/Preferences/data/wallpapers.ts:130-142 | `/a.psd` with no query is rejected |
| Wallpapers.AcceptsUpperCaseExtension | features/Preferences/data/wallpapers.ts:131-136 | `/A.JPG` is accepted |
| Wallpapers.SizeParameterCaseSensitive | features/Preferences/data/wallpapers.ts:139-140 | On an extension-less path `?w=` is accepted and `?W=` rejected: the key match is case-sensitive |
| Wallpapers.PhotoHasNoExtension | features/Preferences/data/wallpapers.ts:130-136 | `/photo` has none of the accepted extensions |
| Wallpapers.LastLetterRulesOutExtension | features/Preferences/data/wallpapers.ts:130-136 | A path whose last character lower-cases to something other than `g`, `p` or `f` has no accepted extension |
| RecommendedFonts.IsRecommendedFont | features/Preferences/data/recommendedFonts.ts:18-20 | A font is recommended exactly when it equals one of the listed names |
| RecommendedFonts.ListedFontsAreRecommended | features/Preferences/data/recommendedFonts.ts:5-14 | Each of the eight listed names is recommended |
| RecommendedFonts.UnlistedFontsAreNot | features/Preferences/data/recommendedFonts.ts:18-20 | A name outside the list is not recommended |
| RecommendedFonts.MatchIsCaseSensitive | features/Preferences/data/recommendedFonts.ts:19 | "Noto Sans JP" is recommended and "noto sans jp" is not |
| RecommendedFonts.EightDistinctNames | features/Preferences/data/recommendedFonts.ts:5-14 | The list holds eight pairwise-distinct names |
| Text.TrimStart | features/Preferences/store/usePreferencesStore.ts:107 | Removes exactly the leading run of whitespace and line terminators |
| Text.TrimEnd | features/Preferences/store/usePreferencesStore.ts:107 | Removes exactly the trailing run of whitespace and line terminators |
| Text.Trim | features/Preferences/store/usePreferencesStore.ts:107 | The result is empty exactly when the input is all whitespace. Otherwise it starts and ends with a visible character |
| Text.TrimIsSlice | features/Preferences/store/usePreferencesStore.ts:107 | The trimmed name is the slice of the input between a leading and a trailing whitespace run |
| Text.TrimAround | features/Preferences/store/usePreferencesStore.ts:107 | Trimming whitespace wrapped around a core with visible ends gives back the core |
| Text.TrimStartPrefix | features/Preferences/store/usePreferencesStore.ts:107 | Leading whitespace before a visible character is removed exactly |
| Text.TrimEndSuffix | features/Preferences/store/usePreferencesStore.ts:107 | Trailing whitespace after a visible character is removed exactly |
| Text.TrimIdempotent | features/Preferences/store/usePreferencesStore.ts:107 | Trimming twice is trimming once |
| Text.LowerChar | features/Preferences/data/wallpapers.ts:131 | Upper-case ASCII letters map to their lower-case letter; every other character is kept |
| Text.ToLower | features/Preferences/data/wallpapers.ts:131 | Lower-casing keeps the length and lower-cases each character in place |
| Text.ToLowerSuffix | features/Preferences/data/wallpapers.ts:131 | Lower-casing commutes with taking a suffix |
| Text.DecimalString | features/Preferences/data/wallpapers.ts:152 | The timestamp's numeral is non-empty, all digits, with no leading zero |
| Text.DecimalRoundTrip | features/Preferences/data/wallpapers.ts:152 | Reading the numeral back gives the number |
| Text.NumberString | features/Preferences/data/wallpapers.ts:152 | A non-negative number renders as its numeral; a negative one as `-` followed by the numeral of its magnitude |

## Left out

- The `persist` middleware and its `theme-storage` key in local storage are durable I/O. Rehydrating a snapshot is not modelled.
- `console.error` and `console.warn` in the two wallpaper mutators only log, so they are not modelled.
- The WHATWG URL parser (section 4.4 of the URL Standard) is a parameter. The model keeps only the `pathname` value and the names of the query pairs. Only one property of every conforming parser is stated (`Url.RejectsSchemeless`): input without `:` fails.
- `toLowerCase` on the path is ASCII lower-casing. The URL Standard's path serialisation percent-encodes every non-ASCII code point, so a parsed pathname is ASCII and the two agree.
- `Date.now()` and `Math.random()` are inputs. `generateWallpaperId` reads the clock separately from `createdAt`, so there are two inputs (`idClock` and `createdAt`). The random part is any string `idSuffix`. That it has at most nine base-36 digits is not modelled.
- Text.NumberString: renders integers in plain decimal. JavaScript switches to exponent form from 10^21, which a `Date.now()` reading does not reach.
- `CURATED_WALLPAPERS` calls `Date.now()` once per entry while the module loads. The model stamps all nine entries with one reading, `loadedAt`, since no code path reads or compares curated timestamps.
- `pronunciationSpeed` and `pronunciationPitch` are JavaScript numbers, modelled as reals. The setters store any number verbatim, including NaN, the infinities and -0. No real represents those values, so they are outside the model.
- The mutator functions stored in the zustand state are not part of `State`. Each is a Dafny function instead.
- `WallpaperSelector.tsx`, `ThemesModal.tsx`, `applyTheme` and the theme palettes are user interface and document styling. They are not part of this model.
- StoreProperties.AddKeepsIdsUnique: assumes the generated id is not already a custom id. The source relies on the clock and a random suffix for this, and the model cannot prove it.
- The catalog invariants in `StoreProperties` take the curated list as a parameter. `InitialCatalogIdsUnique`, `CuratedIdsNotGenerated` and `SelectionResolvesMeansFound` tie them to the store's own curated list.
- `removeCustomWallpaper` tests only the first custom entry with the id, but its filter drops every entry with that id. The model does the same. Under the distinct-ids invariant there is only ever one such entry.
