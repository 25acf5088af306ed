/**
 * The preferences store: one immutable snapshot of every user setting, and
 * each mutator as a pure transition from the old snapshot (plus its inputs)
 * to the new one. The store's `set` shallow-merges a partial record into the
 * snapshot; that merge is `Merge` below and every mutator goes through it.
 */
module PreferencesStore {
  import opened Wrappers
  import opened Text
  import opened Url
  import opened Wallpapers

  /** The persisted preference snapshot. Speed and pitch are floating-point
      numbers stored verbatim; they are modelled as reals. */
  datatype State = State(
    displayKana: bool,
    theme: string,
    isGlassMode: bool,
    font: string,
    silentMode: bool,
    hotkeysOn: bool,
    pronunciationEnabled: bool,
    pronunciationSpeed: real,
    pronunciationPitch: real,
    pronunciationVoiceName: Option<string>,
    furiganaEnabled: bool,
    themePreview: bool,
    selectedWallpaperId: Option<string>,
    customWallpapers: seq<Wallpaper>)

  /** The snapshot a first visit starts from. */
  const InitialState: State := State(
    displayKana := false,
    theme := "light",
    isGlassMode := false,
    font := "Zen Maru Gothic",
    silentMode := false,
    hotkeysOn := true,
    pronunciationEnabled := true,
    pronunciationSpeed := 1.0,
    pronunciationPitch := 1.0,
    pronunciationVoiceName := None,
    furiganaEnabled := false,
    themePreview := false,
    selectedWallpaperId := None,
    customWallpapers := [])

  /* ---------- fields and the shallow merge ---------- */

  /** The names of the snapshot's data fields. */
  datatype Field =
    | DisplayKana | Theme | GlassMode | Font | SilentMode | Hotkeys
    | PronunciationEnabled | PronunciationSpeed | PronunciationPitch | PronunciationVoiceName
    | FuriganaEnabled | ThemePreview | SelectedWallpaperId | CustomWallpapers

  /** A field's value, tagged with its kind. */
  datatype Value =
    | Flag(flag: bool)
    | Str(str: string)
    | Num(num: real)
    | MaybeStr(maybe: Option<string>)
    | List(list: seq<Wallpaper>)

  /** Reads one field of a snapshot. */
  function Get(s: State, f: Field): Value {
    match f
    case DisplayKana => Flag(s.displayKana)
    case Theme => Str(s.theme)
    case GlassMode => Flag(s.isGlassMode)
    case Font => Str(s.font)
    case SilentMode => Flag(s.silentMode)
    case Hotkeys => Flag(s.hotkeysOn)
    case PronunciationEnabled => Flag(s.pronunciationEnabled)
    case PronunciationSpeed => Num(s.pronunciationSpeed)
    case PronunciationPitch => Num(s.pronunciationPitch)
    case PronunciationVoiceName => MaybeStr(s.pronunciationVoiceName)
    case FuriganaEnabled => Flag(s.furiganaEnabled)
    case ThemePreview => Flag(s.themePreview)
    case SelectedWallpaperId => MaybeStr(s.selectedWallpaperId)
    case CustomWallpapers => List(s.customWallpapers)
  }

  /** `v` has the kind field `f` holds. */
  predicate Fits(f: Field, v: Value) {
    match f
    case Theme | Font => v.Str?
    case PronunciationSpeed | PronunciationPitch => v.Num?
    case PronunciationVoiceName | SelectedWallpaperId => v.MaybeStr?
    case CustomWallpapers => v.List?
    case _ => v.Flag?
  }

  /** A partial snapshot whose every entry fits its field. */
  type Patch = map<Field, Value>

  predicate WellFormed(patch: Patch) {
    forall f :: f in patch ==> Fits(f, patch[f])
  }

  /** The two snapshots agree on every field outside `changed`. */
  predicate Agree(a: State, b: State, changed: set<Field>) {
    && (DisplayKana !in changed ==> a.displayKana == b.displayKana)
    && (Theme !in changed ==> a.theme == b.theme)
    && (GlassMode !in changed ==> a.isGlassMode == b.isGlassMode)
    && (Font !in changed ==> a.font == b.font)
    && (SilentMode !in changed ==> a.silentMode == b.silentMode)
    && (Hotkeys !in changed ==> a.hotkeysOn == b.hotkeysOn)
    && (PronunciationEnabled !in changed ==> a.pronunciationEnabled == b.pronunciationEnabled)
    && (PronunciationSpeed !in changed ==> a.pronunciationSpeed == b.pronunciationSpeed)
    && (PronunciationPitch !in changed ==> a.pronunciationPitch == b.pronunciationPitch)
    && (PronunciationVoiceName !in changed ==> a.pronunciationVoiceName == b.pronunciationVoiceName)
    && (FuriganaEnabled !in changed ==> a.furiganaEnabled == b.furiganaEnabled)
    && (ThemePreview !in changed ==> a.themePreview == b.themePreview)
    && (SelectedWallpaperId !in changed ==> a.selectedWallpaperId == b.selectedWallpaperId)
    && (CustomWallpapers !in changed ==> a.customWallpapers == b.customWallpapers)
  }

  /** Every field the patch names holds the patch's value in `r`. */
  predicate Holds(r: State, patch: Patch) {
    && (DisplayKana in patch ==> Get(r, DisplayKana) == patch[DisplayKana])
    && (Theme in patch ==> Get(r, Theme) == patch[Theme])
    && (GlassMode in patch ==> Get(r, GlassMode) == patch[GlassMode])
    && (Font in patch ==> Get(r, Font) == patch[Font])
    && (SilentMode in patch ==> Get(r, SilentMode) == patch[SilentMode])
    && (Hotkeys in patch ==> Get(r, Hotkeys) == patch[Hotkeys])
    && (PronunciationEnabled in patch ==> Get(r, PronunciationEnabled) == patch[PronunciationEnabled])
    && (PronunciationSpeed in patch ==> Get(r, PronunciationSpeed) == patch[PronunciationSpeed])
    && (PronunciationPitch in patch ==> Get(r, PronunciationPitch) == patch[PronunciationPitch])
    && (PronunciationVoiceName in patch ==> Get(r, PronunciationVoiceName) == patch[PronunciationVoiceName])
    && (FuriganaEnabled in patch ==> Get(r, FuriganaEnabled) == patch[FuriganaEnabled])
    && (ThemePreview in patch ==> Get(r, ThemePreview) == patch[ThemePreview])
    && (SelectedWallpaperId in patch ==> Get(r, SelectedWallpaperId) == patch[SelectedWallpaperId])
    && (CustomWallpapers in patch ==> Get(r, CustomWallpapers) == patch[CustomWallpapers])
  }

  /** Field-by-field overwrite of `s` by `patch`. */
  function Overwrite(s: State, patch: Patch): State
    requires WellFormed(patch)
  {
    s.(
      displayKana := if DisplayKana in patch then patch[DisplayKana].flag else s.displayKana,
      theme := if Theme in patch then patch[Theme].str else s.theme,
      isGlassMode := if GlassMode in patch then patch[GlassMode].flag else s.isGlassMode,
      font := if Font in patch then patch[Font].str else s.font,
      silentMode := if SilentMode in patch then patch[SilentMode].flag else s.silentMode,
      hotkeysOn := if Hotkeys in patch then patch[Hotkeys].flag else s.hotkeysOn,
      pronunciationEnabled :=
        if PronunciationEnabled in patch then patch[PronunciationEnabled].flag else s.pronunciationEnabled,
      pronunciationSpeed :=
        if PronunciationSpeed in patch then patch[PronunciationSpeed].num else s.pronunciationSpeed,
      pronunciationPitch :=
        if PronunciationPitch in patch then patch[PronunciationPitch].num else s.pronunciationPitch,
      pronunciationVoiceName :=
        if PronunciationVoiceName in patch then patch[PronunciationVoiceName].maybe else s.pronunciationVoiceName,
      furiganaEnabled := if FuriganaEnabled in patch then patch[FuriganaEnabled].flag else s.furiganaEnabled,
      themePreview := if ThemePreview in patch then patch[ThemePreview].flag else s.themePreview,
      selectedWallpaperId :=
        if SelectedWallpaperId in patch then patch[SelectedWallpaperId].maybe else s.selectedWallpaperId,
      customWallpapers := if CustomWallpapers in patch then patch[CustomWallpapers].list else s.customWallpapers)
  }

  lemma OverwriteField(s: State, patch: Patch, f: Field)
    requires WellFormed(patch)
    ensures Get(Overwrite(s, patch), f) == if f in patch then patch[f] else Get(s, f)
  {
    match f
    case DisplayKana =>
    case Theme =>
    case GlassMode =>
    case Font =>
    case SilentMode =>
    case Hotkeys =>
    case PronunciationEnabled =>
    case PronunciationSpeed =>
    case PronunciationPitch =>
    case PronunciationVoiceName =>
    case FuriganaEnabled =>
    case ThemePreview =>
    case SelectedWallpaperId =>
    case CustomWallpapers =>
  }

  /** The store's `set(partial)`: every field the patch names takes the
      patch's value, every other field keeps its value. */
  function Merge(s: State, patch: Patch): (r: State)
    requires WellFormed(patch)
    ensures Holds(r, patch)
    ensures Agree(s, r, patch.Keys)
  {
    OverwriteField(s, patch, DisplayKana);
    OverwriteField(s, patch, Theme);
    OverwriteField(s, patch, GlassMode);
    OverwriteField(s, patch, Font);
    OverwriteField(s, patch, SilentMode);
    OverwriteField(s, patch, Hotkeys);
    OverwriteField(s, patch, PronunciationEnabled);
    OverwriteField(s, patch, PronunciationSpeed);
    OverwriteField(s, patch, PronunciationPitch);
    OverwriteField(s, patch, PronunciationVoiceName);
    OverwriteField(s, patch, FuriganaEnabled);
    OverwriteField(s, patch, ThemePreview);
    OverwriteField(s, patch, SelectedWallpaperId);
    OverwriteField(s, patch, CustomWallpapers);
    Overwrite(s, patch)
  }

  /* ---------- scalar setters ---------- */

  function SetDisplayKana(s: State, displayKana: bool): (r: State)
    ensures r.displayKana == displayKana && Agree(s, r, {DisplayKana})
  {
    Merge(s, map[DisplayKana := Flag(displayKana)])
  }

  function SetTheme(s: State, theme: string): (r: State)
    ensures r.theme == theme && Agree(s, r, {Theme})
  {
    Merge(s, map[Theme := Str(theme)])
  }

  function SetGlassMode(s: State, isGlassMode: bool): (r: State)
    ensures r.isGlassMode == isGlassMode && Agree(s, r, {GlassMode})
  {
    Merge(s, map[GlassMode := Flag(isGlassMode)])
  }

  function SetFont(s: State, fontName: string): (r: State)
    ensures r.font == fontName && Agree(s, r, {Font})
  {
    Merge(s, map[Font := Str(fontName)])
  }

  function SetSilentMode(s: State, silent: bool): (r: State)
    ensures r.silentMode == silent && Agree(s, r, {SilentMode})
  {
    Merge(s, map[SilentMode := Flag(silent)])
  }

  function SetHotkeys(s: State, hotkeys: bool): (r: State)
    ensures r.hotkeysOn == hotkeys && Agree(s, r, {Hotkeys})
  {
    Merge(s, map[Hotkeys := Flag(hotkeys)])
  }

  function SetPronunciationEnabled(s: State, enabled: bool): (r: State)
    ensures r.pronunciationEnabled == enabled && Agree(s, r, {PronunciationEnabled})
  {
    Merge(s, map[PronunciationEnabled := Flag(enabled)])
  }

  function SetPronunciationSpeed(s: State, speed: real): (r: State)
    ensures r.pronunciationSpeed == speed && Agree(s, r, {PronunciationSpeed})
  {
    Merge(s, map[PronunciationSpeed := Num(speed)])
  }

  function SetPronunciationPitch(s: State, pitch: real): (r: State)
    ensures r.pronunciationPitch == pitch && Agree(s, r, {PronunciationPitch})
  {
    Merge(s, map[PronunciationPitch := Num(pitch)])
  }

  function SetPronunciationVoiceName(s: State, name: Option<string>): (r: State)
    ensures r.pronunciationVoiceName == name && Agree(s, r, {PronunciationVoiceName})
  {
    Merge(s, map[PronunciationVoiceName := MaybeStr(name)])
  }

  function SetFuriganaEnabled(s: State, enabled: bool): (r: State)
    ensures r.furiganaEnabled == enabled && Agree(s, r, {FuriganaEnabled})
  {
    Merge(s, map[FuriganaEnabled := Flag(enabled)])
  }

  function SetThemePreview(s: State, enabled: bool): (r: State)
    ensures r.themePreview == enabled && Agree(s, r, {ThemePreview})
  {
    Merge(s, map[ThemePreview := Flag(enabled)])
  }

  /* ---------- wallpaper selection ---------- */

  /** Stores any id, or none, without checking that a wallpaper has it. */
  function SetSelectedWallpaper(s: State, id: Option<string>): (r: State)
    ensures r.selectedWallpaperId == id && Agree(s, r, {SelectedWallpaperId})
  {
    Merge(s, map[SelectedWallpaperId := MaybeStr(id)])
  }

  /** Drops the selection, whatever it was. */
  function ClearWallpaper(s: State): (r: State)
    ensures r.selectedWallpaperId.None? && Agree(s, r, {SelectedWallpaperId})
  {
    Merge(s, map[SelectedWallpaperId := MaybeStr(None)])
  }

  /* ---------- adding a custom wallpaper ---------- */

  const DefaultWallpaperName: string := "Custom Wallpaper"

  /** `name.trim() || 'Custom Wallpaper'`: the trimmed name, or the default
      when trimming leaves the empty (falsy) string. */
  function WallpaperName(name: string): (r: string)
    ensures r != []
    ensures (forall k :: 0 <= k < |name| ==> IsTrimmable(name[k])) ==> r == DefaultWallpaperName
    ensures (exists k :: 0 <= k < |name| && !IsTrimmable(name[k])) ==> r == Trim(name)
  {
    var t := Trim(name);
    if t == [] then DefaultWallpaperName else t
  }

  /** The record `addCustomWallpaper` builds. `idClock` and `idSuffix` are the
      clock reading and random digits the id is made from; `createdAt` is a
      separate clock reading. An omitted category is `Custom`. */
  function NewCustomWallpaper(name: string, url: string, category: Option<WallpaperCategory>,
                              idClock: int, idSuffix: string, createdAt: int): (w: Wallpaper)
    ensures w.id == GenerateWallpaperId(idClock, idSuffix) && StartsWith(w.id, CustomIdPrefix)
    ensures w.name == WallpaperName(name)
    ensures w.url == url
    ensures category.None? ==> w.category == Custom
    ensures category.Some? ==> w.category == category.value
    ensures w.isUserAdded && w.createdAt == createdAt
    ensures w.thumbnailUrl.None? && w.source.None?
  {
    Wallpaper(GenerateWallpaperId(idClock, idSuffix), WallpaperName(name), url, None,
              category.GetOr(Custom), true, None, createdAt)
  }

  /** `set(state => ({ customWallpapers: [...state.customWallpapers, w] }))`:
      the custom list grows by `w` at its end and nothing else changes. */
  function Append(s: State, w: Wallpaper): (r: State)
    ensures |r.customWallpapers| == |s.customWallpapers| + 1
    ensures r.customWallpapers[..|s.customWallpapers|] == s.customWallpapers
    ensures r.customWallpapers[|s.customWallpapers|] == w
    ensures Agree(s, r, {CustomWallpapers})
  {
    var r := Merge(s, map[CustomWallpapers := List(s.customWallpapers + [w])]);
    assert Get(r, CustomWallpapers) == List(s.customWallpapers + [w]);
    r
  }

  /** `addCustomWallpaper`: rejects an invalid URL with `false` and the
      snapshot untouched; otherwise appends one user-added record at the end
      of the custom list, changes nothing else, and answers `true`. */
  function AddCustomWallpaper(parse: UrlParser, s: State, name: string, url: string,
                              category: Option<WallpaperCategory>,
                              idClock: int, idSuffix: string, createdAt: int): (r: (State, bool))
    ensures r.1 <==> IsValidImageUrl(parse, url)
    ensures !r.1 ==> r.0 == s
    ensures r.1 ==> && |r.0.customWallpapers| == |s.customWallpapers| + 1
                    && r.0.customWallpapers[..|s.customWallpapers|] == s.customWallpapers
                    && r.0.customWallpapers[|s.customWallpapers|]
                       == NewCustomWallpaper(name, url, category, idClock, idSuffix, createdAt)
                    && Agree(s, r.0, {CustomWallpapers})
  {
    if !IsValidImageUrl(parse, url) then
      (s, false)
    else
      (Append(s, NewCustomWallpaper(name, url, category, idClock, idSuffix, createdAt)), true)
  }

  /* ---------- removing a custom wallpaper ---------- */

  /** `filter(w => w.id !== id)`: the entries whose id differs, in their order. */
  function Without(ws: seq<Wallpaper>, id: string): (r: seq<Wallpaper>)
    ensures |r| <= |ws|
    ensures forall w :: w in r <==> w in ws && w.id != id
    ensures (exists i :: 0 <= i < |ws| && ws[i].id == id) ==> |r| < |ws|
  {
    if ws == [] then []
    else if ws[0].id == id then Without(ws[1..], id)
    else
      var rest := Without(ws[1..], id);
      assert forall w :: w in ws <==> w == ws[0] || w in ws[1..];
      [ws[0]] + rest
  }

  /** Filtering distributes over concatenation, so it keeps the relative order
      of the entries it keeps. */
  lemma {:induction false} WithoutConcat(a: seq<Wallpaper>, b: seq<Wallpaper>, id: string)
    ensures Without(a + b, id) == Without(a, id) + Without(b, id)
  {
    if a == [] {
      assert a + b == b;
    } else {
      assert (a + b)[1..] == a[1..] + b;
      WithoutConcat(a[1..], b, id);
    }
  }

  /** Filtering out an id no entry has changes nothing. */
  lemma {:induction false} WithoutAbsent(ws: seq<Wallpaper>, id: string)
    requires forall i :: 0 <= i < |ws| ==> ws[i].id != id
    ensures Without(ws, id) == ws
  {
    if ws != [] {
      WithoutAbsent(ws[1..], id);
    }
  }

  /** The first entry carrying `id` exists and is user-added: the guard
      `removeCustomWallpaper` checks before deleting. */
  predicate Deletable(ws: seq<Wallpaper>, id: string) {
    FindById(ws, id).Some? && FindById(ws, id).value.isUserAdded
  }

  /** `removeCustomWallpaper`: when the first custom entry with this id is
      missing or not user-added, nothing changes. Otherwise every entry with
      the id goes, the rest keep their order, and a selection of that id is
      cleared in the same transition; nothing else changes. */
  function RemoveCustomWallpaper(s: State, id: string): (r: State)
    ensures !Deletable(s.customWallpapers, id) ==> r == s
    ensures Deletable(s.customWallpapers, id) ==>
              && r.customWallpapers == Without(s.customWallpapers, id)
              && (s.selectedWallpaperId == Some(id) ==> r.selectedWallpaperId.None?)
              && (s.selectedWallpaperId != Some(id) ==> r.selectedWallpaperId == s.selectedWallpaperId)
              && Agree(s, r, {CustomWallpapers, SelectedWallpaperId})
  {
    if !Deletable(s.customWallpapers, id) then
      s
    else
      var kept := Without(s.customWallpapers, id);
      if s.selectedWallpaperId == Some(id) then
        var patch := map[CustomWallpapers := List(kept), SelectedWallpaperId := MaybeStr(None)];
        var r := Merge(s, patch);
        assert patch.Keys == {CustomWallpapers, SelectedWallpaperId};
        assert Get(r, CustomWallpapers) == List(kept) && Get(r, SelectedWallpaperId) == MaybeStr(None);
        r
      else
        var r := Merge(s, map[CustomWallpapers := List(kept)]);
        assert Get(r, CustomWallpapers) == List(kept);
        r
  }

  /** A successful removal shortens the list and leaves no entry with the id. */
  lemma RemoveDeletesEveryMatch(s: State, id: string)
    requires Deletable(s.customWallpapers, id)
    ensures |RemoveCustomWallpaper(s, id).customWallpapers| < |s.customWallpapers|
    ensures forall i :: 0 <= i < |RemoveCustomWallpaper(s, id).customWallpapers| ==>
                          RemoveCustomWallpaper(s, id).customWallpapers[i].id != id
  {
    var kept := RemoveCustomWallpaper(s, id).customWallpapers;
    forall i | 0 <= i < |kept| ensures kept[i].id != id {
      assert kept[i] in kept;
    }
  }

  /** An id no custom entry carries, a curated one included, removes nothing. */
  lemma RemoveAbsentIsNoOp(s: State, id: string)
    requires forall i :: 0 <= i < |s.customWallpapers| ==> s.customWallpapers[i].id != id
    ensures RemoveCustomWallpaper(s, id) == s
  {
  }
}
