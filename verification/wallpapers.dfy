/**
 * The wallpaper catalog: the wallpaper record, the nine curated wallpapers,
 * lookup by id over curated-then-user entries, the image-URL heuristic and
 * the shape of generated ids.
 */
module Wallpapers {
  import opened Wrappers
  import opened Text
  import opened Url

  datatype WallpaperCategory = NeonCyberpunk | Nature | Abstract | Minimal | Anime | Custom

  /** A background image. `isUserAdded` is false for curated entries (which
      cannot be deleted) and true for entries the user added. `createdAt` is
      a millisecond timestamp. */
  datatype Wallpaper = Wallpaper(
    id: string,
    name: string,
    url: string,
    thumbnailUrl: Option<string>,
    category: WallpaperCategory,
    isUserAdded: bool,
    source: Option<string>,
    createdAt: int)

  function Curated(id: string, name: string, url: string, category: WallpaperCategory,
                   source: string, loadedAt: int): Wallpaper
  {
    Wallpaper(id, name, url, None, category, false, Some(source), loadedAt)
  }

  /* Photo addresses of the Unsplash-hosted entries. */
  const NeonCityNightsUrl: string := "https://images.unsplash.com/photo-1514565131-fce0801e5785?w=1920&q=80"
  const TokyoRainUrl: string := "https://images.unsplash.com/photo-1542051841857-5f90071e7989?w=1920&q=80"
  const CyberpunkStreetUrl: string := "https://images.unsplash.com/photo-1550745165-9bc0b252726f?w=1920&q=80"
  const NeonSignsUrl: string := "https://images.unsplash.com/photo-1568632234157-ce7aecd03d0d?w=1920&q=80"
  const SakuraNightUrl: string := "https://images.unsplash.com/photo-1522383225653-ed111181a951?w=1920&q=80"
  const MtFujiSunsetUrl: string := "https://images.unsplash.com/photo-1490806843957-31f4c9a91c65?w=1920&q=80"
  const PurpleGradientUrl: string := "https://images.unsplash.com/photo-1557672172-298e090bd0f1?w=1920&q=80"
  const AbstractWavesUrl: string := "https://images.unsplash.com/photo-1558591710-4b4a1ae0f04d?w=1920&q=80"

  /** The built-in wallpapers, in display order. Every entry's `createdAt` is
      the clock reading taken when the catalog is loaded, `loadedAt`. */
  function CuratedWallpapers(loadedAt: int): (r: seq<Wallpaper>)
    ensures |r| == 9
    ensures forall i :: 0 <= i < |r| ==> !r[i].isUserAdded && r[i].createdAt == loadedAt
  {
    [ Curated("neon-city-local", "Neon City (Original)", "/wallpapers/neonretrocarcity.jpg",
              NeonCyberpunk, "Local", loadedAt),
      Curated("neon-city-1", "Neon City Nights", NeonCityNightsUrl,
              NeonCyberpunk, "Unsplash", loadedAt),
      Curated("tokyo-rain", "Tokyo Rain", TokyoRainUrl,
              NeonCyberpunk, "Unsplash", loadedAt),
      Curated("cyberpunk-street", "Cyberpunk Street", CyberpunkStreetUrl,
              NeonCyberpunk, "Unsplash", loadedAt),
      Curated("neon-signs", "Neon Signs Alley", NeonSignsUrl,
              NeonCyberpunk, "Unsplash", loadedAt),
      Curated("sakura-night", "Sakura Night", SakuraNightUrl,
              Nature, "Unsplash", loadedAt),
      Curated("mt-fuji-sunset", "Mt. Fuji Sunset", MtFujiSunsetUrl,
              Nature, "Unsplash", loadedAt),
      Curated("minimal-gradient-purple", "Purple Gradient", PurpleGradientUrl,
              Minimal, "Unsplash", loadedAt),
      Curated("abstract-waves", "Abstract Waves", AbstractWavesUrl,
              Abstract, "Unsplash", loadedAt)
    ]
  }

  /* ---------- identifiers ---------- */

  /** The ids of a list of wallpapers. */
  function Ids(ws: seq<Wallpaper>): (ids: set<string>)
    ensures forall i :: 0 <= i < |ws| ==> ws[i].id in ids
    ensures forall id :: id in ids ==> exists i :: 0 <= i < |ws| && ws[i].id == id
  {
    if ws == [] then {} else {ws[0].id} + Ids(ws[1..])
  }

  /** No two entries share an id. */
  predicate UniqueIds(ws: seq<Wallpaper>) {
    forall i, j :: 0 <= i < j < |ws| ==> ws[i].id != ws[j].id
  }

  /** Ids are unique across a concatenation exactly when they are unique on
      each side and no id occurs on both sides. */
  lemma UniqueIdsConcat(a: seq<Wallpaper>, b: seq<Wallpaper>)
    ensures UniqueIds(a + b) <==> UniqueIds(a) && UniqueIds(b) && Ids(a) !! Ids(b)
  {
    var ab := a + b;
    if UniqueIds(ab) {
      forall i, j | 0 <= i < j < |b| ensures b[i].id != b[j].id {
        assert ab[|a| + i] == b[i] && ab[|a| + j] == b[j];
      }
      forall i, j | 0 <= i < j < |a| ensures a[i].id != a[j].id {
        assert ab[i] == a[i] && ab[j] == a[j];
      }
      forall i, j | 0 <= i < |a| && 0 <= j < |b| ensures a[i].id != b[j].id {
        assert ab[i] == a[i] && ab[|a| + j] == b[j];
      }
    }
    if UniqueIds(a) && UniqueIds(b) && Ids(a) !! Ids(b) {
      forall i, j | 0 <= i < j < |ab| ensures ab[i].id != ab[j].id {
        if j < |a| {
          assert ab[i] == a[i] && ab[j] == a[j];
        } else if i >= |a| {
          assert ab[i] == b[i - |a|] && ab[j] == b[j - |a|];
        } else {
          assert ab[i] == a[i] && ab[j] == b[j - |a|];
          assert ab[i].id in Ids(a) && ab[j].id in Ids(b);
        }
      }
    }
  }

  const CustomIdPrefix: string := "custom-"

  /** `custom-<timestamp>-<random suffix>`: `clock` is the `Date.now()`
      reading and `randomSuffix` the up to nine base-36 digits cut from
      `Math.random()`. */
  function GenerateWallpaperId(clock: int, randomSuffix: string): (id: string)
    ensures StartsWith(id, CustomIdPrefix)
    ensures |id| > |CustomIdPrefix| + |randomSuffix|
    ensures EndsWith(id, "-" + randomSuffix)
    ensures id[|CustomIdPrefix|..|id| - |randomSuffix| - 1] == NumberString(clock)
  {
    CustomIdPrefix + NumberString(clock) + "-" + randomSuffix
  }

  /* ---------- lookup ---------- */

  /** `Array.prototype.find(w => w.id === id)`: the first entry whose id
      matches, or None when no entry matches. */
  function FindById(ws: seq<Wallpaper>, id: string): (r: Option<Wallpaper>)
    ensures r.None? <==> forall i :: 0 <= i < |ws| ==> ws[i].id != id
    ensures r.Some? ==> exists i :: 0 <= i < |ws| && ws[i] == r.value && ws[i].id == id
                                    && forall j :: 0 <= j < i ==> ws[j].id != id
  {
    if ws == [] then None
    else if ws[0].id == id then Some(ws[0])
    else
      var r := FindById(ws[1..], id);
      assert r.Some? ==> exists i :: 0 <= i < |ws[1..]| && ws[1..][i] == r.value && ws[1..][i].id == id
                                    && forall j :: 0 <= j < i ==> ws[1..][j].id != id;
      r
  }

  /** A first-match search over a concatenation searches the second part
      only when the first has no match. */
  lemma {:induction false} FindByIdConcat(a: seq<Wallpaper>, b: seq<Wallpaper>, id: string)
    ensures FindById(a + b, id) == if FindById(a, id).Some? then FindById(a, id) else FindById(b, id)
  {
    if a != [] {
      assert (a + b)[1..] == a[1..] + b;
      FindByIdConcat(a[1..], b, id);
    } else {
      assert a + b == b;
    }
  }

  /** In a list without repeated ids the first match is the only match. */
  lemma FindByIdUnique(ws: seq<Wallpaper>, i: nat)
    requires UniqueIds(ws) && i < |ws|
    ensures FindById(ws, ws[i].id) == Some(ws[i])
  {
  }

  /** Search one list, then another: the first list's match wins. */
  function FindInEither(first: seq<Wallpaper>, second: seq<Wallpaper>, id: string): (r: Option<Wallpaper>)
    ensures r.Some? ==> r.value.id == id
    ensures FindById(first, id).Some? ==> r == FindById(first, id)
    ensures FindById(first, id).None? ==> r == FindById(second, id)
    ensures r.None? <==> (forall i :: 0 <= i < |first| ==> first[i].id != id)
                         && (forall i :: 0 <= i < |second| ==> second[i].id != id)
  {
    FindByIdConcat(first, second, id);
    FindById(first + second, id)
  }

  /** `getWallpaperById`: search the curated wallpapers, then the user's. */
  function GetWallpaperById(loadedAt: int, id: string, userWallpapers: seq<Wallpaper>): (r: Option<Wallpaper>)
    ensures r.Some? ==> r.value.id == id
    ensures FindById(CuratedWallpapers(loadedAt), id).Some? ==> r == FindById(CuratedWallpapers(loadedAt), id)
    ensures FindById(CuratedWallpapers(loadedAt), id).None? ==> r == FindById(userWallpapers, id)
    ensures r.None? <==> (forall i :: 0 <= i < |CuratedWallpapers(loadedAt)| ==> CuratedWallpapers(loadedAt)[i].id != id)
                         && (forall i :: 0 <= i < |userWallpapers| ==> userWallpapers[i].id != id)
  {
    FindInEither(CuratedWallpapers(loadedAt), userWallpapers, id)
  }

  /* ---------- URL validation ---------- */

  /** The five accepted image extensions, lower case. */
  const ValidExtensions: seq<string> := [".jpg", ".jpeg", ".png", ".webp", ".gif"]

  /** The lower-cased path ends in one of the accepted extensions. */
  predicate HasValidExtension(pathname: string) {
    exists i :: 0 <= i < |ValidExtensions| && EndsWith(ToLower(pathname), ValidExtensions[i])
  }

  /** The query names a `w` or `width` parameter (image CDNs that resize on demand). */
  predicate HasImageParams(u: ParsedUrl) {
    HasQueryKey(u, "w") || HasQueryKey(u, "width")
  }

  /** `isValidImageUrl`: false when parsing throws; otherwise accept an image
      extension on the path or a size parameter in the query. */
  function IsValidImageUrl(parse: UrlParser, url: string): (r: bool)
    ensures parse(url).None? ==> !r
    ensures parse(url).Some? ==>
              var p := parse(url).value.pathname;
              var keys := parse(url).value.queryKeys;
              (r <==> || (exists i :: 0 <= i < |ValidExtensions| && |ValidExtensions[i]| <= |p|
                                      && ToLower(p[|p| - |ValidExtensions[i]|..]) == ValidExtensions[i])
                      || "w" in keys || "width" in keys)
  {
    match parse(url)
    case None => false
    case Some(u) =>
      ValidExtensionCaseInsensitive(u.pathname);
      HasValidExtension(u.pathname) || HasImageParams(u)
  }

  /** Reference reading of the extension test: the path's last characters,
      whatever their case, spell one of the five extensions. Both directions. */
  lemma ValidExtensionCaseInsensitive(pathname: string)
    ensures HasValidExtension(pathname) <==>
            exists i :: 0 <= i < |ValidExtensions| && |ValidExtensions[i]| <= |pathname|
                        && ToLower(pathname[|pathname| - |ValidExtensions[i]|..]) == ValidExtensions[i]
  {
    forall i | 0 <= i < |ValidExtensions| && |ValidExtensions[i]| <= |pathname|
      ensures ToLower(pathname)[|pathname| - |ValidExtensions[i]|..]
              == ToLower(pathname[|pathname| - |ValidExtensions[i]|..])
    {
      ToLowerSuffix(pathname, |pathname| - |ValidExtensions[i]|);
    }
  }

  /* ---------- facts about the curated catalog ---------- */

  /** Curated wallpapers are never user-added, so the store never deletes one. */
  lemma CuratedAreBuiltIn(loadedAt: int)
    ensures forall i :: 0 <= i < |CuratedWallpapers(loadedAt)| ==> !CuratedWallpapers(loadedAt)[i].isUserAdded
  {
  }

  /** The nine curated ids are pairwise distinct. */
  lemma CuratedIdsUnique(loadedAt: int)
    ensures UniqueIds(CuratedWallpapers(loadedAt))
  {
  }

  /** No curated id carries the prefix of generated ids. */
  lemma CuratedIdsNotGenerated(loadedAt: int)
    ensures forall i :: 0 <= i < |CuratedWallpapers(loadedAt)| ==> !StartsWith(CuratedWallpapers(loadedAt)[i].id, CustomIdPrefix)
  {
    var c := CuratedWallpapers(loadedAt);
    forall i | 0 <= i < |c| ensures !StartsWith(c[i].id, CustomIdPrefix) {
      assert c[i].id[0] != 'c' || c[i].id[1] != 'u';
    }
  }

  /** A generated id never names a curated wallpaper, whatever the clock and
      the random suffix, so a lookup of it falls through to the user's list. */
  lemma GeneratedIdNeverCurated(loadedAt: int, clock: int, randomSuffix: string, userWallpapers: seq<Wallpaper>)
    ensures FindById(CuratedWallpapers(loadedAt), GenerateWallpaperId(clock, randomSuffix)).None?
    ensures GetWallpaperById(loadedAt, GenerateWallpaperId(clock, randomSuffix), userWallpapers)
            == FindById(userWallpapers, GenerateWallpaperId(clock, randomSuffix))
  {
    var id := GenerateWallpaperId(clock, randomSuffix);
    var c := CuratedWallpapers(loadedAt);
    CuratedIdsNotGenerated(loadedAt);
    forall i | 0 <= i < |c| ensures c[i].id != id {
      assert StartsWith(id, CustomIdPrefix);
    }
  }

  /* ---------- facts about URL validation ---------- */

  /** A URL the parser rejects is never a valid image URL. */
  lemma RejectsUnparsable(parse: UrlParser, url: string)
    requires parse(url).None?
    ensures !IsValidImageUrl(parse, url)
  {
  }

  /** With a conforming parser, input without a scheme is rejected. */
  lemma RejectsSchemeless(parse: UrlParser, url: string)
    requires Url.RejectsSchemeless(parse)
    requires ':' !in url
    ensures !IsValidImageUrl(parse, url)
  {
  }

  /** A path ending in an accepted extension, in any mix of cases, is accepted. */
  lemma AcceptsImageExtension(parse: UrlParser, url: string, ext: string)
    requires parse(url).Some? && EndsWith(parse(url).value.pathname, ext)
    requires ToLower(ext) in ValidExtensions
    ensures IsValidImageUrl(parse, url)
  {
    var p := parse(url).value.pathname;
    var low := ToLower(p);
    ToLowerSuffix(p, |p| - |ext|);
    assert low[|low| - |ext|..] == ToLower(ext);
    var i :| 0 <= i < |ValidExtensions| && ValidExtensions[i] == ToLower(ext);
    assert EndsWith(low, ValidExtensions[i]);
  }

  /** A `w` or `width` query parameter is accepted whatever the path. */
  lemma AcceptsSizeParameter(parse: UrlParser, url: string)
    requires parse(url).Some?
    requires "w" in parse(url).value.queryKeys || "width" in parse(url).value.queryKeys
    ensures IsValidImageUrl(parse, url)
  {
  }

  /** A parsed URL with neither an accepted extension nor a size parameter is rejected. */
  lemma RejectsOtherwise(parse: UrlParser, url: string)
    requires parse(url).Some?
    requires forall i :: 0 <= i < |ValidExtensions| ==> !EndsWith(ToLower(parse(url).value.pathname), ValidExtensions[i])
    requires "w" !in parse(url).value.queryKeys && "width" !in parse(url).value.queryKeys
    ensures !IsValidImageUrl(parse, url)
  {
  }

  /** Example: a `.psd` path is rejected. */
  lemma RejectsOtherExtension(parse: UrlParser)
    requires parse("https://x.com/a.psd") == Some(ParsedUrl("/a.psd", []))
    ensures !IsValidImageUrl(parse, "https://x.com/a.psd")
  {
    var p := "/a.psd";
    assert p[|p| - 1] == 'd';
    LastLetterRulesOutExtension(p);
  }

  /** Example: an upper-case `.JPG` path is accepted. */
  lemma AcceptsUpperCaseExtension(parse: UrlParser)
    requires parse("https://x.com/A.JPG") == Some(ParsedUrl("/A.JPG", []))
    ensures IsValidImageUrl(parse, "https://x.com/A.JPG")
  {
    var e := ".JPG";
    assert ToLower(e) == ".jpg" by {
      assert ToLower(e)[0] == '.' && ToLower(e)[1] == 'j' && ToLower(e)[2] == 'p' && ToLower(e)[3] == 'g';
    }
    assert ".jpg" == ValidExtensions[0];
    AcceptsImageExtension(parse, "https://x.com/A.JPG", e);
  }

  /** Example: the query name match is case-sensitive: `?W=800` on a path
      without an extension is rejected, while `?w=800` is accepted. */
  lemma SizeParameterCaseSensitive(parse: UrlParser)
    requires parse("https://img.cdn/photo?w=800") == Some(ParsedUrl("/photo", ["w"]))
    requires parse("https://img.cdn/photo?W=800") == Some(ParsedUrl("/photo", ["W"]))
    ensures IsValidImageUrl(parse, "https://img.cdn/photo?w=800")
    ensures !IsValidImageUrl(parse, "https://img.cdn/photo?W=800")
  {
    PhotoHasNoExtension();
    assert HasImageParams(ParsedUrl("/photo", ["w"]));
    assert !HasImageParams(ParsedUrl("/photo", ["W"])) by {
      assert "w" != "W" && "width" != "W";
    }
  }

  lemma PhotoHasNoExtension()
    ensures !HasValidExtension("/photo")
  {
    var p := "/photo";
    assert p[|p| - 1] == 'o';
    LastLetterRulesOutExtension(p);
  }

  /** Every accepted extension ends in `g`, `p` or `f`, so a path whose last
      character lower-cases to anything else has none of them. */
  lemma LastLetterRulesOutExtension(pathname: string)
    requires pathname != [] && LowerChar(pathname[|pathname| - 1]) !in {'g', 'p', 'f'}
    ensures !HasValidExtension(pathname)
  {
    var low := ToLower(pathname);
    assert low[|low| - 1] !in {'g', 'p', 'f'};
    forall i | 0 <= i < |ValidExtensions| ensures !EndsWith(low, ValidExtensions[i]) {
      var e := ValidExtensions[i];
      assert e[|e| - 1] != low[|low| - 1];
      assert |e| <= |low| ==> low[|low| - |e|..][|e| - 1] == low[|low| - 1];
    }
  }
}
