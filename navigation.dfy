/** Two page choices of script.js: where a click on a notification leads
    (`navigateToNotificationItem`, fed from the data attributes `updateNotificationUI` writes)
    and which navigation link `setActiveNavLink` highlights for the current path. */
module Navigation {
  import opened Js
  import NotificationStore

  // ------------------------------------------------------------ notification clicks

  /** Where a click leads: nowhere, or to a URL. */
  datatype Nav = Stay | GoTo(url: string)

  /** The lookup of `navigateToNotificationItem`: an unknown type stays; a known one goes to
      `page?id=itemId` when the item id is a non-empty text, else to the bare page. */
  function Navigate(pages: map<string, string>, kind: string, itemId: Option<string>): (r: Nav)
    ensures kind !in pages <==> r == Stay
    ensures kind in pages && itemId.Some? && itemId.value != "" ==> r == GoTo(pages[kind] + "?id=" + itemId.value)
    ensures kind in pages && (itemId.None? || itemId.value == "") ==> r == GoTo(pages[kind])
  {
    if kind !in pages then Stay
    else if itemId.Some? && itemId.value != "" then GoTo(pages[kind] + "?id=" + itemId.value)
    else GoTo(pages[kind])
  }

  /** The page map as written, keyed by capitalised type names. */
  const CapitalisedPages: map<string, string> := map[
    "Artist" := "artist-details.html",
    "Artwork" := "artwork-details.html",
    "Museum" := "museums.html",
    "Gallery" := "galleries.html",
    "Event" := "event-details.html"]

  /** Every `related_item_type` the server writes with createNotification. */
  const ServerTags: seq<string> := ["artist", "artwork", "gallery", "museum", "event", "video", "collection"]

  /** The lookup as written: a known tag is a capitalised one. */
  function NavigateAsWritten(kind: string, itemId: Option<string>): (r: Nav)
    ensures r != Stay <==> kind in {"Artist", "Artwork", "Museum", "Gallery", "Event"}
    ensures r != Stay ==> StartsWith(r.url, CapitalisedPages[kind])
  {
    Navigate(CapitalisedPages, kind, itemId)
  }

  /** No type the server writes is a key of the map as written, nor is the empty type of a
      notification without one: a click never leads anywhere. */
  lemma ServerTagsNeverNavigate(k: nat, itemId: Option<string>)
    requires k < |ServerTags|
    ensures NavigateAsWritten(ServerTags[k], itemId) == Stay
    ensures NavigateAsWritten("", itemId) == Stay
  {
    var t := ServerTags[k];
    forall key | key in CapitalisedPages ensures key != t {
      assert IsUpper(key[0]);
      assert IsLower(t[0]);
    }
  }

  /** The map keyed by the tags the server writes: the evident intent. */
  const LowercasePages: map<string, string> := map[
    "artist" := "artist-details.html",
    "artwork" := "artwork-details.html",
    "museum" := "museums.html",
    "gallery" := "galleries.html",
    "event" := "event-details.html"]

  /** The corrected lookup: a known tag is one the server writes for a page. */
  function NavigateIntended(kind: string, itemId: Option<string>): (r: Nav)
    ensures r != Stay <==> kind in {"artist", "artwork", "museum", "gallery", "event"}
    ensures r != Stay ==> StartsWith(r.url, LowercasePages[kind])
  {
    Navigate(LowercasePages, kind, itemId)
  }

  function Capitalise(s: string): (r: string)
    ensures |r| == |s|
  {
    if s == [] then s else [UpperChar(s[0])] + s[1..]
  }

  /** The corrected lookup is the written one applied to the capitalised tag: the same five
      pages, reached from the tags the server actually writes. */
  lemma IntendedIsCapitalised(kind: string, itemId: Option<string>)
    requires kind in LowercasePages
    ensures NavigateIntended(kind, itemId) == NavigateAsWritten(Capitalise(kind), itemId)
    ensures NavigateIntended(kind, itemId) != Stay
  {
    assert Capitalise("artist") == "Artist";
    assert Capitalise("artwork") == "Artwork";
    assert Capitalise("museum") == "Museum";
    assert Capitalise("gallery") == "Gallery";
    assert Capitalise("event") == "Event";
  }

  /** `data-type`: `related_item_type || ''`. */
  function DataType(n: NotificationStore.Notification): string {
    OrElse(n.relatedType, "")
  }

  /** `data-item-id`: `related_item_id || ''` (the id 0 is falsy). */
  function DataItemId(n: NotificationStore.Notification): (r: string)
    ensures r == "" <==> n.relatedId.None? || n.relatedId.value == 0
  {
    if n.relatedId.Some? && n.relatedId.value != 0 then IntToString(n.relatedId.value) else ""
  }

  /** A click in the desktop list passes the item id; the mobile list passes none. */
  function ClickAsWritten(n: NotificationStore.Notification, desktop: bool): (r: Nav)
    ensures r != Stay ==> n.relatedType.Some? && n.relatedType.value in CapitalisedPages
    ensures !desktop && r != Stay ==> r == GoTo(CapitalisedPages[n.relatedType.value])
  {
    NavigateAsWritten(DataType(n), if desktop then Some(DataItemId(n)) else None)
  }

  /** The corrected click: a desktop click on a notification with a page and a truthy item id
      opens that item, any other click on one with a page opens the bare page. */
  function Click(n: NotificationStore.Notification, desktop: bool): (r: Nav)
    ensures r != Stay <==> n.relatedType.Some? && n.relatedType.value in LowercasePages
    ensures r != Stay && desktop && n.relatedId.Some? && n.relatedId.value != 0 ==>
              r == GoTo(LowercasePages[n.relatedType.value] + "?id=" + IntToString(n.relatedId.value))
    ensures r != Stay && (!desktop || n.relatedId.None? || n.relatedId.value == 0) ==>
              r == GoTo(LowercasePages[n.relatedType.value])
  {
    NavigateIntended(DataType(n), if desktop then Some(DataItemId(n)) else None)
  }

  /** No notification the server creates leads anywhere when clicked, on either list. */
  lemma ServerNotificationsGoNowhere(n: NotificationStore.Notification, desktop: bool)
    requires n.relatedType.None? || n.relatedType.value in ServerTags
    ensures ClickAsWritten(n, desktop) == Stay
  {
    if n.relatedType.Some? {
      var k :| 0 <= k < |ServerTags| && ServerTags[k] == n.relatedType.value;
      ServerTagsNeverNavigate(k, if desktop then Some(DataItemId(n)) else None);
    } else {
      ServerTagsNeverNavigate(0, if desktop then Some(DataItemId(n)) else None);
    }
  }

  /** With the corrected map, a desktop click on a notification about an artist opens that
      artist's page, and a mobile click opens the bare page. */
  lemma ArtistNotificationOpensArtist(n: NotificationStore.Notification, id: nat)
    requires n.relatedType == Some("artist") && n.relatedId == Some(id) && id != 0
    ensures Click(n, true) == GoTo("artist-details.html?id=" + NatToString(id))
    ensures Click(n, false) == GoTo("artist-details.html")
  {
    assert DataType(n) == "artist";
    assert DataItemId(n) == NatToString(id);
    assert NatToString(id) != "";
  }

  // ------------------------------------------------------------ setActiveNavLink

  /** `pageMapping`: a detail page highlights its list page. */
  const PageMapping: map<string, string> := map[
    "artist-details.html" := "artists.html",
    "artwork-details.html" := "artworks.html",
    "museum_details.html" := "museums.html",
    "gallery-details.html" := "galleries.html",
    "browse-galleries.html" := "galleries.html",
    "browse-museums.html" := "museums.html",
    "event-details.html" := "events.html"]

  /** For an all-digit last segment, the first keyword the path contains picks the page. */
  const DigitKeywords: seq<(string, string)> := [
    ("gallery", "galleries.html"),
    ("artist", "artists.html"),
    ("artwork", "artworks.html"),
    ("museum", "museums.html"),
    ("event", "events.html")]

  /** `path.split('/').pop() || 'index.html'`. */
  function CurrentPage(path: string): (r: string)
    ensures r != ""
    ensures r == (if AfterLast(path, '/') == "" then "index.html" else AfterLast(path, '/'))
  {
    var last := Pop(path, '/');
    if last == "" then "index.html" else last
  }

  /** The page of the first keyword contained in the path. */
  function FirstKeyword(path: string, keywords: seq<(string, string)>): (r: Option<string>)
    ensures r.None? <==> forall k :: 0 <= k < |keywords| ==> !Includes(path, keywords[k].0)
    ensures r.Some? ==> exists k :: 0 <= k < |keywords| && Includes(path, keywords[k].0) && r.value == keywords[k].1
                          && forall j :: 0 <= j < k ==> !Includes(path, keywords[j].0)
  {
    if keywords == [] then None
    else if Includes(path, keywords[0].0) then Some(keywords[0].1)
    else
      var r := FirstKeyword(path, keywords[1..]);
      if r.Some? then
        var k :| 0 <= k < |keywords[1..]| && Includes(path, keywords[1..][k].0) && r.value == keywords[1..][k].1
                 && forall j :: 0 <= j < k ==> !Includes(path, keywords[1..][j].0);
        assert 0 <= k + 1 < |keywords| && Includes(path, keywords[k + 1].0) && r.value == keywords[k + 1].1;
        r
      else r
  }

  /** The page whose link is highlighted. */
  function TargetPage(path: string): (r: string)
    ensures r != ""
    ensures var p := CurrentPage(path);
      !AllDigits(p) ==> r == (if p in PageMapping then PageMapping[p] else p)
    ensures var p := CurrentPage(path);
      AllDigits(p) && FirstKeyword(path, DigitKeywords).Some? ==> r == FirstKeyword(path, DigitKeywords).value
    ensures var p := CurrentPage(path);
      AllDigits(p) && FirstKeyword(path, DigitKeywords).None? ==> r == (if p in PageMapping then PageMapping[p] else p)
  {
    var page := CurrentPage(path);
    var mapped := if page in PageMapping then PageMapping[page] else page;
    assert mapped != "" by { if page in PageMapping { MappedPagesNonEmpty(page); } }
    if AllDigits(page) then
      match FirstKeyword(path, DigitKeywords)
      case Some(p) => KeywordPagesNonEmpty(path); p
      case None => mapped
    else mapped
  }

  lemma MappedPagesNonEmpty(page: string)
    requires page in PageMapping
    ensures PageMapping[page] != ""
  {
  }

  lemma KeywordPagesNonEmpty(path: string)
    ensures FirstKeyword(path, DigitKeywords).Some? ==> FirstKeyword(path, DigitKeywords).value != ""
  {
    assert forall k :: 0 <= k < |DigitKeywords| ==> DigitKeywords[k].1 != "";
  }

  /** A link is active when its last segment is the target page, or when the current page is
      empty and the link is index.html. */
  predicate IsActive(path: string, href: string)
    ensures IsActive(path, href) ==> Pop(href, '/') == TargetPage(path) || Pop(href, '/') == "index.html"
  {
    LinkActive(Pop(href, '/'), TargetPage(path), CurrentPage(path))
  }

  predicate LinkActive(linkPage: string, target: string, current: string) {
    linkPage == target || (current == "" && linkPage == "index.html")
  }

  /** The second clause never applies, since the current page falls back to index.html: a link
      is active exactly when its last segment is the target page. */
  lemma ActiveIsTarget(path: string, href: string)
    ensures IsActive(path, href) <==> AfterLast(href, '/') == TargetPage(path)
  {
    assert CurrentPage(path) != "";
  }

  /** A path ending in "/" (the site root) highlights index.html. */
  lemma TrailingSlashIsIndex(path: string)
    requires path != [] && path[|path| - 1] == '/'
    ensures TargetPage(path) == "index.html"
  {
    assert AfterLast(path, '/') == "";
    assert !AllDigits("index.html") by { assert !IsDigit("index.html"[0]); }
  }

  /** Every detail page maps to a list page that is not itself a detail page. */
  lemma DetailPagesMapToLists(page: string)
    requires page in PageMapping
    ensures PageMapping[page] in {"artists.html", "artworks.html", "museums.html", "galleries.html", "events.html"}
    ensures PageMapping[page] !in PageMapping
  {
  }

  lemma {:induction false} AfterLastOfSuffix(x: string, d: string)
    requires '/' !in d
    ensures AfterLast(x + "/" + d, '/') == d
    decreases |x|
  {
    var s := x + "/" + d;
    assert s[|x|] == '/';
    if x == [] {
      assert s[1..] == d;
    } else {
      assert s[1..] == x[1..] + "/" + d;
      AfterLastOfSuffix(x[1..], d);
    }
  }

  lemma NoFirstCharNoMatch(s: string, t: string)
    requires t != [] && t[0] !in s
    ensures !Includes(s, t)
  {
    forall i | 0 <= i <= |s| - |t| ensures !OccursAt(s, t, i) {
      assert s[i] != t[0];
    }
  }

  lemma DigitsHaveNo(d: string, c: char)
    requires AllDigits(d) && !IsDigit(c)
    ensures '/' !in d && c !in d
  {
    forall i | 0 <= i < |d| ensures d[i] != '/' && d[i] != c {
      assert IsDigit(d[i]);
    }
  }

  /** A digit segment is never a key of the page mapping. */
  lemma DigitsUnmapped(d: string)
    requires d != "" && AllDigits(d)
    ensures d !in PageMapping
  {
    assert IsDigit(d[0]);
    forall key | key in PageMapping ensures key[0] != d[0] {
      assert !IsDigit(key[0]);
    }
  }

  /** The URL `/gallery/<id>` the search dropdown opens highlights galleries.html. */
  lemma GalleryRouteHighlightsGalleries(n: nat)
    ensures TargetPage("/gallery/" + NatToString(n)) == "galleries.html"
  {
    var d := NatToString(n);
    var path := "/gallery/" + d;
    assert AllDigits(d);
    DigitsHaveNo(d, 'g');
    assert path == "/gallery" + "/" + d;
    AfterLastOfSuffix("/gallery", d);
    assert path[1..1 + |"gallery"|] == "gallery";
    assert OccursAt(path, "gallery", 1);
    assert FirstKeyword(path, DigitKeywords) == Some("galleries.html");
  }

  /** The URL `/museum/<id>` highlights museums.html: it names no gallery, artist or artwork. */
  lemma MuseumRouteHighlightsMuseums(n: nat)
    ensures TargetPage("/museum/" + NatToString(n)) == "museums.html"
  {
    var d := NatToString(n);
    var path := "/museum/" + d;
    assert AllDigits(d);
    assert path == "/museum" + "/" + d;
    DigitsHaveNo(d, 'g');
    AfterLastOfSuffix("/museum", d);
    MuseumPathKeywords(d);
    MuseumIsFourthKeyword(path);
  }

  lemma MuseumPathKeywords(d: string)
    requires AllDigits(d)
    ensures !Includes("/museum/" + d, "gallery") && !Includes("/museum/" + d, "artist")
    ensures !Includes("/museum/" + d, "artwork") && Includes("/museum/" + d, "museum")
  {
    var path := "/museum/" + d;
    DigitsHaveNo(d, 'g');
    DigitsHaveNo(d, 'a');
    assert 'g' !in path && 'a' !in path;
    NoFirstCharNoMatch(path, "gallery");
    NoFirstCharNoMatch(path, "artist");
    NoFirstCharNoMatch(path, "artwork");
    assert path[1..7] == "museum";
    assert OccursAt(path, "museum", 1);
  }

  /** The first keyword found is the fourth when only it of the first four occurs. */
  lemma MuseumIsFourthKeyword(path: string)
    requires !Includes(path, "gallery") && !Includes(path, "artist") && !Includes(path, "artwork")
    requires Includes(path, "museum")
    ensures FirstKeyword(path, DigitKeywords) == Some("museums.html")
  {
    assert DigitKeywords[0].0 == "gallery" && DigitKeywords[1].0 == "artist" && DigitKeywords[2].0 == "artwork";
    assert DigitKeywords[3] == ("museum", "museums.html");
  }
}
