/** The header search box of script.js: the match list `updateDropdown` assembles from a
    `/search` answer, and the keyboard selection state (`selectedIndex`) of the dropdown. */
module SearchDropdown {
  import opened Js

  datatype Kind = ArtworkKind | ArtistKind | MuseumKind | GalleryKind

  /** One row of a `/search` result list: its id column, its title (artworks) or name, and
      its image column. */
  datatype Found = Found(id: int, name: string, image: Value)

  /** An entry of `currentMatches`. */
  datatype Match = Match(kind: Kind, displayName: string, image: Value, url: string)

  /** The four lists of a `/search` answer; a missing list is empty. */
  datatype SearchResults = SearchResults(artworks: seq<Found>, artists: seq<Found>,
                                         museums: seq<Found>, galleries: seq<Found>)

  function Placeholder(k: Kind): string {
    match k
    case ArtworkKind => "img/art-placeholder.jpg"
    case ArtistKind => "img/artist-placeholder.jpg"
    case MuseumKind => "img/museum-placeholder.jpg"
    case GalleryKind => "img/gallery-placeholder.jpg"
  }

  function UrlPrefix(k: Kind): string {
    match k
    case ArtworkKind => "/artwork-details.html?id="
    case ArtistKind => "/artist-details.html?id="
    case MuseumKind => "/museum/"
    case GalleryKind => "/gallery/"
  }

  /** The position of a kind's block in the list. */
  function Rank(k: Kind): nat {
    match k
    case ArtworkKind => 0
    case ArtistKind => 1
    case MuseumKind => 2
    case GalleryKind => 3
  }

  /** One pushed entry: the image falls back to the kind's placeholder, the URL is built from
      the id. */
  function MatchOf(k: Kind, f: Found): (m: Match)
    ensures m.kind == k && m.displayName == f.name && Truthy(m.image)
    ensures StartsWith(m.url, UrlPrefix(k))
  {
    var url := UrlPrefix(k) + IntToString(f.id);
    assert url[..|UrlPrefix(k)|] == UrlPrefix(k);
    Match(k, f.name, if Truthy(f.image) then f.image else Str(Placeholder(k)), url)
  }

  function MatchesOf(k: Kind, rows: seq<Found>): (r: seq<Match>)
    ensures |r| == |rows|
    ensures forall i :: 0 <= i < |rows| ==> r[i] == MatchOf(k, rows[i])
  {
    Map(rows, f => MatchOf(k, f))
  }

  /** The list the dropdown shows: up to three artworks, three artists, two museums and two
      galleries, in that order. */
  function SearchMatches(res: SearchResults): (r: seq<Match>)
    ensures |r| <= 10
    ensures forall i :: 0 <= i < |r| ==> StartsWith(r[i].url, UrlPrefix(r[i].kind)) && Truthy(r[i].image)
  {
    MatchesOf(ArtworkKind, Take(res.artworks, 3))
    + MatchesOf(ArtistKind, Take(res.artists, 3))
    + MatchesOf(MuseumKind, Take(res.museums, 2))
    + MatchesOf(GalleryKind, Take(res.galleries, 2))
  }

  /** One `forEach` that pushes the matches of a list. */
  method PushMatches(acc: seq<Match>, k: Kind, rows: seq<Found>) returns (out: seq<Match>)
    ensures out == acc + MatchesOf(k, rows)
  {
    out := acc;
    var i := 0;
    while i < |rows|
      invariant 0 <= i <= |rows|
      invariant out == acc + MatchesOf(k, rows[..i])
    {
      MatchesOfSnoc(k, rows, i);
      out := out + [MatchOf(k, rows[i])];
      i := i + 1;
    }
    assert rows[..i] == rows;
  }

  lemma MatchesOfSnoc(k: Kind, rows: seq<Found>, i: nat)
    requires i < |rows|
    ensures MatchesOf(k, rows[..i + 1]) == MatchesOf(k, rows[..i]) + [MatchOf(k, rows[i])]
  {
    MapSnoc(rows, f => MatchOf(k, f), i);
  }

  /** The four guarded `slice(…).forEach(… push …)` blocks. */
  method AssembleMatches(res: SearchResults) returns (matches: seq<Match>)
    ensures matches == SearchMatches(res)
  {
    matches := [];
    if |res.artworks| > 0 {
      matches := PushMatches(matches, ArtworkKind, Take(res.artworks, 3));
    }
    var a := MatchesOf(ArtworkKind, Take(res.artworks, 3));
    assert matches == a;
    if |res.artists| > 0 {
      matches := PushMatches(matches, ArtistKind, Take(res.artists, 3));
    }
    var b := MatchesOf(ArtistKind, Take(res.artists, 3));
    assert matches == a + b;
    if |res.museums| > 0 {
      matches := PushMatches(matches, MuseumKind, Take(res.museums, 2));
    }
    var c := MatchesOf(MuseumKind, Take(res.museums, 2));
    assert matches == a + b + c;
    if |res.galleries| > 0 {
      matches := PushMatches(matches, GalleryKind, Take(res.galleries, 2));
    }
    var d := MatchesOf(GalleryKind, Take(res.galleries, 2));
    assert matches == a + b + c + d;
  }

  /** The block of matches each position belongs to. */
  function BlockOf(i: int, n0: nat, n1: nat, n2: nat): nat {
    if i < n0 then 0 else if i < n0 + n1 then 1 else if i < n0 + n1 + n2 then 2 else 3
  }

  predicate AllOfKind(ms: seq<Match>, k: Kind) {
    forall i :: 0 <= i < |ms| ==> ms[i].kind == k && Truthy(ms[i].image)
  }

  lemma MatchesOfKind(k: Kind, rows: seq<Found>)
    ensures AllOfKind(MatchesOf(k, rows), k)
  {
  }

  lemma ConcatBlocks(a: seq<Match>, b: seq<Match>, c: seq<Match>, d: seq<Match>)
    requires AllOfKind(a, ArtworkKind) && AllOfKind(b, ArtistKind)
    requires AllOfKind(c, MuseumKind) && AllOfKind(d, GalleryKind)
    ensures forall i :: 0 <= i < |a + b + c + d| ==>
              Rank((a + b + c + d)[i].kind) == BlockOf(i, |a|, |b|, |c|) && Truthy((a + b + c + d)[i].image)
  {
    var r := a + b + c + d;
    forall i | 0 <= i < |r| ensures Rank(r[i].kind) == BlockOf(i, |a|, |b|, |c|) && Truthy(r[i].image) {
      if i < |a| {
        assert r[i] == a[i];
      } else if i < |a| + |b| {
        assert r[i] == b[i - |a|];
      } else if i < |a| + |b| + |c| {
        assert r[i] == c[i - |a| - |b|];
      } else {
        assert r[i] == d[i - |a| - |b| - |c|];
      }
    }
  }

  /** At most ten matches, grouped by kind in the order artworks, artists, museums,
      galleries, each with an image. */
  lemma SearchMatchesShape(res: SearchResults)
    ensures var r := SearchMatches(res);
            |r| == Min(|res.artworks|, 3) + Min(|res.artists|, 3) + Min(|res.museums|, 2) + Min(|res.galleries|, 2)
            && |r| <= 10
            && (forall i, j :: 0 <= i < j < |r| ==> Rank(r[i].kind) <= Rank(r[j].kind))
            && (forall i :: 0 <= i < |r| ==> Truthy(r[i].image))
  {
    var a := MatchesOf(ArtworkKind, Take(res.artworks, 3));
    var b := MatchesOf(ArtistKind, Take(res.artists, 3));
    var c := MatchesOf(MuseumKind, Take(res.museums, 2));
    var d := MatchesOf(GalleryKind, Take(res.galleries, 2));
    MatchesOfKind(ArtworkKind, Take(res.artworks, 3));
    MatchesOfKind(ArtistKind, Take(res.artists, 3));
    MatchesOfKind(MuseumKind, Take(res.museums, 2));
    MatchesOfKind(GalleryKind, Take(res.galleries, 2));
    ConcatBlocks(a, b, c, d);
    var r := SearchMatches(res);
    assert r == a + b + c + d;
    forall i, j | 0 <= i < j < |r| ensures Rank(r[i].kind) <= Rank(r[j].kind) {
      assert BlockOf(i, |a|, |b|, |c|) <= BlockOf(j, |a|, |b|, |c|);
    }
  }

  // ------------------------------------------------------------ keyboard selection

  datatype Key = ArrowDown | ArrowUp | Enter | Escape | OtherKey

  /** What a key press does beyond the dropdown: open a match, ask a visitor to sign up, run
      the full search, or nothing. */
  datatype Action = NoAction | Open(url: string) | AskSignUp | RunSearch

  class Dropdown {
    /** `selectedIndex`, -1 for none. */
    var selectedIndex: int
    /** The number of `.search-dropdown-item` elements in the dropdown. */
    var itemCount: nat
    /** `currentMatches`. */
    var matches: seq<Match>
    var shown: bool
    /** The text of the search input. */
    var input: string

    /** The selection is -1 or an item, and the items are exactly the current matches. */
    ghost predicate Valid()
      reads this
    {
      -1 <= selectedIndex < itemCount && (itemCount == 0 || itemCount == |matches|)
    }

    constructor ()
      ensures Valid() && selectedIndex == -1 && itemCount == 0 && matches == [] && !shown && input == ""
    {
      selectedIndex := -1;
      itemCount := 0;
      matches := [];
      shown := false;
      input := "";
    }

    /** `setSelectedIndex`: an index outside the items gives -1. */
    method SetSelectedIndex(index: int)
      requires Valid()
      modifies this
      ensures Valid()
      ensures selectedIndex == if 0 <= index < itemCount then index else -1
      ensures itemCount == old(itemCount) && matches == old(matches) && shown == old(shown) && input == old(input)
    {
      if 0 <= index < itemCount {
        selectedIndex := index;
      } else {
        selectedIndex := -1;
      }
    }

    /** `hideDropdown`: the items stay in place, hidden, with nothing selected. */
    /** The `input` handler: the typed text is kept; a non-blank query is handed, trimmed, to the
        debounced `updateDropdown`; a blank one only hides the dropdown, leaving the selection
        and the items as they were. */
    method Type(text: string) returns (query: Option<string>)
      requires Valid()
      modifies this
      ensures Valid() && input == text
      ensures query.Some? <==> Trim(text) != ""
      ensures query.Some? ==> query.value == Trim(text) && shown == old(shown)
      ensures query.None? ==> !shown
      ensures selectedIndex == old(selectedIndex) && itemCount == old(itemCount) && matches == old(matches)
    {
      input := text;
      var q := Trim(text);
      if |q| >= 1 {
        query := Some(q);
      } else {
        shown := false;
        query := None;
      }
    }

    method Hide()
      requires Valid()
      modifies this
      ensures Valid()
      ensures selectedIndex == -1 && !shown
      ensures itemCount == old(itemCount) && matches == old(matches) && input == old(input)
    {
      shown := false;
      selectedIndex := -1;
    }

    /** `selectItem`: a logged-in user is sent to the match's URL, anyone else to the sign-up
        tab; either way the dropdown is hidden and the input cleared. */
    method SelectItem(m: Match, loggedIn: bool) returns (action: Action)
      requires Valid()
      modifies this
      ensures Valid()
      ensures action == if loggedIn then Open(m.url) else AskSignUp
      ensures selectedIndex == -1 && !shown && input == ""
      ensures itemCount == old(itemCount) && matches == old(matches)
    {
      if !loggedIn {
        Hide();
        input := "";
        return AskSignUp;
      }
      action := Open(m.url);
      Hide();
      input := "";
    }

    /** The keydown handler. */
    method KeyDown(key: Key, loggedIn: bool) returns (action: Action)
      requires Valid()
      modifies this
      ensures Valid()
      ensures itemCount == old(itemCount) && matches == old(matches)
      ensures key == ArrowDown ==>
                action == NoAction && shown == old(shown) && input == old(input)
                && selectedIndex == if old(selectedIndex) < itemCount - 1 then old(selectedIndex) + 1 else old(selectedIndex)
      ensures key == ArrowUp ==>
                action == NoAction && shown == old(shown) && input == old(input)
                && selectedIndex == if old(selectedIndex) > 0 then old(selectedIndex) - 1 else old(selectedIndex)
      ensures key == Enter && old(selectedIndex) >= 0 ==>
                action == (if loggedIn then Open(old(matches)[old(selectedIndex)].url) else AskSignUp)
                && selectedIndex == -1 && !shown && input == ""
      ensures key == Enter && old(selectedIndex) < 0 ==>
                action == (if Trim(old(input)) != "" then RunSearch else NoAction)
                && selectedIndex == old(selectedIndex) && shown == old(shown) && input == old(input)
      ensures key == Escape ==> action == NoAction && selectedIndex == -1 && !shown && input == old(input)
      ensures key == OtherKey ==>
                action == NoAction && selectedIndex == old(selectedIndex) && shown == old(shown) && input == old(input)
    {
      action := NoAction;
      match key
      case ArrowDown =>
        if selectedIndex < itemCount - 1 {
          SetSelectedIndex(selectedIndex + 1);
        }
      case ArrowUp =>
        if selectedIndex > 0 {
          SetSelectedIndex(selectedIndex - 1);
        }
      case Enter =>
        if selectedIndex >= 0 {
          action := SelectItem(matches[selectedIndex], loggedIn);
        } else if Trim(input) != "" {
          action := RunSearch;
        }
      case Escape =>
        Hide();
      case OtherKey =>
    }

    /** `updateDropdown`: the selection and the items are cleared first; an empty query hides
        the dropdown; a failed request leaves `currentMatches` as it was and shows no item; a
        successful one replaces the matches and shows one item per match. */
    method UpdateDropdown(query: string, response: Option<SearchResults>)
      requires Valid()
      modifies this
      ensures Valid()
      ensures selectedIndex == -1 && input == old(input)
      ensures |query| < 1 ==> !shown && itemCount == 0 && matches == old(matches)
      ensures |query| >= 1 && response.None? ==> shown && itemCount == 0 && matches == old(matches)
      ensures |query| >= 1 && response.Some? ==>
                shown && matches == SearchMatches(response.value) && itemCount == |matches|
    {
      selectedIndex := -1;
      itemCount := 0;
      if |query| < 1 {
        shown := false;
        return;
      }
      shown := true;
      if response.None? {
        return;
      }
      matches := AssembleMatches(response.value);
      itemCount := |matches|;
    }
  }

  /** After one or more ArrowDown presses, Enter opens a match: the selection stops at the
      last item and never points past `currentMatches`. */
  method EnterAfterArrows(d: Dropdown, downs: nat) returns (action: Action)
    requires d.Valid() && d.itemCount > 0 && downs >= 1
    modifies d
    ensures d.Valid() && d.itemCount == old(d.itemCount) && d.matches == old(d.matches)
    ensures action == Open(old(d.matches)[if old(d.selectedIndex) + downs < d.itemCount then old(d.selectedIndex) + downs else d.itemCount - 1].url)
  {
    var k := 0;
    while k < downs
      invariant 0 <= k <= downs
      invariant d.Valid() && d.itemCount == old(d.itemCount) && d.matches == old(d.matches)
      invariant d.selectedIndex == if old(d.selectedIndex) + k < d.itemCount then old(d.selectedIndex) + k else d.itemCount - 1
    {
      var _ := d.KeyDown(ArrowDown, true);
      k := k + 1;
    }
    action := d.KeyDown(Enter, true);
  }
}
