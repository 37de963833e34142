/** How the event handlers of server.js turn a multipart body into the event's `artworks` list:
    POST /events pairs every uploaded file with a title and an artist; PUT /events/:id walks the
    `artwork_source` tags, taking the next uploaded file for "new" and the next kept URL for
    "existing", and then decides whether to store that list or keep the stored one. */
module Events {
  import opened Js

  /** A body field as the multipart parser delivers it: absent, one text, or the array built for
      a repeated key. */
  datatype Field = Absent | One(v: string) | Many(vs: seq<string>)

  predicate FieldTruthy(f: Field) { f.Many? || (f.One? && f.v != "") }

  /** `body.x || body['x[]'] || []`: never falsy, since an array is truthy. */
  function PickField(plain: Field, bracketed: Field): (r: Field)
    ensures FieldTruthy(r)
    ensures FieldTruthy(plain) ==> r == plain
    ensures !FieldTruthy(plain) && FieldTruthy(bracketed) ==> r == bracketed
    ensures !FieldTruthy(plain) && !FieldTruthy(bracketed) ==> r == Many([])
  {
    if FieldTruthy(plain) then plain else if FieldTruthy(bracketed) then bracketed else Many([])
  }

  /** `Array.isArray(x) ? x : [x]` after PickField. */
  function ListOf(plain: Field, bracketed: Field): (r: seq<string>)
    ensures PickField(plain, bracketed).Many? ==> r == PickField(plain, bracketed).vs
    ensures PickField(plain, bracketed).One? ==> r == [PickField(plain, bracketed).v]
    // In terms of the two fields: the plain key wins when it holds something, a single text
    // becomes a one-entry list, and with nothing under either key the list is empty.
    ensures plain.Many? ==> r == plain.vs
    ensures plain.One? && plain.v != "" ==> r == [plain.v]
    ensures !FieldTruthy(plain) && bracketed.Many? ==> r == bracketed.vs
    ensures !FieldTruthy(plain) && bracketed.One? && bracketed.v != "" ==> r == [bracketed.v]
    ensures !FieldTruthy(plain) && !FieldTruthy(bracketed) ==> r == []
  {
    match PickField(plain, bracketed)
    case Many(vs) => vs
    case One(v) => [v]
    case Absent => []
  }

  datatype Artwork = Artwork(title: string, artistName: string, imageUrl: string)

  /** `names[i] || \`Artwork ${i + 1}\``. */
  function TitleAt(names: seq<string>, i: nat): (t: string)
    ensures t != ""
    ensures i < |names| && names[i] != "" ==> t == names[i]
    ensures !(i < |names| && names[i] != "") ==> t == "Artwork " + NatToString(i + 1)
  {
    if i < |names| && names[i] != "" then names[i] else "Artwork " + NatToString(i + 1)
  }

  /** `artists[i] || 'Unknown Artist'`. */
  function ArtistAt(artists: seq<string>, i: nat): (a: string)
    ensures a != ""
    ensures i < |artists| && artists[i] != "" ==> a == artists[i]
    ensures !(i < |artists| && artists[i] != "") ==> a == "Unknown Artist"
  {
    if i < |artists| && artists[i] != "" then artists[i] else "Unknown Artist"
  }

  // ------------------------------------------------------------ POST /events

  /** The artworks of a new event: one per uploaded file, in upload order. */
  method PostArtworks(files: seq<string>, names: seq<string>, artists: seq<string>) returns (out: seq<Artwork>)
    ensures |out| == |files|
    ensures forall i :: 0 <= i < |files| ==> out[i] == Artwork(TitleAt(names, i), ArtistAt(artists, i), files[i])
  {
    out := [];
    var index := 0;
    while index < |files|
      invariant 0 <= index <= |files|
      invariant |out| == index
      invariant forall i :: 0 <= i < index ==> out[i] == Artwork(TitleAt(names, i), ArtistAt(artists, i), files[i])
    {
      out := out + [Artwork(TitleAt(names, index), ArtistAt(artists, index), files[index])];
      index := index + 1;
    }
  }

  datatype PostCheck = Accepted | NameRequired | TooFewArtworks

  /** The two checks after assembly: a name first, then at least ten artworks. */
  function CheckNewEvent(name: string, artworkCount: nat): (c: PostCheck)
    ensures c == Accepted <==> name != "" && artworkCount >= 10
    ensures name == "" ==> c == NameRequired
    ensures c == TooFewArtworks ==> name != "" && artworkCount < 10
  {
    if name == "" then NameRequired
    else if artworkCount < 10 then TooFewArtworks
    else Accepted
  }

  // ------------------------------------------------------------ PUT /events/:id

  /** The artworks the tags produce, read as two queues: `files` and `urls` hold what has not
      been consumed yet, `offset` is the position of the first remaining tag. An entry whose
      queue is empty (or whose next URL is empty) or whose tag is unknown is dropped. */
  function Assemble(sources: seq<string>, offset: nat, names: seq<string>, artists: seq<string>,
                    files: seq<string>, urls: seq<string>): seq<Artwork>
    decreases |sources|
  {
    if sources == [] then []
    else if sources[0] == "new" && files != [] then
      [Artwork(TitleAt(names, offset), ArtistAt(artists, offset), files[0])]
        + Assemble(sources[1..], offset + 1, names, artists, files[1..], urls)
    else if sources[0] == "existing" && urls != [] && urls[0] != "" then
      [Artwork(TitleAt(names, offset), ArtistAt(artists, offset), urls[0])]
        + Assemble(sources[1..], offset + 1, names, artists, files, urls[1..])
    else Assemble(sources[1..], offset + 1, names, artists, files, urls)
  }

  /** The handler's loop over the tags with its two cursors `fileIndex` and `existingIndex`. */
  method AssembleArtworks(sources: seq<string>, names: seq<string>, artists: seq<string>,
                          files: seq<string>, existingUrls: seq<string>) returns (out: seq<Artwork>)
    ensures out == Assemble(sources, 0, names, artists, files, existingUrls)
  {
    out := [];
    var fileIndex := 0;
    var existingIndex := 0;
    var i := 0;
    while i < |sources|
      invariant 0 <= i <= |sources|
      invariant 0 <= fileIndex <= |files| && 0 <= existingIndex <= |existingUrls|
      invariant out + Assemble(sources[i..], i, names, artists, files[fileIndex..], existingUrls[existingIndex..])
                == Assemble(sources, 0, names, artists, files, existingUrls)
    {
      assert sources[i..][1..] == sources[i + 1..];
      if sources[i] == "new" && fileIndex < |files| {
        assert files[fileIndex..][1..] == files[fileIndex + 1..];
        out := out + [Artwork(TitleAt(names, i), ArtistAt(artists, i), files[fileIndex])];
        fileIndex := fileIndex + 1;
      } else if sources[i] == "existing" && existingIndex < |existingUrls| && existingUrls[existingIndex] != "" {
        assert existingUrls[existingIndex..][1..] == existingUrls[existingIndex + 1..];
        out := out + [Artwork(TitleAt(names, i), ArtistAt(artists, i), existingUrls[existingIndex])];
        existingIndex := existingIndex + 1;
      }
      i := i + 1;
    }
  }

  /** At most one artwork per tag. */
  lemma {:induction false} AssembleBound(sources: seq<string>, offset: nat, names: seq<string>, artists: seq<string>,
                                         files: seq<string>, urls: seq<string>)
    ensures |Assemble(sources, offset, names, artists, files, urls)| <= |sources|
    decreases |sources|
  {
    if sources == [] {
    } else if sources[0] == "new" && files != [] {
      AssembleBound(sources[1..], offset + 1, names, artists, files[1..], urls);
    } else if sources[0] == "existing" && urls != [] && urls[0] != "" {
      AssembleBound(sources[1..], offset + 1, names, artists, files, urls[1..]);
    } else {
      AssembleBound(sources[1..], offset + 1, names, artists, files, urls);
    }
  }

  /** Every artwork has a title and an artist, and its image is an uploaded file or a
      non-empty kept URL. */
  predicate FromInputs(r: seq<Artwork>, files: seq<string>, urls: seq<string>) {
    forall k :: 0 <= k < |r| ==>
      r[k].title != "" && r[k].artistName != ""
      && (r[k].imageUrl in files || (r[k].imageUrl in urls && r[k].imageUrl != ""))
  }

  /** The assembled list invents nothing: every image comes from the upload or the kept URLs. */
  lemma {:induction false} AssembleFromInputs(sources: seq<string>, offset: nat, names: seq<string>, artists: seq<string>,
                                              files: seq<string>, urls: seq<string>)
    ensures FromInputs(Assemble(sources, offset, names, artists, files, urls), files, urls)
    decreases |sources|
  {
    if sources == [] {
    } else if sources[0] == "new" && files != [] {
      AssembleFromInputs(sources[1..], offset + 1, names, artists, files[1..], urls);
      var rest := Assemble(sources[1..], offset + 1, names, artists, files[1..], urls);
      var r := [Artwork(TitleAt(names, offset), ArtistAt(artists, offset), files[0])] + rest;
      assert Assemble(sources, offset, names, artists, files, urls) == r;
      forall k | 1 <= k < |r| ensures r[k].imageUrl in files || (r[k].imageUrl in urls && r[k].imageUrl != "") {
        assert r[k] == rest[k - 1];
        assert rest[k - 1].imageUrl in files[1..] ==> rest[k - 1].imageUrl in files;
      }
      assert files[0] in files;
    } else if sources[0] == "existing" && urls != [] && urls[0] != "" {
      AssembleFromInputs(sources[1..], offset + 1, names, artists, files, urls[1..]);
      var rest := Assemble(sources[1..], offset + 1, names, artists, files, urls[1..]);
      var r := [Artwork(TitleAt(names, offset), ArtistAt(artists, offset), urls[0])] + rest;
      assert Assemble(sources, offset, names, artists, files, urls) == r;
      forall k | 1 <= k < |r| ensures r[k].imageUrl in files || (r[k].imageUrl in urls && r[k].imageUrl != "") {
        assert r[k] == rest[k - 1];
        assert rest[k - 1].imageUrl in urls[1..] ==> rest[k - 1].imageUrl in urls;
      }
      assert urls[0] in urls;
    } else {
      AssembleFromInputs(sources[1..], offset + 1, names, artists, files, urls);
    }
  }

  /** Tags that are all "new", with a file for each, give exactly what POST /events builds. */
  lemma {:induction false} AllNewIsPost(sources: seq<string>, offset: nat, names: seq<string>, artists: seq<string>,
                                        files: seq<string>, urls: seq<string>)
    requires forall k :: 0 <= k < |sources| ==> sources[k] == "new"
    requires |files| == |sources|
    ensures var out := Assemble(sources, offset, names, artists, files, urls);
            |out| == |files| &&
            forall k :: 0 <= k < |files| ==> out[k] == Artwork(TitleAt(names, offset + k), ArtistAt(artists, offset + k), files[k])
    decreases |sources|
  {
    if sources != [] {
      assert sources[0] == "new" && files != [];
      assert forall k :: 0 <= k < |sources[1..]| ==> sources[1..][k] == sources[k + 1];
      AllNewIsPost(sources[1..], offset + 1, names, artists, files[1..], urls);
      var head := Artwork(TitleAt(names, offset), ArtistAt(artists, offset), files[0]);
      var rest := Assemble(sources[1..], offset + 1, names, artists, files[1..], urls);
      var out := Assemble(sources, offset, names, artists, files, urls);
      assert out == [head] + rest;
      forall k | 1 <= k < |files|
        ensures out[k] == Artwork(TitleAt(names, offset + k), ArtistAt(artists, offset + k), files[k])
      {
        assert out[k] == rest[k - 1] && files[k] == files[1..][k - 1];
      }
    }
  }

  /** An empty kept URL at the head of the queue is never consumed, so it blocks every later
      "existing" entry. */
  lemma {:induction false} EmptyUrlBlocks(sources: seq<string>, offset: nat, names: seq<string>, artists: seq<string>,
                                          files: seq<string>, urls: seq<string>)
    requires urls != [] && urls[0] == ""
    ensures Assemble(sources, offset, names, artists, files, urls) == Assemble(sources, offset, names, artists, files, [])
    decreases |sources|
  {
    if sources != [] {
      if sources[0] == "new" && files != [] {
        EmptyUrlBlocks(sources[1..], offset + 1, names, artists, files[1..], urls);
      } else {
        EmptyUrlBlocks(sources[1..], offset + 1, names, artists, files, urls);
      }
    }
  }

  /** Tags other than "new" and "existing" produce nothing. */
  lemma {:induction false} UnknownTagsDropped(sources: seq<string>, offset: nat, names: seq<string>, artists: seq<string>,
                                              files: seq<string>, urls: seq<string>)
    requires forall k :: 0 <= k < |sources| ==> sources[k] != "new" && sources[k] != "existing"
    ensures Assemble(sources, offset, names, artists, files, urls) == []
    decreases |sources|
  {
    if sources != [] {
      UnknownTagsDropped(sources[1..], offset + 1, names, artists, files, urls);
    }
  }

  /** The `artworks` body field of the older submission format: not sent (or empty), or sent
      and read as a list (None when JSON.parse throws). */
  datatype BodyArtworks = NotSent | Sent(parsed: Option<seq<Artwork>>)

  /** What the update stores: the event's current artworks, or a new list. */
  datatype Decision = KeepStored | Store(artworks: seq<Artwork>)

  /** The length the handler reads from `artwork_source`: an array's length, or a text's. */
  function SourceLength(f: Field): nat {
    match f
    case Many(vs) => |vs|
    case One(v) => |v|
    case Absent => 0
  }

  /** The decision as written: `artwork_source` is always truthy after PickField, so the
      assembled list is used and the `artworks` fallback is never read; the stored list is kept
      only when nothing at all about artworks was sent. */
  function FinalArtworksAsWritten(sourcePlain: Field, sourceBracketed: Field, assembled: seq<Artwork>,
                                  body: BodyArtworks): (d: Decision)
    ensures d.Store? ==> d.artworks == assembled
    ensures d == KeepStored <==>
              assembled == [] && SourceLength(PickField(sourcePlain, sourceBracketed)) == 0 && body.NotSent?
  {
    var source := PickField(sourcePlain, sourceBracketed);
    if |assembled| == 0 && SourceLength(source) == 0 && body.NotSent? then KeepStored
    else Store(assembled)
  }

  /** An update that sends only `artworks` erases the event's artworks. */
  lemma ArtworksOnlyUpdateErases(a: Artwork)
    ensures FinalArtworksAsWritten(Absent, Absent, Assemble([], 0, [], [], [], []), Sent(Some([a]))) == Store([])
    ensures FinalArtworksIntended(Absent, Absent, Assemble([], 0, [], [], [], []), Sent(Some([a]))) == Store([a])
  {
  }

  /** The intended decision: without `artwork_source` the `artworks` field is used (an
      unreadable one counts as empty); otherwise as written. */
  function FinalArtworksIntended(sourcePlain: Field, sourceBracketed: Field, assembled: seq<Artwork>,
                                 body: BodyArtworks): (d: Decision)
    ensures !FieldTruthy(sourcePlain) && !FieldTruthy(sourceBracketed) && body.Sent? ==>
              d == Store(if body.parsed.Some? then body.parsed.value else [])
    ensures FieldTruthy(sourcePlain) || FieldTruthy(sourceBracketed) || body.NotSent? ==>
              d == FinalArtworksAsWritten(sourcePlain, sourceBracketed, assembled, body)
  {
    if !FieldTruthy(sourcePlain) && !FieldTruthy(sourceBracketed) && body.Sent? then
      Store(if body.parsed.Some? then body.parsed.value else [])
    else FinalArtworksAsWritten(sourcePlain, sourceBracketed, assembled, body)
  }

  /** With the intended decision an update never erases artworks it was sent: whatever list
      arrives in either format is what is stored, and an update carrying no artwork data keeps
      the stored list. */
  lemma IntendedKeepsSentArtworks(sourcePlain: Field, sourceBracketed: Field, names: seq<string>, artists: seq<string>,
                                  files: seq<string>, urls: seq<string>, body: BodyArtworks)
    ensures var sent := FieldTruthy(sourcePlain) || FieldTruthy(sourceBracketed);
            var assembled := Assemble(ListOf(sourcePlain, sourceBracketed), 0, names, artists, files, urls);
            var d := FinalArtworksIntended(sourcePlain, sourceBracketed, assembled, body);
            (!sent && body.NotSent? ==> d == KeepStored)
            && (!sent && body.Sent? && body.parsed.Some? ==> d == Store(body.parsed.value))
            && (sent ==> d.Store? ==> d.artworks == assembled)
  {
  }
}
