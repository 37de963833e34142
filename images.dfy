/** The server's image-path normalisation `getImagePath` and `processImageFields`, which
    rewrites the image columns of every row it sends. */
module Images {
  import opened Js

  /** getImagePath: falsy values become null, non-strings and "http…" URLs are kept, and a
      local path gets forward slashes and a leading "/". */
  function GetImagePath(path: Value): (r: Value)
    ensures !Truthy(path) ==> r == Null
    ensures Truthy(path) && !path.Str? ==> r == path
    ensures path.Str? && StartsWith(path.s, "http") ==> r == path
    ensures Truthy(path) && path.Str? && !StartsWith(path.s, "http") ==>
              r.Str? && |path.s| <= |r.s| <= |path.s| + 1 && StartsWith(r.s, "/") && '\\' !in r.s
              && r.s[|r.s| - |path.s|..] == ReplaceChar(path.s, '\\', '/')
  {
    if !Truthy(path) then Null
    else if !path.Str? then path
    else if StartsWith(path.s, "http") then path
    else
      var normalized := ReplaceChar(path.s, '\\', '/');
      assert '\\' !in normalized by {
        forall i | 0 <= i < |normalized| ensures normalized[i] != '\\' { }
      }
      if StartsWith(normalized, "/") then Str(normalized)
      else
        assert ("/" + normalized)[1..] == normalized;
        Str("/" + normalized)
  }

  lemma {:induction false} ReplaceAbsent(s: string, x: char, y: char)
    requires x !in s
    ensures ReplaceChar(s, x, y) == s
  {
    if s != [] {
      ReplaceAbsent(s[1..], x, y);
    }
  }

  /** Normalising a path twice gives the same result as normalising it once. */
  lemma GetImagePathIdempotent(path: Value)
    ensures GetImagePath(GetImagePath(path)) == GetImagePath(path)
  {
    var r := GetImagePath(path);
    if Truthy(path) && path.Str? && !StartsWith(path.s, "http") {
      ReplaceAbsent(r.s, '\\', '/');
      assert r.s[0] == '/';
      assert !StartsWith(r.s, "http");
    }
  }

  /** The columns processImageFields rewrites, in its order. */
  const ImageFields: seq<string> := ["photo_url", "image_url", "profile_picture", "collector_image",
                                     "thumbnail_url", "logo_url", "artist_photo", "painting_url", "image_urls"]

  /** The outcome of JSON.parse on a stored `image_urls` text. */
  datatype Parsed = Thrown | ParsedArray(items: seq<Value>) | ParsedOther

  type Row = map<string, Value>

  /** `urls.map(url => getImagePath(url))`. */
  function MapImagePaths(urls: seq<Value>): (r: seq<Value>)
    ensures |r| == |urls|
    ensures forall i :: 0 <= i < |urls| ==> r[i] == GetImagePath(urls[i])
  {
    if urls == [] then [] else [GetImagePath(urls[0])] + MapImagePaths(urls[1..])
  }

  /** The new value of one truthy image column: `image_urls` holding a string is parsed as
      JSON, a parsed array has each element normalised and is written back with `stringify`,
      any other parsed value is kept, and a parse error normalises the text itself; every
      other column is normalised directly. */
  function RewriteField(field: string, v: Value, parse: string -> Parsed, stringify: seq<Value> -> string): (r: Value)
    ensures !(field == "image_urls" && v.Str?) ==> GetImagePath(r) == r
    ensures field == "image_urls" && v.Str? && parse(v.s).ParsedOther? ==> r == v
    ensures field == "image_urls" && v.Str? && parse(v.s).Thrown? ==> GetImagePath(r) == r
    ensures field == "image_urls" && v.Str? && parse(v.s).ParsedArray? ==> r.Str?
    // The value written back: getImagePath of the value, or the stringified normalised list.
    ensures !(field == "image_urls" && v.Str?) ==> r == GetImagePath(v)
    ensures field == "image_urls" && v.Str? && parse(v.s).Thrown? ==> r == GetImagePath(v)
    ensures field == "image_urls" && v.Str? && parse(v.s).ParsedArray? ==>
              r == Str(stringify(MapImagePaths(parse(v.s).items)))
  {
    GetImagePathIdempotent(v);
    if field == "image_urls" && v.Str? then
      match parse(v.s)
      case ParsedArray(urls) => Str(stringify(MapImagePaths(urls)))
      case ParsedOther => v
      case Thrown => GetImagePath(v)
    else GetImagePath(v)
  }

  /** Outside `image_urls`, a rewritten column is already normal; inside a parsed array, so is
      each element written back. */
  lemma RewriteIsNormal(field: string, v: Value, parse: string -> Parsed, stringify: seq<Value> -> string)
    ensures !(field == "image_urls" && v.Str? && !parse(v.s).Thrown?) ==>
              GetImagePath(RewriteField(field, v, parse, stringify)) == RewriteField(field, v, parse, stringify)
    ensures field == "image_urls" && v.Str? && parse(v.s).ParsedArray? ==>
              forall i :: 0 <= i < |parse(v.s).items| ==>
                GetImagePath(MapImagePaths(parse(v.s).items)[i]) == MapImagePaths(parse(v.s).items)[i]
  {
    GetImagePathIdempotent(v);
    if field == "image_urls" && v.Str? && parse(v.s).ParsedArray? {
      var urls := parse(v.s).items;
      forall i | 0 <= i < |urls|
        ensures GetImagePath(MapImagePaths(urls)[i]) == MapImagePaths(urls)[i]
      {
        GetImagePathIdempotent(urls[i]);
      }
    }
  }

  /** processImageFields: a missing row is returned as is; otherwise a copy in which every
      image column holding a truthy value is rewritten and every other column kept. */
  method ProcessImageFields(row: Option<Row>, parse: string -> Parsed, stringify: seq<Value> -> string)
    returns (r: Option<Row>)
    ensures row.None? ==> r.None?
    ensures row.Some? ==> r.Some? && r.value.Keys == row.value.Keys
    ensures row.Some? ==> forall k :: k in row.value ==>
              r.value[k] == if k in ImageFields && Truthy(row.value[k])
                            then RewriteField(k, row.value[k], parse, stringify)
                            else row.value[k]
  {
    if row.None? {
      return row;
    }
    FieldsDistinct();
    var newRow := RewriteFields(row.value, ImageFields, parse, stringify);
    return Some(newRow);
  }

  /** The loop over the image columns: each listed column holding a truthy value is rewritten
      once, every other column is kept. */
  method RewriteFields(row: Row, fields: seq<string>, parse: string -> Parsed, stringify: seq<Value> -> string)
    returns (newRow: Row)
    requires forall i, j :: 0 <= i < j < |fields| ==> fields[i] != fields[j]
    ensures newRow.Keys == row.Keys
    ensures forall k :: k in row ==>
              newRow[k] == if k in fields && Truthy(row[k])
                           then RewriteField(k, row[k], parse, stringify)
                           else row[k]
  {
    newRow := row;
    var i := 0;
    while i < |fields|
      invariant 0 <= i <= |fields|
      invariant RewrittenUpTo(row, newRow, fields[..i], parse, stringify)
    {
      var field := fields[i];
      assert field !in fields[..i];
      RewriteStep(row, newRow, fields[..i], field, parse, stringify);
      if field in newRow && Truthy(newRow[field]) {
        newRow := newRow[field := RewriteField(field, newRow[field], parse, stringify)];
      }
      assert fields[..i + 1] == fields[..i] + [field];
      i := i + 1;
    }
    assert fields[..i] == fields;
  }

  /** `newRow` is `row` with the truthy columns named in `done` rewritten. */
  ghost predicate RewrittenUpTo(row: Row, newRow: Row, done: seq<string>,
                                parse: string -> Parsed, stringify: seq<Value> -> string)
  {
    newRow.Keys == row.Keys
    && forall k :: k in row ==>
         newRow[k] == if k in done && Truthy(row[k]) then RewriteField(k, row[k], parse, stringify) else row[k]
  }

  /** One iteration rewrites the next column, which was not rewritten before. */
  lemma RewriteStep(row: Row, newRow: Row, done: seq<string>, field: string,
                    parse: string -> Parsed, stringify: seq<Value> -> string)
    requires RewrittenUpTo(row, newRow, done, parse, stringify) && field !in done
    ensures RewrittenUpTo(row, if field in newRow && Truthy(newRow[field])
                               then newRow[field := RewriteField(field, newRow[field], parse, stringify)]
                               else newRow, done + [field], parse, stringify)
  {
  }

  /** The image columns are distinct. */
  lemma FieldsDistinct()
    ensures forall i, j :: 0 <= i < j < |ImageFields| ==> ImageFields[i] != ImageFields[j]
  {
  }
}
