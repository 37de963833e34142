/** The submit handler of the admin form: it derives the record type from the active section,
    runs the client-side checks, converts checkboxes to 1/0, and sends the form either as
    multipart data (when some file was chosen) or as a JSON object built from the form entries. */
module AdminSubmit {
  import opened Js

  /** A FormData value: a text, or an uploaded file of some size. */
  datatype FormValue = Text(s: string) | Upload(size: nat)

  /** FormData as its ordered list of (name, value) entries. */
  type Entries = seq<(string, FormValue)>

  /** A text is truthy when non-empty; a File object is always truthy. */
  predicate FormTruthy(v: FormValue) { v.Upload? || v.s != "" }

  /** `section.slice(0, -1)`, except that 'gallery-featured' is kept whole. */
  function SubmitType(section: string): (t: string)
    ensures section == "gallery-featured" ==> t == section
    ensures section != "gallery-featured" && section != "" ==> t + [section[|section| - 1]] == section
    ensures section == "" ==> t == ""
  {
    if section == "gallery-featured" then section
    else if section == "" then ""
    else section[..|section| - 1]
  }

  /** The form's `data-id`: an id is present when the attribute is there and non-empty. */
  predicate HasId(id: Option<string>) { id.Some? && id.value != "" }

  datatype Request = Request(verb: string, url: string)

  /** The collection URL of a record type. */
  function CollectionUrl(t: string): string {
    if t == "gallery-featured" then "/gallery-featured-artworks" else "/" + t + "s"
  }

  /** PUT to the record's URL when editing, POST to the collection when creating. */
  function RequestFor(t: string, id: Option<string>): (r: Request)
    ensures r.verb == "PUT" <==> HasId(id)
    ensures r.verb == "POST" <==> !HasId(id)
    ensures !HasId(id) ==> r.url == CollectionUrl(t)
    ensures HasId(id) ==> |r.url| > |CollectionUrl(t)| && r.url[..|CollectionUrl(t)|] == CollectionUrl(t)
                          && r.url[|CollectionUrl(t)|..] == "/" + id.value
  {
    if HasId(id) then
      var r := Request("PUT", CollectionUrl(t) + "/" + id.value);
      assert r.url[..|CollectionUrl(t)|] == CollectionUrl(t);
      r
    else Request("POST", CollectionUrl(t))
  }

  /** For a plural section name the request goes back to that very collection: dropping the
      final 's' and adding it again in the URL is a round trip. */
  lemma SectionRoundTrip(section: string, id: Option<string>)
    requires section != "" && section[|section| - 1] == 's' && section != "gallery-featureds"
    ensures CollectionUrl(SubmitType(section)) == "/" + section
    ensures RequestFor(SubmitType(section), id).url
            == "/" + section + (if HasId(id) then "/" + id.value else "")
  {
    var t := SubmitType(section);
    assert t + "s" == section;
    assert t != "gallery-featured";
    assert "/" + t + "s" == "/" + section;
  }

  /** `formData.getAll(name)`: the values stored under a name, in entry order. */
  function ValuesOf(e: Entries, name: string): (r: seq<FormValue>)
    ensures |r| <= |e|
    ensures (r == []) <==> (forall i :: 0 <= i < |e| ==> e[i].0 != name)
  {
    if e == [] then []
    else (if e[0].0 == name then [e[0].1] else []) + ValuesOf(e[1..], name)
  }

  /** Appending an entry appends its value to the values of its own name only. */
  lemma {:induction false} ValuesOfSnoc(e: Entries, name: string, v: FormValue, key: string)
    ensures ValuesOf(e + [(name, v)], key) == ValuesOf(e, key) + (if name == key then [v] else [])
  {
    if e == [] {
      assert ValuesOf([(name, v)], key) == (if name == key then [v] else []) + ValuesOf([], key);
    } else {
      var f := e + [(name, v)];
      var h := if e[0].0 == key then [e[0].1] else [];
      assert f[0] == e[0] && f[1..] == e[1..] + [(name, v)];
      ValuesOfSnoc(e[1..], name, v, key);
      assert ValuesOf(f, key) == h + ValuesOf(f[1..], key);
      assert ValuesOf(e, key) == h + ValuesOf(e[1..], key);
    }
  }

  /** `formData.get(name)`: the first value stored under a name, or null. */
  function Get(e: Entries, name: string): (r: Option<FormValue>)
    ensures r.None? <==> ValuesOf(e, name) == []
    ensures r.Some? ==> r.value == ValuesOf(e, name)[0]
    // In terms of the entries: null exactly when no entry has the name, otherwise the value of
    // the first entry that has it.
    ensures r.None? <==> forall i :: 0 <= i < |e| ==> e[i].0 != name
    ensures r.Some? ==> exists i :: 0 <= i < |e| && e[i] == (name, r.value) && forall j :: 0 <= j < i ==> e[j].0 != name
  {
    var vs := ValuesOf(e, name);
    if vs == [] then None
    else
      FirstEntry(e, name);
      Some(vs[0])
  }

  /** The first value stored under a name comes from the first entry with that name. */
  lemma {:induction false} FirstEntry(e: Entries, name: string)
    requires ValuesOf(e, name) != []
    ensures exists i :: 0 <= i < |e| && e[i] == (name, ValuesOf(e, name)[0]) && forall j :: 0 <= j < i ==> e[j].0 != name
  {
    if e[0].0 == name {
      assert e[0] == (name, ValuesOf(e, name)[0]);
    } else {
      assert ValuesOf(e, name) == ValuesOf(e[1..], name);
      FirstEntry(e[1..], name);
      var k :| 0 <= k < |e[1..]| && e[1..][k] == (name, ValuesOf(e[1..], name)[0])
               && forall j :: 0 <= j < k ==> e[1..][j].0 != name;
      assert forall j :: 1 <= j < k + 1 ==> e[j] == e[1..][j - 1];
      assert e[k + 1] == (name, ValuesOf(e, name)[0]);
    }
  }

  /** The files that count towards an event's minimum: File objects with a positive size. */
  function ValidFileCount(vs: seq<FormValue>): (n: nat)
    ensures n <= |vs|
    ensures n == 0 <==> forall i :: 0 <= i < |vs| ==> !(vs[i].Upload? && vs[i].size > 0)
  {
    if vs == [] then 0
    else (if vs[0].Upload? && vs[0].size > 0 then 1 else 0) + ValidFileCount(vs[1..])
  }

  /** What the client-side checks decide: submit, show an alert and stop, or stop on a
      TypeError (a file under `title` has no trim). */
  datatype Check = Proceed | Alert(message: string) | Throws

  const NoGallery := "Please select a gallery"
  const NoTitle := "Please enter a title for the artwork"
  const TooFewArtworks := "A minimum of 10 artworks is required for a new event."

  /** A gallery-featured artwork needs a gallery and a title that is not blank; a new event
      needs at least ten non-empty artwork files. */
  function PreSubmitCheck(t: string, id: Option<string>, e: Entries): (r: Check)
    ensures t == "gallery-featured" ==>
              (r == Alert(NoGallery) <==> !(Get(e, "gallery_id").Some? && FormTruthy(Get(e, "gallery_id").value)))
    ensures t == "gallery-featured" && r == Proceed ==>
              Get(e, "title").Some? && Get(e, "title").value.Text? && Trim(Get(e, "title").value.s) != ""
    ensures t == "gallery-featured" && Get(e, "gallery_id").Some? && FormTruthy(Get(e, "gallery_id").value) ==>
              (r == Throws <==> Get(e, "title").Some? && Get(e, "title").value.Upload?)
    ensures t == "event" ==>
              (r == Alert(TooFewArtworks) <==> !HasId(id) && ValidFileCount(ValuesOf(e, "artwork_files")) < 10)
    ensures t != "gallery-featured" ==> r == Proceed || r == Alert(TooFewArtworks)
    ensures t != "gallery-featured" && t != "event" ==> r == Proceed
  {
    if t == "gallery-featured" then
      var gallery := Get(e, "gallery_id");
      var title := Get(e, "title");
      if gallery.None? || !FormTruthy(gallery.value) then Alert(NoGallery)
      else if title.None? || !FormTruthy(title.value) then Alert(NoTitle)
      else if title.value.Upload? then Throws
      else if Trim(title.value.s) == "" then Alert(NoTitle)
      else Proceed
    else if t == "event" && !HasId(id) && ValidFileCount(ValuesOf(e, "artwork_files")) < 10 then
      Alert(TooFewArtworks)
    else Proceed
  }

  /** The entries without any under `name`. */
  function WithoutName(e: Entries, name: string): (r: Entries)
    ensures ValuesOf(r, name) == []
    ensures forall key :: key != name ==> ValuesOf(r, key) == ValuesOf(e, key)
  {
    if e == [] then []
    else if e[0].0 == name then WithoutName(e[1..], name)
    else [e[0]] + WithoutName(e[1..], name)
  }

  /** `formData.set(name, v)`: the first entry under `name` takes the value and the later ones
      are dropped; without one, the entry is appended. */
  function SetEntry(e: Entries, name: string, v: FormValue): (r: Entries)
    ensures ValuesOf(r, name) == [v]
    ensures forall key :: key != name ==> ValuesOf(r, key) == ValuesOf(e, key)
    ensures ValuesOf(e, name) == [] ==> r == e + [(name, v)]
  {
    if e == [] then [(name, v)]
    else if e[0].0 == name then [(name, v)] + WithoutName(e[1..], name)
    else [e[0]] + SetEntry(e[1..], name, v)
  }

  datatype Checkbox = Checkbox(name: string, checked: bool)

  /** A checkbox is submitted as 1 when checked and 0 otherwise, as a string. */
  function Flag(b: Checkbox): FormValue { Text(if b.checked then "1" else "0") }

  /** The entries after setting the checkboxes in order. */
  function SetAll(e: Entries, boxes: seq<Checkbox>): Entries {
    if boxes == [] then e
    else
      var last := boxes[|boxes| - 1];
      SetEntry(SetAll(e, boxes[..|boxes| - 1]), last.name, Flag(last))
  }

  /** The `forEach` over the form's checkboxes. */
  method ConvertCheckboxes(e: Entries, boxes: seq<Checkbox>) returns (r: Entries)
    ensures r == SetAll(e, boxes)
  {
    r := e;
    var i := 0;
    while i < |boxes|
      invariant 0 <= i <= |boxes|
      invariant r == SetAll(e, boxes[..i])
    {
      assert boxes[..i + 1][..i] == boxes[..i];
      r := SetEntry(r, boxes[i].name, Flag(boxes[i]));
      i := i + 1;
    }
    assert boxes[..i] == boxes;
  }

  /** Every checkbox not overridden by a later one of the same name ends up as the single
      value under its name. */
  lemma {:induction false} CheckboxSubmitted(e: Entries, boxes: seq<Checkbox>, i: nat)
    requires i < |boxes|
    requires forall j :: i < j < |boxes| ==> boxes[j].name != boxes[i].name
    ensures ValuesOf(SetAll(e, boxes), boxes[i].name) == [Flag(boxes[i])]
  {
    var init := boxes[..|boxes| - 1];
    if i < |boxes| - 1 {
      assert init[i] == boxes[i];
      CheckboxSubmitted(e, init, i);
    }
  }

  /** Names no checkbox carries keep their values. */
  lemma {:induction false} CheckboxesLeaveOthers(e: Entries, boxes: seq<Checkbox>, key: string)
    requires forall j :: 0 <= j < |boxes| ==> boxes[j].name != key
    ensures ValuesOf(SetAll(e, boxes), key) == ValuesOf(e, key)
  {
    if boxes != [] {
      var init := boxes[..|boxes| - 1];
      assert forall j :: 0 <= j < |init| ==> init[j] == boxes[j];
      CheckboxesLeaveOthers(e, init, key);
    }
  }

  /** `Array.from(formData.values()).some(value => value instanceof File && value.size > 0)` */
  predicate HasFiles(e: Entries) {
    exists i :: 0 <= i < |e| && e[i].1.Upload? && e[i].1.size > 0
  }

  /** A property of the JSON object: a single value or an array of collected values. */
  datatype Json = Scalar(v: FormValue) | List(items: seq<FormValue>)

  predicate JsonTruthy(j: Json) { j.List? || FormTruthy(j.v) }

  /** One step of the conversion loop on the current value of the key: a truthy array grows,
      a truthy value becomes a two-element array, and a falsy or missing one is replaced. */
  function Step(cur: Option<Json>, v: FormValue): Json {
    if cur.Some? && JsonTruthy(cur.value) then
      if cur.value.List? then List(cur.value.items + [v]) else List([cur.value.v, v])
    else Scalar(v)
  }

  function Merge(data: map<string, Json>, key: string, v: FormValue): map<string, Json> {
    data[key := Step(if key in data then Some(data[key]) else None, v)]
  }

  /** The object the loop builds from the entries. */
  function FormJson(e: Entries): (r: map<string, Json>)
    ensures forall k :: k in r <==> exists i :: 0 <= i < |e| && e[i].0 == k
  {
    if e == [] then map[]
    else
      var last := e[|e| - 1];
      var init := e[..|e| - 1];
      assert forall i :: 0 <= i < |init| ==> init[i] == e[i];
      Merge(FormJson(init), last.0, last.1)
  }

  /** The `for (let [key, value] of formData.entries())` loop. */
  method EntriesToJson(e: Entries) returns (data: map<string, Json>)
    ensures data == FormJson(e)
  {
    data := map[];
    var i := 0;
    while i < |e|
      invariant 0 <= i <= |e|
      invariant data == FormJson(e[..i])
    {
      assert e[..i + 1][..i] == e[..i];
      var (key, value) := e[i];
      if key in data && JsonTruthy(data[key]) {
        if data[key].List? {
          data := data[key := List(data[key].items + [value])];
        } else {
          data := data[key := List([data[key].v, value])];
        }
      } else {
        data := data[key := Scalar(value)];
      }
      i := i + 1;
    }
    assert e[..i] == e;
  }

  /** The index of the first truthy value. */
  function FirstTruthy(vs: seq<FormValue>): (r: Option<nat>)
    ensures r.None? <==> forall i :: 0 <= i < |vs| ==> !FormTruthy(vs[i])
    ensures r.Some? ==> r.value < |vs| && FormTruthy(vs[r.value])
                        && forall i :: 0 <= i < r.value ==> !FormTruthy(vs[i])
  {
    if vs == [] then None
    else if FormTruthy(vs[0]) then Some(0)
    else match FirstTruthy(vs[1..]) case None => None case Some(j) => Some(j + 1)
  }

  /** What one key ends up holding, stated on its values directly: with no truthy value the
      last value; otherwise everything from the first truthy value on, as an array when that
      is more than one value. Falsy values before it are lost. */
  function KeyResult(vs: seq<FormValue>): (r: Json)
    requires vs != []
  {
    match FirstTruthy(vs)
    case None => Scalar(vs[|vs| - 1])
    case Some(j) => if j == |vs| - 1 then Scalar(vs[j]) else List(vs[j..])
  }

  lemma {:induction false} FirstTruthySnoc(vs: seq<FormValue>, v: FormValue)
    ensures FirstTruthy(vs + [v]) ==
              if FirstTruthy(vs).Some? then FirstTruthy(vs)
              else if FormTruthy(v) then Some(|vs|) else None
  {
    if vs != [] {
      assert (vs + [v])[0] == vs[0];
      assert (vs + [v])[1..] == vs[1..] + [v];
      FirstTruthySnoc(vs[1..], v);
    }
  }

  /** KeyResult follows the loop's step. */
  lemma KeyResultSnoc(vs: seq<FormValue>, v: FormValue)
    ensures KeyResult(vs + [v]) == Step(if vs == [] then None else Some(KeyResult(vs)), v)
  {
    FirstTruthySnoc(vs, v);
    if vs != [] {
      match FirstTruthy(vs)
      case None =>
      case Some(j) =>
        assert (vs + [v])[j..] == vs[j..] + [v];
        if j == |vs| - 1 {
          assert vs[j..] == [vs[j]];
        }
    }
  }

  /** The JSON object holds exactly the submitted names, each with KeyResult of its values. */
  lemma {:induction false} FormJsonPerKey(e: Entries, key: string)
    ensures key in FormJson(e) <==> ValuesOf(e, key) != []
    ensures key in FormJson(e) ==> FormJson(e)[key] == KeyResult(ValuesOf(e, key))
  {
    if e != [] {
      var init := e[..|e| - 1];
      var last := e[|e| - 1];
      assert init + [last] == e;
      assert FormJson(e) == Merge(FormJson(init), last.0, last.1);
      ValuesOfSnoc(init, last.0, last.1, key);
      FormJsonPerKey(init, key);
      if last.0 == key {
        var vs := ValuesOf(init, key);
        var cur := if key in FormJson(init) then Some(FormJson(init)[key]) else None;
        assert cur == (if vs == [] then None else Some(KeyResult(vs)));
        assert FormJson(e)[key] == Step(cur, last.1);
        KeyResultSnoc(vs, last.1);
        assert ValuesOf(e, key) == vs + [last.1];
      } else {
        assert ValuesOf(e, key) == ValuesOf(init, key);
        assert key in FormJson(e) ==> FormJson(e)[key] == FormJson(init)[key];
      }
    }
  }

  /** A name submitted once is sent as that value; a name submitted several times with only
      truthy values is sent as the array of all of them. */
  lemma SingleAndRepeated(e: Entries, key: string)
    ensures |ValuesOf(e, key)| == 1 ==> key in FormJson(e) && FormJson(e)[key] == Scalar(ValuesOf(e, key)[0])
    ensures |ValuesOf(e, key)| >= 2 && (forall i :: 0 <= i < |ValuesOf(e, key)| ==> FormTruthy(ValuesOf(e, key)[i])) ==>
              key in FormJson(e) && FormJson(e)[key] == List(ValuesOf(e, key))
  {
    FormJsonPerKey(e, key);
    var vs := ValuesOf(e, key);
    if |vs| >= 2 && FormTruthy(vs[0]) {
      assert vs[0..] == vs;
    }
  }

  /** An empty text before a filled one is overwritten, not collected. */
  lemma EmptyThenFilled(e: Entries, key: string, s: string)
    requires s != ""
    requires ValuesOf(e, key) == [Text(""), Text(s)]
    ensures key in FormJson(e) && FormJson(e)[key] == Scalar(Text(s))
  {
    FormJsonPerKey(e, key);
    var vs := ValuesOf(e, key);
    assert !FormTruthy(vs[0]) && FormTruthy(vs[1]);
    assert FirstTruthy(vs[1..]) == Some(0);
    assert KeyResult(vs) == Scalar(Text(s));
  }

  datatype Body = Multipart(entries: Entries) | JsonBody(data: map<string, Json>)

  /** Stopped with an alert, aborted by a TypeError, or sent. */
  datatype Outcome = Stopped(message: string) | Aborted | Sent(request: Request, body: Body)

  /** The entries after the checkboxes and, for an upload with a status select, the status. */
  function FinalEntries(e: Entries, boxes: seq<Checkbox>, statusSelect: Option<string>): Entries {
    var converted := SetAll(e, boxes);
    if HasFiles(converted) && statusSelect.Some? then SetEntry(converted, "status", Text(statusSelect.value))
    else converted
  }

  /** The whole submit handler. `statusSelect` is the value of the form's status select, None
      when the form has none. */
  method Submit(section: string, id: Option<string>, e: Entries, boxes: seq<Checkbox>, statusSelect: Option<string>)
    returns (r: Outcome)
    ensures PreSubmitCheck(SubmitType(section), id, e).Alert? ==>
              r == Stopped(PreSubmitCheck(SubmitType(section), id, e).message)
    ensures PreSubmitCheck(SubmitType(section), id, e) == Throws ==> r == Aborted
    ensures PreSubmitCheck(SubmitType(section), id, e) == Proceed ==>
              r.Sent? && r.request == RequestFor(SubmitType(section), id)
              && (r.body.Multipart? <==> HasFiles(SetAll(e, boxes)))
    ensures r.Sent? && r.body.Multipart? ==> r.body.entries == FinalEntries(e, boxes, statusSelect)
    ensures r.Sent? && r.body.JsonBody? ==>
              r.body.data == if statusSelect.Some? then FormJson(SetAll(e, boxes))["status" := Scalar(Text(statusSelect.value))]
                             else FormJson(SetAll(e, boxes))
  {
    var t := SubmitType(section);
    var check := PreSubmitCheck(t, id, e);
    if check.Alert? {
      return Stopped(check.message);
    } else if check == Throws {
      return Aborted;
    }
    var entries := ConvertCheckboxes(e, boxes);
    var hasFiles := HasFiles(entries);
    if hasFiles && statusSelect.Some? {
      entries := SetEntry(entries, "status", Text(statusSelect.value));
    }
    var request := RequestFor(t, id);
    if hasFiles {
      r := Sent(request, Multipart(entries));
    } else {
      var data := EntriesToJson(entries);
      if statusSelect.Some? {
        data := data["status" := Scalar(Text(statusSelect.value))];
      }
      r := Sent(request, JsonBody(data));
    }
  }

  /** In a JSON submission each checkbox not repeated later is sent as "1" or "0". */
  lemma CheckboxInJson(e: Entries, boxes: seq<Checkbox>, i: nat)
    requires i < |boxes|
    requires forall j :: i < j < |boxes| ==> boxes[j].name != boxes[i].name
    ensures boxes[i].name in FormJson(SetAll(e, boxes))
    ensures FormJson(SetAll(e, boxes))[boxes[i].name] == Scalar(Text(if boxes[i].checked then "1" else "0"))
  {
    CheckboxSubmitted(e, boxes, i);
    SingleAndRepeated(SetAll(e, boxes), boxes[i].name);
  }
}
