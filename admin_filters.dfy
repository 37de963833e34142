/** The list logic of the admin panel (admin.js): the `filterAdmin*` search filters over the
    loaded rows, the status-then-date order of the events list, and `isRecentCollection`. */
module AdminFilters {
  import opened Js

  /** A loaded row: column name to JSON value. */
  type Row = map<string, Value>

  /** A searched column: `(row.f || '').toLowerCase()` or, for the artifact museum id,
      `(row.f || '').toString()`. */
  datatype FieldRule = Lowered(field: string) | Verbatim(field: string)

  function FieldOf(row: Row, f: string): Value {
    if f in row then row[f] else Undefined
  }

  /** String() of a truthy value. */
  function ToText(v: Value): string {
    match v
    case Str(s) => s
    case Num(n) => IntToString(n)
    case Bool(b) => if b then "true" else "false"
    case Object => "[object Object]"
    case _ => ""
  }

  /** The text a rule searches; None when toLowerCase is called on a truthy non-string value,
      which throws a TypeError. */
  function FieldText(row: Row, rule: FieldRule): (r: Option<string>)
    ensures !Truthy(FieldOf(row, rule.field)) ==> r == Some("")
    ensures rule.Lowered? && FieldOf(row, rule.field).Str? ==> r == Some(ToLower(FieldOf(row, rule.field).s))
    // Only toLowerCase on a value that is there and is not a string throws.
    ensures r.None? <==> rule.Lowered? && Truthy(FieldOf(row, rule.field)) && !FieldOf(row, rule.field).Str?
    ensures rule.Verbatim? && Truthy(FieldOf(row, rule.field)) ==> r == Some(ToText(FieldOf(row, rule.field)))
    // A lowered text holds no uppercase letter, so the search ignores case.
    ensures rule.Lowered? && r.Some? ==> forall i :: 0 <= i < |r.value| ==> !IsUpper(r.value[i])
  {
    var v := FieldOf(row, rule.field);
    var x := if Truthy(v) then v else Str("");
    match rule
    case Lowered(_) => if x.Str? then Some(ToLower(x.s)) else None
    case Verbatim(_) => Some(ToText(x))
  }

  /** The filter callback: every listed column is read first, then the row is kept when one
      of them includes the term. */
  function RowMatches(row: Row, rules: seq<FieldRule>, term: string): (r: Option<bool>)
    ensures r.None? <==> exists k :: 0 <= k < |rules| && FieldText(row, rules[k]).None?
    ensures r == Some(true) <==>
              (forall k :: 0 <= k < |rules| ==> FieldText(row, rules[k]).Some?)
              && exists k :: 0 <= k < |rules| && Includes(FieldText(row, rules[k]).value, term)
  {
    if rules == [] then Some(false)
    else
      var here := FieldText(row, rules[0]);
      var rest := RowMatches(row, rules[1..], term);
      assert forall k :: 1 <= k < |rules| ==> rules[k] == rules[1..][k - 1];
      if here.None? || rest.None? then None
      else Some(Includes(here.value, term) || rest.value)
  }

  /** Array.prototype.filter with that callback; a throwing callback (None) aborts it. */
  function FilterRows(rows: seq<Row>, rules: seq<FieldRule>, term: string): (r: Option<seq<Row>>)
    ensures r.None? <==> exists i :: 0 <= i < |rows| && RowMatches(rows[i], rules, term).None?
    ensures r.Some? ==> IsSubsequence(r.value, rows)
    ensures r.Some? ==> forall i :: 0 <= i < |r.value| ==> RowMatches(r.value[i], rules, term) == Some(true)
    ensures r.Some? ==> forall i :: 0 <= i < |rows| && RowMatches(rows[i], rules, term) == Some(true) ==> rows[i] in r.value
  {
    if rows == [] then Some([])
    else
      var m := RowMatches(rows[0], rules, term);
      var rest := FilterRows(rows[1..], rules, term);
      assert forall i :: 1 <= i < |rows| ==> rows[i] == rows[1..][i - 1];
      if m.None? || rest.None? then None
      else if m.value then
        assert ([rows[0]] + rest.value)[1..] == rest.value;
        Some([rows[0]] + rest.value)
      else
        rest
  }

  /** `input.toLowerCase().trim()`; an empty term shows every row, otherwise the rows the
      callback keeps. */
  function Filter(rows: seq<Row>, rules: seq<FieldRule>, input: string): (r: Option<seq<Row>>)
    ensures Trim(ToLower(input)) == "" ==> r == Some(rows)
    ensures Trim(ToLower(input)) != "" ==> r == FilterRows(rows, rules, Trim(ToLower(input)))
  {
    var term := Trim(ToLower(input));
    if term == "" then Some(rows) else FilterRows(rows, rules, term)
  }

  const CollectionFields: seq<FieldRule> := [Lowered("name"), Lowered("collector_name"), Lowered("about")]
  const UserFields: seq<FieldRule> := [Lowered("email"), Lowered("role")]
  const ArtistFields: seq<FieldRule> := [Lowered("name"), Lowered("email"), Lowered("category"), Lowered("location")]
  const ArtworkFields: seq<FieldRule> := [Lowered("title"), Lowered("artist_name"), Lowered("categories")]
  const GalleryFields: seq<FieldRule> := [Lowered("name"), Lowered("location"), Lowered("type"), Lowered("email")]
  const GalleryFeaturedFields: seq<FieldRule> := [Lowered("gallery_name"), Lowered("title"), Lowered("description")]
  const MuseumFields: seq<FieldRule> := [Lowered("name"), Lowered("location"), Lowered("email")]
  const EventFields: seq<FieldRule> := [Lowered("name"), Lowered("location"), Lowered("status")]
  const VideoFields: seq<FieldRule> := [Lowered("title"), Lowered("details")]
  const ArtifactFields: seq<FieldRule> := [Lowered("name"), Lowered("artist"), Lowered("type"), Verbatim("museum_id")]

  lemma LowerUpperChar(c: char)
    ensures LowerChar(UpperChar(c)) == LowerChar(c)
  {
  }

  /** The case of the typed term does not matter: typing it in capitals filters the same. */
  lemma CaseOfInputIgnored(rows: seq<Row>, rules: seq<FieldRule>, input: string)
    ensures Filter(rows, rules, ToUpper(input)) == Filter(rows, rules, input)
  {
    forall i | 0 <= i < |input| ensures ToLower(ToUpper(input))[i] == ToLower(input)[i] {
      LowerUpperChar(input[i]);
    }
    assert ToLower(ToUpper(input)) == ToLower(input);
  }

  /** Lowercasing finds a word inside a text however the word was capitalised there. */
  lemma LoweredContainsWord(prefix: string, word: string, suffix: string)
    ensures OccursAt(ToLower(prefix + ToUpper(word) + suffix), ToLower(word), |prefix|)
  {
    var full := prefix + ToUpper(word) + suffix;
    var text := ToLower(full);
    forall k | 0 <= k < |word| ensures text[|prefix| + k] == ToLower(word)[k] {
      assert full[|prefix| + k] == ToUpper(word)[k];
      LowerUpperChar(word[k]);
    }
    assert text[|prefix|..|prefix| + |word|] == ToLower(word);
  }

  /** Lowercased columns make the search case-insensitive: a collection whose name holds the
      term in capitals is still listed. */
  lemma CapitalisedNameFound(rows: seq<Row>, i: nat, prefix: string, word: string, suffix: string)
    requires i < |rows| && "name" in rows[i] && rows[i]["name"] == Str(prefix + ToUpper(word) + suffix)
    requires forall j :: 0 <= j < |rows| ==> RowMatches(rows[j], CollectionFields, ToLower(word)).Some?
    requires Trim(ToLower(word)) == ToLower(word) && ToLower(word) != ""
    ensures Filter(rows, CollectionFields, word).Some? && rows[i] in Filter(rows, CollectionFields, word).value
  {
    var term := ToLower(word);
    LoweredContainsWord(prefix, word, suffix);
    var text := ToLower(prefix + ToUpper(word) + suffix);
    assert FieldText(rows[i], CollectionFields[0]) == Some(text);
    assert Includes(text, term);
    assert RowMatches(rows[i], CollectionFields, term) == Some(true);
  }

  // ------------------------------------------------------------ loadEvents order

  /** The columns the events order reads; the date is the parsed `date`, in milliseconds. */
  datatype EventRow = EventRow(id: int, status: Value, date: int)

  /** `{ upcoming: 1, current: 2, past: 3 }[status] || 4`. */
  function StatusRank(status: Value): (r: int)
    ensures 1 <= r <= 4
    ensures r < 4 <==> status == Str("upcoming") || status == Str("current") || status == Str("past")
  {
    if status == Str("upcoming") then 1
    else if status == Str("current") then 2
    else if status == Str("past") then 3
    else 4
  }

  /** The comparator: status rank ascending, then date descending. */
  function Compare(a: EventRow, b: EventRow): (r: int)
    ensures r < 0 <==> (StatusRank(a.status) < StatusRank(b.status)
                        || (StatusRank(a.status) == StatusRank(b.status) && a.date > b.date))
    ensures r == 0 <==> StatusRank(a.status) == StatusRank(b.status) && a.date == b.date
  {
    var ra := StatusRank(a.status);
    var rb := StatusRank(b.status);
    if ra != rb then ra - rb else b.date - a.date
  }

  /** The comparator is consistent: swapping the arguments negates it, and "not after" is
      transitive, so it orders rows totally up to ties. */
  lemma CompareConsistent(a: EventRow, b: EventRow, c: EventRow)
    ensures Compare(a, b) == -Compare(b, a)
    ensures Compare(a, b) <= 0 && Compare(b, c) <= 0 ==> Compare(a, c) <= 0
  {
  }

  ghost predicate EventsOrdered(s: seq<EventRow>) {
    forall i, j :: 0 <= i < j < |s| ==> Compare(s[i], s[j]) <= 0
  }

  /** In an ordered list statuses run upcoming, current, past, then the rest, and within one
      status the later date comes first. */
  lemma OrderedMeansRankThenDate(s: seq<EventRow>, i: nat, j: nat)
    requires EventsOrdered(s) && i < j < |s|
    ensures StatusRank(s[i].status) <= StatusRank(s[j].status)
    ensures StatusRank(s[i].status) == StatusRank(s[j].status) ==> s[i].date >= s[j].date
  {
    assert Compare(s[i], s[j]) <= 0;
  }

  function InsertEvent(x: EventRow, s: seq<EventRow>): (r: seq<EventRow>)
    ensures multiset(r) == multiset(s) + multiset{x}
  {
    if s == [] then [x]
    else if Compare(s[0], x) <= 0 then
      assert s == [s[0]] + s[1..];
      [s[0]] + InsertEvent(x, s[1..])
    else [x] + s
  }

  lemma {:induction false} InsertEventOrdered(x: EventRow, s: seq<EventRow>)
    requires EventsOrdered(s)
    ensures EventsOrdered(InsertEvent(x, s))
  {
    if s != [] {
      var u := s[1..];
      OrderedTail(s);
      if Compare(s[0], x) <= 0 {
        InsertEventOrdered(x, u);
        var t := InsertEvent(x, u);
        BelowAll(s[0], x, u, t);
        OrderedCons(s[0], t);
        assert InsertEvent(x, s) == [s[0]] + t;
      } else {
        forall k | 0 <= k < |s| ensures Compare(x, s[k]) <= 0 {
          CompareConsistent(x, s[0], s[k]);
          if k > 0 {
            assert s[k] == u[k - 1];
          }
        }
        OrderedCons(x, s);
      }
    }
  }

  /** The tail of an ordered list is ordered and follows its head. */
  lemma OrderedTail(s: seq<EventRow>)
    requires s != [] && EventsOrdered(s)
    ensures EventsOrdered(s[1..])
    ensures forall k :: 0 <= k < |s[1..]| ==> Compare(s[0], s[1..][k]) <= 0
  {
    var u := s[1..];
    forall i, j | 0 <= i < j < |u| ensures Compare(u[i], u[j]) <= 0 {
      assert u[i] == s[i + 1] && u[j] == s[j + 1];
    }
    forall k | 0 <= k < |u| ensures Compare(s[0], u[k]) <= 0 {
      assert u[k] == s[k + 1];
    }
  }

  /** A row not after every row of an ordered list may head it. */
  lemma OrderedCons(a: EventRow, t: seq<EventRow>)
    requires EventsOrdered(t)
    requires forall k :: 0 <= k < |t| ==> Compare(a, t[k]) <= 0
    ensures EventsOrdered([a] + t)
  {
    var r := [a] + t;
    forall i, j | 0 <= i < j < |r| ensures Compare(r[i], r[j]) <= 0 {
      assert r[j] == t[j - 1];
      if i > 0 {
        assert r[i] == t[i - 1];
      }
    }
  }

  /** A row not after x nor after any row of u is not after any row of u with x added. */
  lemma BelowAll(a: EventRow, x: EventRow, u: seq<EventRow>, t: seq<EventRow>)
    requires multiset(t) == multiset(u) + multiset{x}
    requires Compare(a, x) <= 0
    requires forall k :: 0 <= k < |u| ==> Compare(a, u[k]) <= 0
    ensures forall k :: 0 <= k < |t| ==> Compare(a, t[k]) <= 0
  {
    forall k | 0 <= k < |t| ensures Compare(a, t[k]) <= 0 {
      assert t[k] in multiset(t);
      if t[k] != x {
        assert t[k] in multiset(u);
        var m :| 0 <= m < |u| && u[m] == t[k];
      }
    }
  }

  /** One order `events.sort` may leave (the engine's algorithm decides the order of ties):
      the same rows, ordered by the comparator. */
  function SortEvents(s: seq<EventRow>): (r: seq<EventRow>)
    ensures multiset(r) == multiset(s)
    ensures EventsOrdered(r)
  {
    if s == [] then []
    else
      assert s == [s[0]] + s[1..];
      InsertEventOrdered(s[0], SortEvents(s[1..]));
      InsertEvent(s[0], SortEvents(s[1..]))
  }

  // ------------------------------------------------------------ isRecentCollection

  const DayMs: nat := 1000 * 60 * 60 * 24

  /** `Math.ceil(n / d)` for a non-negative integer n. */
  function CeilDiv(n: nat, d: nat): (q: nat)
    requires d > 0
    ensures (q - 1) * d < n <= q * d || (n == 0 && q == 0)
  {
    (n + d - 1) / d
  }

  /** A missing or empty date is not recent; otherwise the whole days between the date and
      now, rounded up, must be at most 30. */
  function IsRecentCollection(date: Option<int>, now: int): (r: bool)
    ensures r ==> date.Some?
    ensures date == Some(now) ==> r
  {
    if date.None? then false
    else
      var diff := if now >= date.value then now - date.value else date.value - now;
      CeilDiv(diff, DayMs) <= 30
  }

  /** Recent exactly when the date is within 30 days of now, in either direction. */
  lemma RecentWithinThirtyDays(date: int, now: int)
    ensures IsRecentCollection(Some(date), now) <==> -30 * DayMs <= now - date <= 30 * DayMs
  {
    var diff := if now >= date then now - date else date - now;
    var q := CeilDiv(diff, DayMs);
    if q <= 30 {
      assert diff <= q * DayMs <= 30 * DayMs;
    } else {
      assert (q - 1) * DayMs < diff;
      assert 30 * DayMs <= (q - 1) * DayMs;
    }
  }
}
