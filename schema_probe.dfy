/** The start-up schema probe of the server: for the Users, Artworks and Galleries tables, one
    after the other, it reads the existing column names, lists the wanted columns that are
    missing, in the order they are wanted, and issues one `ALTER TABLE … ADD COLUMN …` per
    missing column. A failed Artworks probe ends the chain early (StartupAlters). */
module SchemaProbe {
  import opened Js

  /** A wanted column: the name the probe looks for and the entry it pushes. */
  datatype Column = Column(name: string, entry: string)

  const UsersColumns: seq<Column> := [
    Column("oauth_token", "oauth_token TEXT"),
    Column("oauth_refresh_token", "oauth_refresh_token TEXT"),
    Column("oauth_token_expiry", "oauth_token_expiry DATETIME"),
    Column("bio", "bio TEXT"),
    Column("location", "location TEXT"),
    Column("security_question", "security_question TEXT"),
    Column("security_answer", "security_answer TEXT")]

  const ArtworksColumns: seq<Column> := [
    Column("social_media", "social_media"),
    Column("phone", "phone"),
    Column("email", "email"),
    Column("is_featured", "is_featured INTEGER DEFAULT 0")]

  const GalleriesColumns: seq<Column> := [
    Column("type", "type"),
    Column("collections", "collections"),
    Column("email", "email"),
    Column("phone", "phone"),
    Column("is_featured", "is_featured INTEGER DEFAULT 0")]

  /** The wanted columns whose name is not among the existing ones, in the order wanted. */
  function Missing(existing: seq<string>, wanted: seq<Column>): (r: seq<Column>)
    ensures |r| <= |wanted|
    ensures forall k :: 0 <= k < |r| ==> r[k] in wanted && r[k].name !in existing
    ensures forall k :: 0 <= k < |wanted| && wanted[k].name !in existing ==> wanted[k] in r
  {
    if wanted == [] then []
    else (if wanted[0].name !in existing then [wanted[0]] else []) + Missing(existing, wanted[1..])
  }

  /** The missing columns keep the wanted order, each taken once per occurrence there. */
  lemma {:induction false} MissingInOrder(existing: seq<string>, wanted: seq<Column>)
    ensures IsSubsequence(Missing(existing, wanted), wanted)
    ensures multiset(Missing(existing, wanted)) <= multiset(wanted)
    decreases |wanted|
  {
    if wanted != [] {
      var keep, rest := wanted[0].name !in existing, Missing(existing, wanted[1..]);
      assert IsSubsequence(rest, wanted[1..]) && multiset(rest) <= multiset(wanted[1..]) by {
        MissingInOrder(existing, wanted[1..]);
      }
      assert Missing(existing, wanted) == (if keep then [wanted[0]] else []) + rest;
      assert [wanted[0]] + wanted[1..] == wanted;
      SubsequenceCons(wanted[0], keep, rest, wanted[1..], Missing(existing, wanted), wanted);
    }
  }

  /** The names of some columns. */
  function Names(cs: seq<Column>): (r: seq<string>)
    ensures |r| == |cs|
    ensures forall k :: 0 <= k < |cs| ==> r[k] == cs[k].name
  {
    if cs == [] then [] else [cs[0].name] + Names(cs[1..])
  }

  /** `col.includes(' ') ? col : col + ' TEXT'`: a bare name becomes a TEXT column. */
  function ColumnDef(entry: string): (r: string)
    ensures ' ' in r
    ensures ' ' in entry ==> r == entry
    ensures ' ' !in entry ==> |r| == |entry| + 5 && r[..|entry|] == entry && r[|entry|..] == " TEXT"
  {
    if ' ' in entry then entry
    else
      assert (entry + " TEXT")[|entry|] == ' ';
      entry + " TEXT"
  }

  /** One ALTER statement per missing column; Users pushes its entries as they are, the other
      two tables pass them through ColumnDef. */
  function Alters(table: string, missing: seq<Column>, withDefault: bool): (r: seq<string>)
    ensures |r| == |missing|
    ensures forall k :: 0 <= k < |missing| ==>
              r[k] == "ALTER TABLE " + table + " ADD COLUMN "
                      + (if withDefault then ColumnDef(missing[k].entry) else missing[k].entry)
  {
    if missing == [] then []
    else ["ALTER TABLE " + table + " ADD COLUMN "
          + (if withDefault then ColumnDef(missing[0].entry) else missing[0].entry)]
         + Alters(table, missing[1..], withDefault)
  }

  /** The statements one probe issues; a failed `PRAGMA table_info` (None) issues none. Where
      the start-up goes after a failure depends on the table: see StartupAlters. */
  function Probe(table: string, existing: Option<seq<string>>, wanted: seq<Column>, withDefault: bool): (r: seq<string>)
    ensures existing.None? ==> r == []
    ensures existing.Some? ==> |r| == |Missing(existing.value, wanted)| && |r| <= |wanted|
    ensures existing.Some? ==> forall k :: 0 <= k < |r| ==>
              r[k] == "ALTER TABLE " + table + " ADD COLUMN "
                      + (if withDefault then ColumnDef(Missing(existing.value, wanted)[k].entry)
                         else Missing(existing.value, wanted)[k].entry)
  {
    match existing
    case None => []
    case Some(cols) => Alters(table, Missing(cols, wanted), withDefault)
  }

  function UsersProbe(existing: Option<seq<string>>): seq<string> { Probe("Users", existing, UsersColumns, false) }
  function ArtworksProbe(existing: Option<seq<string>>): seq<string> { Probe("Artworks", existing, ArtworksColumns, true) }
  function GalleriesProbe(existing: Option<seq<string>>): seq<string> { Probe("Galleries", existing, GalleriesColumns, true) }

  /** The ALTER statements of the start-up chain, given what each `PRAGMA table_info` returned.
      Users goes on to Artworks whether or not its probe failed; Artworks goes on to Galleries
      only when its probe succeeded, and a failed Artworks probe jumps straight to seeding the
      default data; Galleries goes on to the Museums probe, which is not part of this model. */
  function StartupAlters(users: Option<seq<string>>, artworks: Option<seq<string>>,
                         galleries: Option<seq<string>>): (r: seq<string>)
    ensures |r| <= |UsersColumns| + |ArtworksColumns| + |GalleriesColumns|
    ensures artworks.None? ==> |r| <= |UsersColumns|
    ensures users.None? && artworks.None? ==> r == []
    ensures artworks.Some? ==> |r| == |UsersProbe(users)| + |ArtworksProbe(artworks)| + |GalleriesProbe(galleries)|
    // Users comes first and is issued whatever happens after it; a failed Artworks probe
    // leaves only the Users statements; a failed Users probe still lets the others run.
    ensures |UsersProbe(users)| <= |r| && r[..|UsersProbe(users)|] == UsersProbe(users)
    ensures artworks.None? ==> r == UsersProbe(users)
    ensures users.None? && artworks.Some? ==> r == ArtworksProbe(artworks) + GalleriesProbe(galleries)
    ensures artworks.Some? ==> r[|UsersProbe(users)|..] == ArtworksProbe(artworks) + GalleriesProbe(galleries)
  {
    var issued := UsersProbe(users);
    assert issued[..|issued|] == issued;
    if artworks.None? then issued
    else
      var rest := ArtworksProbe(artworks) + GalleriesProbe(galleries);
      assert (issued + rest)[..|issued|] == issued && (issued + rest)[|issued|..] == rest;
      issued + rest
  }

  /** Once the Artworks probe fails, the Galleries table is never looked at: its columns do not
      change what the start-up issues. */
  lemma GalleriesSkippedAfterArtworksFails(users: Option<seq<string>>, g1: Option<seq<string>>,
                                           g2: Option<seq<string>>)
    ensures StartupAlters(users, None, g1) == StartupAlters(users, None, g2)
  {
  }

  /** Once the missing columns are added, probing again finds nothing missing: a second start
      issues no ALTER. */
  lemma MissingAfterAdding(existing: seq<string>, wanted: seq<Column>)
    ensures Missing(existing + Names(Missing(existing, wanted)), wanted) == []
  {
    var m := Missing(existing, wanted);
    var after := existing + Names(m);
    forall k | 0 <= k < |wanted| ensures wanted[k].name in after {
      if wanted[k].name !in existing {
        var j :| 0 <= j < |m| && m[j] == wanted[k];
        assert after[|existing| + j] == Names(m)[j];
      }
    }
    NothingMissing(after, wanted);
  }

  /** With every wanted name present, nothing is missing. */
  lemma {:induction false} NothingMissing(existing: seq<string>, wanted: seq<Column>)
    requires forall k :: 0 <= k < |wanted| ==> wanted[k].name in existing
    ensures Missing(existing, wanted) == []
  {
    if wanted != [] {
      assert wanted[0].name in existing;
      NothingMissing(existing, wanted[1..]);
    }
  }

  /** Every column is added under the name the probe looked for: the definition issued starts
      with that name followed by a space. */
  predicate NamesItself(c: Column, withDefault: bool) {
    var def := if withDefault then ColumnDef(c.entry) else c.entry;
    |c.name| < |def| && def[..|c.name|] == c.name && def[|c.name|] == ' '
  }

  lemma UsersNameThemselves()
    ensures forall k :: 0 <= k < |UsersColumns| ==> NamesItself(UsersColumns[k], false)
  {
    forall k | 0 <= k < |UsersColumns| ensures NamesItself(UsersColumns[k], false) {
      var c := UsersColumns[k];
      assert c.entry[..|c.name|] == c.name && c.entry[|c.name|] == ' ';
    }
  }

  lemma ArtworksNameThemselves()
    ensures forall k :: 0 <= k < |ArtworksColumns| ==> NamesItself(ArtworksColumns[k], true)
  {
    forall k | 0 <= k < |ArtworksColumns| ensures NamesItself(ArtworksColumns[k], true) {
      var c := ArtworksColumns[k];
      if k < 3 {
        assert c.entry == c.name;
        assert ' ' !in c.entry;
      } else {
        assert ' ' in c.entry by { assert c.entry[11] == ' '; }
      }
    }
  }

  lemma GalleriesNameThemselves()
    ensures forall k :: 0 <= k < |GalleriesColumns| ==> NamesItself(GalleriesColumns[k], true)
  {
    forall k | 0 <= k < |GalleriesColumns| ensures NamesItself(GalleriesColumns[k], true) {
      var c := GalleriesColumns[k];
      if k < 4 {
        assert c.entry == c.name;
        assert ' ' !in c.entry;
      } else {
        assert ' ' in c.entry by { assert c.entry[11] == ' '; }
      }
    }
  }

  /** Users entries all carry a type, so passing them through ColumnDef would change nothing:
      skipping it there is harmless. */
  lemma UsersEntriesTyped()
    ensures forall k :: 0 <= k < |UsersColumns| ==> ColumnDef(UsersColumns[k].entry) == UsersColumns[k].entry
  {
    UsersNameThemselves();
    forall k | 0 <= k < |UsersColumns| ensures ' ' in UsersColumns[k].entry {
      var c := UsersColumns[k];
      assert c.entry[|c.name|] == ' ';
    }
  }

  /** A fresh table (no columns at all) gets every wanted column, in order. */
  lemma {:induction false} FreshTableGetsAll(wanted: seq<Column>)
    ensures Missing([], wanted) == wanted
  {
    if wanted != [] {
      FreshTableGetsAll(wanted[1..]);
      assert [wanted[0]] + wanted[1..] == wanted;
    }
  }
}
