/** The SET clause that PUT /users/:id builds from the request body: one `field = ?` per
    allowed field the body defines, with the parameters in the same order and the user id
    last. */
module UserUpdate {
  import opened Js

  /** The columns an update may touch, in the handler's order. */
  const AllowedFields: seq<string> := ["email", "role", "is_active", "first_name", "last_name", "bio", "location"]

  /** A JSON request body; a key that is missing or holds `undefined` is not defined. */
  type Body = map<string, Value>

  predicate Defined(body: Body, f: string) { f in body && body[f] != Undefined }

  /** The fields of `fs` the body defines, in the order of `fs`. */
  function Chosen(fs: seq<string>, body: Body): (r: seq<string>)
    ensures |r| <= |fs|
    ensures forall k :: 0 <= k < |r| ==> r[k] in fs && Defined(body, r[k])
    ensures forall k :: 0 <= k < |fs| && Defined(body, fs[k]) ==> fs[k] in r
  {
    if fs == [] then []
    else Chosen(fs[..|fs| - 1], body) + (if Defined(body, fs[|fs| - 1]) then [fs[|fs| - 1]] else [])
  }

  /** The chosen fields keep the order of `fs`, each taken once per occurrence there. */
  lemma {:induction false} ChosenInOrder(fs: seq<string>, body: Body)
    ensures IsSubsequence(Chosen(fs, body), fs)
    ensures multiset(Chosen(fs, body)) <= multiset(fs)
    decreases |fs|
  {
    if fs != [] {
      var init, last := fs[..|fs| - 1], fs[|fs| - 1];
      ChosenInOrder(init, body);
      SubsequenceSnoc(Chosen(init, body), init, last, Defined(body, last));
      assert init + [last] == fs;
    }
  }

  /** `${field} = ?` for each field. */
  function Assignments(fs: seq<string>): (r: seq<string>)
    ensures |r| == |fs|
    ensures forall k :: 0 <= k < |fs| ==> r[k] == fs[k] + " = ?"
  {
    if fs == [] then [] else Assignments(fs[..|fs| - 1]) + [fs[|fs| - 1] + " = ?"]
  }

  /** The body's value of each field. */
  function Values(fs: seq<string>, body: Body): (r: seq<Value>)
    requires forall k :: 0 <= k < |fs| ==> fs[k] in body
    ensures |r| == |fs|
    ensures forall k :: 0 <= k < |fs| ==> r[k] == body[fs[k]]
  {
    if fs == [] then [] else Values(fs[..|fs| - 1], body) + [body[fs[|fs| - 1]]]
  }

  datatype Statement = NoFields | Update(sql: string, params: seq<Value>)

  /** The `forEach` over the allowed fields, pushing onto `fields` and `params`. */
  method CollectFields(fs: seq<string>, body: Body) returns (fields: seq<string>, params: seq<Value>)
    ensures fields == Assignments(Chosen(fs, body))
    ensures params == Values(Chosen(fs, body), body)
  {
    fields, params := [], [];
    var i := 0;
    while i < |fs|
      invariant 0 <= i <= |fs|
      invariant fields == Assignments(Chosen(fs[..i], body))
      invariant params == Values(Chosen(fs[..i], body), body)
    {
      var field := fs[i];
      var before := Chosen(fs[..i], body);
      assert fs[..i + 1][..i] == fs[..i];
      if field in body && body[field] != Undefined {
        assert Chosen(fs[..i + 1], body) == before + [field];
        assert (before + [field])[..|before|] == before;
        fields := fields + [field + " = ?"];
        params := params + [body[field]];
      } else {
        assert Chosen(fs[..i + 1], body) == before;
      }
      i := i + 1;
    }
    assert fs[..i] == fs;
  }

  /** The handler: the collected fields, the 400 answer for an empty list, and the statement
      with the id appended last. */
  method BuildUpdate(body: Body, id: Value) returns (st: Statement)
    ensures Chosen(AllowedFields, body) == [] <==> st == NoFields
    ensures st.Update? ==>
              st.sql == SetHead + Join(Assignments(Chosen(AllowedFields, body)), ", ") + SetTail + "?"
              && st.params == Values(Chosen(AllowedFields, body), body) + [id]
  {
    var fields, params := CollectFields(AllowedFields, body);
    if |fields| == 0 {
      return NoFields;
    }
    var sql := SetHead + Join(fields, ", ") + SetTail + "?";
    params := params + [id];
    return Update(sql, params);
  }

  /** The number of `?` placeholders in a text. */
  function Placeholders(s: string): nat {
    if s == [] then 0 else (if s[0] == '?' then 1 else 0) + Placeholders(s[1..])
  }

  lemma {:induction false} PlaceholdersAppend(a: string, b: string)
    ensures Placeholders(a + b) == Placeholders(a) + Placeholders(b)
  {
    if a == [] {
      assert a + b == b;
    } else {
      assert (a + b)[0] == a[0];
      assert (a + b)[1..] == a[1..] + b;
      PlaceholdersAppend(a[1..], b);
    }
  }

  lemma {:induction false} PlaceholdersPlain(s: string)
    requires '?' !in s
    ensures Placeholders(s) == 0
  {
    if s != [] {
      PlaceholdersPlain(s[1..]);
    }
  }

  /** Joining assignments, each with one placeholder, gives one placeholder per field. */
  lemma {:induction false} PlaceholdersOfAssignments(fs: seq<string>)
    requires forall k :: 0 <= k < |fs| ==> '?' !in fs[k]
    ensures Placeholders(Join(Assignments(fs), ", ")) == |fs|
    decreases |fs|
  {
    if fs == [] {
    } else {
      var parts := Assignments(fs);
      OneEach(fs[0]);
      if |fs| > 1 {
        assert Assignments(fs[1..]) == parts[1..];
        PlaceholdersOfAssignments(fs[1..]);
        PlaceholdersAppend(parts[0] + ", ", Join(parts[1..], ", "));
        PlaceholdersAppend(parts[0], ", ");
        PlaceholdersPlain(", ");
      }
    }
  }

  lemma OneEach(f: string)
    requires '?' !in f
    ensures Placeholders(f + " = ?") == 1
  {
    PlaceholdersAppend(f, " = ?");
    PlaceholdersPlain(f);
    assert Placeholders(" = ?") == 1 by {
      assert " = ?"[1..] == "= ?";
      assert "= ?"[1..] == " ?";
      assert " ?"[1..] == "?";
      assert "?"[1..] == "";
    }
  }

  const SetHead: string := "UPDATE Users SET "
  /** `, updated_at = CURRENT_TIMESTAMP WHERE user_id = `, kept in three pieces. */
  const SetTail: string := ", updated_at = " + "CURRENT_TIMESTAMP" + " WHERE user_id = "

  lemma HeadPlain() ensures Placeholders(SetHead) == 0 { PlaceholdersPlain(SetHead); }
  lemma TailPlain1() ensures Placeholders(", updated_at = ") == 0 { PlaceholdersPlain(", updated_at = "); }
  lemma TailPlain2() ensures Placeholders("CURRENT_TIMESTAMP") == 0 { PlaceholdersPlain("CURRENT_TIMESTAMP"); }
  lemma TailPlain3() ensures Placeholders(" WHERE user_id = ") == 0 { PlaceholdersPlain(" WHERE user_id = "); }

  lemma TailPlain() ensures Placeholders(SetTail) == 0
  {
    TailPlain1();
    TailPlain2();
    TailPlain3();
    PlaceholdersAppend(", updated_at = ", "CURRENT_TIMESTAMP");
    PlaceholdersAppend(", updated_at = " + "CURRENT_TIMESTAMP", " WHERE user_id = ");
  }

  lemma MarkCounts() ensures Placeholders("?") == 1 { assert "?"[1..] == ""; }

  lemma AllowedFieldsPlain(k: nat)
    requires k < |AllowedFields|
    ensures '?' !in AllowedFields[k]
  {
  }

  /** The statement always has exactly one parameter per placeholder. */
  lemma PlaceholdersMatchParams(body: Body, id: Value)
    requires Chosen(AllowedFields, body) != []
    ensures var fs := Chosen(AllowedFields, body);
            Placeholders(SetHead + Join(Assignments(fs), ", ") + SetTail + "?") == |Values(fs, body) + [id]|
  {
    var fs := Chosen(AllowedFields, body);
    forall k | 0 <= k < |fs| ensures '?' !in fs[k] {
      var j :| 0 <= j < |AllowedFields| && AllowedFields[j] == fs[k];
      AllowedFieldsPlain(j);
    }
    PlaceholdersOfAssignments(fs);
    HeadPlain();
    TailPlain();
    MarkCounts();
    var mid := Join(Assignments(fs), ", ");
    PlaceholdersAppend(SetHead, mid);
    PlaceholdersAppend(SetHead + mid, SetTail);
    PlaceholdersAppend(SetHead + mid + SetTail, "?");
  }
}
