/** The server's small defaulting rules: the corrupted gallery type repaired on listing, the
    default collection name, and the 0/1 normalisation of the `is_featured` flag written by
    every create and update handler. */
module RowDefaults {
  import opened Js

  /** The listing of galleries replaces a falsy type or the text "[object Object]" (left by an
      object stored into the column) with "Art Gallery"; every other value is kept. */
  function GalleryType(t: Value): (r: Value)
    ensures Truthy(r) && r != Str("[object Object]")
    ensures Truthy(t) && t != Str("[object Object]") ==> r == t
    ensures !Truthy(t) || t == Str("[object Object]") ==> r == Str("Art Gallery")
  {
    if t == Str("[object Object]") || !Truthy(t) then Str("Art Gallery") else t
  }

  /** Repairing twice is repairing once. */
  lemma GalleryTypeIdempotent(t: Value)
    ensures GalleryType(GalleryType(t)) == GalleryType(t)
  {
  }

  /** `name || (collector_name ? collector_name + "'s Collection" : 'New Collection')`, with an
      absent field read as "". */
  function CollectionName(name: string, collectorName: string): (r: string)
    ensures r != ""
    ensures name != "" ==> r == name
    ensures name == "" && collectorName != "" ==>
              |r| > |collectorName| && r[..|collectorName|] == collectorName && r[|collectorName|..] == "'s Collection"
    ensures name == "" && collectorName == "" ==> r == "New Collection"
  {
    if name != "" then name
    else if collectorName != "" then collectorName + "'s Collection"
    else "New Collection"
  }

  /** `is_featured == 1 ? 1 : 0`: the stored flag is 1 exactly when the submitted value is
      loosely equal to 1. */
  function FeaturedFlag(v: Value): (r: int)
    ensures r == 0 || r == 1
    ensures r == 1 <==> LooseEqualsInt(v, 1)
  {
    if LooseEqualsInt(v, 1) then 1 else 0
  }

  /** Number() of a text whose trimmed form is a plain run of decimal digits. */
  lemma NumberOfDigits(s: string, t: string)
    requires Trim(s) == t && t != [] && AllDigits(t)
    ensures StringToNumber(s) == Some(DigitsValue(t))
  {
    assert t[0] != '+' && t[0] != '-' by { assert IsDigit(t[0]); }
    if |t| >= 2 {
      assert IsDigit(t[1]);
    }
  }

  /** Of the values that are not text, only the number 1 and true are featured. */
  lemma FeaturedNonText(v: Value)
    requires !v.Str?
    ensures FeaturedFlag(v) == 1 <==> v == Num(1) || v == Bool(true)
  {
  }

  /** White space around a number does not matter: " 1 " is featured like "1". */
  lemma FeaturedPadded(n: nat)
    ensures FeaturedFlag(Str([' '] + NatToString(n) + [' '])) == if n == 1 then 1 else 0
  {
    var t := NatToString(n);
    TrimDigits(t);
    TrimAround(t);
    NumberDependsOnTrim([' '] + t + [' '], t);
    FeaturedFlagOfDecimal(n);
  }

  /** Number() looks only at the trimmed text. */
  lemma NumberDependsOnTrim(a: string, b: string)
    requires Trim(a) == Trim(b)
    ensures StringToNumber(a) == StringToNumber(b)
  {
  }

  /** One space on either side of a text that neither starts nor ends with white space is
      trimmed away. */
  lemma TrimAround(t: string)
    requires t != [] && !IsSpace(t[0]) && !IsSpace(t[|t| - 1])
    ensures Trim([' '] + t + [' ']) == t
  {
    var s := [' '] + t + [' '];
    assert IsSpace(s[0]) && s[1..] == t + [' '];
    assert TrimStart(s) == t + [' '];
    var u := t + [' '];
    assert IsSpace(u[|u| - 1]) && u[..|u| - 1] == t;
  }

  /** A text that is empty or all white space reads as 0 and is not featured. */
  lemma BlankNotFeatured(s: string)
    requires forall i :: 0 <= i < |s| ==> IsSpace(s[i])
    ensures FeaturedFlag(Str(s)) == 0
  {
    assert Trim(s) == [];
  }

  /** A text whose trimmed form starts with neither a digit nor a sign is not a number, so it
      is not featured: "true", "yes" and "on" all store 0. */
  lemma WordNotFeatured(s: string)
    requires Trim(s) != [] && !IsDigit(Trim(s)[0]) && Trim(s)[0] != '+' && Trim(s)[0] != '-'
    ensures FeaturedFlag(Str(s)) == 0
  {
    var t := Trim(s);
    assert !AllDigits(t);
    assert TrimmedNumber(t).None?;
  }

  /** A decimal number written out as text is featured exactly when it is 1. */
  lemma FeaturedFlagOfDecimal(n: nat)
    ensures FeaturedFlag(Str(NatToString(n))) == if n == 1 then 1 else 0
  {
    var s := NatToString(n);
    TrimDigits(s);
    NatToStringNoLeadingZero(n);
    if |s| >= 2 {
      assert IsDigit(s[1]);
    }
    NumberOfDigits(s, s);
    DigitsValueOfNatToString(n);
  }

  lemma TrimDigits(s: string)
    requires s != [] && AllDigits(s)
    ensures Trim(s) == s
  {
    assert !IsSpace(s[0]);
    assert TrimStart(s) == s;
    assert !IsSpace(s[|s| - 1]);
    assert TrimEnd(s) == s;
  }
}
