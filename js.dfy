/** JavaScript semantics shared by the server and the browser scripts: values and their
    truthiness, the string built-ins the code relies on (ASCII case mapping, trim, includes,
    split, startsWith), decimal rendering of numbers, parseInt, and Array.prototype.filter. */
module Js {

  datatype Option<T> = None | Some(value: T)

  /** A JavaScript value as it reaches the modelled code: a request-body field, a header,
      a database column, a JSON element. Numbers are integral; any object or array is `Object`. */
  datatype Value = Undefined | Null | Bool(b: bool) | Num(n: int) | NaN | Str(s: string) | Object

  /** JavaScript's ToBoolean: the falsy values are undefined, null, false, 0, NaN and "". */
  predicate Truthy(v: Value) {
    match v
    case Undefined => false
    case Null => false
    case Bool(b) => b
    case Num(n) => n != 0
    case NaN => false
    case Str(s) => s != ""
    case Object => true
  }

  /** `x || fallback` for an optional string column: null, undefined and "" fall back. */
  function OrElse(x: Option<string>, fallback: string): (r: string)
    ensures x.Some? && x.value != "" ==> r == x.value
    ensures (x.None? || x.value == "") ==> r == fallback
  {
    if x.Some? && x.value != "" then x.value else fallback
  }

  // ---------------------------------------------------------------- characters

  predicate IsUpper(c: char) { 'A' <= c <= 'Z' }
  predicate IsLower(c: char) { 'a' <= c <= 'z' }
  predicate IsDigit(c: char) { '0' <= c <= '9' }

  /** The characters String.prototype.trim removes (white space and line terminators). */
  predicate IsSpace(c: char) {
    c == ' ' || c == '\t' || c == '\n' || c == '\r' || c == '\U{B}' || c == '\U{C}'
    || c == '\U{A0}' || c == '\U{FEFF}' || c == '\U{2028}' || c == '\U{2029}'
  }

  function LowerChar(c: char): (r: char)
    ensures !IsUpper(r)
    ensures !IsUpper(c) ==> r == c
  {
    if IsUpper(c) then (c as int + 32) as char else c
  }

  function UpperChar(c: char): (r: char)
    ensures !IsLower(r)
    ensures !IsLower(c) ==> r == c
  {
    if IsLower(c) then (c as int - 32) as char else c
  }

  /** String.prototype.toLowerCase, on the ASCII letters. */
  function ToLower(s: string): (r: string)
    ensures |r| == |s|
    ensures forall i :: 0 <= i < |s| ==> r[i] == LowerChar(s[i])
  {
    if s == [] then [] else [LowerChar(s[0])] + ToLower(s[1..])
  }

  /** String.prototype.toUpperCase, on the ASCII letters. */
  function ToUpper(s: string): (r: string)
    ensures |r| == |s|
    ensures forall i :: 0 <= i < |s| ==> r[i] == UpperChar(s[i])
  {
    if s == [] then [] else [UpperChar(s[0])] + ToUpper(s[1..])
  }

  // ---------------------------------------------------------------- trim

  function TrimStart(s: string): (r: string)
    ensures |r| <= |s| && r == s[|s| - |r|..]
    ensures r != [] ==> !IsSpace(r[0])
    ensures forall i :: 0 <= i < |s| - |r| ==> IsSpace(s[i])
  {
    if s != [] && IsSpace(s[0]) then
      var r := TrimStart(s[1..]);
      assert s[1..][|s| - 1 - |r|..] == s[|s| - |r|..];
      assert forall i :: 1 <= i < |s| - |r| ==> s[i] == s[1..][i - 1];
      r
    else s
  }

  function TrimEnd(s: string): (r: string)
    ensures |r| <= |s| && r == s[..|r|]
    ensures r != [] ==> !IsSpace(r[|r| - 1])
    ensures forall i :: |r| <= i < |s| ==> IsSpace(s[i])
  {
    if s != [] && IsSpace(s[|s| - 1]) then TrimEnd(s[..|s| - 1]) else s
  }

  /** String.prototype.trim. */
  function Trim(s: string): (r: string)
    ensures r != [] ==> !IsSpace(r[0]) && !IsSpace(r[|r| - 1])
    ensures r == [] <==> forall i :: 0 <= i < |s| ==> IsSpace(s[i])
  {
    TrimEnd(TrimStart(s))
  }

  /** `r` is the slice `s[a..b]`, and only white space lies outside it. */
  predicate SliceBetweenSpace(s: string, r: string, a: nat, b: nat) {
    a <= b <= |s| && r == s[a..b]
    && (forall i :: 0 <= i < a ==> IsSpace(s[i])) && (forall i :: b <= i < |s| ==> IsSpace(s[i]))
  }

  /** The trimmed text is the slice of the text between its leading and its trailing run of
      white space. */
  lemma TrimIsSlice(s: string)
    ensures exists a: nat, b: nat :: SliceBetweenSpace(s, Trim(s), a, b)
  {
    var t := TrimStart(s);
    var r := TrimEnd(t);
    PrefixOfSuffix(s, t, r);
    assert SliceBetweenSpace(s, Trim(s), |s| - |t|, |s| - |t| + |r|);
  }

  lemma PrefixOfSuffix(s: string, t: string, r: string)
    requires |t| <= |s| && t == s[|s| - |t|..] && forall i :: 0 <= i < |s| - |t| ==> IsSpace(s[i])
    requires |r| <= |t| && r == t[..|r|] && forall i :: |r| <= i < |t| ==> IsSpace(t[i])
    ensures SliceBetweenSpace(s, r, |s| - |t|, |s| - |t| + |r|)
  {
    var a := |s| - |t|;
    assert r == s[a..a + |r|];
    forall i | a + |r| <= i < |s| ensures IsSpace(s[i]) {
      assert s[i] == t[i - a];
    }
  }

  /** Trimming a trimmed string changes nothing. */
  lemma TrimIdempotent(s: string)
    ensures Trim(Trim(s)) == Trim(s)
  {
    var r := Trim(s);
    if r != [] {
      assert TrimStart(r) == r;
      assert TrimEnd(r) == r;
    }
  }

  // ---------------------------------------------------------------- search

  predicate StartsWith(s: string, prefix: string) {
    |prefix| <= |s| && s[..|prefix|] == prefix
  }

  /** String.prototype.includes. */
  predicate Includes(s: string, t: string) {
    exists i :: 0 <= i <= |s| - |t| && OccursAt(s, t, i)
  }

  predicate OccursAt(s: string, t: string, i: int) {
    0 <= i <= |s| - |t| && s[i..i + |t|] == t
  }

  /** Array.prototype.includes on strings, also `c in s` for one character. */
  predicate HasChar(s: string, c: char) { c in s }

  // ---------------------------------------------------------------- split / join

  /** String.prototype.split with a one-character separator: "" gives [""]. */
  function Split(s: string, sep: char): (r: seq<string>)
    ensures |r| >= 1
    ensures forall k :: 0 <= k < |r| ==> sep !in r[k]
    decreases |s|
  {
    if s == [] then [""]
    else if s[0] == sep then [""] + Split(s[1..], sep)
    else
      var t := Split(s[1..], sep);
      [[s[0]] + t[0]] + t[1..]
  }

  /** Array.prototype.join. */
  function Join(parts: seq<string>, sep: string): string
    decreases |parts|
  {
    if parts == [] then ""
    else if |parts| == 1 then parts[0]
    else parts[0] + sep + Join(parts[1..], sep)
  }

  lemma {:induction false} JoinSplit(s: string, sep: char)
    ensures Join(Split(s, sep), [sep]) == s
    decreases |s|
  {
    if s == [] {
    } else if s[0] == sep {
      JoinSplit(s[1..], sep);
      var t := Split(s[1..], sep);
      assert Split(s, sep) == [""] + t;
      assert s == [sep] + s[1..];
    } else {
      JoinSplit(s[1..], sep);
      var t := Split(s[1..], sep);
      assert s == [s[0]] + s[1..];
      if |t| == 1 {
      } else {
        assert ([[s[0]] + t[0]] + t[1..])[1..] == t[1..];
      }
    }
  }

  /** The text after the last `sep`, all of `s` when there is none. */
  function AfterLast(s: string, sep: char): (r: string)
    ensures sep !in r
    ensures |r| <= |s| && r == s[|s| - |r|..]
    ensures |r| < |s| ==> s[|s| - |r| - 1] == sep
  {
    if sep !in s then s
    else
      var r := AfterLast(s[1..], sep);
      assert |r| == |s| - 1 ==> s[0] == sep by {
        if |r| == |s| - 1 { assert r == s[1..]; }
      }
      r
  }

  lemma {:induction false} SplitWithout(s: string, sep: char)
    requires sep !in s
    ensures Split(s, sep) == [s]
    decreases |s|
  {
    if s != [] {
      SplitWithout(s[1..], sep);
      assert [s[0]] + s[1..] == s;
    }
  }

  lemma {:induction false} SplitWith(s: string, sep: char)
    requires sep in s
    ensures |Split(s, sep)| >= 2
    decreases |s|
  {
    if s[0] != sep {
      SplitWith(s[1..], sep);
    } else {
      assert Split(s, sep) == [""] + Split(s[1..], sep);
    }
  }

  /** Splitting a word without `sep`, then `sep`, then the rest gives the word first and then
      the parts of the rest. */
  lemma {:induction false} SplitAfter(w: string, sep: char, rest: string)
    requires sep !in w
    ensures Split(w + [sep] + rest, sep) == [w] + Split(rest, sep)
    decreases |w|
  {
    if w == [] {
      assert w + [sep] + rest == [sep] + rest;
      assert ([sep] + rest)[1..] == rest;
    } else {
      var s := w + [sep] + rest;
      assert s[0] == w[0] && s[0] != sep;
      assert s[1..] == w[1..] + [sep] + rest;
      SplitAfter(w[1..], sep, rest);
      assert [w[0]] + w[1..] == w;
    }
  }

  /** `s.split(sep).pop()` is the text after the last separator. */
  lemma {:induction false} SplitPop(s: string, sep: char)
    ensures Split(s, sep)[|Split(s, sep)| - 1] == AfterLast(s, sep)
    decreases |s|
  {
    if sep !in s {
      SplitWithout(s, sep);
    } else {
      SplitPop(s[1..], sep);
      var t := Split(s[1..], sep);
      assert AfterLast(s, sep) == AfterLast(s[1..], sep);
      var u := Split(s, sep);
      if s[0] == sep {
        assert u == [""] + t;
      } else {
        SplitWith(s[1..], sep);
        assert u == [[s[0]] + t[0]] + t[1..];
      }
      assert u[|u| - 1] == t[|t| - 1];
    }
  }

  /** `s.split(sep).pop()`. */
  function Pop(s: string, sep: char): (r: string)
    ensures r == AfterLast(s, sep)
  {
    SplitPop(s, sep);
    Split(s, sep)[|Split(s, sep)| - 1]
  }

  // ---------------------------------------------------------------- numbers

  function DigitChar(d: nat): (c: char)
    requires d < 10
    ensures IsDigit(c) && c as int - '0' as int == d
  {
    ('0' as int + d) as char
  }

  /** Number.prototype.toString for a non-negative integer. */
  function NatToString(n: nat): (r: string)
    ensures |r| >= 1
    ensures forall i :: 0 <= i < |r| ==> IsDigit(r[i])
    decreases n
  {
    if n < 10 then [DigitChar(n)] else NatToString(n / 10) + [DigitChar(n % 10)]
  }

  /** Number.prototype.toString for an integer. */
  function IntToString(n: int): string {
    if n < 0 then "-" + NatToString(-n) else NatToString(n)
  }

  /** The value of a run of decimal digits. */
  function DigitsValue(s: string): nat
    requires forall i :: 0 <= i < |s| ==> IsDigit(s[i])
  {
    if s == [] then 0
    else
      assert IsDigit(s[|s| - 1]);
      DigitsValue(s[..|s| - 1]) * 10 + (s[|s| - 1] as int - '0' as int)
  }

  lemma {:induction false} DigitsValueOfNatToString(n: nat)
    ensures DigitsValue(NatToString(n)) == n
    decreases n
  {
    if n >= 10 {
      DigitsValueOfNatToString(n / 10);
      var r := NatToString(n);
      assert r[..|r| - 1] == NatToString(n / 10);
    }
  }

  predicate IsHexDigit(c: char) { IsDigit(c) || 'a' <= c <= 'f' || 'A' <= c <= 'F' }

  function HexDigitValue(c: char): nat
    requires IsHexDigit(c)
  {
    if IsDigit(c) then c as int - '0' as int
    else if 'a' <= c <= 'f' then c as int - 'a' as int + 10
    else c as int - 'A' as int + 10
  }

  /** The length of the longest prefix of `s` made of digits of the given base (10 or 16). */
  function DigitRun(s: string, hex: bool): (n: nat)
    ensures n <= |s|
    ensures forall i :: 0 <= i < n ==> (if hex then IsHexDigit(s[i]) else IsDigit(s[i]))
    ensures n < |s| ==> !(if hex then IsHexDigit(s[n]) else IsDigit(s[n]))
  {
    if s != [] && (if hex then IsHexDigit(s[0]) else IsDigit(s[0])) then 1 + DigitRun(s[1..], hex) else 0
  }

  function RunValue(s: string, hex: bool): nat
    requires forall i :: 0 <= i < |s| ==> IsHexDigit(s[i])
  {
    if s == [] then 0
    else RunValue(s[..|s| - 1], hex) * (if hex then 16 else 10) + HexDigitValue(s[|s| - 1])
  }

  /** The digits parseInt reads after the sign: a "0x"/"0X" prefix selects base 16, then the
      longest run of digits of that base counts; no digit at all gives NaN (None). */
  function ParseUnsigned(u: string): (r: Option<nat>)
  {
    var hex := |u| >= 2 && u[0] == '0' && (u[1] == 'x' || u[1] == 'X');
    var body := if hex then u[2..] else u;
    var n := DigitRun(body, hex);
    if n == 0 then None else Some(RunValue(body[..n], hex))
  }

  /** parseInt on a string (radix omitted): leading white space, an optional sign, then the
      digits read by ParseUnsigned. */
  function ParseIntString(s: string): Option<int> {
    var t := TrimStart(s);
    if t != [] && (t[0] == '-' || t[0] == '+') then
      match ParseUnsigned(t[1..])
      case None => None
      case Some(v) =>
        var signed: int := if t[0] == '-' then -(v as int) else v;
        Some(signed)
    else
      match ParseUnsigned(t)
      case None => None
      case Some(v) => Some(v)
  }

  /** parseInt(v) with the radix omitted: its argument is converted to a string first. */
  function ParseInt(v: Value): Option<int> {
    match v
    case Num(n) => Some(n)
    case Str(s) => ParseIntString(s)
    case _ => None   // "undefined", "null", "true", "false", "NaN", "[object Object]" hold no digit
  }

  /** parseInt reads back the decimal rendering of a natural number. */
  lemma ParseIntOfDecimal(n: nat)
    ensures ParseIntString(NatToString(n)) == Some(n)
  {
    var s := NatToString(n);
    assert !IsSpace(s[0]) && s[0] != '-' && s[0] != '+' by { assert IsDigit(s[0]); }
    assert TrimStart(s) == s;
    ParseUnsignedOfDecimal(n);
  }

  lemma ParseUnsignedOfDecimal(n: nat)
    ensures ParseUnsigned(NatToString(n)) == Some(n)
  {
    var s := NatToString(n);
    NatToStringNoLeadingZero(n);
    assert !(|s| >= 2 && s[0] == '0');
    DigitRunAll(s);
    assert s[..|s|] == s;
    RunValueDecimal(s);
    DigitsValueOfNatToString(n);
  }

  /** parseInt stops at the first character that is not a digit: a decimal number followed
      by any other text reads as that number. */
  lemma ParseIntIgnoresTrailingText(n: nat, tail: string)
    requires tail == [] || (!IsDigit(tail[0]) && tail[0] != 'x' && tail[0] != 'X')
    ensures ParseIntString(NatToString(n) + tail) == Some(n)
  {
    var d := NatToString(n);
    NatToStringNoLeadingZero(n);
    DigitsValueOfNatToString(n);
    ParseDigitsThenText(d, tail);
  }

  /** The same for any run of digits that is not a "0x" prefix. */
  lemma ParseDigitsThenText(d: string, tail: string)
    requires d != [] && AllDigits(d) && (|d| >= 2 ==> d[0] != '0')
    requires tail == [] || (!IsDigit(tail[0]) && tail[0] != 'x' && tail[0] != 'X')
    ensures ParseIntString(d + tail) == Some(DigitsValue(d))
  {
    var s := d + tail;
    var c := s[0];
    assert c == d[0] && IsDigit(c);
    assert !IsSpace(c) && c != '-' && c != '+';
    assert TrimStart(s) == s;
    UnsignedDigitsThenText(d, tail);
  }

  lemma UnsignedDigitsThenText(d: string, tail: string)
    requires d != [] && AllDigits(d) && (|d| >= 2 ==> d[0] != '0')
    requires tail == [] || (!IsDigit(tail[0]) && tail[0] != 'x' && tail[0] != 'X')
    ensures ParseUnsigned(d + tail) == Some(DigitsValue(d))
  {
    var s := d + tail;
    var hex := |s| >= 2 && s[0] == '0' && (s[1] == 'x' || s[1] == 'X');
    assert !hex by {
      if |s| >= 2 && s[0] == '0' {
        assert s[0] == d[0];
        assert |d| == 1 && s[1] == tail[0];
      }
    }
    DigitRunStops(d, tail);
    assert s[..|d|] == d;
    RunValueDecimal(d);
  }

  /** Without a digit after the leading white space and an optional sign, parseInt gives NaN. */
  lemma ParseIntWithoutDigits(s: string)
    requires TrimStart(s) == [] || (!IsDigit(TrimStart(s)[0]) && TrimStart(s)[0] != '+' && TrimStart(s)[0] != '-')
    ensures ParseIntString(s).None?
  {
  }

  lemma {:induction false} DigitRunStops(d: string, tail: string)
    requires AllDigits(d) && (tail == [] || !IsDigit(tail[0]))
    ensures DigitRun(d + tail, false) == |d|
    decreases |d|
  {
    if d == [] {
      assert d + tail == tail;
    } else {
      assert (d + tail)[1..] == d[1..] + tail;
      DigitRunStops(d[1..], tail);
    }
  }

  lemma {:induction false} NatToStringNoLeadingZero(n: nat)
    ensures |NatToString(n)| >= 2 ==> NatToString(n)[0] != '0'
    decreases n
  {
    if n >= 10 {
      NatToStringNoLeadingZero(n / 10);
      if n / 10 < 10 {
        assert NatToString(n)[0] == DigitChar(n / 10);
      } else {
        assert NatToString(n)[0] == NatToString(n / 10)[0];
      }
    }
  }

  lemma {:induction false} DigitRunAll(s: string)
    requires forall i :: 0 <= i < |s| ==> IsDigit(s[i])
    ensures DigitRun(s, false) == |s|
  {
    if s != [] { DigitRunAll(s[1..]); }
  }

  lemma {:induction false} RunValueDecimal(s: string)
    requires forall i :: 0 <= i < |s| ==> IsDigit(s[i])
    ensures RunValue(s, false) == DigitsValue(s)
  {
    if s != [] { RunValueDecimal(s[..|s| - 1]); }
  }

  predicate AllDigits(s: string) { forall i :: 0 <= i < |s| ==> IsDigit(s[i]) }
  predicate AllHexDigits(s: string) { forall i :: 0 <= i < |s| ==> IsHexDigit(s[i]) }

  /** Number(s) for the integer literals: surrounding white space is ignored, the empty
      string is 0, then either "0x"/"0X" and hex digits, or an optional sign and decimal
      digits; anything else is NaN (None). Fractions and exponents are not modelled. */
  function StringToNumber(s: string): (r: Option<int>)
    ensures Trim(s) == [] ==> r == Some(0)
  {
    TrimmedNumber(Trim(s))
  }

  /** The number a trimmed text denotes. */
  function TrimmedNumber(t: string): (r: Option<int>)
    ensures t == [] ==> r == Some(0)
  {
    if t == [] then Some(0)
    else if |t| >= 3 && t[0] == '0' && (t[1] == 'x' || t[1] == 'X') && AllHexDigits(t[2..]) then
      Some(RunValue(t[2..], true))
    else
      var body := if t[0] == '+' || t[0] == '-' then t[1..] else t;
      if body != [] && AllDigits(body) then
        var v: int := DigitsValue(body);
        Some(if t[0] == '-' then -v else v)
      else None
  }

  /** The loose comparison `v == n` against a number: null and undefined equal no number,
      booleans count as 0 and 1, strings go through Number(); objects are not modelled and
      compare unequal. */
  predicate LooseEqualsInt(v: Value, n: int) {
    match v
    case Undefined => false
    case Null => false
    case Bool(b) => (if b then 1 else 0) == n
    case Num(m) => m == n
    case NaN => false
    case Str(s) => StringToNumber(s) == Some(n)
    case Object => false
  }

  /** String.prototype.replace(/x/g, y) for single characters. */
  function ReplaceChar(s: string, x: char, y: char): (r: string)
    ensures |r| == |s|
    ensures forall i :: 0 <= i < |s| ==> r[i] == if s[i] == x then y else s[i]
  {
    if s == [] then [] else [if s[0] == x then y else s[0]] + ReplaceChar(s[1..], x, y)
  }

  // ---------------------------------------------------------------- arrays

  /** Array.prototype.filter. */
  function Filter<T>(s: seq<T>, p: T -> bool): (r: seq<T>)
    ensures |r| <= |s|
    ensures forall i :: 0 <= i < |r| ==> r[i] in s && p(r[i])
    ensures forall i :: 0 <= i < |s| && p(s[i]) ==> s[i] in r
  {
    if s == [] then [] else (if p(s[0]) then [s[0]] else []) + Filter(s[1..], p)
  }

  /** `s.map(f)`. */
  function Map<A, B>(s: seq<A>, f: A -> B): (r: seq<B>)
    ensures |r| == |s|
    ensures forall i :: 0 <= i < |s| ==> r[i] == f(s[i])
  {
    seq(|s|, i requires 0 <= i < |s| => f(s[i]))
  }

  /** Mapping a prefix one element longer appends that element's image. */
  lemma MapSnoc<A, B>(s: seq<A>, f: A -> B, i: nat)
    requires i < |s|
    ensures Map(s[..i + 1], f) == Map(s[..i], f) + [f(s[i])]
  {
    var a := Map(s[..i + 1], f);
    var b := Map(s[..i], f) + [f(s[i])];
    assert |a| == |b|;
    forall j | 0 <= j < |a| ensures a[j] == b[j] {
      assert s[..i + 1][j] == s[j];
    }
  }

  function Take<T>(s: seq<T>, n: nat): (r: seq<T>)
    ensures |r| == if |s| < n then |s| else n
    ensures r == s[..|r|]
  {
    if |s| <= n then s else s[..n]
  }

  /** A prefix holds no element more often than the whole. */
  lemma TakeWithin<T>(s: seq<T>, n: nat)
    ensures multiset(Take(s, n)) <= multiset(s)
  {
    var r := Take(s, n);
    assert s == r + s[|r|..];
  }

  /** `a` is `b` with some elements left out: the kept ones in their order and count. */
  predicate IsSubsequence<T(==)>(a: seq<T>, b: seq<T>)
    decreases |b|
  {
    if a == [] then true
    else if b == [] then false
    else (a[0] == b[0] && IsSubsequence(a[1..], b[1..])) || IsSubsequence(a, b[1..])
  }

  /** Subsequences of two parts make a subsequence of the whole. */
  lemma {:induction false} SubsequenceAppend<T>(a: seq<T>, b: seq<T>, c: seq<T>, d: seq<T>)
    requires IsSubsequence(a, b) && IsSubsequence(c, d)
    ensures IsSubsequence(a + c, b + d)
    decreases |b|
  {
    if b == [] {
      assert a == [];
      assert a + c == c && b + d == d;
    } else if a != [] && a[0] == b[0] && IsSubsequence(a[1..], b[1..]) {
      SubsequenceAppend(a[1..], b[1..], c, d);
      assert (a + c)[1..] == a[1..] + c && (b + d)[1..] == b[1..] + d;
    } else if a == [] {
      SubsequenceAppend(a, b[1..], c, d);
      assert (b + d)[1..] == b[1..] + d;
      if a + c != [] {
        assert IsSubsequence(a + c, (b + d)[1..]);
      }
    } else {
      SubsequenceAppend(a, b[1..], c, d);
      assert (b + d)[1..] == b[1..] + d;
    }
  }

  /** Keeping or dropping one more element at the end keeps a subsequence. */
  lemma SubsequenceSnoc<T>(a: seq<T>, b: seq<T>, x: T, keep: bool)
    requires IsSubsequence(a, b) && multiset(a) <= multiset(b)
    ensures IsSubsequence(a + (if keep then [x] else []), b + [x])
    ensures multiset(a + (if keep then [x] else [])) <= multiset(b + [x])
  {
    var last := if keep then [x] else [];
    assert IsSubsequence(last, [x]);
    SubsequenceAppend(a, b, last, [x]);
  }

  /** Keeping or dropping one more element at the front keeps a subsequence. */
  lemma SubsequenceCons<T>(x: T, keep: bool, a: seq<T>, b: seq<T>, r: seq<T>, whole: seq<T>)
    requires IsSubsequence(a, b) && multiset(a) <= multiset(b)
    requires r == (if keep then [x] else []) + a && whole == [x] + b
    ensures IsSubsequence(r, whole)
    ensures multiset(r) <= multiset(whole)
  {
    var first := if keep then [x] else [];
    assert IsSubsequence(first, [x]);
    SubsequenceAppend(first, [x], a, b);
  }

  /** A subsequence repeats no element more often than the whole sequence. */
  lemma {:induction false} SubsequenceMultiset<T>(a: seq<T>, b: seq<T>)
    requires IsSubsequence(a, b)
    ensures multiset(a) <= multiset(b)
    decreases |b|
  {
    if a != [] {
      assert b == [b[0]] + b[1..];
      if a[0] == b[0] && IsSubsequence(a[1..], b[1..]) {
        SubsequenceMultiset(a[1..], b[1..]);
        assert a == [a[0]] + a[1..];
      } else {
        SubsequenceMultiset(a, b[1..]);
      }
    }
  }

  function Min(a: int, b: int): int { if a < b then a else b }
}
