/**
 * The slice of PHP's value semantics that `FetchEvents::fetch` relies on:
 * truthiness (used by `array_filter`), string interpolation, `intval`,
 * the `??` operator, `trim`/`rtrim`, and `implode`/`explode`.
 */
module Php {
  import opened Wrappers

  /** A PHP value as it can occur in the block configuration or in a result record.
      `Markup` stands for a Drupal `Markup` object: an object, hence always truthy. */
  datatype Value = Null | Bool(b: bool) | Int(i: int) | Str(s: string) | Markup(html: string)

  /** An ordered PHP array with keys of type `K`. */
  type Array<K> = seq<(K, Value)>

  /** PHP's boolean conversion, which `array_filter` without a callback applies. */
  predicate Truthy(v: Value) {
    match v
    case Null => false
    case Bool(b) => b
    case Int(i) => i != 0
    case Str(s) => s != "" && s != "0"
    case Markup(_) => true
  }

  // ---------------------------------------------------------------------------
  // Decimal digits

  predicate IsDigit(c: char) { '0' <= c <= '9' }

  function DigitChar(d: nat): (c: char)
    requires d < 10
    ensures IsDigit(c)
  {
    ('0' as int + d) as char
  }

  function DigitValue(c: char): (d: nat)
    requires IsDigit(c)
    ensures d < 10
  {
    assert '0' as int <= c as int;
    c as int - '0' as int
  }

  /** The shortest decimal spelling of `n`. */
  function Digits(n: nat): (r: string)
    ensures |r| > 0
    ensures forall k :: 0 <= k < |r| ==> IsDigit(r[k])
    ensures |r| == 1 || r[0] != '0'
    decreases n
  {
    if n < 10 then [DigitChar(n)] else Digits(n / 10) + [DigitChar(n % 10)]
  }

  /** The value of a run of decimal digits, most significant first. */
  function DigitsValue(d: string): nat
    requires forall k :: 0 <= k < |d| ==> IsDigit(d[k])
    decreases |d|
  {
    if d == [] then 0 else DigitsValue(d[..|d| - 1]) * 10 + DigitValue(d[|d| - 1])
  }

  /** How PHP converts an int to a string: an optional `-` and the digits. */
  function Decimal(i: int): string {
    if i < 0 then "-" + Digits(-i) else Digits(i)
  }

  // ---------------------------------------------------------------------------
  // String conversion, `intval`, `??`

  /** String interpolation `"$v"`: null and false give "", true gives "1". */
  function ToStr(v: Value): string {
    match v
    case Null => ""
    case Bool(b) => if b then "1" else ""
    case Int(i) => Decimal(i)
    case Str(s) => s
    case Markup(h) => h
  }

  /** The whitespace that PHP's numeric-string parser skips. */
  const NumericSpace: set<char> := {' ', '\t', '\n', '\r', '\U{0B}', '\U{0C}'}

  /** The longest prefix of `s` made of decimal digits. */
  function LeadingDigits(s: string): (r: string)
    ensures |r| <= |s| && r == s[..|r|]
    ensures forall k :: 0 <= k < |r| ==> IsDigit(r[k])
    ensures |r| == |s| || !IsDigit(s[|r|])
  {
    if s != [] && IsDigit(s[0]) then [s[0]] + LeadingDigits(s[1..]) else ""
  }

  /** `intval` of a string: skip leading whitespace, read an optional sign and the
      leading digits; a string with no leading digits is 0. */
  function StrToInt(s: string): int {
    var t := LTrim(s, NumericSpace);
    if t != [] && (t[0] == '-' || t[0] == '+') then
      var m: int := DigitsValue(LeadingDigits(t[1..]));
      if t[0] == '-' then -m else m
    else
      DigitsValue(LeadingDigits(t))
  }

  /** `intval($v)`; an object (here `Markup`) converts to 1. */
  function IntVal(v: Value): int {
    match v
    case Null => 0
    case Bool(b) => if b then 1 else 0
    case Int(i) => i
    case Str(s) => StrToInt(s)
    case Markup(_) => 1
  }

  /** `$array[$key]` read without a guard: a missing key reads as null. */
  function Index(m: map<string, Value>, key: string): Value {
    if key in m then m[key] else Null
  }

  /** `$v ?? $default`. */
  function NullCoalesce(v: Value, default: Value): Value {
    if v.Null? then default else v
  }

  /** `$array[$key] ?? $default`: the default replaces a missing key or a null value. */
  function Coalesce(m: map<string, Value>, key: string, default: Value): Value {
    NullCoalesce(Index(m, key), default)
  }

  // ---------------------------------------------------------------------------
  // trim, rtrim

  /** `rtrim($s, $chars)`: drop every trailing character that is in `chars`. */
  function RTrim(s: string, chars: set<char>): string
    decreases |s|
  {
    if s != [] && s[|s| - 1] in chars then RTrim(s[..|s| - 1], chars) else s
  }

  /** `ltrim($s, $chars)`: drop every leading character that is in `chars`. */
  function LTrim(s: string, chars: set<char>): string
    decreases |s|
  {
    if s != [] && s[0] in chars then LTrim(s[1..], chars) else s
  }

  /** The characters `trim` removes by default: space, tab, LF, CR, NUL and vertical tab. */
  const TrimChars: set<char> := {' ', '\t', '\n', '\r', '\0', '\U{0B}'}

  /** `trim($s)`. */
  function Trim(s: string): string {
    LTrim(RTrim(s, TrimChars), TrimChars)
  }

  // ---------------------------------------------------------------------------
  // implode, explode

  /** `implode($sep, $parts)`. */
  function Implode(sep: string, parts: seq<string>): string
    decreases |parts|
  {
    if |parts| == 0 then ""
    else if |parts| == 1 then parts[0]
    else parts[0] + sep + Implode(sep, parts[1..])
  }

  /** `explode($sep, $s)` for a one-character separator. */
  function Explode(sep: char, s: string): (r: seq<string>)
    ensures |r| >= 1
    decreases |s|
  {
    if s == [] then [""]
    else
      var rest := Explode(sep, s[1..]);
      if s[0] == sep then [""] + rest else [[s[0]] + rest[0]] + rest[1..]
  }

  // ---------------------------------------------------------------------------
  // array_filter and key lookup

  /** `array_filter($a)`: keep, in order, the entries whose value is truthy. */
  function ArrayFilter<K>(a: Array<K>): Array<K>
    decreases |a|
  {
    if a == [] then []
    else (if Truthy(a[0].1) then [a[0]] else []) + ArrayFilter(a[1..])
  }

  /** The value stored under `key`, or None when the key is absent. */
  function Get<K(==)>(a: Array<K>, key: K): Option<Value>
    decreases |a|
  {
    if a == [] then None else if a[0].0 == key then Some(a[0].1) else Get(a[1..], key)
  }

  predicate DistinctKeys<K(==)>(a: Array<K>) {
    forall i, j :: 0 <= i < j < |a| ==> a[i].0 != a[j].0
  }

  // ---------------------------------------------------------------------------
  // Lemmas

  /** `intval` reads back what interpolation writes: the decimal spelling of any
      integer converts to that integer. */
  lemma StrToIntDecimal(i: int)
    ensures StrToInt(Decimal(i)) == i
  {
    if i < 0 {
      StrToIntNegative(-i);
    } else {
      StrToIntDigits(i);
    }
  }

  lemma StrToIntDigits(n: nat)
    ensures StrToInt(Digits(n)) == n
  {
    var d := Digits(n);
    DigitsRoundTrip(n);
    LeadingDigitsOfDigits(d);
    assert IsDigit(d[0]);
    LTrimNoop(d, NumericSpace);
  }

  lemma StrToIntNegative(n: nat)
    ensures StrToInt("-" + Digits(n)) == -(n as int)
  {
    var d := Digits(n);
    var s := "-" + d;
    assert s[0] == '-' && s[1..] == d;
    LTrimNoop(s, NumericSpace);
    LeadingDigitsOfDigits(d);
    DigitsRoundTrip(n);
    assert StrToInt(s) == -(DigitsValue(LeadingDigits(d)) as int);
  }

  lemma LTrimNoop(s: string, chars: set<char>)
    requires s == [] || s[0] !in chars
    ensures LTrim(s, chars) == s
  {
  }

  lemma {:induction false} DigitsRoundTrip(n: nat)
    ensures DigitsValue(Digits(n)) == n
    decreases n
  {
    if n >= 10 {
      DigitsRoundTrip(n / 10);
      var d := Digits(n);
      assert d[..|d| - 1] == Digits(n / 10);
    }
  }

  lemma {:induction false} LeadingDigitsOfDigits(d: string)
    requires forall k :: 0 <= k < |d| ==> IsDigit(d[k])
    ensures LeadingDigits(d) == d
    decreases |d|
  {
    if d != [] {
      LeadingDigitsOfDigits(d[1..]);
    }
  }

  /** After the leading whitespace, `s` has no digit, and no sign followed by
      a digit: there is no number for `intval` to read. */
  predicate NoLeadingNumber(s: string) {
    var t := LTrim(s, NumericSpace);
    t == [] || (!IsDigit(t[0]) && ((t[0] != '-' && t[0] != '+') || |t| == 1 || !IsDigit(t[1])))
  }

  /** A string whose first non-blank character is neither a digit nor a sign
      followed by a digit (a word, an empty or blank string) converts to 0. */
  lemma StrToIntNonNumeric(s: string)
    requires NoLeadingNumber(s)
    ensures StrToInt(s) == 0
  {
    var t := LTrim(s, NumericSpace);
    if t != [] && (t[0] == '-' || t[0] == '+') {
      assert LeadingDigits(t[1..]) == "" by {
        assert t[1..] == [] || t[1..][0] == t[1];
      }
    }
  }

  /** `rtrim` removes a suffix made only of characters of `chars`, and what is
      left does not end in one. */
  lemma {:induction false} RTrimProperties(s: string, chars: set<char>)
    ensures var r := RTrim(s, chars);
      && |r| <= |s| && r == s[..|r|]
      && (forall k :: |r| <= k < |s| ==> s[k] in chars)
      && (r == [] || r[|r| - 1] !in chars)
    decreases |s|
  {
    if s != [] && s[|s| - 1] in chars {
      RTrimProperties(s[..|s| - 1], chars);
    }
  }

  /** `ltrim` removes a prefix made only of characters of `chars`, and what is
      left does not start with one. */
  lemma {:induction false} LTrimProperties(s: string, chars: set<char>)
    ensures var r := LTrim(s, chars);
      && |r| <= |s| && r == s[|s| - |r|..]
      && (forall k :: 0 <= k < |s| - |r| ==> s[k] in chars)
      && (r == [] || r[0] !in chars)
    decreases |s|
  {
    if s != [] && s[0] in chars {
      LTrimProperties(s[1..], chars);
    }
  }

  /** `rtrim` has exactly one possible result: the prefix that leaves only
      characters of `chars` behind and does not itself end in one. */
  lemma RTrimUnique(s: string, chars: set<char>, p: string)
    requires |p| <= |s| && p == s[..|p|]
    requires forall k :: |p| <= k < |s| ==> s[k] in chars
    requires p == [] || p[|p| - 1] !in chars
    ensures p == RTrim(s, chars)
  {
    var r := RTrim(s, chars);
    RTrimProperties(s, chars);
    assert |p| == |r|;
  }

  /** Trimming twice is trimming once. */
  lemma RTrimIdempotent(s: string, chars: set<char>)
    ensures RTrim(RTrim(s, chars), chars) == RTrim(s, chars)
  {
    var r := RTrim(s, chars);
    RTrimProperties(s, chars);
    RTrimUnique(r, chars, r);
  }

  /** `trim` leaves no trim character at either end, removes only trim
      characters, and changes nothing on a second application. */
  lemma TrimProperties(s: string)
    ensures var t := Trim(s);
      && (t == [] || (t[0] !in TrimChars && t[|t| - 1] !in TrimChars))
      && (exists a, b :: 0 <= a <= b <= |s| && t == s[a..b]
            && (forall k :: 0 <= k < a ==> s[k] in TrimChars)
            && (forall k :: b <= k < |s| ==> s[k] in TrimChars))
      && Trim(t) == t
  {
    var r := RTrim(s, TrimChars);
    var t := LTrim(r, TrimChars);
    RTrimProperties(s, TrimChars);
    LTrimProperties(r, TrimChars);
    var a, b := |r| - |t|, |r|;
    assert t == s[a..b];
    assert forall k :: 0 <= k < a ==> s[k] == r[k];
    if t != [] {
      assert t[|t| - 1] == r[|r| - 1];
    }
    RTrimUnique(t, TrimChars, t);
  }

  lemma {:induction false} ExplodeNoSeparator(sep: char, a: string)
    requires sep !in a
    ensures Explode(sep, a) == [a]
    decreases |a|
  {
    if a != [] {
      ExplodeNoSeparator(sep, a[1..]);
      assert [a[0]] + a[1..] == a;
    }
  }

  lemma {:induction false} ExplodeSplitsAtFirst(sep: char, a: string, b: string)
    requires sep !in a
    ensures Explode(sep, a + [sep] + b) == [a] + Explode(sep, b)
    decreases |a|
  {
    if a == [] {
      assert a + [sep] + b == [sep] + b;
      assert ([sep] + b)[1..] == b;
    } else {
      var s := a + [sep] + b;
      assert s[0] == a[0];
      assert s[1..] == a[1..] + [sep] + b;
      ExplodeSplitsAtFirst(sep, a[1..], b);
      assert [a[0]] + a[1..] == a;
    }
  }

  /** `explode` undoes `implode` when no part contains the separator. */
  lemma {:induction false} ExplodeImplode(sep: char, parts: seq<string>)
    requires |parts| >= 1
    requires forall i :: 0 <= i < |parts| ==> sep !in parts[i]
    ensures Explode(sep, Implode([sep], parts)) == parts
    decreases |parts|
  {
    if |parts| == 1 {
      ExplodeNoSeparator(sep, parts[0]);
    } else {
      ExplodeImplode(sep, parts[1..]);
      ExplodeSplitsAtFirst(sep, parts[0], Implode([sep], parts[1..]));
      assert [parts[0]] + parts[1..] == parts;
    }
  }

  /** `array_filter` keeps exactly the truthy entries. */
  lemma {:induction false} ArrayFilterKeepsTruthy<K>(a: Array<K>)
    ensures |ArrayFilter(a)| <= |a|
    ensures forall e :: e in ArrayFilter(a) ==> e in a && Truthy(e.1)
    ensures forall e :: e in a && Truthy(e.1) ==> e in ArrayFilter(a)
    decreases |a|
  {
    if a != [] {
      ArrayFilterKeepsTruthy(a[1..]);
      assert a == [a[0]] + a[1..];
    }
  }

  /** A one-entry array keeps its entry exactly when the value is truthy. */
  lemma ArrayFilterSingle<K>(e: (K, Value))
    ensures ArrayFilter([e]) == if Truthy(e.1) then [e] else []
  {
    assert [e][1..] == [];
  }

  /** `array_filter` works entry by entry: filtering a concatenation is the
      concatenation of the filtered parts. With `ArrayFilterSingle` this fixes
      the result: the truthy entries, each once, in their original order. */
  lemma {:induction false} ArrayFilterAppend<K>(a: Array<K>, b: Array<K>)
    ensures ArrayFilter(a + b) == ArrayFilter(a) + ArrayFilter(b)
    decreases |a|
  {
    if a == [] {
      assert a + b == b;
    } else {
      var head: Array<K> := if Truthy(a[0].1) then [a[0]] else [];
      var x, y := ArrayFilter(a[1..]), ArrayFilter(b);
      assert (a + b)[0] == a[0];
      assert (a + b)[1..] == a[1..] + b;
      ArrayFilterAppend(a[1..], b);
      assert ArrayFilter(a + b) == head + (x + y);
      assert head + (x + y) == (head + x) + y;
    }
  }

  /** Filtering keeps keys distinct: no key appears twice in the result. */
  lemma {:induction false} ArrayFilterDistinct<K>(a: Array<K>)
    requires DistinctKeys(a)
    ensures DistinctKeys(ArrayFilter(a))
    decreases |a|
  {
    if a != [] {
      var rest := ArrayFilter(a[1..]);
      assert DistinctKeys(a[1..]) by {
        forall i, j | 0 <= i < j < |a[1..]| ensures a[1..][i].0 != a[1..][j].0 {
          assert a[1..][i] == a[i + 1] && a[1..][j] == a[j + 1];
        }
      }
      ArrayFilterDistinct(a[1..]);
      ArrayFilterKeepsTruthy(a[1..]);
      if Truthy(a[0].1) {
        forall k | 0 <= k < |rest| ensures rest[k].0 != a[0].0 {
          assert rest[k] in a[1..];
          var j :| 0 <= j < |a[1..]| && a[1..][j] == rest[k];
          assert a[j + 1] == rest[k];
        }
        assert ArrayFilter(a) == [a[0]] + rest;
      } else {
        assert ArrayFilter(a) == rest;
      }
    }
  }

  /** Filtering an array whose values are all truthy changes nothing. */
  lemma {:induction false} ArrayFilterAllTruthy<K>(a: Array<K>)
    requires forall e :: e in a ==> Truthy(e.1)
    ensures ArrayFilter(a) == a
    decreases |a|
  {
    if a != [] {
      forall e | e in a[1..] ensures Truthy(e.1) {
        var j :| 0 <= j < |a[1..]| && a[1..][j] == e;
        assert a[j + 1] == e;
      }
      ArrayFilterAllTruthy(a[1..]);
      assert [a[0]] + a[1..] == a;
    }
  }

  /** `array_filter` is idempotent. */
  lemma ArrayFilterIdempotent<K>(a: Array<K>)
    ensures ArrayFilter(ArrayFilter(a)) == ArrayFilter(a)
  {
    ArrayFilterKeepsTruthy(a);
    ArrayFilterAllTruthy(ArrayFilter(a));
  }

  /** Looking a key up after `array_filter` finds the original value when it is
      truthy and nothing otherwise. */
  lemma {:induction false} ArrayFilterGet<K>(a: Array<K>, key: K)
    requires DistinctKeys(a)
    ensures Get(ArrayFilter(a), key) ==
      (if Get(a, key).Some? && Truthy(Get(a, key).value) then Get(a, key) else None)
    decreases |a|
  {
    if a != [] {
      var rest := ArrayFilter(a[1..]);
      var head: Array<K> := if Truthy(a[0].1) then [a[0]] else [];
      assert ArrayFilter(a) == head + rest;
      if a[0].0 == key {
        ArrayFilterKeepsTruthy(a[1..]);
        forall e | e in a[1..] ensures e.0 != key {
          var j :| 0 <= j < |a[1..]| && a[1..][j] == e;
          assert a[j + 1] == e;
        }
        GetAbsent(rest, key);
        if !Truthy(a[0].1) {
          assert head + rest == rest;
        }
      } else {
        ArrayFilterGet(a[1..], key);
        if Truthy(a[0].1) {
          assert (head + rest)[1..] == rest;
        } else {
          assert head + rest == rest;
        }
      }
    }
  }

  /** In an array with distinct keys, the key at position `i` finds the value at
      position `i`. */
  lemma {:induction false} GetAt<K>(a: Array<K>, i: nat)
    requires DistinctKeys(a) && i < |a|
    ensures Get(a, a[i].0) == Some(a[i].1)
    decreases i
  {
    if i > 0 {
      assert a[1..][i - 1] == a[i];
      GetAt(a[1..], i - 1);
    }
  }

  lemma {:induction false} GetAbsent<K>(a: Array<K>, key: K)
    requires forall e :: e in a ==> e.0 != key
    ensures Get(a, key) == None
    decreases |a|
  {
    if a != [] {
      GetAbsent(a[1..], key);
    }
  }
}
