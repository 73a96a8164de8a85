/** The handful of PHP runtime rules the modelled code leans on: `strpos`,
    the string cast of an integer, truthiness and the ordered array that
    `$a[$k] = $v` builds. */
module Php {
  import opened Wrappers

  // ---------------------------------------------------------------------------
  // Substring search
  // ---------------------------------------------------------------------------

  /** `needle` occurs in `hay` starting at index `i`. */
  predicate OccursAt(hay: string, needle: string, i: nat) {
    i + |needle| <= |hay| && hay[i..i + |needle|] == needle
  }

  /** `s` begins with `prefix`. */
  predicate StartsWith(s: string, prefix: string) {
    OccursAt(s, prefix, 0)
  }

  lemma OccursAtShift(hay: string, needle: string, j: nat)
    requires |hay| > 0
    ensures OccursAt(hay, needle, j + 1) <==> OccursAt(hay[1..], needle, j)
  {
    if j + 1 + |needle| <= |hay| {
      assert hay[j + 1..j + 1 + |needle|] == hay[1..][j..j + |needle|];
    }
  }

  /** PHP `strpos($hay, $needle)`: the first index at which `needle` occurs,
      or `false` (here None) when it does not occur at all. The index counts
      characters, where PHP counts bytes; the two agree on index 0 and on
      whether there is a match at all, which is all the modelled code asks.
      The needle is non-empty; PHP versions disagree about the empty one. */
  function StrPos(hay: string, needle: string): (r: Option<nat>)
    requires |needle| > 0
    ensures r.Some? ==> OccursAt(hay, needle, r.value)
    ensures r.Some? ==> forall j: nat :: j < r.value ==> !OccursAt(hay, needle, j)
    ensures r.None? ==> forall j: nat :: !OccursAt(hay, needle, j)
    decreases |hay|
  {
    if StartsWith(hay, needle) then Some(0)
    else if |hay| == 0 then None
    else
      var rest := StrPos(hay[1..], needle);
      var r := if rest.None? then None else Some(rest.value + 1);
      assert r.Some? ==> forall j: nat :: j < r.value ==> !OccursAt(hay, needle, j) by {
        if r.Some? {
          forall j: nat | j < r.value ensures !OccursAt(hay, needle, j) {
            if j > 0 { OccursAtShift(hay, needle, j - 1); }
          }
        }
      }
      assert r.None? ==> forall j: nat :: !OccursAt(hay, needle, j) by {
        if r.None? {
          forall j: nat ensures !OccursAt(hay, needle, j) {
            if j > 0 { OccursAtShift(hay, needle, j - 1); }
          }
        }
      }
      assert r.Some? ==> OccursAt(hay, needle, r.value) by {
        if r.Some? { OccursAtShift(hay, needle, rest.value); }
      }
      r
  }

  /** `strpos($hay, $needle) === 0` holds exactly when `hay` starts with `needle`. */
  lemma StrPosZeroIffPrefix(hay: string, needle: string)
    requires |needle| > 0
    ensures StrPos(hay, needle) == Some(0) <==> StartsWith(hay, needle)
  {
  }

  /** `strpos($hay, $needle) !== false`: the needle occurs somewhere. */
  predicate Contains(hay: string, needle: string)
    requires |needle| > 0
  {
    StrPos(hay, needle).Some?
  }

  lemma ContainsIffOccurs(hay: string, needle: string)
    requires |needle| > 0
    ensures Contains(hay, needle) <==> exists j: nat :: OccursAt(hay, needle, j)
  {
    if Contains(hay, needle) {
      assert OccursAt(hay, needle, StrPos(hay, needle).value);
    }
  }

  // ---------------------------------------------------------------------------
  // Integer to string cast
  // ---------------------------------------------------------------------------

  predicate IsDigit(c: char) {
    '0' <= c <= '9'
  }

  function DigitValue(c: char): nat
    requires IsDigit(c)
  {
    (c as int - '0' as int) as nat
  }

  function DigitChar(d: nat): (c: char)
    requires d < 10
    ensures IsDigit(c) && DigitValue(c) == d
  {
    ('0' as int + d) as char
  }

  /** Decimal digits of a natural number, most significant first, no leading zero. */
  function Digits(n: nat): (s: string)
    ensures |s| > 0
    ensures forall i :: 0 <= i < |s| ==> IsDigit(s[i])
    ensures n >= 10 ==> |s| >= 2
    ensures s[0] == '0' ==> n == 0
  {
    if n < 10 then [DigitChar(n)] else Digits(n / 10) + [DigitChar(n % 10)]
  }

  /** The number a string of decimal digits denotes. */
  function DecimalValue(s: string): nat
    requires forall i :: 0 <= i < |s| ==> IsDigit(s[i])
  {
    if |s| == 0 then 0 else DecimalValue(s[..|s| - 1]) * 10 + DigitValue(s[|s| - 1])
  }

  lemma {:induction false} DigitsRoundTrip(n: nat)
    ensures DecimalValue(Digits(n)) == n
  {
    var s := Digits(n);
    if n >= 10 {
      DigitsRoundTrip(n / 10);
      assert s[..|s| - 1] == Digits(n / 10);
    }
  }

  /** PHP's `(string)$n` for an integer: an optional minus sign, then the digits. */
  function IntToString(n: int): (s: string)
    ensures |s| > 0 && (s[0] == '-' || IsDigit(s[0]))
    ensures s == "0" <==> n == 0
  {
    if n < 0 then "-" + Digits(-n) else Digits(n)
  }

  // ---------------------------------------------------------------------------
  // Values and ordered arrays
  // ---------------------------------------------------------------------------

  /** The scalar PHP values a component attribute can hold in this model. */
  datatype Value = Null | Bool(b: bool) | Int(i: int) | Str(s: string)

  /** PHP's `!$v`: the values that convert to boolean false. */
  function IsFalsy(v: Value): (r: bool)
    ensures r <==> v in {Null, Bool(false), Int(0), Str(""), Str("0")}
  {
    match v
    case Null => true
    case Bool(b) => !b
    case Int(i) => i == 0
    case Str(s) => s == "" || s == "0"
  }

  /** No element occurs twice (used for PHP array keys and property names). */
  predicate Distinct<T(==)>(xs: seq<T>) {
    forall i, j :: 0 <= i < j < |xs| ==> xs[i] != xs[j]
  }

  /** A PHP array with string keys: insertion-ordered key/value pairs. */
  type PhpArray = seq<(string, Value)>

  function Keys(a: PhpArray): (ks: seq<string>) {
    seq(|a|, i requires 0 <= i < |a| => a[i].0)
  }

  lemma KeysCons(a: PhpArray)
    requires |a| > 0
    ensures Keys(a) == [a[0].0] + Keys(a[1..])
  {
  }


  /** `$a[$k]`, or None when `$k` is not a key of `$a`. */
  function Lookup(a: PhpArray, k: string): (r: Option<Value>)
    ensures r.Some? <==> k in Keys(a)
    decreases |a|
  {
    if |a| == 0 then None
    else
      KeysCons(a);
      if a[0].0 == k then Some(a[0].1) else Lookup(a[1..], k)
  }

  /** `$a[$k] = $v`: overwrite in place when `$k` is already a key, append otherwise. */
  function Put(a: PhpArray, k: string, v: Value): (r: PhpArray)
    ensures Lookup(r, k) == Some(v)
    decreases |a|
  {
    if |a| == 0 then [(k, v)]
    else if a[0].0 == k then
      var r := [(k, v)] + a[1..];
      assert r[0].0 == k;
      r
    else
      var rest := Put(a[1..], k, v);
      var r := [a[0]] + rest;
      assert r[0] == a[0] && r[1..] == rest;
      r
  }

  /** An existing key keeps its position; a new key goes to the end. */
  lemma {:induction false} PutKeys(a: PhpArray, k: string, v: Value)
    ensures k in Keys(a) ==> Keys(Put(a, k, v)) == Keys(a)
    ensures k !in Keys(a) ==> Keys(Put(a, k, v)) == Keys(a) + [k]
    decreases |a|
  {
    if |a| > 0 {
      var r := Put(a, k, v);
      KeysCons(a);
      KeysCons(r);
      if a[0].0 == k {
        assert r[1..] == a[1..];
      } else {
        PutKeys(a[1..], k, v);
        assert r[1..] == Put(a[1..], k, v);
      }
    }
  }

  /** Assigning one key leaves every other key's value alone. */
  lemma {:induction false} PutOthers(a: PhpArray, k: string, v: Value, other: string)
    requires other != k
    ensures Lookup(Put(a, k, v), other) == Lookup(a, other)
    decreases |a|
  {
    if |a| > 0 {
      var r := Put(a, k, v);
      if a[0].0 == k {
        assert r[1..] == a[1..];
      } else {
        PutOthers(a[1..], k, v, other);
        assert r[1..] == Put(a[1..], k, v);
      }
    }
  }

  /** Assignment never stores a key twice. */
  lemma PutUnique(a: PhpArray, k: string, v: Value)
    requires Distinct(Keys(a))
    ensures Distinct(Keys(Put(a, k, v)))
  {
    var r := Put(a, k, v);
    PutKeys(a, k, v);
    if k !in Keys(a) {
      forall i, j | 0 <= i < j < |Keys(r)|
        ensures Keys(r)[i] != Keys(r)[j]
      {
        assert Keys(r)[i] == Keys(a)[i];
        if j < |a| {
          assert Keys(r)[j] == Keys(a)[j];
        } else {
          assert Keys(r)[j] == k;
        }
      }
    }
  }
}
