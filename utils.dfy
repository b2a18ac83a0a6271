/** Boundary helpers: reading a required field from a decoded JSON payload,
    and the time-sortable string identifiers every entity carries. */
module Utils {
  import opened Wrappers
  import opened Exceptions

  /** A decoded JSON value, as `json.loads` produces it. */
  datatype Json =
    | Null
    | Bool(b: bool)
    | Int(i: int)
    | Float(f: real)
    | Str(s: string)
    | Array(items: seq<Json>)
    | Object(fields: map<string, Json>)

  /** Python truthiness of a decoded value. */
  predicate Truthy(v: Json) {
    match v
    case Null => false
    case Bool(b) => b
    case Int(i) => i != 0
    case Float(f) => f != 0.0
    case Str(s) => s != ""
    case Array(items) => items != []
    case Object(fields) => fields != map[]
  }

  /** `get_or_raise`: the value stored under `key`, or `exception(key)` when
      the key is missing or its value is falsy. */
  function GetOrRaise(payload: map<string, Json>, key: string := "", exception: Kind := ParameterRequired): (r: Result<Json, Error>)
    ensures r.Ok? <==> key in payload && Truthy(payload[key])
    ensures r.Ok? ==> r.value == payload[key]
    ensures r.Err? ==> r.error == Milly(exception, Some(key))
  {
    if key in payload && Truthy(payload[key]) then Ok(payload[key])
    else Err(Milly(exception, Some(key)))
  }

  /** Zero, the empty string and false are as missing as an absent key. */
  lemma FalsyValuesAreMissing(key: string)
    ensures GetOrRaise(map[key := Int(0)], key) == Err(Milly(ParameterRequired, Some(key)))
    ensures GetOrRaise(map[key := Str("")], key) == Err(Milly(ParameterRequired, Some(key)))
    ensures GetOrRaise(map[key := Bool(false)], key) == Err(Milly(ParameterRequired, Some(key)))
    ensures GetOrRaise(map[], key) == Err(Milly(ParameterRequired, Some(key)))
    ensures Status(GetOrRaise(map[], key).error.kind) == 400
  {
    ParameterRequiredIsClientError();
  }

  function Pow10(n: nat): (p: nat)
    ensures p >= 1
  {
    if n == 0 then 1 else 10 * Pow10(n - 1)
  }

  /** The ASCII digit for `d`. */
  function Digit(d: nat): char
    requires d < 10
  {
    (48 + d) as char
  }

  predicate IsDigitChar(c: char) {
    '0' <= c <= '9'
  }

  /** The number an ASCII digit stands for. */
  function DigitValue(c: char): (d: nat)
    requires IsDigitChar(c)
    ensures d < 10
  {
    c as int - '0' as int
  }

  /** `str.isdigit()` on ASCII text: non-empty and all digits. */
  predicate IsDigits(s: string) {
    |s| > 0 && forall i :: 0 <= i < |s| ==> IsDigitChar(s[i])
  }

  /** The last `width` decimal digits of `n`, most significant first. */
  function Fixed(n: nat, width: nat): (s: string)
    ensures |s| == width
    ensures forall i :: 0 <= i < |s| ==> IsDigitChar(s[i])
  {
    if width == 0 then [] else Fixed(n / 10, width - 1) + [Digit(n % 10)]
  }

  /** Number of decimal digits of `n` (one for zero). */
  function NumDigits(n: nat): (k: nat)
    ensures k >= 1
  {
    if n < 10 then 1 else 1 + NumDigits(n / 10)
  }

  /** `f"{n:0{width}d}"`: zero-padded to `width`, never truncated. */
  function ZeroPad(n: nat, width: nat): string {
    Fixed(n, if NumDigits(n) > width then NumDigits(n) else width)
  }

  /** The value of a string of decimal digits. */
  function DigitsValue(s: string): nat
    requires forall i :: 0 <= i < |s| ==> IsDigitChar(s[i])
  {
    if s == [] then 0 else DigitsValue(s[..|s| - 1]) * 10 + DigitValue(s[|s| - 1])
  }

  /** `new_id()` with its clock reading (epoch milliseconds) and its random
      draw passed in: timestamp to 13 digits, a dash, random value to 4. */
  function NewId(tsMs: nat, rand: nat): (id: string)
    ensures IdShaped(id)
  {
    var ts, r := ZeroPad(tsMs, 13), ZeroPad(rand, 4);
    ZeroPadDigits(tsMs, 13);
    ZeroPadDigits(rand, 4);
    var id := ts + "-" + r;
    assert id[|ts|] == '-' && id[..|ts|] == ts && id[|ts| + 1..] == r;
    id
  }

  /** A run of at least 13 digits, a dash, and a run of at least 4 digits. */
  predicate IdShaped(id: string) {
    exists k :: 13 <= k <= |id| - 5 && id[k] == '-' && IsDigits(id[..k]) && IsDigits(id[k + 1..])
  }

  /** Python's `<` on strings: first differing character, or proper prefix. */
  predicate LexLess(a: string, b: string) {
    (exists i :: 0 <= i < |a| && i < |b| && a[..i] == b[..i] && a[i] < b[i])
    || (|a| < |b| && a == b[..|a|])
  }

  lemma {:induction false} NumDigitsBound(n: nat, width: nat)
    requires width >= 1 && n < Pow10(width)
    ensures NumDigits(n) <= width
  {
    if n >= 10 {
      NumDigitsBound(n / 10, width - 1);
    }
  }

  /** Zero padding never truncates: at least `width` characters and at least
      the number's own digits, all of them decimal digits. */
  lemma ZeroPadDigits(n: nat, width: nat)
    ensures |ZeroPad(n, width)| >= width && |ZeroPad(n, width)| >= NumDigits(n)
    ensures IsDigits(ZeroPad(n, width))
  {
  }

  /** Below 10^width the padding is exactly `width` digits. */
  lemma ZeroPadFits(n: nat, width: nat)
    requires width >= 1 && n < Pow10(width)
    ensures ZeroPad(n, width) == Fixed(n, width)
  {
    NumDigitsBound(n, width);
  }

  /** Reading the digits back gives the number. */
  lemma {:induction false} FixedRoundTrip(n: nat, width: nat)
    requires n < Pow10(width)
    ensures DigitsValue(Fixed(n, width)) == n
  {
    if width > 0 {
      var s := Fixed(n, width);
      assert s[..|s| - 1] == Fixed(n / 10, width - 1);
      FixedRoundTrip(n / 10, width - 1);
    }
  }

  lemma LexLessExtend(a: string, b: string, x: char, y: char)
    requires |a| == |b| && LexLess(a, b)
    ensures LexLess(a + [x], b + [y])
  {
    var i :| 0 <= i < |a| && i < |b| && a[..i] == b[..i] && a[i] < b[i];
    assert (a + [x])[..i] == a[..i] && (b + [y])[..i] == b[..i];
    assert (a + [x])[i] == a[i] && (b + [y])[i] == b[i];
  }

  lemma LexLessConcat(a: string, b: string, c: string, d: string)
    requires |a| == |b| && LexLess(a, b)
    ensures LexLess(a + c, b + d)
  {
    var i :| 0 <= i < |a| && i < |b| && a[..i] == b[..i] && a[i] < b[i];
    assert (a + c)[..i] == a[..i] && (b + d)[..i] == b[..i];
    assert (a + c)[i] == a[i] && (b + d)[i] == b[i];
  }

  /** Fixed-width digit strings order like the numbers they spell. */
  lemma {:induction false} FixedMonotone(n: nat, m: nat, width: nat)
    requires n < m < Pow10(width)
    ensures LexLess(Fixed(n, width), Fixed(m, width))
  {
    var a, b := Fixed(n / 10, width - 1), Fixed(m / 10, width - 1);
    assert Fixed(n, width) == a + [Digit(n % 10)];
    assert Fixed(m, width) == b + [Digit(m % 10)];
    if n / 10 < m / 10 {
      FixedMonotone(n / 10, m / 10, width - 1);
      LexLessExtend(a, b, Digit(n % 10), Digit(m % 10));
    } else {
      assert n / 10 == m / 10 && n % 10 < m % 10;
      var i := width - 1;
      assert (a + [Digit(n % 10)])[..i] == a && (b + [Digit(m % 10)])[..i] == b;
    }
  }

  /** Within range an id is 18 characters: 13 digits, a dash, 4 digits, and
      both numbers can be read back from it. */
  lemma NewIdFormat(tsMs: nat, rand: nat)
    requires tsMs < Pow10(13) && rand < Pow10(4)
    ensures var id := NewId(tsMs, rand);
      && |id| == 18
      && id[13] == '-'
      && (forall i :: 0 <= i < 18 && i != 13 ==> IsDigitChar(id[i]))
      && DigitsValue(id[..13]) == tsMs
      && DigitsValue(id[14..]) == rand
  {
    ZeroPadFits(tsMs, 13);
    ZeroPadFits(rand, 4);
    FixedRoundTrip(tsMs, 13);
    FixedRoundTrip(rand, 4);
    var id := NewId(tsMs, rand);
    assert id[..13] == Fixed(tsMs, 13);
    assert id[14..] == Fixed(rand, 4);
  }

  /** An id in range is the padded timestamp followed by the random suffix. */
  lemma NewIdSplit(tsMs: nat, rand: nat)
    requires tsMs < Pow10(13)
    ensures NewId(tsMs, rand) == Fixed(tsMs, 13) + ("-" + ZeroPad(rand, 4))
    ensures NewId(tsMs, rand)[..13] == Fixed(tsMs, 13)
  {
    ZeroPadFits(tsMs, 13);
    var a := Fixed(tsMs, 13);
    assert (a + ("-" + ZeroPad(rand, 4)))[..13] == a;
  }

  /** Ids are time-sortable: an earlier timestamp gives a smaller 13-digit
      prefix and a smaller id, whatever the random parts. */
  lemma NewIdTimeOrdered(ts1: nat, rand1: nat, ts2: nat, rand2: nat)
    requires ts1 < ts2 < Pow10(13) && rand1 < Pow10(4) && rand2 < Pow10(4)
    ensures LexLess(NewId(ts1, rand1)[..13], NewId(ts2, rand2)[..13])
    ensures LexLess(NewId(ts1, rand1), NewId(ts2, rand2))
  {
    NewIdSplit(ts1, rand1);
    NewIdSplit(ts2, rand2);
    FixedMonotone(ts1, ts2, 13);
    LexLessConcat(Fixed(ts1, 13), Fixed(ts2, 13), "-" + ZeroPad(rand1, 4), "-" + ZeroPad(rand2, 4));
  }
}
