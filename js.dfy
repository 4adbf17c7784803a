/** JavaScript values and the few built-in operations on them that the
    chat server and its browser client rely on: truthiness, `===`, `||`,
    `parseInt`, number-to-string, `trim`, `toLowerCase`, `includes`,
    `split(' ')` and the UTF-16 `length` of a string. */
module Js {

  datatype Option<+T> = None | Some(value: T)

  /** A JavaScript value, as far as this model needs one. Numbers are
      integral (the system only ever handles integer ids and counts);
      `NaN` is kept apart because it is the one number not equal to itself.
      An object is known only by its identity. */
  datatype JsVal =
    | Undefined
    | Null
    | Bool(b: bool)
    | Num(n: int)
    | NaN
    | Str(s: string)
    | Obj(ref: nat)

  /** `v.toString()`; `null` and `undefined` have no `toString` and
      throw. */
  function KeyString(v: JsVal): (r: Option<string>)
    ensures v.Num? ==> r == Some(DecimalString(v.n))
    ensures v.Str? ==> r == Some(v.s)
    ensures r.None? <==> v.Undefined? || v.Null?
  {
    match v
    case Undefined => None
    case Null => None
    case Bool(b) => Some(if b then "true" else "false")
    case Num(n) => Some(DecimalString(n))
    case NaN => Some("NaN")
    case Str(s) => Some(s)
    case Obj(_) => Some("[object Object]")
  }

  /** `${v}` in a template literal: `toString`, with `undefined` and
      `null` written out. */
  function TemplateString(v: JsVal): (r: string)
    ensures v.Num? ==> r == DecimalString(v.n)
    ensures v.Str? ==> r == v.s
  {
    match v
    case Undefined => "undefined"
    case Null => "null"
    case _ => KeyString(v).value
  }

  /** The value's truthiness, as `if (v)` and `!v` see it. */
  predicate Truthy(v: JsVal) {
    match v
    case Undefined => false
    case Null => false
    case NaN => false
    case Bool(b) => b
    case Num(n) => n != 0
    case Str(s) => s != ""
    case Obj(_) => true
  }

  /** `a === b`: same type and value, objects by identity, NaN unequal to
      everything. `undefined === undefined` holds. */
  predicate StrictEq(a: JsVal, b: JsVal) {
    a == b && !a.NaN?
  }

  /** `a || b` */
  function Or(a: JsVal, b: JsVal): (r: JsVal)
    ensures Truthy(a) ==> r == a
    ensures !Truthy(a) ==> r == b
  {
    if Truthy(a) then a else b
  }

  lemma StrictEqUndefined()
    ensures StrictEq(Undefined, Undefined)
  {
  }

  // ---------------------------------------------------------------------
  // Decimal digits

  predicate IsDigit(c: char) { '0' <= c <= '9' }

  function DigitValue(c: char): nat
    requires IsDigit(c)
  {
    (c as int) - ('0' as int)
  }

  function DigitChar(d: nat): (c: char)
    requires d < 10
    ensures IsDigit(c) && DigitValue(c) == d
  {
    (('0' as int) + d) as char
  }

  /** The decimal digits of a natural number, without leading zeros. */
  function NatDigits(n: nat): (s: string)
    ensures |s| > 0
    ensures forall i :: 0 <= i < |s| ==> IsDigit(s[i])
    decreases n
  {
    if n < 10 then [DigitChar(n)] else NatDigits(n / 10) + [DigitChar(n % 10)]
  }

  /** `String(n)` / `n.toString()` for an integer. */
  function DecimalString(n: int): string {
    if n < 0 then "-" + NatDigits(-n) else NatDigits(n)
  }

  /** The value of a string of decimal digits. */
  function DigitsValue(s: string): nat
    requires forall i :: 0 <= i < |s| ==> IsDigit(s[i])
  {
    if s == [] then 0 else DigitsValue(s[..|s| - 1]) * 10 + DigitValue(s[|s| - 1])
  }

  /** The longest prefix of `s` made of decimal digits. */
  function LeadingDigits(s: string): (r: string)
    ensures |r| <= |s| && r == s[..|r|]
    ensures forall i :: 0 <= i < |r| ==> IsDigit(r[i])
    ensures |r| < |s| ==> !IsDigit(s[|r|])
  {
    if s == [] || !IsDigit(s[0]) then [] else [s[0]] + LeadingDigits(s[1..])
  }

  lemma {:induction false} NatDigitsValue(n: nat)
    ensures DigitsValue(NatDigits(n)) == n
    decreases n
  {
    if n >= 10 {
      NatDigitsValue(n / 10);
      var s := NatDigits(n);
      assert s[..|s| - 1] == NatDigits(n / 10);
    }
  }

  lemma LeadingDigitsAll(s: string)
    requires forall i :: 0 <= i < |s| ==> IsDigit(s[i])
    ensures LeadingDigits(s) == s
  {
  }

  // ---------------------------------------------------------------------
  // White space and trim

  /** `String.prototype.trim` removes WhiteSpace and LineTerminator code
      points (ECMAScript sections 12.2 and 12.3). */
  predicate IsJsSpace(c: char) {
    c == '\t' || c == '\n' || c == '\U{000B}' || c == '\U{000C}' || c == '\r' || c == ' '
    || c == '\U{00A0}' || c == '\U{1680}' || ('\U{2000}' <= c <= '\U{200A}')
    || c == '\U{2028}' || c == '\U{2029}' || c == '\U{202F}' || c == '\U{205F}'
    || c == '\U{3000}' || c == '\U{FEFF}'
  }

  function TrimStart(s: string): (r: string)
    ensures |r| <= |s| && r == s[|s| - |r|..]
    ensures r != [] ==> !IsJsSpace(r[0])
    ensures forall i :: 0 <= i < |s| - |r| ==> IsJsSpace(s[i])
  {
    if s != [] && IsJsSpace(s[0]) then TrimStart(s[1..]) else s
  }

  function TrimEnd(s: string): (r: string)
    ensures |r| <= |s| && r == s[..|r|]
    ensures r != [] ==> !IsJsSpace(r[|r| - 1])
    ensures forall i :: |r| <= i < |s| ==> IsJsSpace(s[i])
  {
    if s != [] && IsJsSpace(s[|s| - 1]) then TrimEnd(s[..|s| - 1]) else s
  }

  /** `s.trim()` */
  function Trim(s: string): string {
    TrimEnd(TrimStart(s))
  }

  /** `s.trim()` begins and ends with a character that is not white space. */
  lemma TrimEnds(s: string)
    ensures Trim(s) != [] ==> !IsJsSpace(Trim(s)[0]) && !IsJsSpace(Trim(s)[|Trim(s)| - 1])
  {
    var t := TrimStart(s);
    var u := TrimEnd(t);
    if u != [] {
      assert u[0] == t[0];
    }
  }

  /** `s.trim()` is empty exactly when `s` is all white space. */
  lemma TrimBlank(s: string)
    ensures Trim(s) == [] <==> forall k :: 0 <= k < |s| ==> IsJsSpace(s[k])
  {
    var t := TrimStart(s);
    var u := TrimEnd(t);
  }

  lemma TrimIdempotent(s: string)
    ensures Trim(Trim(s)) == Trim(s)
  {
    TrimEnds(s);
    var t := Trim(s);
    if t != [] {
      assert TrimStart(t) == t;
      assert TrimEnd(t) == t;
    }
  }

  // ---------------------------------------------------------------------
  // parseInt

  /** `parseInt` on a string: skip leading white space, take an optional
      sign and the longest run of decimal digits; no digit gives NaN. */
  function ParseIntString(s: string): (r: JsVal)
    ensures r.Num? || r.NaN?
  {
    var t := TrimStart(s);
    var negative := t != [] && t[0] == '-';
    var body := if t != [] && (t[0] == '-' || t[0] == '+') then t[1..] else t;
    var digits := LeadingDigits(body);
    if digits == [] then NaN
    else if negative then Num(-(DigitsValue(digits) as int))
    else Num(DigitsValue(digits))
  }

  /** `parseInt(v)` (radix 10): a number is kept, a string is parsed, and
      every other value prints as a word (`"undefined"`, `"null"`, `"true"`,
      `"NaN"`, `"[object Object]"`) that starts with no digit. */
  function ParseInt(v: JsVal): (r: JsVal)
    ensures r.Num? || r.NaN?
    ensures v.Num? ==> r == v
    ensures !v.Num? && !v.Str? ==> r == NaN
  {
    match v
    case Num(n) => Num(n)
    case Str(s) => ParseIntString(s)
    case _ => NaN
  }

  /** `parseInt(String(n)) === n` for every integer `n`. */
  lemma ParseIntDecimal(n: int)
    ensures ParseInt(Str(DecimalString(n))) == Num(n)
  {
    var s := DecimalString(n);
    var m: nat := if n < 0 then -n else n;
    var d := NatDigits(m);
    assert !IsJsSpace(s[0]);
    assert TrimStart(s) == s;
    var body := if n < 0 then s[1..] else s;
    assert body == d;
    LeadingDigitsAll(d);
    NatDigitsValue(m);
  }

  // ---------------------------------------------------------------------
  // UTF-16 length, lower-casing, substring search

  /** `s.length`: JavaScript strings count UTF-16 code units, so a code
      point above U+FFFF counts twice. */
  function Utf16Length(s: string): (n: nat)
    ensures |s| <= n <= 2 * |s|
  {
    if s == [] then 0 else (if s[0] as int > 0xFFFF then 2 else 1) + Utf16Length(s[1..])
  }

  /** `toLowerCase` on the ASCII letters; other characters are kept. */
  function LowerChar(c: char): (r: char)
    ensures !('A' <= r <= 'Z')
  {
    if 'A' <= c <= 'Z' then ((c as int) + 32) as char else c
  }

  function ToLower(s: string): (r: string)
    ensures |r| == |s|
    ensures forall i :: 0 <= i < |s| ==> r[i] == LowerChar(s[i])
  {
    if s == [] then [] else [LowerChar(s[0])] + ToLower(s[1..])
  }

  /** `n` occurs in `h` starting at index `i`. */
  predicate OccursAt(h: string, n: string, i: int) {
    0 <= i <= |h| - |n| && h[i..i + |n|] == n
  }

  /** `h.includes(n)` */
  predicate Includes(h: string, n: string) {
    exists i | 0 <= i <= |h| :: OccursAt(h, n, i)
  }

  // ---------------------------------------------------------------------
  // split(' ')

  /** `s.split(' ')`: the fields between single spaces; two adjacent spaces
      give an empty field, and there is always at least one field. */
  function SplitSpace(s: string): (r: seq<string>)
    ensures |r| >= 1
    ensures forall i, k :: 0 <= i < |r| && 0 <= k < |r[i]| ==> r[i][k] != ' '
  {
    if s == [] then [""]
    else if s[0] == ' ' then [""] + SplitSpace(s[1..])
    else
      var rest := SplitSpace(s[1..]);
      [[s[0]] + rest[0]] + rest[1..]
  }

  /** A string without a space is one field. */
  lemma {:induction false} SplitNoSpace(s: string)
    requires ' ' !in s
    ensures SplitSpace(s) == [s]
  {
    if s != [] {
      assert s == [s[0]] + s[1..];
      SplitNoSpace(s[1..]);
    }
  }

  /** The first space ends the first field. */
  lemma {:induction false} SplitFirstSpace(a: string, b: string)
    requires ' ' !in a
    ensures SplitSpace(a + " " + b) == [a] + SplitSpace(b)
  {
    if a == [] {
      assert a + " " + b == [' '] + b;
      assert (a + " " + b)[1..] == b;
    } else {
      assert (a + " " + b)[1..] == a[1..] + " " + b;
      SplitFirstSpace(a[1..], b);
      assert a == [a[0]] + a[1..];
    }
  }

  /** `fields.join(' ')` */
  function JoinSpace(fields: seq<string>): string
    requires |fields| >= 1
  {
    if |fields| == 1 then fields[0] else fields[0] + " " + JoinSpace(fields[1..])
  }

  /** Splitting loses nothing: joining the fields back gives the string. */
  lemma {:induction false} SplitJoin(s: string)
    ensures JoinSpace(SplitSpace(s)) == s
  {
    if s == [] {
    } else if s[0] == ' ' {
      SplitJoin(s[1..]);
      assert SplitSpace(s)[1..] == SplitSpace(s[1..]);
    } else {
      SplitJoin(s[1..]);
      var rest := SplitSpace(s[1..]);
      if |rest| == 1 {
      } else {
        assert SplitSpace(s)[1..] == rest[1..];
        assert JoinSpace(rest) == rest[0] + " " + JoinSpace(rest[1..]);
      }
    }
  }
}
