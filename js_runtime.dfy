/** The JavaScript built-ins that the vouchers and the components lean on,
    given exact meanings: numbers as rationals, Math.round, the truncating
    remainder operator, String.prototype.trim, ASCII case mapping, the
    decimal rendering of non-negative integers, split/join on one
    separator character, and the strict `=== true` test. */
module JsRuntime {

  type Pos = n: int | n > 0 witness 1

  /** A finite JavaScript number held exactly as the rational num / den. */
  datatype Ratio = Ratio(num: int, den: Pos)

  function FromInt(n: int): Ratio { Ratio(n, 1) }

  /** Math.round: the nearest integer, halves going up (floor(x + 1/2)).
      The result r is the one integer with r - 1/2 <= x < r + 1/2. */
  function Round(x: Ratio): (r: int)
    ensures (2 * r - 1) * x.den <= 2 * x.num < (2 * r + 1) * x.den
  {
    var q := (2 * x.num + x.den) / (2 * x.den);
    DivBounds(2 * x.num + x.den, 2 * x.den);
    q
  }

  /** Math.floor(a / b) for a positive divisor. */
  function FloorDiv(a: int, b: Pos): (q: int)
    ensures q * b <= a < q * b + b
  {
    DivBounds(a, b);
    a / b
  }

  /** The `%` operator: the sign of the dividend, magnitude below the divisor,
      and the dividend minus the result a multiple of the divisor. */
  function Rem(a: int, b: Pos): (r: int)
    ensures -(b as int) < r < b
    ensures a >= 0 ==> r >= 0
    ensures a <= 0 ==> r <= 0
    ensures (a - r) % b == 0
  {
    RemFacts(a, b);
    if a >= 0 then a % b else -((-a) % b)
  }

  lemma RemFacts(a: int, b: Pos)
    ensures a >= 0 ==> (a - a % b) % b == 0
    ensures a < 0 ==> (a + (-a) % b) % b == 0
  {
    if a >= 0 {
      assert a - a % b == (a / b) * b;
      MultipleMod(a / b, b);
    } else {
      assert a + (-a) % b == (-((-a) / b)) * b;
      MultipleMod(-((-a) / b), b);
    }
  }

  /** Quotient and remainder are the only pair with a == q * b + r and 0 <= r < b. */
  lemma DivModUnique(a: int, b: Pos, q: int, r: int)
    requires a == q * b + r && 0 <= r < b
    ensures a / b == q && a % b == r
  {
    var d, m := a / b, a % b;
    assert a == d * b + m;
    assert (q - d) * b == m - r;
    MulAwayFromZero(q - d, b);
  }

  lemma MultipleMod(q: int, b: Pos)
    ensures (q * b) % b == 0
  {
    var m := (q * b) % b;
    var d := (q * b) / b;
    assert q * b == d * b + m;
    assert (q - d) * b == m;
    MulAwayFromZero(q - d, b);
  }

  lemma MulAwayFromZero(k: int, b: Pos)
    ensures k > 0 ==> k * b >= b
    ensures k < 0 ==> k * b <= -(b as int)
  {
    if k > 0 {
      MulNonNeg(k - 1, b);
      assert k * b == (k - 1) * b + b;
    } else if k < 0 {
      MulNonNeg(-k - 1, b);
      assert k * b == -((-k - 1) * b) - b;
    }
  }

  lemma MulNonNeg(x: nat, y: nat)
    ensures x * y >= 0
  {
  }

  lemma DivBounds(a: int, b: Pos)
    ensures (a / b) * b <= a < (a / b) * b + b
  {
  }

  /** On non-negative operands `%` agrees with Dafny's Euclidean remainder. */
  lemma RemOfNonNegative(a: nat, b: Pos)
    ensures Rem(a, b) == a % b
  {
  }

  // ---------------------------------------------------------------------
  // Strings

  /** The characters String.prototype.trim removes: WhiteSpace (tab, vertical
      tab, form feed, space, no-break space, byte order mark and the Unicode
      space separators) and LineTerminator (LF, CR, LS, PS). */
  predicate IsSpace(c: char)
  {
    || c == '\t' || c == '\n' || c == '\U{B}' || c == '\U{C}' || c == '\r'
    || c == ' ' || c == '\U{A0}' || c == '\U{1680}'
    || ('\U{2000}' <= c <= '\U{200A}')
    || c == '\U{2028}' || c == '\U{2029}' || c == '\U{202F}' || c == '\U{205F}'
    || c == '\U{3000}' || c == '\U{FEFF}'
  }

  /** Every character of s is whitespace (the empty string included). */
  predicate IsBlank(s: string)
  {
    forall i :: 0 <= i < |s| ==> IsSpace(s[i])
  }

  /** How many whitespace characters s starts with. */
  function LeadingSpaces(s: string): (n: nat)
    ensures n <= |s|
    ensures forall k :: 0 <= k < n ==> IsSpace(s[k])
    ensures n < |s| ==> !IsSpace(s[n])
  {
    if |s| > 0 && IsSpace(s[0]) then 1 + LeadingSpaces(s[1..]) else 0
  }

  /** How many whitespace characters s ends with. */
  function TrailingSpaces(s: string): (n: nat)
    ensures n <= |s|
    ensures forall k :: |s| - n <= k < |s| ==> IsSpace(s[k])
    ensures n < |s| ==> !IsSpace(s[|s| - n - 1])
  {
    if |s| > 0 && IsSpace(s[|s| - 1]) then 1 + TrailingSpaces(s[..|s| - 1]) else 0
  }

  /** String.prototype.trim: what is left of s between a blank prefix and a
      blank suffix; it is empty exactly when s is blank, and otherwise it
      starts and ends with a character that is not whitespace. */
  function Trim(s: string): (r: string)
    ensures exists i :: 0 <= i <= |s| - |r| && IsBlank(s[..i]) && r == s[i..i + |r|] && IsBlank(s[i + |r|..])
    ensures r == [] <==> IsBlank(s)
    ensures r != [] ==> !IsSpace(r[0]) && !IsSpace(r[|r| - 1])
  {
    var a := LeadingSpaces(s);
    if a == |s| then
      assert IsBlank(s[..a]) && IsBlank(s[a..]);
      []
    else
      var b := |s| - TrailingSpaces(s);
      assert IsBlank(s[..a]) && IsBlank(s[b..]);
      s[a..b]
  }

  /** A string with no whitespace at either end is left alone by trim. */
  lemma TrimOfTrimmed(s: string)
    requires s == [] || (!IsSpace(s[0]) && !IsSpace(s[|s| - 1]))
    ensures Trim(s) == s
  {
  }

  function LowerChar(c: char): char
  {
    if 'A' <= c <= 'Z' then (c as int + 32) as char else c
  }

  function UpperChar(c: char): char
  {
    if 'a' <= c <= 'z' then (c as int - 32) as char else c
  }

  /** String.prototype.toLowerCase, on the ASCII letters. */
  function ToLower(s: string): (r: string)
    ensures |r| == |s|
  {
    seq(|s|, i requires 0 <= i < |s| => LowerChar(s[i]))
  }

  /** String.prototype.toUpperCase, on the ASCII letters. */
  function ToUpper(s: string): (r: string)
    ensures |r| == |s|
  {
    seq(|s|, i requires 0 <= i < |s| => UpperChar(s[i]))
  }

  predicate EndsWith(s: string, suffix: string)
  {
    |suffix| <= |s| && s[|s| - |suffix|..] == suffix
  }

  // ---------------------------------------------------------------------
  // Decimal rendering of a non-negative integer (template literal `${n}`)

  predicate IsDigit(c: char) { '0' <= c <= '9' }

  predicate AllDigits(s: string) { forall i :: 0 <= i < |s| ==> IsDigit(s[i]) }

  function DigitChar(d: nat): (c: char)
    requires d < 10
    ensures IsDigit(c) && c as int - '0' as int == d
  {
    ('0' as int + d) as char
  }

  function DigitsValue(s: string): nat
    requires AllDigits(s)
  {
    if s == [] then 0
    else 10 * DigitsValue(s[..|s| - 1]) + (s[|s| - 1] as int - '0' as int)
  }

  /** `${n}` for a non-negative integer: its decimal digits, no leading zero. */
  function NatToString(n: nat): (s: string)
    ensures |s| >= 1 && AllDigits(s)
    ensures |s| > 1 ==> s[0] != '0'
  {
    if n < 10 then [DigitChar(n)] else NatToString(n / 10) + [DigitChar(n % 10)]
  }

  /** Reading the digits back gives the number: the rendering loses nothing. */
  lemma {:induction false} NatToStringRoundTrip(n: nat)
    ensures DigitsValue(NatToString(n)) == n
  {
    if n >= 10 {
      NatToStringRoundTrip(n / 10);
      var s := NatToString(n);
      assert s[..|s| - 1] == NatToString(n / 10);
    }
  }

  /** Distinct numbers render as distinct strings. */
  lemma NatToStringInjective(a: nat, b: nat)
    requires NatToString(a) == NatToString(b)
    ensures a == b
  {
    NatToStringRoundTrip(a);
    NatToStringRoundTrip(b);
  }

  // ---------------------------------------------------------------------
  // String.prototype.split and Array.prototype.join on one character

  lemma AppendAssoc(a: string, b: string, c: string)
    ensures a + b + c == a + (b + c)
  {
  }

  function Split(s: string, sep: char): (parts: seq<string>)
    ensures |parts| >= 1
    ensures forall k :: 0 <= k < |parts| ==> sep !in parts[k]
  {
    if s == [] then [[]]
    else
      var rest := Split(s[1..], sep);
      if s[0] == sep then [[]] + rest
      else [[s[0]] + rest[0]] + rest[1..]
  }

  function Join(parts: seq<string>, sep: char): string
  {
    if parts == [] then []
    else if |parts| == 1 then parts[0]
    else parts[0] + [sep] + Join(parts[1..], sep)
  }

  lemma {:induction false} JoinSplit(s: string, sep: char)
    ensures Join(Split(s, sep), sep) == s
  {
    if s != [] {
      JoinSplit(s[1..], sep);
      var rest := Split(s[1..], sep);
      if s[0] != sep {
        if |rest| == 1 {
        } else {
          assert rest == [rest[0]] + rest[1..];
          assert Join(rest, sep) == rest[0] + [sep] + Join(rest[1..], sep);
        }
      }
    }
  }

  lemma {:induction false} SplitJoin(parts: seq<string>, sep: char)
    requires |parts| >= 1
    requires forall k :: 0 <= k < |parts| ==> sep !in parts[k]
    ensures Split(Join(parts, sep), sep) == parts
  {
    if |parts| == 1 {
      SplitNoSep(parts[0], sep);
    } else {
      SplitJoin(parts[1..], sep);
      SplitPrefix(parts[0], Join(parts[1..], sep), sep);
      assert parts == [parts[0]] + parts[1..];
    }
  }

  lemma {:induction false} SplitNoSep(s: string, sep: char)
    requires sep !in s
    ensures Split(s, sep) == [s]
  {
    if s != [] {
      SplitNoSep(s[1..], sep);
      assert [s[0]] + s[1..] == s;
    }
  }

  lemma {:induction false} SplitPrefix(a: string, b: string, sep: char)
    requires sep !in a
    ensures Split(a + [sep] + b, sep) == [a] + Split(b, sep)
  {
    if a == [] {
      assert a + [sep] + b == [sep] + b;
      assert ([sep] + b)[1..] == b;
    } else {
      SplitPrefix(a[1..], b, sep);
      assert (a + [sep] + b)[1..] == a[1..] + [sep] + b;
      assert [a[0]] + a[1..] == a;
    }
  }

  // ---------------------------------------------------------------------
  // Loosely typed field values

  /** A field that may be missing (null or undefined). */
  datatype Option<T> = None | Some(value: T)

  /** The values a record field can hold, as far as the strict and loose
      tests below are concerned. */
  datatype JsValue = Undefined | Null | Bool(b: bool) | Number(x: Ratio) | Str(s: string) | Object

  /** ToBoolean: what `if (v)` and `v || d` see. */
  predicate Truthy(v: JsValue)
  {
    match v
    case Undefined => false
    case Null => false
    case Bool(b) => b
    case Number(x) => x.num != 0
    case Str(s) => s != []
    case Object => true
  }

  /** `v === true`. */
  predicate IsStrictTrue(v: JsValue)
  {
    v == Bool(true)
  }

  /** `s || d` for a string field: the empty string stands for a missing one. */
  function OrDefault(s: string, d: string): (r: string)
    ensures s != [] ==> r == s
    ensures s == [] ==> r == d
  {
    if s != [] then s else d
  }
}
