/** Text utilities shared by every component: the few `str` and integer
    operations of Rust's standard library that the program relies on
    (`starts_with`, `split_once`, `contains`, `trim`, `Display` and
    `FromStr` of `usize`, `Debug` of `str`), written out so that their edge cases are explicit. */
module Strings {

  datatype Option<+T> = None | Some(value: T) {
    /** `Option::unwrap_or` */
    function GetOr(default: T): T {
      match this
      case Some(v) => v
      case None => default
    }
  }

  /** `anyhow::Result` and friends: a value or the reason there is none. */
  datatype Result<+T, +E> = Ok(value: T) | Err(error: E)

  /** `usize::MAX` on the 64-bit targets the program is built for. */
  const USIZE_MAX: nat := 0xFFFF_FFFF_FFFF_FFFF

  predicate StartsWith(s: string, prefix: string) {
    |prefix| <= |s| && s[..|prefix|] == prefix
  }

  predicate EndsWith(s: string, suffix: string) {
    |suffix| <= |s| && s[|s| - |suffix|..] == suffix
  }

  /** Does `pat` occur in `s` at position `i`? */
  predicate OccursAt(s: string, pat: string, i: nat) {
    i + |pat| <= |s| && s[i..i + |pat|] == pat
  }

  /** Index of the first occurrence of `pat` in `s` at or after `from` (`str::find`). */
  function FindFrom(s: string, pat: string, from: nat): (r: Option<nat>)
    decreases |s| - from
    ensures r.Some? ==> from <= r.value && OccursAt(s, pat, r.value)
    ensures forall i: nat :: from <= i && (r.None? || i < r.value) ==> !OccursAt(s, pat, i)
  {
    if from + |pat| > |s| then None
    else if s[from..from + |pat|] == pat then Some(from)
    else FindFrom(s, pat, from + 1)
  }

  function Find(s: string, pat: string): (r: Option<nat>)
    ensures r.Some? ==> OccursAt(s, pat, r.value)
    ensures forall i: nat :: (r.None? || i < r.value) ==> !OccursAt(s, pat, i)
  {
    FindFrom(s, pat, 0)
  }

  /** `str::contains` */
  predicate Contains(s: string, pat: string) {
    Find(s, pat).Some?
  }

  /** `str::split_once`: the text before and after the first occurrence of `delim`. */
  function SplitOnce(s: string, delim: string): (r: Option<(string, string)>)
    ensures r.None? <==> forall i: nat :: !OccursAt(s, delim, i)
    ensures r.Some? ==> s == r.value.0 + delim + r.value.1
    ensures r.Some? ==> forall i: nat :: i < |r.value.0| ==> !OccursAt(s, delim, i)
  {
    match Find(s, delim)
    case None => None
    case Some(i) =>
      assert s == s[..i] + delim + s[i + |delim|..];
      Some((s[..i], s[i + |delim|..]))
  }

  /** `str::rfind`: index of the last occurrence of `pat`. */
  function RFind(s: string, pat: string): (r: Option<nat>)
    ensures r.Some? ==> OccursAt(s, pat, r.value)
    ensures forall i: nat :: (r.None? || i > r.value) ==> !OccursAt(s, pat, i)
  {
    RFindBelow(s, pat, |s| + 1)
  }

  /** Last occurrence of `pat` at an index below `bound`. */
  function RFindBelow(s: string, pat: string, bound: nat): (r: Option<nat>)
    ensures r.Some? ==> r.value < bound && OccursAt(s, pat, r.value)
    ensures forall i: nat :: i < bound && (r.None? || i > r.value) ==> !OccursAt(s, pat, i)
  {
    if bound == 0 then None
    else if OccursAt(s, pat, bound - 1) then Some(bound - 1)
    else RFindBelow(s, pat, bound - 1)
  }

  /** Rust's `char::is_whitespace`: the Unicode White_Space property. */
  predicate IsWhitespace(c: char) {
    var n := c as int;
    (0x09 <= n <= 0x0D) || n == 0x20 || n == 0x85 || n == 0xA0 || n == 0x1680 ||
    (0x2000 <= n <= 0x200A) || n == 0x2028 || n == 0x2029 || n == 0x202F ||
    n == 0x205F || n == 0x3000
  }

  /** The number of leading whitespace characters of `s`. */
  function LeadingWhitespace(s: string): (n: nat)
    ensures n <= |s|
    ensures forall i :: 0 <= i < n ==> IsWhitespace(s[i])
    ensures n == |s| || !IsWhitespace(s[n])
  {
    if s != [] && IsWhitespace(s[0]) then 1 + LeadingWhitespace(s[1..]) else 0
  }

  /** `str::trim_start` */
  function TrimStart(s: string): string {
    s[LeadingWhitespace(s)..]
  }

  /** `str::trim_end` */
  function TrimEnd(s: string): (r: string)
    ensures |r| <= |s| && r == s[..|r|]
    ensures r == [] || !IsWhitespace(r[|r| - 1])
    ensures forall i :: |r| <= i < |s| ==> IsWhitespace(s[i])
  {
    if s != [] && IsWhitespace(s[|s| - 1]) then TrimEnd(s[..|s| - 1]) else s
  }

  /** `str::trim` */
  function Trim(s: string): string {
    TrimEnd(TrimStart(s))
  }

  /** `str::strip_suffix` */
  function StripSuffix(s: string, suffix: string): (r: Option<string>)
    ensures r.Some? <==> EndsWith(s, suffix)
    ensures r.Some? ==> s == r.value + suffix
  {
    if EndsWith(s, suffix) then
      assert s == s[..|s| - |suffix|] + suffix;
      Some(s[..|s| - |suffix|])
    else None
  }

  predicate IsDigit(c: char) {
    '0' <= c <= '9'
  }

  predicate AllDigits(s: string) {
    forall i :: 0 <= i < |s| ==> IsDigit(s[i])
  }

  function DigitChar(d: nat): (c: char)
    requires d < 10
    ensures IsDigit(c)
  {
    ('0' as int + d) as char
  }

  /** Value of a string of decimal digits, most significant first. */
  function DigitsValue(s: string): nat
    requires AllDigits(s)
  {
    if s == [] then 0
    else DigitsValue(s[..|s| - 1]) * 10 + (s[|s| - 1] as int - '0' as int)
  }

  /** `usize` formatted with `{}`: decimal, no sign, no leading zeros. */
  function NatToString(n: nat): (r: string)
    ensures |r| >= 1 && AllDigits(r)
    ensures |r| > 1 ==> r[0] != '0'
  {
    if n < 10 then [DigitChar(n)] else NatToString(n / 10) + [DigitChar(n % 10)]
  }

  lemma {:induction false} NatToStringValue(n: nat)
    ensures DigitsValue(NatToString(n)) == n
  {
    var r := NatToString(n);
    if n >= 10 {
      NatToStringValue(n / 10);
      assert r[..|r| - 1] == NatToString(n / 10);
    }
  }

  /** Distinct numbers have distinct decimal forms. */
  lemma NatToStringInjective(a: nat, b: nat)
    requires NatToString(a) == NatToString(b)
    ensures a == b
  {
    NatToStringValue(a);
    NatToStringValue(b);
  }

  /** The `width$` format of a `usize`: right-aligned, padded with spaces up to `width`. */
  function PadLeft(s: string, width: nat): (r: string)
    ensures |r| == if |s| < width then width else |s|
    ensures EndsWith(r, s)
    ensures forall i :: 0 <= i < |r| - |s| ==> r[i] == ' '
  {
    var pad := if |s| < width then width - |s| else 0;
    var r := seq(pad, _ => ' ') + s;
    assert r[|r| - |s|..] == s;
    r
  }

  /** `usize::from_str`: an optional `+`, then at least one decimal digit, and
      a value that fits in 64 bits; anything else is an error. */
  function ParseUsize(s: string): (r: Option<nat>)
    ensures r.Some? ==> r.value <= USIZE_MAX
  {
    var digits := if |s| > 0 && s[0] == '+' then s[1..] else s;
    if digits == [] || !AllDigits(digits) then None
    else if DigitsValue(digits) <= USIZE_MAX then Some(DigitsValue(digits))
    else None
  }

  /** Parsing what `NatToString` prints gives the number back. */
  lemma ParseNatToString(n: nat)
    requires n <= USIZE_MAX
    ensures ParseUsize(NatToString(n)) == Some(n)
  {
    NatToStringValue(n);
  }

  /** `usize::ilog10`; panics on 0, hence the requires. */
  function ILog10(n: nat): nat
    requires n >= 1
  {
    if n < 10 then 0 else 1 + ILog10(n / 10)
  }

  /** `ilog10(n) + 1` is the number of digits `{}` prints for `n`. */
  lemma {:induction false} ILog10Digits(n: nat)
    requires n >= 1
    ensures ILog10(n) + 1 == |NatToString(n)|
  {
    if n >= 10 { ILog10Digits(n / 10); }
  }

  /** A smaller number never prints with more digits. */
  lemma {:induction false} DigitsMonotone(a: nat, b: nat)
    requires a <= b
    ensures |NatToString(a)| <= |NatToString(b)|
  {
    if a >= 10 { DigitsMonotone(a / 10, b / 10); }
  }

  // ---------------------------------------------------------------------
  // `Debug` of a string

  /** The ASCII control characters, which `Debug` never writes as they are. */
  predicate IsControl(c: char) {
    c < ' ' || c as int == 0x7F
  }

  function HexDigit(d: nat): (c: char)
    requires d < 16
    ensures !IsControl(c)
  {
    if d < 10 then ('0' as int + d) as char else ('a' as int + d - 10) as char
  }

  /** Lower-case hexadecimal without leading zeros, as in `\u{1b}`. */
  function Hex(n: nat): (r: string)
    ensures |r| >= 1 && forall i :: 0 <= i < |r| ==> !IsControl(r[i])
  {
    if n < 16 then [HexDigit(n)] else Hex(n / 16) + [HexDigit(n % 16)]
  }

  /** `char::escape_debug` as `<str as Debug>` applies it: the named escapes,
      `\u{..}` for the other control characters, anything else as it is. */
  function EscapeDebugChar(c: char): (r: string)
    ensures |r| >= 1 && forall i :: 0 <= i < |r| ==> !IsControl(r[i])
    ensures r == [c] <==> !IsControl(c) && c != '\\' && c != '"'
  {
    if c == '\0' then "\\0"
    else if c == '\t' then "\\t"
    else if c == '\r' then "\\r"
    else if c == '\n' then "\\n"
    else if c == '\\' then "\\\\"
    else if c == '"' then "\\\""
    else if IsControl(c) then "\\u{" + Hex(c as nat) + "}"
    else [c]
  }

  function EscapeDebug(s: string): (r: string)
    ensures forall i :: 0 <= i < |r| ==> !IsControl(r[i])
  {
    if s == [] then [] else EscapeDebugChar(s[0]) + EscapeDebug(s[1..])
  }

  /** `format!("{s:?}")`: the escaped text between double quotes. It is a
      single line whatever `s` holds. */
  function DebugStr(s: string): (r: string)
    ensures |r| >= |s| + 2 && r[0] == '"' && r[|r| - 1] == '"'
    ensures forall i :: 0 <= i < |r| ==> !IsControl(r[i])
  {
    EscapeDebugLength(s);
    "\"" + EscapeDebug(s) + "\""
  }

  lemma {:induction false} EscapeDebugLength(s: string)
    ensures |EscapeDebug(s)| >= |s|
  {
    if s != [] { EscapeDebugLength(s[1..]); }
  }

  /** A string with no control character, backslash or double quote is
      written as it is, between quotes. */
  lemma {:induction false} DebugPlain(s: string)
    requires forall i :: 0 <= i < |s| ==> !IsControl(s[i]) && s[i] != '\\' && s[i] != '"'
    ensures DebugStr(s) == "\"" + s + "\""
  {
    PlainEscape(s);
  }

  lemma {:induction false} PlainEscape(s: string)
    requires forall i :: 0 <= i < |s| ==> !IsControl(s[i]) && s[i] != '\\' && s[i] != '"'
    ensures EscapeDebug(s) == s
  {
    if s != [] {
      PlainEscape(s[1..]);
      assert s == [s[0]] + s[1..];
    }
  }
}
