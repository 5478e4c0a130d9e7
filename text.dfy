/** String helpers the updater takes from its base library, stated over
    `seq<char>` with each character standing for one byte: `Split`,
    `Trim`, `find`, C-string truncation at NUL, the integer parsers
    `ParseInt`/`ParseUint`, the scanf integer conversions and
    `std::to_string`. */
module Text {
  import opened Values

  const INT64_MIN: int := -0x8000_0000_0000_0000
  const INT64_MAX: int := 0x7fff_ffff_ffff_ffff
  const UINT64_MAX: int := 0xffff_ffff_ffff_ffff

  /** `isspace` in the C locale. */
  predicate IsSpace(c: char)
  {
    c == ' ' || c == '\t' || c == '\n' || c == '\U{0B}' || c == '\U{0C}' || c == '\r'
  }

  // ---------------------------------------------------------------------
  // Searching, splitting and joining

  /** `s.find(c, from)`: the first index at or after `from` holding `c`. */
  function FindFrom(s: string, c: char, from: nat): (r: Option<nat>)
    ensures r.Some? ==> from <= r.value < |s| && s[r.value] == c
    ensures r.Some? ==> forall k | from <= k < r.value :: s[k] != c
    ensures r.None? ==> forall k | from <= k < |s| :: s[k] != c
    decreases |s| - from
  {
    if from >= |s| then None
    else if s[from] == c then Some(from)
    else FindFrom(s, c, from + 1)
  }

  /** `android::base::Split(s, d)` with a one-character delimiter: the
      pieces between delimiters, so "a\nb\n" gives "a", "b" and "". */
  function Split(s: string, d: char): (r: seq<string>)
    ensures |r| >= 1
    ensures forall i | 0 <= i < |r| :: d !in r[i]
    decreases |s|
  {
    match FindFrom(s, d, 0)
    case None => [s]
    case Some(k) => [s[..k]] + Split(s[k + 1..], d)
  }

  /** `android::base::Join(parts, d)`. */
  function Join(parts: seq<string>, d: char): string
  {
    if |parts| == 0 then ""
    else if |parts| == 1 then parts[0]
    else parts[0] + [d] + Join(parts[1..], d)
  }

  /** Splitting loses nothing: joining the pieces gives the input back. */
  lemma {:induction false} JoinSplit(s: string, d: char)
    ensures Join(Split(s, d), d) == s
    decreases |s|
  {
    match FindFrom(s, d, 0)
    case None =>
    case Some(k) =>
      var pieces, tail := Split(s, d), Split(s[k + 1..], d);
      assert pieces == [s[..k]] + tail;
      assert pieces[0] == s[..k] && pieces[1..] == tail;
      assert Join(pieces, d) == s[..k] + [d] + Join(tail, d);
      JoinSplit(s[k + 1..], d);
      assert s == s[..k] + [d] + s[k + 1..];
  }

  /** Joining pieces free of the delimiter and splitting them again gives
      the pieces back. */
  lemma {:induction false} SplitJoin(parts: seq<string>, d: char)
    requires |parts| >= 1
    requires forall i | 0 <= i < |parts| :: d !in parts[i]
    ensures Split(Join(parts, d), d) == parts
    decreases |parts|
  {
    if |parts| == 1 {
      assert FindFrom(parts[0], d, 0).None?;
    } else {
      var a, rest := parts[0], Join(parts[1..], d);
      assert Join(parts, d) == a + [d] + rest;
      SplitAtFirst(a, d, rest);
      SplitJoin(parts[1..], d);
      assert parts == [a] + parts[1..];
    }
  }

  /** A text made of a delimiter-free piece, the delimiter and a rest splits
      into the piece and the pieces of the rest. */
  lemma SplitAtFirst(a: string, d: char, rest: string)
    requires d !in a
    ensures Split(a + [d] + rest, d) == [a] + Split(rest, d)
  {
    var s := a + [d] + rest;
    assert s[|a|] == d;
    assert forall k | 0 <= k < |a| :: s[k] == a[k];
    assert FindFrom(s, d, 0) == Some(|a|);
    assert s[..|a|] == a;
    assert s[|a| + 1..] == rest;
  }

  // ---------------------------------------------------------------------
  // Trimming

  /** The number of leading white-space characters. */
  function LeadingSpaces(s: string): (n: nat)
    ensures n <= |s|
    ensures forall k | 0 <= k < n :: IsSpace(s[k])
    ensures n < |s| ==> !IsSpace(s[n])
  {
    if s != [] && IsSpace(s[0]) then 1 + LeadingSpaces(s[1..]) else 0
  }

  /** The number of trailing white-space characters. */
  function TrailingSpaces(s: string): (n: nat)
    ensures n <= |s|
    ensures forall k | |s| - n <= k < |s| :: IsSpace(s[k])
    ensures n < |s| ==> !IsSpace(s[|s| - 1 - n])
  {
    if s != [] && IsSpace(s[|s| - 1]) then 1 + TrailingSpaces(s[..|s| - 1]) else 0
  }

  /** `android::base::Trim`: `s` without its leading and trailing white
      space. */
  function Trim(s: string): (r: string)
    ensures r != [] ==> !IsSpace(r[0]) && !IsSpace(r[|r| - 1])
  {
    var i := LeadingSpaces(s);
    var t := s[i..];
    s[i..i + |t| - TrailingSpaces(t)]
  }

  /** The trimmed text is the unique slice `s[i..j]` that neither starts
      nor ends with white space and outside which `s` is all white space. */
  lemma TrimSlice(s: string)
    ensures exists i, j | 0 <= i <= j <= |s| ::
      Trim(s) == s[i..j] &&
      (forall k | 0 <= k < i :: IsSpace(s[k])) &&
      (forall k | j <= k < |s| :: IsSpace(s[k]))
  {
    var i := LeadingSpaces(s);
    var t := s[i..];
    var n := TrailingSpaces(t);
    var j := i + |t| - n;
    assert Trim(s) == s[i..j];
    assert forall k | j <= k < |s| :: s[k] == t[k - i];
    assert forall k | j <= k < |s| :: IsSpace(s[k]);
  }

  /** Trimming keeps only characters of `s`. */
  lemma TrimWithin(s: string, c: char)
    requires c in Trim(s)
    ensures c in s
  {
    var i := LeadingSpaces(s);
    var t := s[i..];
    var j := i + |t| - TrailingSpaces(t);
    var k :| 0 <= k < |Trim(s)| && Trim(s)[k] == c;
    assert s[i + k] == c;
  }

  /** Neither starts nor ends with white space. */
  predicate Trimmed(s: string)
  {
    s == [] || (!IsSpace(s[0]) && !IsSpace(s[|s| - 1]))
  }

  /** Trimming leaves a string without outer white space as it is. */
  lemma TrimTrimmed(s: string)
    requires Trimmed(s)
    ensures Trim(s) == s
  {
    assert LeadingSpaces(s) == 0;
    assert s[0..] == s;
    assert TrailingSpaces(s) == 0;
  }

  // ---------------------------------------------------------------------
  // C strings

  /** The C string a `std::string`'s `c_str()` denotes: everything before
      the first NUL. */
  function CPrefix(s: string): (r: string)
    ensures r <= s && '\0' !in r
    ensures |r| < |s| ==> s[|r|] == '\0'
  {
    match FindFrom(s, '\0', 0)
    case None => s
    case Some(k) => s[..k]
  }

  /** Text without a NUL is its own C string. */
  lemma CPrefixNoNul(s: string)
    requires '\0' !in s
    ensures CPrefix(s) == s
  {
    assert forall k | 0 <= k < |s| :: s[k] in s;
  }

  // ---------------------------------------------------------------------
  // Digits

  /** The value of a digit character in bases up to 16. */
  function DigitValue(c: char): (r: Option<nat>)
    ensures r.Some? ==> r.value < 16
  {
    if '0' <= c <= '9' then Some(c as int - '0' as int)
    else if 'a' <= c <= 'f' then Some(c as int - 'a' as int + 10)
    else if 'A' <= c <= 'F' then Some(c as int - 'A' as int + 10)
    else None
  }

  predicate IsDigit(c: char, base: nat)
  {
    DigitValue(c).Some? && DigitValue(c).value < base
  }

  predicate AllDigits(s: string, base: nat)
  {
    forall k | 0 <= k < |s| :: IsDigit(s[k], base)
  }

  /** Digits are never NUL. */
  lemma DigitsNoNul(s: string, base: nat)
    requires AllDigits(s, base)
    ensures '\0' !in s
  {
  }

  /** The number a string of digits denotes in `base`, most significant
      digit first. */
  function DigitsValue(s: string, base: nat): nat
    requires AllDigits(s, base)
  {
    if s == [] then 0
    else DigitsValue(s[..|s| - 1], base) * base + DigitValue(s[|s| - 1]).value
  }

  /** The length of the longest prefix of `s` made of digits of `base`. */
  function DigitRun(s: string, base: nat): (n: nat)
    ensures n <= |s| && AllDigits(s[..n], base)
    ensures n < |s| ==> !IsDigit(s[n], base)
  {
    if s != [] && IsDigit(s[0], base) then
      var n := 1 + DigitRun(s[1..], base);
      assert forall k | 1 <= k < n :: s[..n][k] == s[1..][..n - 1][k - 1];
      n
    else 0
  }

  /** A non-empty, all-digit string's value. */
  function Digits(s: string, base: nat): (r: Option<nat>)
    ensures r.Some? <==> s != [] && AllDigits(s, base)
  {
    if s != [] && AllDigits(s, base) then Some(DigitsValue(s, base)) else None
  }

  predicate HasHexPrefix(t: string)
  {
    |t| >= 2 && t[0] == '0' && (t[1] == 'x' || t[1] == 'X')
  }

  // ---------------------------------------------------------------------
  // android::base::ParseInt / ParseUint

  /** `android::base::ParseInt<int64_t>`: leading white space is skipped;
      then "0x"/"0X" and hex digits, or an optional sign and decimal
      digits; nothing may follow, and the value must fit in 64 bits. */
  function ParseInt(s: string): (r: Option<int>)
    ensures r.Some? ==> INT64_MIN <= r.value <= INT64_MAX
  {
    var t := s[LeadingSpaces(s)..];
    var hex := HasHexPrefix(t);
    var signed := !hex && t != [] && (t[0] == '-' || t[0] == '+');
    var m :=
      if hex then Digits(t[2..], 16)
      else if signed then Digits(t[1..], 10)
      else Digits(t, 10);
    if m.None? then None
    else
      var mag: int := m.value;
      var v := if signed && t[0] == '-' then -mag else mag;
      if INT64_MIN <= v <= INT64_MAX then Some(v) else None
  }

  /** `android::base::ParseUint<size_t>` on a 64-bit target: as ParseInt,
      but a leading '-' is refused and the range is 0 .. 2^64 - 1. */
  function ParseUint(s: string): (r: Option<nat>)
    ensures r.Some? ==> r.value <= UINT64_MAX
  {
    var t := s[LeadingSpaces(s)..];
    if t != [] && t[0] == '-' then None
    else
      var v :=
        if HasHexPrefix(t) then Digits(t[2..], 16)
        else if t != [] && t[0] == '+' then Digits(t[1..], 10)
        else Digits(t, 10);
      if v.Some? && v.value <= UINT64_MAX then v else None
  }

  // ---------------------------------------------------------------------
  // sscanf integer conversions (as in the BSD scanf of Android's libc)

  /** The sign of an optional leading '+' or '-', and the text after it. */
  function Sign(t: string): (r: (int, string))
    ensures r.0 == 1 || r.0 == -1
    ensures |r.1| <= |t|
  {
    if t != [] && t[0] == '-' then (-1, t[1..])
    else if t != [] && t[0] == '+' then (1, t[1..])
    else (1, t)
  }

  /** `sscanf(s, "%" SCNd64, &x) == 1`: the longest optionally signed
      decimal number after leading white space; anything after it is
      ignored.  The value is not reduced to 64 bits here. */
  function ScanDecimal(s: string): (r: Option<int>)
  {
    var (sign, u) := Sign(s[LeadingSpaces(s)..]);
    var n := DigitRun(u, 10);
    if n == 0 then None else Some(sign * DigitsValue(u[..n], 10))
  }

  /** `sscanf(s, "%" SCNi32, &x) == 1` (and SCNi64): like ScanDecimal, but
      the base follows the text: "0x" then hex, a leading '0' octal,
      decimal otherwise.  A "0x" not followed by a hex digit reads as 0. */
  function ScanInteger(s: string): (r: Option<int>)
  {
    var (sign, u) := Sign(s[LeadingSpaces(s)..]);
    if HasHexPrefix(u) && |u| > 2 && IsDigit(u[2], 16) then
      var h := u[2..];
      Some(sign * DigitsValue(h[..DigitRun(h, 16)], 16))
    else if u != [] && u[0] == '0' then
      Some(sign * DigitsValue(u[..DigitRun(u, 8)], 8))
    else
      var n := DigitRun(u, 10);
      if n == 0 then None else Some(sign * DigitsValue(u[..n], 10))
  }

  // ---------------------------------------------------------------------
  // std::to_string

  function DigitChar(d: nat): (c: char)
    requires d < 10
    ensures IsDigit(c, 10) && DigitValue(c) == Some(d)
  {
    ('0' as int + d) as char
  }

  function NatToString(n: nat): (s: string)
    ensures s != [] && AllDigits(s, 10)
    decreases n
  {
    if n < 10 then [DigitChar(n)] else NatToString(n / 10) + [DigitChar(n % 10)]
  }

  /** `std::to_string` of a signed integer. */
  function IntToString(n: int): string
  {
    if n < 0 then "-" + NatToString(-n) else NatToString(n)
  }

  lemma {:induction false} NatToStringValue(n: nat)
    ensures DigitsValue(NatToString(n), 10) == n
    decreases n
  {
    var s := NatToString(n);
    if n >= 10 {
      NatToStringValue(n / 10);
      assert s[..|s| - 1] == NatToString(n / 10);
    }
  }

  /** `ParseInt` reads back what `std::to_string` wrote. */
  lemma ParseIntToString(n: int)
    requires INT64_MIN <= n <= INT64_MAX
    ensures ParseInt(IntToString(n)) == Some(n)
  {
    var s := IntToString(n);
    var m: nat := if n < 0 then -n else n;
    var u := NatToString(m);
    NatToStringValue(m);
    assert IsDigit(u[0], 10);
    assert !IsSpace(s[0]);
    assert LeadingSpaces(s) == 0;
    assert s[0..] == s;
    if n < 0 {
      assert s[1..] == u;
      assert !HasHexPrefix(s);
      assert Digits(s[1..], 10) == Some(m);
    } else {
      assert s == u;
      assert !HasHexPrefix(s) by {
        if |s| >= 2 { assert IsDigit(s[1], 10); }
      }
      assert Digits(s, 10) == Some(m);
    }
  }

  /** The decimal scanf conversion reads back what `std::to_string` wrote. */
  lemma ScanDecimalToString(n: int)
    ensures ScanDecimal(IntToString(n)) == Some(n)
  {
    var s := IntToString(n);
    assert LeadingSpaces(s) == 0;
    assert s[0..] == s;
    var m := if n < 0 then -n else n;
    var u := NatToString(m);
    assert Sign(s).1 == u;
    NatToStringValue(m);
    assert u[..|u|] == u;
    assert DigitRun(u, 10) == |u|;
  }
  /** A leading zero does not change the value of a string of digits. */
  lemma {:induction false} LeadingZeroValue(d: string, base: nat)
    requires AllDigits(d, base) && IsDigit('0', base)
    ensures AllDigits("0" + d, base) && DigitsValue("0" + d, base) == DigitsValue(d, base)
    decreases |d|
  {
    var s := "0" + d;
    forall k | 0 <= k < |s| ensures IsDigit(s[k], base) {
      if k > 0 { assert s[k] == d[k - 1]; }
    }
    if d != [] {
      var init := d[..|d| - 1];
      assert AllDigits(init, base) by {
        forall k | 0 <= k < |init| ensures IsDigit(init[k], base) { assert init[k] == d[k]; }
      }
      LeadingZeroValue(init, base);
      assert s[..|s| - 1] == "0" + init;
    }
  }

  /** A digit string that is all digits is its own longest digit run. */
  lemma DigitRunAll(s: string, base: nat)
    requires AllDigits(s, base)
    ensures DigitRun(s, base) == |s| && s[..DigitRun(s, base)] == s
  {
  }

  /** The integer conversion reads "0" and octal digits in base 8. */
  lemma ScanIntegerOctal(d: string)
    requires AllDigits(d, 8)
    ensures ScanInteger("0" + d) == Some(DigitsValue(d, 8))
  {
    var s := "0" + d;
    assert LeadingSpaces(s) == 0;
    assert s[0..] == s;
    assert Sign(s) == (1, s);
    assert !HasHexPrefix(s) by {
      if |s| >= 2 { assert s[1] == d[0]; }
    }
    LeadingZeroValue(d, 8);
    DigitRunAll(s, 8);
  }

  /** The integer conversion reads "0x" and hex digits in base 16. */
  lemma ScanIntegerHex(h: string)
    requires h != [] && AllDigits(h, 16)
    ensures ScanInteger("0x" + h) == Some(DigitsValue(h, 16))
  {
    var s := "0x" + h;
    assert LeadingSpaces(s) == 0;
    assert s[0..] == s;
    assert Sign(s) == (1, s);
    assert s[2] == h[0];
    assert s[2..] == h;
    DigitRunAll(h, 16);
  }

  /** The decimal form of a positive number does not start with '0'. */
  lemma {:induction false} NatToStringLead(n: nat)
    requires n > 0
    ensures NatToString(n)[0] != '0'
    decreases n
  {
    if n >= 10 {
      NatToStringLead(n / 10);
    }
  }

  /** The integer conversion reads back what `std::to_string` wrote: the
      text of 0 is read as octal, any other as decimal. */
  lemma ScanIntegerToString(n: int)
    ensures ScanInteger(IntToString(n)) == Some(n)
  {
    var s := IntToString(n);
    assert LeadingSpaces(s) == 0;
    assert s[0..] == s;
    var m := if n < 0 then -n else n;
    var u := NatToString(m);
    assert Sign(s).1 == u;
    NatToStringValue(m);
    if m == 0 {
      assert u == "0" && !HasHexPrefix(u);
      assert AllDigits(u, 8);
      DigitRunAll(u, 8);
      assert DigitsValue(u, 8) == 0 by { assert u[..0] == []; }
    } else {
      NatToStringLead(m);
      assert !HasHexPrefix(u);
      DigitRunAll(u, 10);
    }
  }
}
