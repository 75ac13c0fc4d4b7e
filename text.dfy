/** String helpers shared by the converters: the JavaScript notions of
    whitespace, `trim`, `split`, `join`, `parseInt` and decimal rendering
    that the extension's code relies on. A string is a `seq<char>`, a
    sequence of Unicode scalar values; where the code compares JavaScript
    lengths, which count UTF-16 code units, `Utf16Length` counts them. */
module Text {
  import opened Wrappers

  /** The characters JavaScript's `trim` removes and `\s` matches
      (WhiteSpace and LineTerminator of ECMAScript). */
  predicate IsSpace(c: char) {
    c == ' ' || c == '\t' || c == '\n' || c == '\r' || c == '\U{000B}' || c == '\U{000C}'
    || c == '\U{00A0}' || c == '\U{1680}' || ('\U{2000}' <= c <= '\U{200A}')
    || c == '\U{2028}' || c == '\U{2029}' || c == '\U{202F}' || c == '\U{205F}'
    || c == '\U{3000}' || c == '\U{FEFF}'
  }

  predicate AllSpace(s: string) {
    forall i :: 0 <= i < |s| ==> IsSpace(s[i])
  }

  /** Index of the first non-space character (|s| when there is none). */
  function FirstNonSpace(s: string): (k: nat)
    ensures k <= |s|
    ensures AllSpace(s[..k])
    ensures k < |s| ==> !IsSpace(s[k])
  {
    if |s| == 0 || !IsSpace(s[0]) then 0
    else
      var k := 1 + FirstNonSpace(s[1..]);
      assert s[..k] == [s[0]] + s[1..][..k - 1];
      k
  }

  /** One past the last non-space character (0 when there is none). */
  function LastNonSpaceEnd(s: string): (k: nat)
    ensures k <= |s|
    ensures AllSpace(s[k..])
    ensures k > 0 ==> !IsSpace(s[k - 1])
  {
    if |s| == 0 || !IsSpace(s[|s| - 1]) then |s|
    else
      var k := LastNonSpaceEnd(s[..|s| - 1]);
      assert s[k..] == s[..|s| - 1][k..] + [s[|s| - 1]];
      k
  }

  /** JavaScript's `trimStart`. */
  function TrimStart(s: string): (r: string)
    ensures |r| <= |s|
  {
    if |s| > 0 && IsSpace(s[0]) then TrimStart(s[1..]) else s
  }

  /** JavaScript's `trimEnd`. */
  function TrimEnd(s: string): (r: string)
    ensures |r| <= |s|
  {
    if |s| > 0 && IsSpace(s[|s| - 1]) then TrimEnd(s[..|s| - 1]) else s
  }

  /** JavaScript's `String.prototype.trim`; `TrimShape` states what it keeps. */
  function Trim(s: string): (r: string)
    ensures |r| <= |s|
  {
    TrimEnd(TrimStart(s))
  }

  lemma TrimStartIs(s: string)
    ensures TrimStart(s) == s[FirstNonSpace(s)..]
  {
    if |s| > 0 && IsSpace(s[0]) {
      TrimStartIs(s[1..]);
      assert s[1..][FirstNonSpace(s[1..])..] == s[1 + FirstNonSpace(s[1..])..];
    }
  }

  lemma TrimEndIs(s: string)
    ensures TrimEnd(s) == s[..LastNonSpaceEnd(s)]
  {
    if |s| > 0 && IsSpace(s[|s| - 1]) {
      TrimEndIs(s[..|s| - 1]);
    }
  }

  /** `trim` keeps the slice of `s` from its first non-space character to
      its last one, and drops only white space on either side. */
  lemma TrimShape(s: string)
    ensures var r, i := Trim(s), FirstNonSpace(s);
            && i + |r| <= |s| && r == s[i..i + |r|]
            && (r != [] ==> !IsSpace(r[0]) && !IsSpace(r[|r| - 1]))
            && AllSpace(s[..i]) && AllSpace(s[i + |r|..])
  {
    var i := FirstNonSpace(s);
    var t := TrimStart(s);
    TrimStartIs(s);
    TrimEndIs(t);
    var r := Trim(s);
    assert r == t[..LastNonSpaceEnd(t)];
    assert r == s[i..i + |r|];
    assert s[i + |r|..] == t[LastNonSpaceEnd(t)..];
    if r != [] {
      assert r[0] == s[i];
    }
  }

  lemma TrimEmptyIffAllSpace(s: string)
    ensures Trim(s) == [] <==> AllSpace(s)
  {
    TrimShape(s);
    var i := FirstNonSpace(s);
    if Trim(s) == [] {
      assert s[..i] == s;
    } else {
      assert !IsSpace(s[i]);
    }
  }

  /** The UTF-16 code units JavaScript counts for a character: a surrogate
      pair (two) for one beyond the Basic Multilingual Plane, else one. */
  function Utf16Units(c: char): nat {
    if c as int >= 0x1_0000 then 2 else 1
  }

  /** JavaScript's `s.length`. */
  function Utf16Length(s: string): (n: nat)
    ensures |s| <= n <= 2 * |s|
  {
    if |s| == 0 then 0 else Utf16Units(s[0]) + Utf16Length(s[1..])
  }

  lemma {:induction false} Utf16LengthAppend(a: string, b: string)
    ensures Utf16Length(a + b) == Utf16Length(a) + Utf16Length(b)
  {
    if |a| > 0 {
      Utf16LengthAppend(a[1..], b);
      assert (a + b)[0] == a[0] && (a + b)[1..] == a[1..] + b;
    } else {
      assert a + b == b;
    }
  }

  /** A string within the Basic Multilingual Plane has one code unit per
      character. */
  lemma {:induction false} Utf16LengthOfBmp(s: string)
    requires forall i :: 0 <= i < |s| ==> s[i] as int < 0x1_0000
    ensures Utf16Length(s) == |s|
  {
    if |s| > 0 {
      Utf16LengthOfBmp(s[1..]);
    }
  }

  /** The longest prefix of `s` whose JavaScript length is at most `n`:
      `s.substring(0, n)` when the cut does not fall inside a surrogate
      pair, and one character shorter when it does. */
  function TakeUnits(s: string, n: nat): (r: string)
    ensures |r| <= |s| && r == s[..|r|] && Utf16Length(r) <= n
    ensures Utf16Length(s) <= n ==> r == s
    ensures |r| < |s| ==> Utf16Length(s[..|r| + 1]) > n
  {
    if |s| == 0 || Utf16Units(s[0]) > n then
      assert |s| > 0 ==> Utf16Length(s[..1]) == Utf16Units(s[0]);
      []
    else
      var t := TakeUnits(s[1..], n - Utf16Units(s[0]));
      var r := [s[0]] + t;
      assert r[0] == s[0] && r[1..] == t;
      assert r == s[..|r|];
      assert |r| < |s| ==> s[..|r| + 1][0] == s[0] && s[..|r| + 1][1..] == s[1..][..|t| + 1];
      r
  }

  /** Trimming a trimmed string changes nothing. */
  lemma TrimTrimmed(s: string)
    ensures Trim(Trim(s)) == Trim(s)
  {
    var r := Trim(s);
    TrimShape(s);
    assert TrimStart(r) == r;
    assert TrimEnd(r) == r;
  }

  /** `true` when the string is empty after trimming: JavaScript's `!s.trim()`. */
  predicate IsBlank(s: string) {
    Trim(s) == []
  }

  function Repeat(c: char, n: nat): (r: string)
    ensures |r| == n
    ensures forall i :: 0 <= i < n ==> r[i] == c
  {
    if n == 0 then [] else [c] + Repeat(c, n - 1)
  }

  /** Index of the first occurrence of `c` in `s`. */
  function IndexOf(s: string, c: char): (r: int)
    ensures -1 <= r < |s|
    ensures r >= 0 ==> s[r] == c && c !in s[..r]
    ensures r == -1 <==> c !in s
  {
    if |s| == 0 then -1
    else if s[0] == c then 0
    else
      var k := IndexOf(s[1..], c);
      if k == -1 then -1
      else
        assert s[..k + 1] == [s[0]] + s[1..][..k];
        k + 1
  }

  /** Index of the last occurrence of `c` in `s`: JavaScript's `lastIndexOf`. */
  function LastIndexOf(s: string, c: char): (r: int)
    ensures -1 <= r < |s|
    ensures r >= 0 ==> s[r] == c && c !in s[r + 1..]
    ensures r == -1 <==> c !in s
  {
    var r := LastIndexBefore(s, c, |s|);
    if r >= 0 then NotInSuffix(s, c, r); r else r
  }

  lemma NotInSuffix(s: string, c: char, r: nat)
    requires r < |s|
    requires forall j :: r < j < |s| ==> s[j] != c
    ensures c !in s[r + 1..]
  {
  }

  /** The scan from the end: the last position before `n` holding `c`. */
  function LastIndexBefore(s: string, c: char, n: nat): (r: int)
    requires n <= |s|
    ensures -1 <= r < n
    ensures r >= 0 ==> s[r] == c && forall j :: r < j < n ==> s[j] != c
    ensures r == -1 ==> forall j :: 0 <= j < n ==> s[j] != c
  {
    if n == 0 then -1
    else if s[n - 1] == c then n - 1
    else LastIndexBefore(s, c, n - 1)
  }

  /** `true` when `p` occurs in `s` at position `i`. */
  predicate OccursAt(s: string, p: string, i: nat) {
    i + |p| <= |s| && s[i..i + |p|] == p
  }

  /** JavaScript's `s.includes(p)`. */
  predicate Includes(s: string, p: string)
    decreases |s|
  {
    |p| <= |s| && (s[..|p|] == p || (|s| > 0 && Includes(s[1..], p)))
  }

  /** Appending to a string keeps what it includes. */
  lemma {:induction false} IncludesExtend(s: string, p: string, t: string)
    requires Includes(s, p)
    ensures Includes(s + t, p)
    decreases |s|
  {
    if s[..|p|] == p {
      assert (s + t)[..|p|] == p;
    } else {
      assert (s + t)[1..] == s[1..] + t;
      IncludesExtend(s[1..], p, t);
    }
  }

  /** A string includes any of its middle parts. */
  lemma {:induction false} IncludesMiddle(a: string, p: string, b: string)
    ensures Includes(a + p + b, p)
    decreases |a|
  {
    if a == [] {
      assert (a + p + b)[..|p|] == p;
    } else {
      assert (a + p + b)[1..] == a[1..] + p + b;
      IncludesMiddle(a[1..], p, b);
    }
  }

  /** `s.split(sep)` for a one-character separator: never empty, no piece
      holds the separator, and joining the pieces with it gives `s` back. */
  function Split(s: string, sep: char): (r: seq<string>)
    ensures |r| >= 1
    ensures forall k :: 0 <= k < |r| ==> sep !in r[k]
    ensures Join(r, [sep]) == s
    decreases |s|
  {
    var i := IndexOf(s, sep);
    if i == -1 then [s]
    else
      var rest := Split(s[i + 1..], sep);
      var r := [s[..i]] + rest;
      assert r[0] == s[..i] && r[1..] == rest;
      assert Join(r, [sep]) == s[..i] + [sep] + s[i + 1..];
      assert s == s[..i] + [sep] + s[i + 1..];
      r
  }

  /** `parts.join(sep)`. */
  function Join(parts: seq<string>, sep: string): (r: string)
  {
    if |parts| == 0 then []
    else if |parts| == 1 then parts[0]
    else parts[0] + sep + Join(parts[1..], sep)
  }

  function Concat(parts: seq<string>): string {
    if |parts| == 0 then [] else parts[0] + Concat(parts[1..])
  }

  lemma ConcatAppend(a: seq<string>, b: string)
    ensures Concat(a + [b]) == Concat(a) + b
  {
    if |a| == 0 {
      assert a + [b] == [b];
    } else {
      assert (a + [b])[1..] == a[1..] + [b];
      ConcatAppend(a[1..], b);
    }
  }

  // ---------------------------------------------------------------------
  // Numbers

  predicate IsDigit(c: char) { '0' <= c <= '9' }

  function DigitValue(c: char): nat
    requires IsDigit(c)
  {
    (c - '0') as nat
  }

  /** Value of a digit of the given radix (10 or 16), or -1. */
  function RadixDigit(c: char, radix: nat): int {
    if IsDigit(c) && (c - '0') as int < radix then (c - '0') as int
    else if radix == 16 && 'a' <= c <= 'f' then (c - 'a') as int + 10
    else if radix == 16 && 'A' <= c <= 'F' then (c - 'A') as int + 10
    else -1
  }

  /** Length of the longest prefix of `s` made of digits of `radix`. */
  function DigitRun(s: string, radix: nat): (k: nat)
    ensures k <= |s|
    ensures forall i :: 0 <= i < k ==> RadixDigit(s[i], radix) >= 0
    ensures k < |s| ==> RadixDigit(s[k], radix) < 0
  {
    if |s| == 0 || RadixDigit(s[0], radix) < 0 then 0
    else 1 + DigitRun(s[1..], radix)
  }

  /** The number written by a sequence of digits of `radix`, most significant first. */
  function DigitsValue(s: string, radix: nat): (r: int)
    requires forall i :: 0 <= i < |s| ==> RadixDigit(s[i], radix) >= 0
    ensures r >= 0
  {
    if |s| == 0 then 0
    else DigitsValue(s[..|s| - 1], radix) * radix + RadixDigit(s[|s| - 1], radix)
  }

  /** JavaScript's global `parseInt(s)` (when `radix10` is false) or
      `parseInt(s, 10)` (when it is true): leading whitespace skipped, an
      optional sign, a `0x` prefix selecting base 16 only when no radix is
      given, then the longest run of digits. `None` stands for NaN. */
  function ParseInt(s: string, radix10: bool): (r: Option<int>)
  {
    ParseSigned(s[FirstNonSpace(s)..], radix10)
  }

  function ParseSigned(t: string, radix10: bool): Option<int> {
    if |t| > 0 && t[0] == '-' then
      match ParseUnsigned(t[1..], radix10)
      case None => None
      case Some(m) => Some(-m)
    else if |t| > 0 && t[0] == '+' then ParseUnsigned(t[1..], radix10)
    else ParseUnsigned(t, radix10)
  }

  function ParseUnsigned(u: string, radix10: bool): Option<int> {
    if !radix10 && |u| >= 2 && u[0] == '0' && (u[1] == 'x' || u[1] == 'X') then ParseDigits(u[2..], 16)
    else ParseDigits(u, 10)
  }

  function ParseDigits(v: string, radix: nat): Option<int> {
    var n := DigitRun(v, radix);
    if n == 0 then None else Some(DigitsValue(v[..n], radix))
  }

  /** Decimal rendering of a natural number: JavaScript's `String(n)`. */
  function NatToString(n: nat): (r: string)
    ensures |r| >= 1
    ensures forall i :: 0 <= i < |r| ==> IsDigit(r[i])
    ensures r[0] == '0' ==> n == 0
  {
    if n < 10 then ['0' + n as char]
    else NatToString(n / 10) + ['0' + (n % 10) as char]
  }

  /** Decimal rendering of an integer (a leading `-` for negatives). */
  function IntToString(i: int): (r: string)
    ensures |r| >= 1
    ensures i >= 0 ==> r == NatToString(i)
  {
    if i < 0 then "-" + NatToString(-i) else NatToString(i)
  }

  /** Reading back a rendered number gives the number. */
  lemma {:induction false} NatToStringValue(n: nat)
    ensures DigitsValue(NatToString(n), 10) == n
  {
    var r := NatToString(n);
    if n >= 10 {
      NatToStringValue(n / 10);
      assert r[..|r| - 1] == NatToString(n / 10);
    }
  }

  /** Different numbers render differently. */
  lemma NatToStringInjective(m: nat, n: nat)
    requires m != n
    ensures NatToString(m) != NatToString(n)
  {
    NatToStringValue(m);
    NatToStringValue(n);
  }

  /** `parseInt` of a rendered number, with or without the radix, is that number. */
  lemma ParseIntOfNatToString(n: nat, radix10: bool)
    ensures ParseInt(NatToString(n), radix10) == Some(n)
  {
    var s := NatToString(n);
    assert FirstNonSpace(s) == 0 by { assert !IsSpace(s[0]); }
    assert s[0..] == s;
    assert ParseSigned(s, radix10) == ParseUnsigned(s, radix10) by { assert IsDigit(s[0]); }
    UnsignedOfNatToString(n, radix10);
  }

  /** The digits of a rendered number read back as the number. */
  lemma UnsignedOfNatToString(n: nat, radix10: bool)
    ensures ParseUnsigned(NatToString(n), radix10) == Some(n)
  {
    var s := NatToString(n);
    assert s[0] == '0' ==> |s| == 1;
    assert ParseUnsigned(s, radix10) == ParseDigits(s, 10);
    DigitRunAll(s, 10);
    assert s[..|s|] == s;
    NatToStringValue(n);
  }

  /** Reading back a rendered integer, sign included, gives the integer. */
  lemma ParseIntOfIntToString(i: int)
    ensures ParseInt(IntToString(i), true) == Some(i)
  {
    if i >= 0 {
      ParseIntOfNatToString(i, true);
    } else {
      var n: nat := -i;
      ParseIntOfNegative(n);
      assert IntToString(i) == "-" + NatToString(n);
    }
  }

  lemma ParseIntOfNegative(n: nat)
    ensures ParseInt("-" + NatToString(n), true) == Some(-(n as int))
  {
    var m := NatToString(n);
    var s := "-" + m;
    assert FirstNonSpace(s) == 0 by { assert !IsSpace(s[0]); }
    assert s[0..] == s && s[1..] == m;
    UnsignedOfNatToString(n, true);
  }

  lemma DigitRunAll(s: string, radix: nat)
    requires forall i :: 0 <= i < |s| ==> RadixDigit(s[i], radix) >= 0
    ensures DigitRun(s, radix) == |s|
  {
    if |s| > 0 {
      DigitRunAll(s[1..], radix);
    }
  }
}
