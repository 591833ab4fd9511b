/**
 * The few Python string operations the orchestration code relies on:
 * slicing `s[:n]`, `str.split(sep)`, `str.rsplit(sep, 1)[0]`, `str.strip()`,
 * `str.split()` (on runs of whitespace), the decimal conversions done by
 * `int()` and `str()` on naturals, and the Unicode decimal digits that `\d`
 * matches in a `re` pattern over `str`.
 */
module Text {

  // ---------------------------------------------------------------------
  // Slicing

  /** Python's `s[:n]`: the first `n` characters, or all of `s` if it is shorter. */
  function Take(s: string, n: nat): (r: string)
    ensures |r| == if |s| <= n then |s| else n
    ensures r <= s
  {
    if |s| <= n then s else s[..n]
  }

  // ---------------------------------------------------------------------
  // str.split(sep) and its inverse, sep.join(parts)

  /** Index of the first occurrence of `c` in `s`, or `|s|` when there is none. */
  function IndexOf(s: string, c: char): (i: nat)
    ensures i <= |s|
    ensures forall j | 0 <= j < i :: s[j] != c
    ensures i < |s| ==> s[i] == c
  {
    if s == [] then 0
    else if s[0] == c then 0
    else 1 + IndexOf(s[1..], c)
  }

  /** Python's `s.split(sep)` for a one-character separator. */
  function Split(s: string, sep: char): (parts: seq<string>)
    ensures |parts| >= 1
    ensures forall k | 0 <= k < |parts| :: sep !in parts[k]
    decreases |s|
  {
    var i := IndexOf(s, sep);
    if i == |s| then [s]
    else [s[..i]] + Split(s[i + 1..], sep)
  }

  /** Python's `sep.join(parts)`. */
  function Join(parts: seq<string>, sep: char): string
    requires |parts| >= 1
  {
    if |parts| == 1 then parts[0]
    else parts[0] + [sep] + Join(parts[1..], sep)
  }

  /** Joining the pieces of a split gives back the string. */
  lemma {:induction false} JoinSplit(s: string, sep: char)
    ensures Join(Split(s, sep), sep) == s
    decreases |s|
  {
    var i := IndexOf(s, sep);
    if i < |s| {
      var rest := s[i + 1..];
      var tail := Split(rest, sep);
      assert Split(s, sep) == [s[..i]] + tail;
      assert ([s[..i]] + tail)[1..] == tail;
      JoinSplit(rest, sep);
      assert Join(Split(s, sep), sep) == s[..i] + [sep] + Join(tail, sep);
      assert s == s[..i] + [sep] + rest;
    }
  }

  /** Splitting a join of separator-free pieces gives back the pieces. */
  lemma {:induction false} SplitJoin(parts: seq<string>, sep: char)
    requires |parts| >= 1
    requires forall k | 0 <= k < |parts| :: sep !in parts[k]
    ensures Split(Join(parts, sep), sep) == parts
    decreases |parts|
  {
    if |parts| > 1 {
      SplitAfterFree(parts[0], sep, Join(parts[1..], sep));
      SplitJoin(parts[1..], sep);
      assert parts == [parts[0]] + parts[1..];
    } else {
      assert IndexOf(parts[0], sep) == |parts[0]|;
    }
  }

  /** Splitting at the first separator, when the text before it has none. */
  lemma SplitAfterFree(a: string, sep: char, b: string)
    requires sep !in a
    ensures Split(a + [sep] + b, sep) == [a] + Split(b, sep)
  {
    var s := a + [sep] + b;
    IndexOfAfterFree(a, sep, b);
    assert s[..|a|] == a;
    assert s[|a| + 1..] == b;
  }

  /** A character other than the separator that no piece holds is not in the join. */
  lemma {:induction false} NotInJoin(parts: seq<string>, sep: char, c: char)
    requires |parts| >= 1 && c != sep
    requires forall k | 0 <= k < |parts| :: c !in parts[k]
    ensures c !in Join(parts, sep)
    decreases |parts|
  {
    if |parts| > 1 {
      NotInJoin(parts[1..], sep, c);
      assert c !in parts[0];
    }
  }

  /** The first `c` of `a + [c] + b` is right after `a`, when `a` has none. */
  lemma IndexOfAfterFree(a: string, c: char, b: string)
    requires c !in a
    ensures IndexOf(a + [c] + b, c) == |a|
  {
    var s := a + [c] + b;
    assert forall j | 0 <= j < |a| :: s[j] == a[j];
    assert s[|a|] == c;
  }

  /** Index of the last occurrence of `c` in `s`, or `|s|` when there is none. */
  function LastIndexOf(s: string, c: char): (i: nat)
    ensures i <= |s|
    ensures i < |s| ==> s[i] == c && c !in s[i + 1..]
    ensures i == |s| ==> c !in s
  {
    if s == [] then 0
    else if s[|s| - 1] == c then |s| - 1
    else
      var j := LastIndexOf(s[..|s| - 1], c);
      if j == |s| - 1 then
        assert s == s[..|s| - 1] + [s[|s| - 1]];
        |s|
      else
        assert s[j + 1..] == s[..|s| - 1][j + 1..] + [s[|s| - 1]];
        j
  }

  /** The text before the last `sep` in `s`: Python's `s.rsplit(sep, 1)[0]`
      (all of `s` when it holds no `sep`). */
  function BeforeLast(s: string, sep: char): (r: string)
    ensures r <= s
    ensures sep in s ==> |r| < |s| && s[|r|] == sep && sep !in s[|r| + 1..]
    ensures sep !in s ==> r == s
  {
    var i := LastIndexOf(s, sep);
    if i == |s| then s else s[..i]
  }

  /** The same text before the last separator, read from the pieces. */
  lemma BeforeLastOfJoin(parts: seq<string>, sep: char)
    requires |parts| >= 2
    requires forall k | 0 <= k < |parts| :: sep !in parts[k]
    ensures BeforeLast(Join(parts, sep), sep) == Join(parts[..|parts| - 1], sep)
  {
    var n := |parts|;
    JoinLast(parts, sep);
    var init := Join(parts[..n - 1], sep);
    LastIndexOfBefore(init, sep, parts[n - 1]);
    assert (init + [sep] + parts[n - 1])[..|init|] == init;
  }

  /** The last `c` of `x + [c] + y` is right after `x`, when `y` has none. */
  lemma {:induction false} LastIndexOfBefore(x: string, c: char, y: string)
    requires c !in y
    ensures LastIndexOf(x + [c] + y, c) == |x|
    decreases |y|
  {
    var s := x + [c] + y;
    if y != [] {
      assert s[..|s| - 1] == x + [c] + y[..|y| - 1];
      assert s[|s| - 1] == y[|y| - 1];
      LastIndexOfBefore(x, c, y[..|y| - 1]);
    }
  }

  /** Joining n pieces is joining the first n - 1, the separator and the last one. */
  lemma {:induction false} JoinLast(parts: seq<string>, sep: char)
    requires |parts| >= 2
    ensures Join(parts, sep) == Join(parts[..|parts| - 1], sep) + [sep] + parts[|parts| - 1]
    decreases |parts|
  {
    if |parts| > 2 {
      JoinLast(parts[1..], sep);
      assert parts[1..][..|parts| - 2] == parts[..|parts| - 1][1..];
    }
  }

  // ---------------------------------------------------------------------
  // Whitespace: str.strip() and str.split()

  /** The characters Python's `str.isspace()` holds for (and that `strip()`
      and `split()` with no argument remove). */
  predicate IsSpace(c: char) {
    c == ' ' || ('\t' <= c <= '\r') || ('\U{1C}' <= c <= '\U{1F}') || c == '\U{85}' ||
    c == '\U{A0}' || c == '\U{1680}' || ('\U{2000}' <= c <= '\U{200A}') ||
    c == '\U{2028}' || c == '\U{2029}' || c == '\U{202F}' || c == '\U{205F}' || c == '\U{3000}'
  }

  predicate NoSpace(s: string) {
    forall i | 0 <= i < |s| :: !IsSpace(s[i])
  }

  predicate AllSpace(s: string) {
    forall i | 0 <= i < |s| :: IsSpace(s[i])
  }

  /** Number of leading whitespace characters. */
  function LeadingSpace(s: string): (n: nat)
    ensures n <= |s| && AllSpace(s[..n])
    ensures n < |s| ==> !IsSpace(s[n])
  {
    if s == [] || !IsSpace(s[0]) then 0
    else
      var n := 1 + LeadingSpace(s[1..]);
      assert s[..n] == [s[0]] + s[1..][..n - 1];
      n
  }

  /** Number of trailing whitespace characters. */
  function TrailingSpace(s: string): (n: nat)
    ensures n <= |s| && AllSpace(s[|s| - n..])
    ensures n < |s| ==> !IsSpace(s[|s| - n - 1])
  {
    if s == [] || !IsSpace(s[|s| - 1]) then 0
    else
      var p := s[..|s| - 1];
      var m := TrailingSpace(p);
      assert s[|s| - m - 1..] == p[|p| - m..] + [s[|s| - 1]];
      AllSpaceSnoc(p[|p| - m..], s[|s| - 1]);
      m + 1
  }

  lemma AllSpaceSnoc(a: string, c: char)
    requires AllSpace(a) && IsSpace(c)
    ensures AllSpace(a + [c])
  {
    assert forall i | 0 <= i < |a| :: (a + [c])[i] == a[i];
  }

  /** Python's `s.strip()`. */
  function Strip(s: string): (r: string)
    ensures r == [] || (!IsSpace(r[0]) && !IsSpace(r[|r| - 1]))
  {
    var i := LeadingSpace(s);
    var t := s[i..];
    var n := TrailingSpace(t);
    var r := t[..|t| - n];
    assert r != [] ==> r[0] == t[0] == s[i] && r[|r| - 1] == t[|t| - n - 1];
    r
  }

  /** What `Strip` removes is whitespace at either end, and only that. */
  lemma StripTrims(s: string)
    ensures exists i, j | 0 <= i <= j <= |s| :: Strip(s) == s[i..j] && AllSpace(s[..i]) && AllSpace(s[j..])
  {
    var i := LeadingSpace(s);
    var t := s[i..];
    var n := TrailingSpace(t);
    assert Strip(s) == s[i..|s| - n];
    assert s[|s| - n..] == t[|t| - n..];
  }

  /** `s` is whitespace, the character `c`, then whitespace. */
  predicate IsPadded(s: string, c: char)
    decreases |s|
  {
    s != [] && (if s[0] == c then AllSpace(s[1..]) else IsSpace(s[0]) && IsPadded(s[1..], c))
  }

  /** For a character that is not whitespace, `IsPadded` is Python's `s.strip() == c`. */
  lemma {:induction false} PaddedIsStrip(s: string, c: char)
    requires !IsSpace(c)
    ensures IsPadded(s, c) <==> Strip(s) == [c]
    decreases |s|
  {
    if s == [] {
      assert Strip(s) == [];
    } else if IsSpace(s[0]) {
      StripSpaceHead(s);
      PaddedIsStrip(s[1..], c);
    } else {
      assert LeadingSpace(s) == 0;
      var n := TrailingSpace(s);
      assert Strip(s) == s[..|s| - n];
      if s[0] == c {
        if AllSpace(s[1..]) {
          assert n == |s| - 1;
          assert s[..1] == [c];
        } else {
          var i :| 0 <= i < |s[1..]| && !IsSpace(s[1..][i]);
          assert s[i + 1] == s[1..][i];
          assert |Strip(s)| != 1;
        }
      } else {
        assert Strip(s) == [] || Strip(s)[0] == s[0];
      }
    }
  }

  /** A leading whitespace character is stripped away. */
  lemma StripSpaceHead(s: string)
    requires s != [] && IsSpace(s[0])
    ensures Strip(s) == Strip(s[1..])
  {
    var i := LeadingSpace(s);
    assert i == 1 + LeadingSpace(s[1..]);
    assert s[i..] == s[1..][i - 1..];
  }

  /** Length of the leading run of non-whitespace characters. */
  function WordLength(s: string): (n: nat)
    ensures n <= |s| && NoSpace(s[..n])
    ensures n < |s| ==> IsSpace(s[n])
  {
    if s == [] || IsSpace(s[0]) then 0
    else
      var n := 1 + WordLength(s[1..]);
      assert s[..n] == [s[0]] + s[1..][..n - 1];
      n
  }

  /** Python's `s.split()`: the maximal runs of non-whitespace characters. */
  function Tokens(s: string): (ts: seq<string>)
    ensures forall k | 0 <= k < |ts| :: ts[k] != [] && NoSpace(ts[k])
    decreases |s|
  {
    if s == [] then []
    else if IsSpace(s[0]) then Tokens(s[1..])
    else
      var n := WordLength(s);
      [s[..n]] + Tokens(s[n..])
  }

  predicate IsWord(w: string) {
    w != [] && NoSpace(w)
  }

  /** Words separated by single spaces: Python's `' '.join(words)`. */
  function Unwords(ws: seq<string>): string {
    if ws == [] then []
    else if |ws| == 1 then ws[0]
    else ws[0] + " " + Unwords(ws[1..])
  }

  /** Splitting on whitespace undoes `' '.join` of words. */
  lemma {:induction false} TokensUnwords(ws: seq<string>)
    requires forall k | 0 <= k < |ws| :: IsWord(ws[k])
    ensures Tokens(Unwords(ws)) == ws
    decreases |ws|
  {
    if ws != [] {
      var s := Unwords(ws);
      var w := ws[0];
      if |ws| == 1 {
        WordLengthOf(w, []);
        assert s[..|w|] == w;
        assert s[|w|..] == [];
      } else {
        var rest := Unwords(ws[1..]);
        assert s == w + (" " + rest);
        WordLengthOf(w, " " + rest);
        assert s[..|w|] == w;
        assert s[|w|..] == " " + rest;
        assert Tokens(" " + rest) == Tokens(rest) by {
          assert (" " + rest)[1..] == rest;
        }
        TokensUnwords(ws[1..]);
      }
    }
  }

  /** The leading run of `w + rest` is `w` when `rest` starts with a space. */
  lemma {:induction false} WordLengthOf(w: string, rest: string)
    requires IsWord(w)
    requires rest == [] || IsSpace(rest[0])
    ensures WordLength(w + rest) == |w|
    decreases |w|
  {
    var s := w + rest;
    assert s[0] == w[0];
    if |w| == 1 {
      assert s[1..] == rest;
    } else {
      assert s[1..] == w[1..] + rest;
      WordLengthOf(w[1..], rest);
    }
  }

  /** Stripping leading and trailing whitespace does not change the tokens. */
  lemma TokensStrip(s: string)
    ensures Tokens(Strip(s)) == Tokens(s)
  {
    StripTrims(s);
    var i, j :| 0 <= i <= j <= |s| && Strip(s) == s[i..j] && AllSpace(s[..i]) && AllSpace(s[j..]);
    TokensAround(s, i, j);
  }

  /** Whitespace on both sides of a slice produces no token. */
  lemma TokensAround(s: string, i: nat, j: nat)
    requires i <= j <= |s| && AllSpace(s[..i]) && AllSpace(s[j..])
    ensures Tokens(s) == Tokens(s[i..j])
  {
    var pre, mid, post := s[..i], s[i..j], s[j..];
    assert s == pre + (mid + post);
    assert Tokens(s) == Tokens(mid + post) by {
      TokensSkipSpace(pre, mid + post);
    }
    TokensDropSpace(mid, post);
  }

  /** Leading whitespace produces no token. */
  lemma {:induction false} TokensSkipSpace(pre: string, s: string)
    requires AllSpace(pre)
    ensures Tokens(pre + s) == Tokens(s)
    decreases |pre|
  {
    if pre == [] {
      assert pre + s == s;
    } else {
      var t := pre + s;
      assert t[0] == pre[0] && t[1..] == pre[1..] + s;
      TokensSkipSpace(pre[1..], s);
    }
  }

  /** Trailing whitespace produces no token. */
  lemma {:induction false} TokensDropSpace(s: string, post: string)
    requires AllSpace(post)
    ensures Tokens(s + post) == Tokens(s)
    decreases |s|
  {
    var t := s + post;
    if s == [] {
      assert t == post;
      TokensOfSpace(post);
    } else if IsSpace(s[0]) {
      assert t[0] == s[0] && t[1..] == s[1..] + post;
      TokensDropSpace(s[1..], post);
    } else {
      var n := WordLength(s);
      var w := s[..n];
      assert t == w + (s[n..] + post);
      assert n < |s| ==> (s[n..] + post)[0] == s[n];
      assert n == |s| ==> s[n..] + post == post;
      WordLengthOf(w, s[n..] + post);
      assert t[..n] == w;
      assert t[n..] == s[n..] + post;
      TokensDropSpace(s[n..], post);
    }
  }

  /** Whitespace alone has no tokens. */
  lemma {:induction false} TokensOfSpace(s: string)
    requires AllSpace(s)
    ensures Tokens(s) == []
    decreases |s|
  {
    if s != [] {
      TokensOfSpace(s[1..]);
    }
  }

  // ---------------------------------------------------------------------
  // ASCII decimal numerals: int() on ASCII digit strings and str() on naturals

  predicate IsDigit(c: char) {
    '0' <= c <= '9'
  }

  predicate AllDigits(s: string) {
    forall i | 0 <= i < |s| :: IsDigit(s[i])
  }

  /** A run of between 1 and `max` ASCII digits, as `ipaddress` demands of an octet or a prefix length. */
  predicate DigitRun(s: string, max: nat) {
    1 <= |s| <= max && AllDigits(s)
  }

  function DigitValue(c: char): (d: nat)
    requires IsDigit(c)
    ensures d < 10
  {
    c as int - '0' as int
  }

  function DigitChar(d: nat): (c: char)
    requires d < 10
    ensures IsDigit(c) && DigitValue(c) == d
  {
    ('0' as int + d) as char
  }

  /** The value of a string of decimal digits, as `int()` reads it. */
  function DecimalValue(s: string): nat
    requires AllDigits(s)
  {
    if s == [] then 0 else 10 * DecimalValue(s[..|s| - 1]) + DigitValue(s[|s| - 1])
  }

  /** `str(n)` for a natural: its decimal numeral without leading zeros. */
  function Decimal(n: nat): (s: string)
    ensures s != [] && AllDigits(s)
    ensures s[0] == '0' ==> s == "0"
  {
    if n < 10 then [DigitChar(n)] else Decimal(n / 10) + [DigitChar(n % 10)]
  }

  /** Reading back the numeral of `n` gives `n`. */
  lemma {:induction false} DecimalValueOfDecimal(n: nat)
    ensures DecimalValue(Decimal(n)) == n
    decreases n
  {
    if n >= 10 {
      var s := Decimal(n);
      assert s[..|s| - 1] == Decimal(n / 10);
      DecimalValueOfDecimal(n / 10);
    }
  }

  /** A numeral without leading zeros is the numeral of its value. */
  lemma {:induction false} DecimalOfDecimalValue(s: string)
    requires s != [] && AllDigits(s)
    requires s[0] == '0' ==> s == "0"
    ensures Decimal(DecimalValue(s)) == s
    decreases |s|
  {
    var n := DecimalValue(s);
    if |s| == 1 {
      assert s[..0] == [];
    } else {
      var init := s[..|s| - 1];
      assert init[0] == s[0];
      DecimalOfDecimalValue(init);
      LeadingDigitPositive(init);
      assert n / 10 == DecimalValue(init) && n % 10 == DigitValue(s[|s| - 1]);
      assert DigitChar(n % 10) == s[|s| - 1];
      assert s == init + [s[|s| - 1]];
    }
  }

  /** A numeral of two or more digits with no leading zero is at least 10 ... */
  lemma {:induction false} LeadingDigitPositive(s: string)
    requires s != [] && AllDigits(s) && s[0] != '0'
    ensures DecimalValue(s) >= 1
    ensures |s| >= 2 ==> DecimalValue(s) >= 10
    decreases |s|
  {
    if |s| >= 2 {
      var init := s[..|s| - 1];
      assert init[0] == s[0];
      LeadingDigitPositive(init);
    }
  }

  /** ... and a number below 1000 has at most three digits. */
  lemma {:induction false} DecimalLength(n: nat)
    ensures n < 10 ==> |Decimal(n)| == 1
    ensures n < 100 ==> |Decimal(n)| <= 2
    ensures n < 1000 ==> |Decimal(n)| <= 3
  {
    if n >= 10 {
      DecimalLength(n / 10);
    }
  }

  /** A numeral of at most `k` digits stands for less than 10^k (k <= 3). */
  lemma {:induction false} DecimalValueBound(s: string)
    requires AllDigits(s)
    ensures |s| <= 1 ==> DecimalValue(s) < 10
    ensures |s| <= 2 ==> DecimalValue(s) < 100
    ensures |s| <= 3 ==> DecimalValue(s) < 1000
    decreases |s|
  {
    if s != [] {
      DecimalValueBound(s[..|s| - 1]);
    }
  }

  // ---------------------------------------------------------------------
  // Unicode decimal digits: what `\d` matches in a str pattern, and the
  // value int() gives to a string of them

  /** The code point of the zero of a run of decimal digits: none lies below '0'. */
  type DigitZero = z: int | z >= 0x30 witness 0x30

  /**
   * The zeros of the 68 runs of ten consecutive characters that make up the
   * general category Nd (decimal digit number) of Unicode 15.0 and 15.1, in
   * code-point order: the first 34 runs ...
   */
  const BasicZeros: seq<DigitZero> := [
    0x30, 0x660, 0x6F0, 0x7C0, 0x966, 0x9E6, 0xA66, 0xAE6, 0xB66, 0xBE6,
    0xC66, 0xCE6, 0xD66, 0xDE6, 0xE50, 0xED0, 0xF20, 0x1040, 0x1090, 0x17E0,
    0x1810, 0x1946, 0x19D0, 0x1A80, 0x1A90, 0x1B50, 0x1BB0, 0x1C40, 0x1C50, 0xA620,
    0xA8D0, 0xA900, 0xA9D0, 0xA9F0]

  /** ... and the remaining 34. */
  const SupplementaryZeros: seq<DigitZero> := [
    0xAA50, 0xABF0, 0xFF10, 0x104A0, 0x10D30, 0x11066, 0x110F0, 0x11136, 0x111D0, 0x112F0,
    0x11450, 0x114D0, 0x11650, 0x116C0, 0x11730, 0x118E0, 0x11950, 0x11C50, 0x11D50, 0x11DA0,
    0x11F50, 0x16A60, 0x16AC0, 0x16B50, 0x1D7CE, 0x1D7D8, 0x1D7E2, 0x1D7EC, 0x1D7F6, 0x1E140,
    0x1E2F0, 0x1E4F0, 0x1E950, 0x1FBF0]

  const DigitZeros: seq<DigitZero> := BasicZeros + SupplementaryZeros

  /** The zero of the run of decimal digits holding `c`, searched from entry `i` on; -1 when no run from there holds it. */
  function ZeroFrom(c: char, i: nat): (z: int)
    requires i <= |DigitZeros|
    ensures z == -1 || 0x30 <= z <= c as int < z + 10
    decreases |DigitZeros| - i
  {
    if i == |DigitZeros| then -1
    else if DigitZeros[i] <= c as int < DigitZeros[i] + 10 then DigitZeros[i]
    else ZeroFrom(c, i + 1)
  }

  /** The search finds a zero exactly when some run from entry `i` on holds `c`. */
  lemma {:induction false} ZeroFromFinds(c: char, i: nat)
    requires i <= |DigitZeros|
    ensures ZeroFrom(c, i) >= 0 <==>
      exists k | i <= k < |DigitZeros| :: DigitZeros[k] <= c as int < DigitZeros[k] + 10
    decreases |DigitZeros| - i
  {
    if i < |DigitZeros| {
      ZeroFromFinds(c, i + 1);
    }
  }

  /** A character of category Nd: what `\d` matches and `str.isdecimal()` accepts. */
  predicate IsDecimalChar(c: char) {
    ZeroFrom(c, 0) >= 0
  }

  /** The digit a decimal character stands for: its distance from the zero of its run. */
  function DecimalCharValue(c: char): (d: nat)
    requires IsDecimalChar(c)
    ensures d < 10
  {
    c as int - ZeroFrom(c, 0)
  }

  predicate AllDecimalChars(s: string) {
    forall i | 0 <= i < |s| :: IsDecimalChar(s[i])
  }

  /** A run of between 1 and `max` decimal characters: the regular expression `\d{1,max}`. */
  predicate DecimalRun(s: string, max: nat) {
    1 <= |s| <= max && AllDecimalChars(s)
  }

  /** The value `int()` gives to a string of decimal characters of any script. */
  function NumeralValue(s: string): nat
    requires AllDecimalChars(s)
  {
    if s == [] then 0 else 10 * NumeralValue(s[..|s| - 1]) + DecimalCharValue(s[|s| - 1])
  }

  /** An ASCII digit is a decimal character and stands for the same digit. */
  lemma AsciiDigitIsDecimal(c: char)
    requires IsDigit(c)
    ensures IsDecimalChar(c) && DecimalCharValue(c) == DigitValue(c)
  {
    assert DigitZeros[0] == 0x30;
  }

  /** On ASCII digit strings `\d` and `int()` agree with the ASCII definitions. */
  lemma {:induction false} NumeralValueOfDigits(s: string)
    requires AllDigits(s)
    ensures AllDecimalChars(s) && NumeralValue(s) == DecimalValue(s)
    decreases |s|
  {
    forall i | 0 <= i < |s|
      ensures IsDecimalChar(s[i])
    {
      AsciiDigitIsDecimal(s[i]);
    }
    if s != [] {
      NumeralValueOfDigits(s[..|s| - 1]);
      AsciiDigitIsDecimal(s[|s| - 1]);
    }
  }

  /** No character below '0' (ASCII controls, the space, '.', '/', and the rest) is a decimal character. */
  lemma BelowZeroIsNotDecimal(c: char)
    requires c < '0'
    ensures !IsDecimalChar(c)
  {
  }

  /** Arabic-Indic digits (U+0660..U+0669) are decimal characters with their usual values. */
  lemma ArabicIndicDigits()
    ensures IsDecimalChar('\U{0660}') && DecimalCharValue('\U{0660}') == 0
    ensures IsDecimalChar('\U{0661}') && DecimalCharValue('\U{0661}') == 1
  {
    assert DigitZeros[0] == 0x30 && DigitZeros[1] == 0x660;
  }

  /** The Arabic-Indic numeral for ten is a run of decimal characters worth 10. */
  lemma ArabicNumeral()
    ensures DecimalRun("\U{0661}\U{0660}", 3) && NumeralValue("\U{0661}\U{0660}") == 10
  {
    var ten := "\U{0661}\U{0660}";
    ArabicIndicDigits();
    assert ten[..1] == "\U{0661}" && ten[..1][..0] == [];
  }
}
