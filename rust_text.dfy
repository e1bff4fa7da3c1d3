/**
 * The parts of Rust's `str`, `char` and `format!` behaviour that the backend relies on,
 * written over Dafny strings (sequences of Unicode scalar values).
 */
module RustText {
  import opened Wrappers

  /** `u32::MAX`. */
  const U32Max: nat := 0xFFFF_FFFF
  /** `i64::MAX`. */
  const I64Max: int := 0x7FFF_FFFF_FFFF_FFFF

  // ---------------------------------------------------------------- prefixes and suffixes

  /** `str::starts_with` with a string pattern. */
  predicate StartsWith(s: string, prefix: string) {
    |prefix| <= |s| && s[..|prefix|] == prefix
  }

  /** `str::ends_with` with a string pattern. */
  predicate EndsWith(s: string, suffix: string) {
    |suffix| <= |s| && s[|s| - |suffix|..] == suffix
  }

  /** A text starts with `prefix` exactly when it is `prefix` followed by the rest. */
  lemma StartsWithSplits(s: string, prefix: string)
    ensures StartsWith(s, prefix) <==> |prefix| <= |s| && s == prefix + s[|prefix|..]
  {
    if |prefix| <= |s| && s == prefix + s[|prefix|..] {
      assert s[..|prefix|] == (prefix + s[|prefix|..])[..|prefix|];
    }
  }

  /** A text ends with `suffix` exactly when it is the rest followed by `suffix`. */
  lemma EndsWithSplits(s: string, suffix: string)
    ensures EndsWith(s, suffix) <==> |suffix| <= |s| && s == s[..|s| - |suffix|] + suffix
  {
    if |suffix| <= |s| && s == s[..|s| - |suffix|] + suffix {
      assert s[|s| - |suffix|..] == (s[..|s| - |suffix|] + suffix)[|s| - |suffix|..];
    }
  }

  /** `k` copies of `pat`, one after the other. */
  function Repeat(pat: string, k: nat): (r: string)
    ensures |r| == k * |pat|
  {
    if k == 0 then [] else Repeat(pat, k - 1) + pat
  }

  /** `str::trim_end_matches` with a string pattern: the suffix is removed as often as it occurs. */
  function TrimEndMatches(s: string, pat: string): (r: string)
    ensures |r| <= |s| && r == s[..|r|]
    ensures pat != [] ==> !EndsWith(r, pat)
    ensures !EndsWith(s, pat) ==> r == s
    decreases |s|
  {
    if pat != [] && EndsWith(s, pat) then TrimEndMatches(s[..|s| - |pat|], pat) else s
  }

  lemma AppendCopy(r: string, pat: string, k: nat)
    ensures r + Repeat(pat, k + 1) == (r + Repeat(pat, k)) + pat
  {
    assert Repeat(pat, k + 1) == Repeat(pat, k) + pat;
  }

  /** What `trim_end_matches` removes is whole copies of the pattern, nothing else. */
  lemma {:induction false} TrimEndMatchesCopies(s: string, pat: string)
    requires pat != []
    ensures exists k: nat :: s == TrimEndMatches(s, pat) + Repeat(pat, k)
    decreases |s|
  {
    var r := TrimEndMatches(s, pat);
    if EndsWith(s, pat) {
      var t := s[..|s| - |pat|];
      assert r == TrimEndMatches(t, pat);
      TrimEndMatchesCopies(t, pat);
      var k: nat :| t == r + Repeat(pat, k);
      assert s == t + pat;
      AppendCopy(r, pat, k);
    } else {
      assert s == r + Repeat(pat, 0);
    }
  }

  // ---------------------------------------------------------------- splitting

  /** Number of occurrences of `c` in `s`. */
  function Occurrences(s: string, c: char): nat {
    if s == [] then 0 else (if s[0] == c then 1 else 0) + Occurrences(s[1..], c)
  }

  /**
   * `str::split` on one character, collected into a vector: the pieces between separators,
   * including empty ones, so there is always one piece more than there are separators.
   */
  function Split(s: string, sep: char): (r: seq<string>)
    ensures |r| == Occurrences(s, sep) + 1
    ensures forall i :: 0 <= i < |r| ==> sep !in r[i]
  {
    if s == [] then [[]]
    else
      var rest := Split(s[1..], sep);
      if s[0] == sep then [[]] + rest else [[s[0]] + rest[0]] + rest[1..]
  }

  /** `[&str]::join` with a one-character separator; the inverse of `Split`. */
  function Join(parts: seq<string>, sep: char): string
    requires |parts| >= 1
  {
    if |parts| == 1 then parts[0] else parts[0] + [sep] + Join(parts[1..], sep)
  }

  /** Splitting loses nothing: joining the pieces with the separator gives the text back. */
  lemma {:induction false} SplitJoin(s: string, sep: char)
    ensures Join(Split(s, sep), sep) == s
  {
    if s != [] {
      var rest := Split(s[1..], sep);
      SplitJoin(s[1..], sep);
      if s[0] == sep {
        assert Split(s, sep) == [[]] + rest;
        assert ([[]] + rest)[1..] == rest;
      } else {
        var r := [[s[0]] + rest[0]] + rest[1..];
        assert Split(s, sep) == r;
        if |rest| == 1 {
          assert Join(r, sep) == [s[0]] + rest[0];
        } else {
          assert r[1..] == rest[1..];
          assert Join(rest, sep) == rest[0] + [sep] + Join(rest[1..], sep);
          assert Join(r, sep) == [s[0]] + rest[0] + [sep] + Join(rest[1..], sep);
        }
      }
    }
  }

  /** A text with its only separator between two pieces splits into exactly those pieces. */
  lemma SplitPair(a: string, sep: char, b: string)
    requires sep !in a && sep !in b
    ensures Split(a + [sep] + b, sep) == [a, b]
  {
    SplitAround(a, sep, b);
    SplitWithout(a, sep);
    SplitWithout(b, sep);
    var parts := Split(a + [sep] + b, sep);
    assert parts[..1] == [a];
    assert parts[1..] == [b];
  }

  /** A text without the separator is one piece. */
  lemma {:induction false} SplitWithout(s: string, sep: char)
    requires sep !in s
    ensures Split(s, sep) == [s]
  {
    if s != [] {
      assert sep !in s[1..];
      SplitWithout(s[1..], sep);
      assert [s[0]] + s[1..] == s;
    }
  }

  /** The pieces of `a + sep + b` are the pieces of `a` followed by those of `b`. */
  lemma {:induction false} SplitConcat(a: string, sep: char, b: string)
    ensures Split(a + [sep] + b, sep) == Split(a, sep) + Split(b, sep)
  {
    var s := a + [sep] + b;
    var rb := Split(b, sep);
    if a == [] {
      assert s[1..] == b;
    } else {
      assert s[0] == a[0] && s[1..] == a[1..] + [sep] + b;
      SplitConcat(a[1..], sep, b);
      var ra := Split(a[1..], sep);
      var rs := Split(s[1..], sep);
      if a[0] == sep {
        assert Split(s, sep) == [[]] + rs;
        assert Split(a, sep) == [[]] + ra;
      } else {
        assert Split(s, sep) == [[a[0]] + rs[0]] + rs[1..];
        assert Split(a, sep) == [[a[0]] + ra[0]] + ra[1..];
        FirstPieceExtended(a[0], rs, ra, rb);
      }
    }
  }

  lemma FirstPieceExtended(x: char, rs: seq<string>, ra: seq<string>, rb: seq<string>)
    requires |ra| >= 1 && rs == ra + rb
    ensures [[x] + rs[0]] + rs[1..] == ([[x] + ra[0]] + ra[1..]) + rb
  {
    assert rs[0] == ra[0] && rs[1..] == ra[1..] + rb;
  }

  /** The same, read piece by piece. */
  lemma SplitAround(a: string, sep: char, b: string)
    ensures |Split(a + [sep] + b, sep)| == |Split(a, sep)| + |Split(b, sep)|
    ensures Split(a + [sep] + b, sep)[|Split(a + [sep] + b, sep)| - 1] == Split(b, sep)[|Split(b, sep)| - 1]
    ensures Split(a + [sep] + b, sep)[..|Split(a, sep)|] == Split(a, sep)
    ensures Split(a + [sep] + b, sep)[|Split(a, sep)|..] == Split(b, sep)
  {
    SplitConcat(a, sep, b);
  }

  // ---------------------------------------------------------------- whitespace

  /** `char::is_whitespace`: the Unicode White_Space property. */
  predicate IsWhitespace(c: char) {
    var n := c as int;
    n == 0x20 || 0x09 <= n <= 0x0D || n == 0x85 || n == 0xA0 || n == 0x1680
    || 0x2000 <= n <= 0x200A || n == 0x2028 || n == 0x2029 || n == 0x202F
    || n == 0x205F || n == 0x3000
  }

  /** `str::trim_start`. */
  function TrimStart(s: string): (r: string)
    ensures |r| <= |s| && r == s[|s| - |r|..]
    ensures r == [] || !IsWhitespace(r[0])
  {
    if s != [] && IsWhitespace(s[0]) then TrimStart(s[1..]) else s
  }

  /** `str::trim_end`. */
  function TrimEnd(s: string): (r: string)
    ensures |r| <= |s| && r == s[..|r|]
    ensures r == [] || !IsWhitespace(r[|r| - 1])
  {
    if s != [] && IsWhitespace(s[|s| - 1]) then TrimEnd(s[..|s| - 1]) else s
  }

  /** `str::trim`: whitespace removed at both ends. */
  function Trim(s: string): string {
    TrimEnd(TrimStart(s))
  }

  /** What trimming the start removes is whitespace. */
  lemma {:induction false} TrimStartDropsBlanks(s: string)
    ensures forall k :: 0 <= k < |s| - |TrimStart(s)| ==> IsWhitespace(s[k])
  {
    if s != [] && IsWhitespace(s[0]) {
      TrimStartDropsBlanks(s[1..]);
      forall k | 1 <= k < |s| - |TrimStart(s)| ensures IsWhitespace(s[k]) {
        assert s[k] == s[1..][k - 1];
      }
    }
  }

  /** What trimming the end removes is whitespace. */
  lemma {:induction false} TrimEndDropsBlanks(s: string)
    ensures forall k :: |TrimEnd(s)| <= k < |s| ==> IsWhitespace(s[k])
  {
    if s != [] && IsWhitespace(s[|s| - 1]) {
      var t := s[..|s| - 1];
      TrimEndDropsBlanks(t);
      forall k | |TrimEnd(s)| <= k < |s| - 1 ensures IsWhitespace(s[k]) {
        assert s[k] == t[k];
      }
    }
  }

  /**
   * `str::trim` removes the whitespace at both ends and nothing else: the result is the
   * piece of the text from the first to the last non-whitespace character.
   */
  lemma TrimCharacterised(s: string)
    ensures var r, i := Trim(s), |s| - |TrimStart(s)|;
      && i + |r| <= |s| && r == s[i..i + |r|]
      && (forall k :: 0 <= k < i ==> IsWhitespace(s[k]))
      && (forall k :: i + |r| <= k < |s| ==> IsWhitespace(s[k]))
      && (r == [] || (!IsWhitespace(r[0]) && !IsWhitespace(r[|r| - 1])))
  {
    TrimStartDropsBlanks(s);
    TrimEndDropsBlanks(TrimStart(s));
    TrimShape(s, TrimStart(s), Trim(s));
  }

  /** A prefix `r` of a suffix `t` of `s`, each cut only at whitespace, down to non-whitespace ends. */
  lemma TrimShape(s: string, t: string, r: string)
    requires |t| <= |s| && t == s[|s| - |t|..] && (t == [] || !IsWhitespace(t[0]))
    requires forall k :: 0 <= k < |s| - |t| ==> IsWhitespace(s[k])
    requires |r| <= |t| && r == t[..|r|] && (r == [] || !IsWhitespace(r[|r| - 1]))
    requires forall k :: |r| <= k < |t| ==> IsWhitespace(t[k])
    ensures var i := |s| - |t|;
      && i + |r| <= |s| && r == s[i..i + |r|]
      && (forall k :: 0 <= k < i ==> IsWhitespace(s[k]))
      && (forall k :: i + |r| <= k < |s| ==> IsWhitespace(s[k]))
      && (r == [] || (!IsWhitespace(r[0]) && !IsWhitespace(r[|r| - 1])))
  {
    var i := |s| - |t|;
    forall k | i + |r| <= k < |s| ensures IsWhitespace(s[k]) {
      assert s[k] == t[k - i];
    }
    if r != [] {
      assert r[0] == t[0];
    }
  }

  /** Trimming at the start stops at the first non-whitespace character. */
  lemma {:induction false} TrimStartAt(a: string, c: char, b: string)
    requires !IsWhitespace(c)
    ensures TrimStart(a + [c] + b) == TrimStart(a) + [c] + b
  {
    if a != [] {
      assert (a + [c] + b)[1..] == a[1..] + [c] + b;
      TrimStartAt(a[1..], c, b);
    }
  }

  /** Trimming at the end stops at the last non-whitespace character. */
  lemma {:induction false} TrimEndAt(a: string, c: char, b: string)
    requires !IsWhitespace(c)
    ensures TrimEnd(a + [c] + b) == a + [c] + TrimEnd(b)
  {
    if b != [] {
      var s := a + [c] + b;
      assert s[..|s| - 1] == a + [c] + b[..|b| - 1];
      TrimEndAt(a, c, b[..|b| - 1]);
    } else {
      assert a + [c] + b == a + [c];
    }
  }

  /** Every character is whitespace. */
  predicate Blank(s: string) {
    forall i :: 0 <= i < |s| ==> IsWhitespace(s[i])
  }

  /** Trimming removes a blank text entirely, from either end. */
  lemma {:induction false} BlankTrimmed(s: string)
    requires Blank(s)
    ensures TrimStart(s) == [] && TrimEnd(s) == []
  {
    if s != [] {
      BlankTrimmed(s[1..]);
      BlankTrimmed(s[..|s| - 1]);
    }
  }

  /** Trimming at the end removes a blank tail entirely. */
  lemma {:induction false} TrimEndBlankTail(a: string, b: string)
    requires Blank(b)
    ensures TrimEnd(a + b) == TrimEnd(a)
    decreases |b|
  {
    if b == [] {
      assert a + b == a;
    } else {
      var s := a + b;
      assert s[|s| - 1] == b[|b| - 1];
      assert s[..|s| - 1] == a + b[..|b| - 1];
      TrimEndBlankTail(a, b[..|b| - 1]);
    }
  }

  /** Trimming at the end a text with one more character in front. */
  lemma {:induction false} TrimEndCons(x: char, t: string)
    ensures TrimEnd([x] + t) == if TrimEnd(t) == [] then TrimEnd([x]) else [x] + TrimEnd(t)
    decreases |t|
  {
    var s := [x] + t;
    if t != [] && IsWhitespace(t[|t| - 1]) {
      var u := t[..|t| - 1];
      assert s[|s| - 1] == t[|t| - 1];
      assert s[..|s| - 1] == [x] + u;
      assert TrimEnd(s) == TrimEnd([x] + u);
      assert TrimEnd(t) == TrimEnd(u);
      TrimEndCons(x, u);
    } else if t == [] {
      assert s == [x];
    } else {
      assert s[|s| - 1] == t[|t| - 1];
      assert TrimEnd(t) == t && TrimEnd(s) == s;
    }
  }

  /** Trimming the two ends can be done in either order. */
  lemma {:induction false} TrimStartOfTrimEnd(s: string)
    ensures TrimStart(TrimEnd(s)) == TrimEnd(TrimStart(s))
    decreases |s|
  {
    if s != [] && IsWhitespace(s[0]) {
      var t := s[1..];
      assert s == [s[0]] + t;
      assert TrimStart(s) == TrimStart(t);
      TrimStartOfTrimEnd(t);
      LeadingBlankDropped(s[0], t);
    } else if s != [] {
      TrimEndKeepsFirst(s);
    }
  }

  /** A whitespace character in front of a text is gone once both ends are trimmed. */
  lemma LeadingBlankDropped(x: char, t: string)
    requires IsWhitespace(x)
    ensures TrimStart(TrimEnd([x] + t)) == TrimStart(TrimEnd(t))
  {
    TrimEndCons(x, t);
    var u := TrimEnd(t);
    if u == [] {
      assert TrimEnd([x]) == [] by { assert [x][..0] == []; }
    } else {
      assert ([x] + u)[1..] == u;
    }
  }

  /** Trimming at the end a text whose last character is not whitespace changes nothing. */
  lemma TrimEndKeeps(s: string)
    requires s != [] && !IsWhitespace(s[|s| - 1])
    ensures TrimEnd(s) == s
  {
  }

  /** A text with no whitespace at either end is its own trim. */
  lemma TrimKeeps(s: string)
    requires s != [] && !IsWhitespace(s[0]) && !IsWhitespace(s[|s| - 1])
    ensures Trim(s) == s
  {
    assert TrimStart(s) == s;
    TrimEndKeeps(s);
  }

  /** Trimming at the end keeps a non-whitespace first character. */
  lemma {:induction false} TrimEndKeepsFirst(s: string)
    requires s != [] && !IsWhitespace(s[0])
    ensures TrimEnd(s) != [] && TrimEnd(s)[0] == s[0]
    ensures TrimStart(TrimEnd(s)) == TrimEnd(s)
  {
    if |s| > 1 && IsWhitespace(s[|s| - 1]) {
      TrimEndKeepsFirst(s[..|s| - 1]);
    }
  }

  /** Trimming stops at a non-whitespace character in the middle, from either side. */
  lemma TrimAround(a: string, c: char, b: string)
    requires !IsWhitespace(c)
    ensures Trim(a + [c] + b) == TrimStart(a) + [c] + TrimEnd(b)
  {
    TrimStartAt(a, c, b);
    TrimEndAt(TrimStart(a), c, b);
  }

  /** Trimming the end first changes nothing about the trimmed text. */
  lemma TrimOfTrimEnd(s: string)
    ensures Trim(TrimEnd(s)) == Trim(s)
  {
    TrimStartOfTrimEnd(s);
    TrimEndIdempotent(TrimStart(s));
  }

  /** Trimming at the end twice is trimming once. */
  lemma TrimEndIdempotent(s: string)
    ensures TrimEnd(TrimEnd(s)) == TrimEnd(s)
  {
  }

  // ---------------------------------------------------------------- decimal numbers

  predicate IsDigit(c: char) {
    '0' <= c <= '9'
  }

  predicate AllDigits(s: string) {
    forall i :: 0 <= i < |s| ==> IsDigit(s[i])
  }

  function DigitChar(d: nat): (c: char)
    requires d < 10
    ensures IsDigit(c) && c as int - '0' as int == d
  {
    ('0' as int + d) as char
  }

  /** The value of a run of decimal digits, most significant first. */
  function DigitsValue(s: string): nat
    requires AllDigits(s)
  {
    if s == [] then 0 else DigitsValue(s[..|s| - 1]) * 10 + (s[|s| - 1] as int - '0' as int)
  }

  /** The text `parse::<u32>` reads digits from: everything after an optional leading `+`. */
  function Magnitude(s: string): (r: string)
    ensures |s| > 0 && s[0] == '+' ==> r == s[1..]
    ensures !(|s| > 0 && s[0] == '+') ==> r == s
  {
    if |s| > 0 && s[0] == '+' then s[1..] else s
  }

  /**
   * `str::parse::<u32>()`: an optional `+`, then one or more ASCII digits (leading zeros
   * allowed) whose value fits in 32 bits; anything else, the empty text included, is an error.
   */
  function ParseU32(s: string): (r: Option<nat>)
    ensures r.Some? <==> Magnitude(s) != [] && AllDigits(Magnitude(s)) && DigitsValue(Magnitude(s)) <= U32Max
    ensures r.Some? ==> r.value == DigitsValue(Magnitude(s)) && r.value <= U32Max
  {
    var digits := Magnitude(s);
    if |digits| == 0 || !AllDigits(digits) then None
    else
      var v := DigitsValue(digits);
      if v <= U32Max then Some(v) else None
  }

  /** The empty text, a lone `+`, and any text with a character other than a digit (after the optional leading `+`) are refused. */
  lemma ParseRejects(s: string, i: nat)
    requires i < |s| && !IsDigit(s[i]) && !(i == 0 && s[i] == '+')
    ensures ParseU32(s) == None
    ensures ParseU32("") == None && ParseU32("+") == None
  {
    var d := Magnitude(s);
    if |s| > 0 && s[0] == '+' {
      assert d[i - 1] == s[i];
    } else {
      assert d[i] == s[i];
    }
    assert Magnitude("+") == [];
  }

  /** `format!("{}", n)` for an unsigned number: decimal, no leading zeros. */
  function Decimal(n: nat): (r: string)
    ensures |r| >= 1 && AllDigits(r)
    ensures r[0] == '0' ==> n == 0
  {
    if n < 10 then [DigitChar(n)] else Decimal(n / 10) + [DigitChar(n % 10)]
  }

  /** Reading back a formatted number gives the number. */
  lemma {:induction false} DecimalValue(n: nat)
    ensures DigitsValue(Decimal(n)) == n
  {
    if n >= 10 {
      var s := Decimal(n);
      assert s[..|s| - 1] == Decimal(n / 10);
      DecimalValue(n / 10);
    }
  }

  /** `parse::<u32>` accepts exactly the formatted numbers that fit in 32 bits, and returns them. */
  lemma ParseDecimal(n: nat)
    ensures ParseU32(Decimal(n)) == if n <= U32Max then Some(n) else None
  {
    DecimalValue(n);
  }

  /** `n` zero digits. */
  function Zeros(n: nat): (r: string)
    ensures |r| == n && AllDigits(r)
  {
    seq(n, _ => '0')
  }

  /** Leading zeros do not change the value of a run of digits. */
  lemma {:induction false} LeadingZerosValue(k: nat, d: string)
    requires AllDigits(d)
    ensures DigitsValue(Zeros(k) + d) == DigitsValue(d)
    decreases |d|
  {
    if d == [] {
      assert Zeros(k) + d == Zeros(k);
      ZerosValue(k);
    } else {
      var s := Zeros(k) + d;
      assert s[..|s| - 1] == Zeros(k) + d[..|d| - 1];
      LeadingZerosValue(k, d[..|d| - 1]);
    }
  }

  lemma {:induction false} ZerosValue(k: nat)
    ensures DigitsValue(Zeros(k)) == 0
  {
    if k > 0 {
      assert Zeros(k)[..k - 1] == Zeros(k - 1);
      ZerosValue(k - 1);
    }
  }

  /** `parse::<u32>` accepts a leading `+` and leading zeros in front of a number. */
  lemma ParseSignAndZeros(k: nat, n: nat)
    ensures ParseU32("+" + Zeros(k) + Decimal(n)) == ParseU32(Decimal(n))
  {
    var s := "+" + Zeros(k) + Decimal(n);
    assert s[1..] == Zeros(k) + Decimal(n);
    LeadingZerosValue(k, Decimal(n));
  }

  /** `format!("{}", i)` for a signed integer. */
  function IntToString(i: int): (r: string)
    ensures |r| >= 1
    ensures i >= 0 ==> r == Decimal(i) && AllDigits(r) && DigitsValue(r) == i
    ensures i < 0 ==> r == "-" + Decimal(-i) && AllDigits(r[1..]) && DigitsValue(r[1..]) == -i
  {
    if i < 0 then
      var d := Decimal(-i);
      DecimalValue(-i);
      assert ("-" + d)[1..] == d;
      "-" + d
    else
      DecimalValue(i);
      Decimal(i)
  }

  // ---------------------------------------------------------------- padding and width

  function Spaces(n: nat): (r: string)
    ensures |r| == n
    ensures forall i :: 0 <= i < n ==> r[i] == ' '
  {
    seq(n, _ => ' ')
  }

  /** `format!("{:<w}", s)`: left-aligned, padded with spaces to at least `w` characters. */
  function PadRight(s: string, w: nat): (r: string)
    ensures |r| == if |s| < w then w else |s|
    ensures r[..|s|] == s
    ensures |s| < w ==> r[|s|..] == Spaces(w - |s|)
    ensures forall i :: |s| <= i < |r| ==> r[i] == ' '
  {
    if |s| < w then s + Spaces(w - |s|) else s
  }

  /** `format!("{:>w}", s)`: right-aligned, padded with spaces to at least `w` characters. */
  function PadLeft(s: string, w: nat): (r: string)
    ensures |r| == if |s| < w then w else |s|
    ensures r[|r| - |s|..] == s
    ensures |s| < w ==> r[..|r| - |s|] == Spaces(w - |s|)
    ensures forall i :: 0 <= i < |r| - |s| ==> r[i] == ' '
  {
    if |s| < w then Spaces(w - |s|) + s else s
  }

  /** Number of bytes the UTF-8 encoding of `c` takes. */
  function Utf8Width(c: char): (n: nat)
    ensures 1 <= n <= 4
  {
    if c as int < 0x80 then 1 else if c as int < 0x800 then 2 else if c as int < 0x1_0000 then 3 else 4
  }

  /** `str::len`: the length of the UTF-8 encoding, in bytes. */
  function Utf8Len(s: string): nat {
    if s == [] then 0 else Utf8Width(s[0]) + Utf8Len(s[1..])
  }

  /** A text takes at most four bytes per character. */
  lemma {:induction false} Utf8LenAtMostFour(s: string)
    ensures Utf8Len(s) <= 4 * |s|
  {
    if s != [] {
      Utf8LenAtMostFour(s[1..]);
    }
  }

  /** Byte lengths add up. */
  lemma {:induction false} Utf8LenAppend(a: string, b: string)
    ensures Utf8Len(a + b) == Utf8Len(a) + Utf8Len(b)
  {
    if a != [] {
      assert (a + b)[1..] == a[1..] + b;
      Utf8LenAppend(a[1..], b);
    } else {
      assert a + b == b;
    }
  }

  predicate IsAscii(s: string) {
    forall i :: 0 <= i < |s| ==> s[i] as int < 0x80
  }

  /** A text has at least as many bytes as characters, and exactly as many when it is ASCII. */
  lemma {:induction false} CharsAtMostBytes(s: string)
    ensures |s| <= Utf8Len(s)
    ensures IsAscii(s) <==> Utf8Len(s) == |s|
  {
    if s != [] {
      CharsAtMostBytes(s[1..]);
      if IsAscii(s) {
        assert IsAscii(s[1..]) by {
          forall i | 0 <= i < |s| - 1 ensures s[1..][i] as int < 0x80 {
            assert s[1..][i] == s[i + 1];
          }
        }
      } else if Utf8Len(s) == |s| {
        assert Utf8Width(s[0]) == 1;
        assert IsAscii(s[1..]);
        forall i | 0 <= i < |s| ensures s[i] as int < 0x80 {
          if i > 0 { assert s[i] == s[1..][i - 1]; }
        }
        assert false;
      }
    }
  }
}
