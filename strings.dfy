/** The JavaScript string built-ins the core relies on: `trim`, `split` on a
    one-character separator, `replace` of the first occurrence of a literal
    pattern, the decimal rendering of a number and `parseInt(s, 10)`. */
module Strings {
  import opened Wrappers

  // ---------------------------------------------------------------------
  // Whitespace and trimming
  // ---------------------------------------------------------------------

  /** The characters `trim` and `parseInt` skip: WhiteSpace and
      LineTerminator of ECMA-262 (sections 12.2 and 12.3). */
  predicate IsWhitespace(c: char) {
    var n := c as int;
    n == 0x09 || n == 0x0A || n == 0x0B || n == 0x0C || n == 0x0D || n == 0x20 ||
    n == 0xA0 || n == 0x1680 || (0x2000 <= n <= 0x200A) || n == 0x2028 ||
    n == 0x2029 || n == 0x202F || n == 0x205F || n == 0x3000 || n == 0xFEFF
  }

  /** `s` with its leading whitespace removed: a suffix of `s` that does not
      start with whitespace, and everything dropped is whitespace. */
  function TrimStart(s: string): (r: string)
    ensures |r| <= |s| && r == s[|s| - |r|..]
    ensures forall k :: 0 <= k < |s| - |r| ==> IsWhitespace(s[k])
    ensures r == [] || !IsWhitespace(r[0])
  {
    if s != [] && IsWhitespace(s[0]) then
      var r := TrimStart(s[1..]);
      assert forall k :: 1 <= k < |s| - |r| ==> s[k] == s[1..][k - 1];
      r
    else s
  }

  /** `s` with its trailing whitespace removed: a prefix of `s` that does not
      end with whitespace, and everything dropped is whitespace. */
  function TrimEnd(s: string): (r: string)
    ensures |r| <= |s| && r == s[..|r|]
    ensures forall k :: |r| <= k < |s| ==> IsWhitespace(s[k])
    ensures r == [] || !IsWhitespace(r[|r| - 1])
  {
    if s != [] && IsWhitespace(s[|s| - 1]) then
      var r := TrimEnd(s[..|s| - 1]);
      assert forall k :: |r| <= k < |s| - 1 ==> s[k] == s[..|s| - 1][k];
      r
    else s
  }

  /** Every character of `s` at a position in `[i, j)` is whitespace. */
  predicate WhitespaceBetween(s: string, i: int, j: int) {
    forall k :: i <= k < j && 0 <= k < |s| ==> IsWhitespace(s[k])
  }

  /** `r` is the part of `s` after `lead` leading characters that the
      trimming keeps: a slice of `s` that neither starts nor ends with
      whitespace, with only whitespace before and after it. */
  predicate SliceBetweenWhitespace(s: string, lead: int, r: string) {
    && 0 <= lead && lead + |r| <= |s| && r == s[lead..lead + |r|]
    && WhitespaceBetween(s, 0, lead) && WhitespaceBetween(s, lead + |r|, |s|)
    && (r == [] || (!IsWhitespace(r[0]) && !IsWhitespace(r[|r| - 1])))
  }

  /** `r` is `s` with its leading and trailing whitespace removed. */
  predicate TrimmedSlice(s: string, r: string) {
    SliceBetweenWhitespace(s, |s| - |TrimStart(s)|, r)
  }

  /** `String.prototype.trim`; it gives the empty string exactly when `s` is
      all whitespace. */
  function Trim(s: string): (r: string)
    ensures TrimmedSlice(s, r)
    ensures r == [] <==> forall k :: 0 <= k < |s| ==> IsWhitespace(s[k])
  {
    var t := TrimStart(s);
    TrimPasses(s, t, TrimEnd(t));
    TrimEmpty(s);
    TrimEnd(t)
  }

  /** A suffix `t` of `s` after leading whitespace, and a prefix `r` of `t`
      before trailing whitespace, each as the trimming passes leave them,
      make `r` the slice of `s` between its leading and trailing
      whitespace. */
  lemma TrimPasses(s: string, t: string, r: string)
    requires |t| <= |s| && t == s[|s| - |t|..]
    requires forall k :: 0 <= k < |s| - |t| ==> IsWhitespace(s[k])
    requires t == [] || !IsWhitespace(t[0])
    requires |r| <= |t| && r == t[..|r|]
    requires forall k :: |r| <= k < |t| ==> IsWhitespace(t[k])
    requires r == [] || !IsWhitespace(r[|r| - 1])
    ensures SliceBetweenWhitespace(s, |s| - |t|, r)
  {
    var lead := |s| - |t|;
    PrefixOfSuffix(s, lead, |r|);
    forall k | lead + |r| <= k < |s| ensures IsWhitespace(s[k]) {
      assert s[k] == t[k - lead];
    }
    if r != [] {
      assert r[0] == t[0];
    }
  }

  /** Both passes together leave nothing exactly when `s` is all
      whitespace. */
  lemma TrimEmpty(s: string)
    ensures TrimEnd(TrimStart(s)) == [] <==> forall k :: 0 <= k < |s| ==> IsWhitespace(s[k])
  {
    var t := TrimStart(s);
    if TrimEnd(t) == [] {
      assert t == [];
    }
  }

  /** A prefix of a suffix is a slice. */
  lemma PrefixOfSuffix(s: string, a: nat, b: nat)
    requires a + b <= |s|
    ensures s[a..][..b] == s[a..a + b]
  {
  }

  lemma TrimStartNoLeading(s: string)
    requires s == [] || !IsWhitespace(s[0])
    ensures TrimStart(s) == s
  {
  }

  lemma TrimEndNoTrailing(s: string)
    requires s == [] || !IsWhitespace(s[|s| - 1])
    ensures TrimEnd(s) == s
  {
  }

  /** A trimmed string starts and ends with non-whitespace, and trimming it
      again changes nothing. */
  lemma TrimIdempotent(s: string)
    ensures var r := Trim(s);
      (r == [] || (!IsWhitespace(r[0]) && !IsWhitespace(r[|r| - 1]))) && Trim(r) == r
  {
    var t := TrimStart(s);
    var r := TrimEnd(t);
    assert r == [] || r[0] == t[0];
    TrimStartNoLeading(r);
    TrimEndNoTrailing(r);
  }

  // ---------------------------------------------------------------------
  // Splitting on a separator
  // ---------------------------------------------------------------------

  predicate Free(s: string, sep: char) {
    forall k :: 0 <= k < |s| ==> s[k] != sep
  }

  /** `s.split(sep)`: the pieces between separators, in order, empty pieces
      kept; there is always at least one piece and none holds `sep`. */
  function Split(s: string, sep: char): (parts: seq<string>)
    ensures |parts| >= 1
    ensures forall i :: 0 <= i < |parts| ==> Free(parts[i], sep)
  {
    if s == [] then [[]]
    else
      var rest := Split(s[1..], sep);
      if s[0] == sep then [[]] + rest else [[s[0]] + rest[0]] + rest[1..]
  }

  /** `parts.join(sep)`. */
  function Join(parts: seq<string>, sep: char): string {
    if |parts| == 0 then []
    else if |parts| == 1 then parts[0]
    else parts[0] + [sep] + Join(parts[1..], sep)
  }

  /** Joining the pieces of a split gives back the string. */
  lemma {:induction false} JoinSplit(s: string, sep: char)
    ensures Join(Split(s, sep), sep) == s
  {
    if s != [] {
      var rest := Split(s[1..], sep);
      JoinSplit(s[1..], sep);
      if s[0] == sep {
        assert Split(s, sep) == [[]] + rest;
        assert ([[]] + rest)[1..] == rest;
      } else {
        var parts := Split(s, sep);
        assert parts == [[s[0]] + rest[0]] + rest[1..];
        if |rest| == 1 {
          assert Join(rest, sep) == rest[0];
        } else {
          assert parts[1..] == rest[1..];
          assert Join(rest, sep) == rest[0] + [sep] + Join(rest[1..], sep);
        }
      }
    }
  }

  /** A string free of the separator is a single piece. */
  lemma {:induction false} SplitFree(s: string, sep: char)
    requires Free(s, sep)
    ensures Split(s, sep) == [s]
  {
    if s != [] {
      SplitFree(s[1..], sep);
      assert [s[0]] + s[1..] == s;
    }
  }

  /** Splitting at a leading separator-free piece. */
  lemma {:induction false} SplitCons(a: string, sep: char, b: string)
    requires Free(a, sep)
    ensures Split(a + [sep] + b, sep) == [a] + Split(b, sep)
  {
    if a == [] {
      assert a + [sep] + b == [sep] + b;
      assert ([sep] + b)[1..] == b;
    } else {
      SplitCons(a[1..], sep, b);
      assert (a + [sep] + b)[1..] == a[1..] + [sep] + b;
      assert [a[0]] + a[1..] == a;
    }
  }

  /** Splitting a join of separator-free pieces gives back the pieces. */
  lemma {:induction false} SplitJoin(parts: seq<string>, sep: char)
    requires |parts| >= 1
    requires forall i :: 0 <= i < |parts| ==> Free(parts[i], sep)
    ensures Split(Join(parts, sep), sep) == parts
  {
    if |parts| == 1 {
      SplitFree(parts[0], sep);
    } else {
      SplitJoin(parts[1..], sep);
      SplitCons(parts[0], sep, Join(parts[1..], sep));
      assert [parts[0]] + parts[1..] == parts;
    }
  }

  // ---------------------------------------------------------------------
  // Finding and replacing a literal pattern
  // ---------------------------------------------------------------------

  predicate OccursAt(s: string, pat: string, i: nat) {
    i + |pat| <= |s| && s[i..i + |pat|] == pat
  }

  /** `i` is where `pat` first occurs in `s`. */
  predicate FirstOccurrence(s: string, pat: string, i: nat) {
    OccursAt(s, pat, i) && forall j :: 0 <= j < i ==> !OccursAt(s, pat, j)
  }

  predicate Contains(s: string, pat: string) {
    exists i: nat :: i <= |s| && OccursAt(s, pat, i)
  }

  /** The first position at or after `from` where `pat` occurs, if any. */
  function FindFrom(s: string, pat: string, from: nat): (r: Option<nat>)
    requires from <= |s|
    ensures r.Some? ==> from <= r.value && OccursAt(s, pat, r.value) &&
                        forall j :: from <= j < r.value ==> !OccursAt(s, pat, j)
    ensures r.None? ==> forall j: nat :: from <= j ==> !OccursAt(s, pat, j)
    decreases |s| - from
  {
    if OccursAt(s, pat, from) then Some(from)
    else if from == |s| then None
    else FindFrom(s, pat, from + 1)
  }

  /** `s.indexOf(pat)`, with `None` for -1. */
  function IndexOf(s: string, pat: string): (r: Option<nat>)
    ensures r.Some? <==> Contains(s, pat)
    ensures r.Some? ==> FirstOccurrence(s, pat, r.value)
  {
    FindFrom(s, pat, 0)
  }

  /** `s.replace(pat, rep)` for a string pattern: only the first occurrence
      is replaced, and a string without the pattern is returned unchanged.
      (The replacements used here never contain `$`, so JavaScript's
      replacement patterns play no part.) */
  function ReplaceFirst(s: string, pat: string, rep: string): (r: string)
    ensures !Contains(s, pat) ==> r == s
    ensures forall i: nat :: FirstOccurrence(s, pat, i) ==>
              r == s[..i] + rep + s[i + |pat|..]
  {
    match IndexOf(s, pat)
    case None => s
    case Some(i) => s[..i] + rep + s[i + |pat|..]
  }

  /** After replacing the first occurrence, the replacement text occurs in
      the result at the position where the pattern was. */
  lemma ReplacementOccurs(s: string, pat: string, rep: string, i: nat)
    requires FirstOccurrence(s, pat, i)
    ensures OccursAt(ReplaceFirst(s, pat, rep), rep, i)
  {
    var r := ReplaceFirst(s, pat, rep);
    assert r == s[..i] + rep + s[i + |pat|..];
    assert r[i..i + |rep|] == rep;
  }

  /** Every occurrence of `pat` in `s` from `i + |pat|` on occurs in `r` as
      well, moved by `repLen - |pat|`. */
  ghost predicate LaterOccurrencesKept(s: string, pat: string, i: nat, r: string, repLen: nat) {
    forall j: nat :: i + |pat| <= j && OccursAt(s, pat, j) ==> OccursAt(r, pat, j - |pat| + repLen)
  }

  /** `replace` touches the first occurrence only: the replacement stands
      there, and every later occurrence of the pattern survives, moved by the
      difference in length. */
  lemma ReplaceFirstKeepsLater(s: string, pat: string, rep: string)
    ensures IndexOf(s, pat).Some? ==>
              && OccursAt(ReplaceFirst(s, pat, rep), rep, IndexOf(s, pat).value)
              && LaterOccurrencesKept(s, pat, IndexOf(s, pat).value, ReplaceFirst(s, pat, rep), |rep|)
  {
    if IndexOf(s, pat).Some? {
      var i := IndexOf(s, pat).value;
      ReplacementOccurs(s, pat, rep, i);
      forall j: nat | i + |pat| <= j && OccursAt(s, pat, j)
        ensures OccursAt(ReplaceFirst(s, pat, rep), pat, j - |pat| + |rep|)
      {
        SpliceKeepsLater(s, i, |pat|, rep, pat, j);
      }
    }
  }

  /** Splicing `rep` over `s[i..i + m]` keeps an occurrence of `pat` that
      starts after the spliced part, moved by `|rep| - m`. */
  lemma SpliceKeepsLater(s: string, i: nat, m: nat, rep: string, pat: string, j: nat)
    requires i + m <= j && OccursAt(s, pat, j)
    ensures OccursAt(s[..i] + rep + s[i + m..], pat, j - m + |rep|)
  {
    var r := s[..i] + rep + s[i + m..];
    assert r[i + |rep|..] == s[i + m..];
    assert r[j - m + |rep|..j - m + |rep| + |pat|] == s[i + m..][j - i - m..j - i - m + |pat|];
  }

  /** The pattern cannot occur where its first character does not. */
  lemma NoOccurrenceBefore(s: string, pat: string, i: nat)
    requires pat != [] && i <= |s|
    requires pat[0] !in s[..i]
    ensures forall j: nat :: j < i ==> !OccursAt(s, pat, j)
  {
    forall j: nat | j < i
      ensures !OccursAt(s, pat, j)
    {
      assert s[..i][j] == s[j] != pat[0];
      assert j + |pat| <= |s| ==> s[j..j + |pat|][0] == s[j];
    }
  }

  /** A string without the pattern's first character does not contain it. */
  lemma NotContainsWithoutFirstChar(s: string, pat: string)
    requires pat != [] && pat[0] !in s
    ensures !Contains(s, pat)
  {
    assert s[..|s|] == s;
    NoOccurrenceBefore(s, pat, |s|);
  }

  /** An occurrence with no earlier copy of the pattern's first character is
      the one `indexOf` finds. */
  lemma IndexOfAt(s: string, pat: string, i: nat)
    requires pat != [] && OccursAt(s, pat, i)
    requires pat[0] !in s[..i]
    ensures IndexOf(s, pat) == Some(i)
  {
    NoOccurrenceBefore(s, pat, i);
    assert FirstOccurrence(s, pat, i);
  }

  // ---------------------------------------------------------------------
  // Decimal numbers
  // ---------------------------------------------------------------------

  predicate IsDigit(c: char) {
    '0' <= c <= '9'
  }

  predicate AllDigits(s: string) {
    forall k :: 0 <= k < |s| ==> IsDigit(s[k])
  }

  function DigitChar(d: nat): (c: char)
    requires d < 10
    ensures IsDigit(c) && c as int - '0' as int == d
  {
    ('0' as int + d) as char
  }

  function DigitValue(c: char): nat
    requires IsDigit(c)
  {
    c as int - '0' as int
  }

  /** The value of a string of decimal digits (the empty string is 0). */
  function DecimalValue(s: string): nat
    requires AllDigits(s)
  {
    if s == [] then 0 else DecimalValue(s[..|s| - 1]) * 10 + DigitValue(s[|s| - 1])
  }

  /** `n.toString()` for a non-negative integer: decimal digits, at least
      one, and no leading zero. */
  function NatToDecimal(n: nat): (r: string)
    ensures |r| >= 1 && AllDigits(r)
    ensures r[0] == '0' ==> n == 0
  {
    if n < 10 then [DigitChar(n)] else NatToDecimal(n / 10) + [DigitChar(n % 10)]
  }

  /** `i.toString()` for an integer: a minus sign exactly for a negative
      number, then at least one decimal digit. */
  function IntToDecimal(i: int): (r: string)
    ensures |r| >= 1 && (r[0] == '-' <==> i < 0)
    ensures i < 0 ==> |r| >= 2 && AllDigits(r[1..])
    ensures i >= 0 ==> AllDigits(r)
  {
    if i < 0 then "-" + NatToDecimal(-i) else NatToDecimal(i)
  }

  /** Reading the decimal rendering of `n` gives `n` back. */
  lemma {:induction false} DecimalRoundTrip(n: nat)
    ensures DecimalValue(NatToDecimal(n)) == n
  {
    var r := NatToDecimal(n);
    if n >= 10 {
      DecimalRoundTrip(n / 10);
      assert r[..|r| - 1] == NatToDecimal(n / 10);
    }
  }

  /** Different numbers have different decimal renderings. */
  lemma DecimalInjective(m: nat, n: nat)
    requires NatToDecimal(m) == NatToDecimal(n)
    ensures m == n
  {
    DecimalRoundTrip(m);
    DecimalRoundTrip(n);
  }

  /** The longest prefix of `s` made of decimal digits. */
  function DigitPrefix(s: string): (r: string)
    ensures |r| <= |s| && r == s[..|r|] && AllDigits(r)
    ensures |r| == |s| || !IsDigit(s[|r|])
  {
    if s != [] && IsDigit(s[0]) then [s[0]] + DigitPrefix(s[1..]) else []
  }

  /** `parseInt(s, 10)`: skip leading whitespace, take an optional sign, then
      the longest run of decimal digits; no digits at all is `NaN`, here
      `None`. */
  function ParseInt(s: string): (r: Option<int>)
    ensures var t := TrimStart(s);
            var body := if t != [] && (t[0] == '-' || t[0] == '+') then t[1..] else t;
      r.None? <==> body == [] || !IsDigit(body[0])
    ensures r.Some? && r.value < 0 ==> TrimStart(s)[0] == '-'
  {
    var t := TrimStart(s);
    var negative := t != [] && t[0] == '-';
    var body := if t != [] && (t[0] == '-' || t[0] == '+') then t[1..] else t;
    var digits := DigitPrefix(body);
    if digits == [] then None
    else Some(if negative then -(DecimalValue(digits) as int) else DecimalValue(digits))
  }

  /** `parseInt` reads back what `toString` writes, for every integer. */
  lemma ParseIntRoundTrip(i: int)
    ensures ParseInt(IntToDecimal(i)) == Some(i)
  {
    if i < 0 {
      ParseNegative(-i);
      assert -((-i) as int) == i;
    } else {
      ParseNatural(i);
    }
  }

  /** The digits of a natural number, with nothing before them, read back as
      that number. */
  lemma ParseNatural(n: nat)
    ensures ParseInt(IntToDecimal(n)) == Some(n)
  {
    var d := NatToDecimal(n);
    assert IntToDecimal(n) == d;
    DecimalRoundTrip(n);
    TrimStartNoLeading(d);
    WholeDigitPrefix(d);
  }

  /** A minus sign followed by the digits of a positive number reads back as
      its negation. */
  lemma ParseNegative(n: nat)
    requires n > 0
    ensures ParseInt(IntToDecimal(-(n as int))) == Some(-(n as int))
  {
    var d := NatToDecimal(n);
    var s := "-" + d;
    assert IntToDecimal(-(n as int)) == s;
    assert s[0] == '-' && s[1..] == d;
    TrimStartNoLeading(s);
    WholeDigitPrefix(d);
    assert DigitPrefix(s[1..]) == d != [];
    DecimalRoundTrip(n);
    assert ParseInt(s) == Some(-(DecimalValue(d) as int));
  }

  /** A string of digits is its own longest digit prefix. */
  /** `parseInt` of a non-empty string of decimal digits is the number they
      write, leading zeros included (`parseInt("007")` is 7). */
  lemma ParseIntDigits(s: string)
    requires s != [] && AllDigits(s)
    ensures ParseInt(s) == Some(DecimalValue(s) as int)
  {
    TrimStartNoLeading(s);
    WholeDigitPrefix(s);
  }

  lemma WholeDigitPrefix(s: string)
    requires AllDigits(s)
    ensures DigitPrefix(s) == s
  {
    var r := DigitPrefix(s);
    assert |r| == |s|;
  }

  /** `parseInt` of a string without any decimal digit is `NaN`. */
  lemma ParseIntNoDigits(s: string)
    requires forall k :: 0 <= k < |s| ==> !IsDigit(s[k])
    ensures ParseInt(s) == None
  {
    var t := TrimStart(s);
    assert forall k :: 0 <= k < |t| ==> t[k] == s[|s| - |t| + k];
    var body := if t != [] && (t[0] == '-' || t[0] == '+') then t[1..] else t;
    if body != [] {
      assert !IsDigit(body[0]);
    }
  }
}
