/**
 * The few Python `str` operations the bot relies on, written out over `seq<char>`:
 * `strip()`, `replace(pat, "")`, `split(sep)`, `rfind(c)`, `int(text)`, `str(n)`.
 */
module PyStr {
  import opened Wrappers

  // ---------------------------------------------------------------------------
  // Whitespace and strip()
  // ---------------------------------------------------------------------------

  /** The characters Python's `str.isspace()` accepts, which `strip()` discards at the ends. */
  predicate IsSpace(c: char) {
    c in Whitespace
  }

  const Whitespace: set<char> := {
    ' ', '\t', '\n', '\U{0b}', '\U{0c}', '\r', '\U{1c}', '\U{1d}', '\U{1e}', '\U{1f}',
    '\U{85}', '\U{a0}', '\U{1680}', '\U{2000}', '\U{2001}', '\U{2002}', '\U{2003}', '\U{2004}',
    '\U{2005}', '\U{2006}', '\U{2007}', '\U{2008}', '\U{2009}', '\U{200a}', '\U{2028}', '\U{2029}',
    '\U{202f}', '\U{205f}', '\U{3000}'
  }

  /**
   * The characters `int()` skips at the ends. CPython first turns non-ASCII
   * whitespace into a blank and then skips only blank, tab, newline, vertical tab,
   * form feed and carriage return, so the four ASCII separators U+001C to U+001F,
   * which `isspace()` accepts, are not skipped.
   */
  const IntWhitespace: set<char> := Whitespace - {'\U{1c}', '\U{1d}', '\U{1e}', '\U{1f}'}

  predicate AllSpace(s: string) {
    forall i :: 0 <= i < |s| ==> IsSpace(s[i])
  }

  /** The first index at or after `i` that does not hold a character of `ws`, or |s|. */
  function SkipSpaces(s: string, i: nat, ws: set<char>): (n: nat)
    requires i <= |s|
    ensures i <= n <= |s|
    ensures forall k :: i <= k < n ==> s[k] in ws
    ensures n < |s| ==> s[n] !in ws
    decreases |s| - i
  {
    if i == |s| || s[i] !in ws then i else SkipSpaces(s, i + 1, ws)
  }

  /** The end of `s[lo..j]` once its trailing characters of `ws` are dropped. */
  function SkipSpacesBack(s: string, lo: nat, j: nat, ws: set<char>): (n: nat)
    requires lo <= j <= |s|
    ensures lo <= n <= j
    ensures forall k :: n <= k < j ==> s[k] in ws
    ensures n > lo ==> s[n - 1] !in ws
    decreases j - lo
  {
    if j == lo || s[j - 1] !in ws then j else SkipSpacesBack(s, lo, j - 1, ws)
  }

  /**
   * The infix of `s` between its leading and its trailing characters of `ws`; it is
   * empty exactly when `s` consists of them, and otherwise starts and ends with a
   * character outside `ws`.
   */
  function StripSet(s: string, ws: set<char>): (r: string)
    ensures exists i, j ::
      (0 <= i <= j <= |s| && r == s[i..j]
       && (forall k :: 0 <= k < i ==> s[k] in ws) && (forall k :: j <= k < |s| ==> s[k] in ws))
    ensures r == [] <==> forall k :: 0 <= k < |s| ==> s[k] in ws
    ensures r != [] ==> r[0] !in ws && r[|r| - 1] !in ws
  {
    var i := SkipSpaces(s, 0, ws);
    var j := SkipSpacesBack(s, i, |s|, ws);
    assert j > i ==> s[i..j][0] == s[i] && s[i..j][j - i - 1] == s[j - 1];
    s[i..j]
  }

  /**
   * `s.strip()`: the infix of `s` between its leading and its trailing whitespace;
   * it is empty exactly when `s` is all whitespace, and otherwise starts and ends
   * with a non-space character.
   */
  function Strip(s: string): (r: string)
    ensures exists i, j ::
      (0 <= i <= j <= |s| && r == s[i..j]
       && (forall k :: 0 <= k < i ==> IsSpace(s[k])) && (forall k :: j <= k < |s| ==> IsSpace(s[k])))
    ensures r == [] <==> AllSpace(s)
    ensures r != [] ==> !IsSpace(r[0]) && !IsSpace(r[|r| - 1])
  {
    StripSet(s, Whitespace)
  }

  /** Text that neither starts nor ends with a character of `ws` is not changed by stripping them. */
  lemma {:induction false} StripUnchanged(s: string, ws: set<char>)
    requires s == [] || (s[0] !in ws && s[|s| - 1] !in ws)
    ensures StripSet(s, ws) == s
  {
    assert SkipSpaces(s, 0, ws) == 0;
    assert SkipSpacesBack(s, 0, |s|, ws) == |s|;
    assert s[0..|s|] == s;
  }

  /** One leading blank in front of text without surrounding whitespace is stripped away. */
  lemma {:induction false} StripLeadingBlank(t: string)
    requires t == [] || (!IsSpace(t[0]) && !IsSpace(t[|t| - 1]))
    ensures Strip([' '] + t) == t
  {
    var s := [' '] + t;
    assert IsSpace(' ');
    assert SkipSpaces(s, 1, Whitespace) == 1;
    assert SkipSpaces(s, 0, Whitespace) == 1;
    assert SkipSpacesBack(s, 1, |s|, Whitespace) == |s|;
    assert s[1..|s|] == t;
  }

  // ---------------------------------------------------------------------------
  // Occurrences and replace(pat, "")
  // ---------------------------------------------------------------------------

  /** `pat` occurs in `s` starting at index `k`. */
  predicate OccursAt(s: string, pat: string, k: int) {
    0 <= k && k + |pat| <= |s| && s[k..k + |pat|] == pat
  }

  /** `pat in s` for a non-empty `pat`. */
  ghost predicate Occurs(s: string, pat: string) {
    exists k :: OccursAt(s, pat, k)
  }

  /** Every character of `pat` is the same one, as in the fence "```". */
  predicate Uniform(pat: string) {
    forall i :: 0 <= i < |pat| ==> pat[i] == pat[0]
  }

  /**
   * `s.replace(pat, "")`: one left-to-right pass that deletes each non-overlapping
   * occurrence of `pat`, always taking the leftmost one first.
   */
  function Remove(s: string, pat: string): (r: string)
    requires pat != []
    ensures |r| <= |s|
    ensures pat[0] !in s ==> r == s
    decreases |s|
  {
    if |s| < |pat| then s
    else if s[..|pat|] == pat then Remove(s[|pat|..], pat)
    else [s[0]] + Remove(s[1..], pat)
  }

  /** An occurrence in the tail of a text is an occurrence one further on in the text. */
  lemma {:induction false} OccursShift(s: string, pat: string, j: int)
    requires s != []
    ensures OccursAt(s[1..], pat, j) ==> OccursAt(s, pat, j + 1)
  {
    if OccursAt(s[1..], pat, j) {
      assert s[1..][j..j + |pat|] == s[j + 1..j + 1 + |pat|];
    }
  }

  /** Where no occurrence starts, the pass keeps the first character and goes on after it. */
  lemma {:induction false} RemoveKeepsHead(s: string, pat: string)
    requires pat != [] && s != [] && !OccursAt(s, pat, 0)
    ensures Remove(s, pat) == [s[0]] + Remove(s[1..], pat)
  {
    if |s| < |pat| {
      assert Remove(s[1..], pat) == s[1..];
      assert [s[0]] + s[1..] == s;
    }
  }

  /** If no occurrence starts in the first `|t|` places, none starts in the first `|t| - 1` places after dropping a character. */
  lemma NoneStartsInTail(t: string, u: string, pat: string)
    requires t != []
    requires forall j :: 0 <= j < |t| ==> !OccursAt(t + u, pat, j)
    ensures forall j :: 0 <= j < |t| - 1 ==> !OccursAt(t[1..] + u, pat, j)
  {
    var s := t + u;
    assert s[1..] == t[1..] + u;
    forall j | 0 <= j < |t| - 1 ensures !OccursAt(t[1..] + u, pat, j) {
      OccursShift(s, pat, j);
    }
  }

  /** Text in which no occurrence of `pat` starts is copied through unchanged by the pass. */
  lemma {:induction false} RemoveSkip(t: string, u: string, pat: string)
    requires pat != []
    requires forall j :: 0 <= j < |t| ==> !OccursAt(t + u, pat, j)
    ensures Remove(t + u, pat) == t + Remove(u, pat)
    decreases |t|
  {
    var s := t + u;
    if t == [] {
      assert s == u;
    } else {
      RemoveKeepsHead(s, pat);
      NoneStartsInTail(t, u, pat);
      assert s[1..] == t[1..] + u;
      RemoveSkip(t[1..], u, pat);
      assert s[0] == t[0];
      assert [t[0]] + (t[1..] + Remove(u, pat)) == t + Remove(u, pat);
    }
  }

  /** Removing a pattern that does not occur leaves the text as it is. */
  lemma RemoveAbsent(s: string, pat: string)
    requires pat != [] && !Occurs(s, pat)
    ensures Remove(s, pat) == s
  {
    assert s + [] == s;
    RemoveSkip(s, [], pat);
  }

  /** A text without `pat[0]` followed by `pat`: the pass keeps the text and deletes the pattern. */
  lemma RemoveFence(t: string, u: string, pat: string)
    requires pat != [] && pat[0] !in t
    ensures Remove(t + pat + u, pat) == t + Remove(u, pat)
  {
    forall j | 0 <= j < |t| ensures !OccursAt(t + (pat + u), pat, j) {
      assert (t + (pat + u))[j] == t[j] != pat[0];
    }
    RemoveSkip(t, pat + u, pat);
    assert t + pat + u == t + (pat + u);
    assert (pat + u)[..|pat|] == pat && (pat + u)[|pat|..] == u;
  }

  /**
   * For a pattern of one repeated character (such as "```"), a single pass leaves no
   * occurrence behind: a run of that character loses its leading multiples of |pat|.
   */
  lemma {:induction false} RemoveUniformLeavesNone(s: string, pat: string)
    requires pat != [] && Uniform(pat)
    ensures !Occurs(Remove(s, pat), pat)
    decreases |s|
  {
    var r := Remove(s, pat);
    if |s| < |pat| {
      assert forall k :: !OccursAt(r, pat, k);
    } else if s[..|pat|] == pat {
      RemoveUniformLeavesNone(s[|pat|..], pat);
    } else {
      var rest := Remove(s[1..], pat);
      RemoveUniformLeavesNone(s[1..], pat);
      assert r == [s[0]] + rest;
      var p := MismatchSurvives(s, pat);
      assert r[p] != pat[p];
      if |pat| <= |r| {
        assert r[0..|pat|][p] == r[p];
      }
      assert !OccursAt(r, pat, 0);
      forall k | 1 <= k && OccursAt(r, pat, k) ensures OccursAt(rest, pat, k - 1) {
        assert r[k..k + |pat|] == rest[k - 1..k - 1 + |pat|];
      }
    }
  }

  /**
   * When `s` does not start with the uniform `pat`, some position below |pat| of the
   * pass's output still differs from the pattern's character.
   */
  lemma MismatchSurvives(s: string, pat: string) returns (p: nat)
    requires pat != [] && Uniform(pat) && |s| >= |pat| && s[..|pat|] != pat
    ensures p < |pat| && p < |Remove(s, pat)| && Remove(s, pat)[p] != pat[0]
  {
    var r := Remove(s, pat);
    if s[0] != pat[0] {
      p := 0;
    } else {
      p := FirstMismatch(s, pat);
      var t := s[1..p + 1];
      var u := s[p + 1..];
      assert s[1..] == t + u;
      forall j | 0 <= j < |t| ensures !OccursAt(t + u, pat, j) {
        assert (t + u)[p - 1] == s[p];
        if j + |pat| <= |t + u| {
          assert (t + u)[j..j + |pat|][p - 1 - j] == s[p];
        }
      }
      RemoveSkip(t, u, pat);
      assert r == [s[0]] + t + Remove(u, pat);
    }
  }

  /** The first index below |pat| at which `s` leaves the pattern's character, for `s` not starting with a uniform `pat`. */
  lemma FirstMismatch(s: string, pat: string) returns (p: nat)
    requires pat != [] && Uniform(pat) && |s| >= |pat| && s[..|pat|] != pat && s[0] == pat[0]
    ensures 1 <= p < |pat| && s[p] != pat[0]
    ensures forall k :: 0 <= k < p ==> s[k] == pat[0]
  {
    p := 1;
    while p < |pat| && s[p] == pat[0]
      invariant 1 <= p <= |pat|
      invariant forall k :: 0 <= k < p ==> s[k] == pat[0]
    {
      p := p + 1;
    }
  }

  /** An occurrence inside an infix is an occurrence in the whole text. */
  lemma InfixOccurrence(s: string, pat: string, i: int, j: int, k: int)
    requires 0 <= i <= j <= |s| && OccursAt(s[i..j], pat, k)
    ensures OccursAt(s, pat, i + k)
  {
    var w := s[i + k..i + k + |pat|];
    forall m | 0 <= m < |pat| ensures w[m] == pat[m] {
      assert w[m] == s[i..j][k..k + |pat|][m];
    }
  }

  /** No occurrence survives in any infix of a text that has none. */
  lemma InfixHasNone(s: string, pat: string, i: int, j: int)
    requires 0 <= i <= j <= |s| && !Occurs(s, pat)
    ensures !Occurs(s[i..j], pat)
  {
    forall k | OccursAt(s[i..j], pat, k) ensures false {
      InfixOccurrence(s, pat, i, j, k);
    }
  }

  /** Stripping cannot create an occurrence. */
  lemma {:induction false} StripHasNone(s: string, pat: string)
    requires !Occurs(s, pat)
    ensures !Occurs(Strip(s), pat)
  {
    var i := SkipSpaces(s, 0, Whitespace);
    var j := SkipSpacesBack(s, i, |s|, Whitespace);
    InfixHasNone(s, pat, i, j);
  }

  // ---------------------------------------------------------------------------
  // rfind(c)
  // ---------------------------------------------------------------------------

  /** `s.rfind(c)`: the index of the last `c`, or -1 when there is none. */
  function LastIndex(s: string, c: char): (r: int)
    ensures -1 <= r < |s|
    ensures r == -1 <==> c !in s
    ensures r >= 0 ==> s[r] == c
    ensures forall k :: r < k < |s| ==> s[k] != c
    decreases |s|
  {
    if s == [] then -1
    else if s[|s| - 1] == c then |s| - 1
    else
      var r := LastIndex(s[..|s| - 1], c);
      assert s == s[..|s| - 1] + [s[|s| - 1]];
      r
  }

  // ---------------------------------------------------------------------------
  // split(sep)
  // ---------------------------------------------------------------------------

  /** The number of times `c` occurs in `s`. */
  function Count(s: string, c: char): nat {
    if s == [] then 0 else (if s[0] == c then 1 else 0) + Count(s[1..], c)
  }

  /** `sep.join(parts)` for a one-character separator. */
  function Join(parts: seq<string>, sep: char): string
    requires |parts| >= 1
  {
    if |parts| == 1 then parts[0] else parts[0] + [sep] + Join(parts[1..], sep)
  }

  /**
   * `s.split(sep)` for a one-character separator: one more part than there are
   * separators, no part holds the separator, and joining the parts gives `s` back.
   */
  function Split(s: string, sep: char): (parts: seq<string>)
    ensures |parts| == Count(s, sep) + 1
    ensures forall k :: 0 <= k < |parts| ==> sep !in parts[k]
    ensures Join(parts, sep) == s
  {
    if s == [] then [[]]
    else
      var rest := Split(s[1..], sep);
      if s[0] == sep then
        assert [[]] + rest == [[]] + rest && ([[]] + rest)[1..] == rest;
        [[]] + rest
      else
        var parts := [[s[0]] + rest[0]] + rest[1..];
        assert parts[1..] == rest[1..];
        assert |rest| > 1 ==> Join(rest, sep) == rest[0] + [sep] + Join(rest[1..], sep);
        assert forall k :: 1 <= k < |parts| ==> parts[k] == rest[k];
        parts
  }

  /** A separator-free text splits into itself. */
  lemma {:induction false} SplitNone(a: string, sep: char)
    requires sep !in a
    ensures Split(a, sep) == [a]
  {
    if a != [] {
      SplitNone(a[1..], sep);
      assert [a[0]] + a[1..] == a;
    }
  }

  /** A leading separator ends an empty first part. */
  lemma {:induction false} SplitAtStart(b: string, sep: char)
    ensures Split([sep] + b, sep) == [[]] + Split(b, sep)
  {
    assert ([sep] + b)[1..] == b;
  }

  /** A leading non-separator joins the first part. */
  lemma {:induction false} SplitCons(c: char, t: string, sep: char)
    requires c != sep
    ensures var rest := Split(t, sep);
      Split([c] + t, sep) == [[c] + rest[0]] + rest[1..]
  {
    assert ([c] + t)[1..] == t;
  }

  /** The first separator ends the first part. */
  lemma {:induction false} SplitAt(a: string, b: string, sep: char)
    requires sep !in a
    ensures Split(a + [sep] + b, sep) == [a] + Split(b, sep)
    decreases |a|
  {
    if a == [] {
      assert a + [sep] + b == [sep] + b;
      SplitAtStart(b, sep);
    } else {
      var tail := a[1..] + [sep] + b;
      SplitAt(a[1..], b, sep);
      SplitCons(a[0], tail, sep);
      assert a + [sep] + b == [a[0]] + tail;
      assert [a[0]] + a[1..] == a;
    }
  }

  /** Splitting a join of separator-free parts gives those parts back. */
  lemma {:induction false} SplitJoin(parts: seq<string>, sep: char)
    requires |parts| >= 1
    requires forall k :: 0 <= k < |parts| ==> sep !in parts[k]
    ensures Split(Join(parts, sep), sep) == parts
  {
    if |parts| == 1 {
      SplitNone(parts[0], sep);
    } else {
      SplitJoin(parts[1..], sep);
      SplitAt(parts[0], Join(parts[1..], sep), sep);
      assert [parts[0]] + parts[1..] == parts;
    }
  }

  // ---------------------------------------------------------------------------
  // str(n) and int(text)
  // ---------------------------------------------------------------------------

  predicate IsDigit(c: char) {
    '0' <= c <= '9'
  }

  function DigitChar(d: nat): (c: char)
    requires d < 10
    ensures IsDigit(c)
  {
    ('0' as int + d) as char
  }

  /** `str(n)` for a natural number: its decimal digits, most significant first. */
  function NatToString(n: nat): (r: string)
    ensures r != [] && forall k :: 0 <= k < |r| ==> IsDigit(r[k])
    decreases n
  {
    if n < 10 then [DigitChar(n)] else NatToString(n / 10) + [DigitChar(n % 10)]
  }

  /** `str(n)` (and f-string formatting) for any integer. */
  function IntToString(n: int): (r: string)
    ensures r != []
    ensures r[0] == '-' <==> n < 0
    ensures forall k :: 0 <= k < |r| ==> IsDigit(r[k]) || (k == 0 && r[k] == '-')
  {
    if n < 0 then "-" + NatToString(-n) else NatToString(n)
  }

  /**
   * The digit part `int()` accepts: ASCII digits with single underscores allowed
   * between two digits (`"1_000"`), never at either end.
   */
  predicate WellFormedDigits(d: string) {
    && d != []
    && IsDigit(d[0])
    && IsDigit(d[|d| - 1])
    && forall k :: 0 <= k < |d| ==> IsDigit(d[k]) || (d[k] == '_' && k + 1 < |d| && IsDigit(d[k + 1]))
  }

  /** The value of a digit string, skipping underscores. */
  function DigitsValue(d: string): nat {
    if d == [] then 0
    else
      var v := DigitsValue(d[..|d| - 1]);
      var last := d[|d| - 1];
      if IsDigit(last) then v * 10 + (last as int - '0' as int) else v
  }

  /**
   * Python's `int(text)` in base 10: surrounding characters of `IntWhitespace` are
   * ignored, then one optional sign and well-formed digits; anything else raises
   * `ValueError` (here `None`).
   */
  function ParseInt(text: string): (r: Option<int>)
    ensures r.Some? <==> IntLiteral(StripSet(text, IntWhitespace))
    ensures r.Some? && r.value < 0 ==> StripSet(text, IntWhitespace)[0] == '-'
    ensures var t := StripSet(text, IntWhitespace);
      r.Some? ==> t != [] && r.value == (if IsDigit(t[0]) then DigitsValue(t) as int
                                        else if t[0] == '-' then -(DigitsValue(t[1..]) as int)
                                        else DigitsValue(t[1..]) as int)
  {
    ParseSigned(StripSet(text, IntWhitespace))
  }

  /** `int()` does not skip a unit separator that `strip()` would remove. */
  lemma {:induction false} UnitSeparatorNotSkipped()
    ensures Strip("0" + ['\U{1f}']) == "0"
    ensures ParseInt("0" + ['\U{1f}']) == None
  {
    var t := "0" + ['\U{1f}'];
    assert SkipSpaces(t, 0, Whitespace) == 0;
    assert SkipSpacesBack(t, 0, 2, Whitespace) == 1;
    assert t[0..1] == "0";
    assert SkipSpaces(t, 0, IntWhitespace) == 0;
    assert SkipSpacesBack(t, 0, 2, IntWhitespace) == 2;
    assert t[0..2] == t;
    assert !WellFormedDigits(t);
  }

  /** The texts `int()` accepts once stripped: an optional sign, then well-formed digits. */
  predicate IntLiteral(t: string) {
    || WellFormedDigits(t)
    || (t != [] && (t[0] == '+' || t[0] == '-') && WellFormedDigits(t[1..]))
  }

  /** The sign-and-digits part of `int()`, after the whitespace is gone. */
  function ParseSigned(t: string): Option<int> {
    if t != [] && (t[0] == '+' || t[0] == '-') then
      match ParseDigits(t[1..])
      case Some(n) => Some(if t[0] == '-' then -(n as int) else n as int)
      case None => None
    else
      match ParseDigits(t)
      case Some(n) => Some(n)
      case None => None
  }

  function ParseDigits(d: string): Option<nat> {
    if WellFormedDigits(d) then Some(DigitsValue(d)) else None
  }

  lemma {:induction false} NatToStringValue(n: nat)
    ensures DigitsValue(NatToString(n)) == n
    decreases n
  {
    var s := NatToString(n);
    if n >= 10 {
      NatToStringValue(n / 10);
      assert s[..|s| - 1] == NatToString(n / 10);
    }
  }

  lemma NatToStringParses(n: nat)
    ensures ParseDigits(NatToString(n)) == Some(n)
  {
    NatToStringValue(n);
    var d := NatToString(n);
    assert WellFormedDigits(d);
  }

  /** Neither a digit nor a sign is whitespace. */
  lemma {:induction false} DigitNotSpace(c: char)
    requires IsDigit(c) || c == '-' || c == '+'
    ensures c !in IntWhitespace
  {
  }

  /** The text of a number has no surrounding whitespace for `int()` to strip. */
  lemma {:induction false} IntToStringStripped(n: int)
    ensures StripSet(IntToString(n), IntWhitespace) == IntToString(n)
  {
    var s := IntToString(n);
    var m := if n < 0 then -n else n;
    assert s[|s| - 1] == NatToString(m)[|NatToString(m)| - 1];
    DigitNotSpace(s[0]);
    DigitNotSpace(s[|s| - 1]);
    StripUnchanged(s, IntWhitespace);
  }

  /** The sign-and-digits reading of the text of a number is that number. */
  lemma {:induction false} ParseSignedRoundTrip(n: int)
    ensures ParseSigned(IntToString(n)) == Some(n)
  {
    if n < 0 {
      ParseNegative(-n);
    } else {
      ParseNonNegative(n);
    }
  }

  lemma {:induction false} ParseNegative(m: nat)
    requires m > 0
    ensures ParseSigned("-" + NatToString(m)) == Some(-(m as int))
  {
    var s := "-" + NatToString(m);
    NatToStringParses(m);
    assert s[0] == '-';
    assert s[1..] == NatToString(m);
  }

  lemma {:induction false} ParseNonNegative(n: nat)
    ensures ParseSigned(NatToString(n)) == Some(n)
  {
    var s := NatToString(n);
    NatToStringParses(n);
    assert IsDigit(s[0]);
  }

  /** `int(str(n)) == n` for every integer `n`. */
  lemma {:induction false} ParseIntRoundTrip(n: int)
    ensures ParseInt(IntToString(n)) == Some(n)
  {
    IntToStringStripped(n);
    ParseSignedRoundTrip(n);
  }

  /** Text padded on both sides with characters of `ws` strips back to its core. */
  lemma {:induction false} StripPadded(w1: string, core: string, w2: string, ws: set<char>)
    requires forall k :: 0 <= k < |w1| ==> w1[k] in ws
    requires forall k :: 0 <= k < |w2| ==> w2[k] in ws
    requires core != [] && core[0] !in ws && core[|core| - 1] !in ws
    ensures StripSet(w1 + core + w2, ws) == core
  {
    var s := w1 + core + w2;
    assert forall k :: 0 <= k < |w1| ==> s[k] == w1[k];
    assert forall k :: |w1| + |core| <= k < |s| ==> s[k] == w2[k - |w1| - |core|];
    assert s[|w1|] == core[0];
    var i := SkipSpaces(s, 0, ws);
    assert i == |w1|;
    assert s[|w1| + |core| - 1] == core[|core| - 1];
    var j := SkipSpacesBack(s, i, |s|, ws);
    assert j == |w1| + |core|;
    assert s[i..j] == core;
  }

  /** A run of '0' has the value 0. */
  lemma {:induction false} ZerosValue(zeros: string)
    requires forall k :: 0 <= k < |zeros| ==> zeros[k] == '0'
    ensures DigitsValue(zeros) == 0
    decreases |zeros|
  {
    if zeros != [] {
      ZerosValue(zeros[..|zeros| - 1]);
    }
  }

  /** Leading zeros do not change the value of a digit string. */
  lemma {:induction false} LeadingZerosValue(zeros: string, d: string)
    requires forall k :: 0 <= k < |zeros| ==> zeros[k] == '0'
    ensures DigitsValue(zeros + d) == DigitsValue(d)
    decreases |d|
  {
    if d == [] {
      assert zeros + d == zeros;
      ZerosValue(zeros);
    } else {
      assert (zeros + d)[..|zeros + d| - 1] == zeros + d[..|d| - 1];
      LeadingZerosValue(zeros, d[..|d| - 1]);
    }
  }

  /** Leading zeros in front of the digits of a number keep them well formed. */
  lemma {:induction false} LeadingZerosWellFormed(zeros: string, n: nat)
    requires forall k :: 0 <= k < |zeros| ==> zeros[k] == '0'
    ensures WellFormedDigits(zeros + NatToString(n))
  {
    var d := zeros + NatToString(n);
    assert forall k :: 0 <= k < |d| ==> IsDigit(d[k]) by {
      forall k | 0 <= k < |d| ensures IsDigit(d[k]) {
        if k >= |zeros| { assert d[k] == NatToString(n)[k - |zeros|]; }
      }
    }
  }

  /** Leading zeros and the digits of `n` read as `n`, and the text starts and ends with a digit. */
  lemma {:induction false} ZeroPaddedDigits(zeros: string, n: nat)
    requires forall k :: 0 <= k < |zeros| ==> zeros[k] == '0'
    ensures var d := zeros + NatToString(n);
      d != [] && IsDigit(d[0]) && IsDigit(d[|d| - 1]) && ParseDigits(d) == Some(n)
  {
    LeadingZerosWellFormed(zeros, n);
    LeadingZerosValue(zeros, NatToString(n));
    NatToStringValue(n);
  }

  /** A sign, leading zeros and the digits of a number neither start nor end with whitespace `int()` skips. */
  lemma {:induction false} SignedDigitsEnds(sign: string, zeros: string, n: nat)
    requires sign == "" || sign == "+" || sign == "-"
    requires forall k :: 0 <= k < |zeros| ==> zeros[k] == '0'
    ensures var core := sign + zeros + NatToString(n);
      core != [] && core[0] !in IntWhitespace && core[|core| - 1] !in IntWhitespace
  {
    var d := zeros + NatToString(n);
    var core := sign + zeros + NatToString(n);
    ZeroPaddedDigits(zeros, n);
    assert core == sign + d;
    assert core[|core| - 1] == d[|d| - 1];
    assert core[0] == if sign == "" then d[0] else sign[0];
    DigitNotSpace(core[0]);
    DigitNotSpace(core[|core| - 1]);
  }

  /** A sign ("", "+" or "-"), leading zeros and the digits of `n` read as the signed `n`. */
  lemma {:induction false} SignedDigitsValue(sign: string, zeros: string, n: nat)
    requires sign == "" || sign == "+" || sign == "-"
    requires forall k :: 0 <= k < |zeros| ==> zeros[k] == '0'
    ensures ParseSigned(sign + zeros + NatToString(n)) == Some(if sign == "-" then -(n as int) else n as int)
  {
    var d := zeros + NatToString(n);
    var core := sign + zeros + NatToString(n);
    ZeroPaddedDigits(zeros, n);
    assert core == sign + d;
    if sign == "" {
      assert core == d;
      assert !(core[0] == '+' || core[0] == '-');
    } else {
      assert core[0] == sign[0] && core[1..] == d;
    }
  }

  /**
   * `int()` reads a number written with surrounding whitespace it skips, an optional
   * sign ("", "+" or "-") and leading zeros, as the signed value of its digits.
   */
  lemma {:induction false} ParseIntForms(w1: string, sign: string, zeros: string, n: nat, w2: string)
    requires forall k :: 0 <= k < |w1| ==> w1[k] in IntWhitespace
    requires forall k :: 0 <= k < |w2| ==> w2[k] in IntWhitespace
    requires sign == "" || sign == "+" || sign == "-"
    requires forall k :: 0 <= k < |zeros| ==> zeros[k] == '0'
    ensures ParseInt(w1 + sign + zeros + NatToString(n) + w2) == Some(if sign == "-" then -(n as int) else n as int)
  {
    var core := sign + zeros + NatToString(n);
    SignedDigitsEnds(sign, zeros, n);
    SignedDigitsValue(sign, zeros, n);
    assert w1 + sign + zeros + NatToString(n) + w2 == w1 + core + w2;
    StripPadded(w1, core, w2, IntWhitespace);
  }
}
