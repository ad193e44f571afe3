/**
 * The string operations the review extractor relies on, written out on
 * `seq<char>`: Python's `str.startswith`, `str.strip(c)`, `str.split(c)`,
 * and the regular expression search `rated-(\d+)` followed by the
 * conversion of the captured digits to a number.
 */
module Text {
  import opened Wrappers

  /** `s.startswith(p)` */
  predicate StartsWith(s: string, p: string) {
    |p| <= |s| && s[..|p|] == p
  }

  /** `n` copies of `c`. */
  function Repeat(c: char, n: nat): (r: string)
    ensures |r| == n
    ensures forall i :: 0 <= i < n ==> r[i] == c
  {
    if n == 0 then "" else [c] + Repeat(c, n - 1)
  }

  // ---------------------------------------------------------------------
  // str.strip(c)
  // ---------------------------------------------------------------------

  function TrimStart(s: string, c: char): (r: string)
    ensures |r| <= |s|
    decreases |s|
  {
    if |s| > 0 && s[0] == c then TrimStart(s[1..], c) else s
  }

  function TrimEnd(s: string, c: char): (r: string)
    ensures |r| <= |s|
    decreases |s|
  {
    if |s| > 0 && s[|s| - 1] == c then TrimEnd(s[..|s| - 1], c) else s
  }

  /** `s.strip(c)`: every leading and every trailing `c` removed. */
  function Strip(s: string, c: char): (r: string)
    ensures |r| <= |s|
  {
    TrimEnd(TrimStart(s, c), c)
  }

  /** `u` neither starts nor ends with `c`. */
  predicate Unpadded(u: string, c: char) {
    u == "" || (u[0] != c && u[|u| - 1] != c)
  }

  lemma {:induction false} TrimStartShape(s: string, c: char)
    ensures |TrimStart(s, c)| <= |s|
    ensures s == Repeat(c, |s| - |TrimStart(s, c)|) + TrimStart(s, c)
    ensures TrimStart(s, c) == "" || TrimStart(s, c)[0] != c
    decreases |s|
  {
    if |s| > 0 && s[0] == c {
      TrimStartShape(s[1..], c);
      var t := TrimStart(s[1..], c);
      assert s == [c] + s[1..];
      assert [c] + Repeat(c, |s[1..]| - |t|) == Repeat(c, |s| - |t|);
    }
  }

  lemma {:induction false} TrimEndShape(s: string, c: char)
    ensures |TrimEnd(s, c)| <= |s|
    ensures s == TrimEnd(s, c) + Repeat(c, |s| - |TrimEnd(s, c)|)
    ensures TrimEnd(s, c) == "" || TrimEnd(s, c)[|TrimEnd(s, c)| - 1] != c
    decreases |s|
  {
    if |s| > 0 && s[|s| - 1] == c {
      var init := s[..|s| - 1];
      TrimEndShape(init, c);
      var t := TrimEnd(init, c);
      assert s == init + [c];
      assert Repeat(c, |init| - |t|) + [c] == Repeat(c, |s| - |t|);
    }
  }

  /**
   * `Strip(s, c)` is what is left of `s` once a run of `c` is cut from each
   * end, and it has no `c` left at either end.
   */
  lemma StripShape(s: string, c: char)
    ensures Unpadded(Strip(s, c), c)
    ensures exists m: nat, n: nat :: s == Repeat(c, m) + Strip(s, c) + Repeat(c, n)
  {
    TrimStartShape(s, c);
    var t := TrimStart(s, c);
    TrimEndShape(t, c);
    var r := TrimEnd(t, c);
    var m, n := |s| - |t|, |t| - |r|;
    assert s == Repeat(c, m) + r + Repeat(c, n);
    if r != "" {
      assert r[0] == t[0];
    }
  }

  lemma {:induction false} TrimStartPadded(m: nat, w: string, c: char)
    requires w == "" || w[0] != c
    ensures TrimStart(Repeat(c, m) + w, c) == w
    decreases m
  {
    if m > 0 {
      assert (Repeat(c, m) + w)[1..] == Repeat(c, m - 1) + w;
      TrimStartPadded(m - 1, w, c);
    }
  }

  lemma {:induction false} TrimEndPadded(w: string, n: nat, c: char)
    requires w == "" || w[|w| - 1] != c
    ensures TrimEnd(w + Repeat(c, n), c) == w
    decreases n
  {
    if n > 0 {
      var s := w + Repeat(c, n);
      assert s[..|s| - 1] == w + Repeat(c, n - 1);
      TrimEndPadded(w, n - 1, c);
    }
  }

  /** Conversely, cutting the padding off a padded unpadded string gives it back. */
  lemma StripPadded(m: nat, u: string, n: nat, c: char)
    requires Unpadded(u, c)
    ensures Strip(Repeat(c, m) + u + Repeat(c, n), c) == u
  {
    if u == "" {
      assert Repeat(c, m) + u + Repeat(c, n) == Repeat(c, m + n) + "";
      TrimStartPadded(m + n, "", c);
    } else {
      assert Repeat(c, m) + u + Repeat(c, n) == Repeat(c, m) + (u + Repeat(c, n));
      TrimStartPadded(m, u + Repeat(c, n), c);
      TrimEndPadded(u, n, c);
    }
  }

  // ---------------------------------------------------------------------
  // str.split(sep) and its inverse sep.join(parts)
  // ---------------------------------------------------------------------

  /** `s.split(sep)`: the pieces between the occurrences of `sep`, in order. */
  function Split(s: string, sep: char): (parts: seq<string>)
    ensures |parts| >= 1
    decreases |s|
  {
    if s == "" then [""]
    else
      var rest := Split(s[1..], sep);
      if s[0] == sep then [""] + rest else [[s[0]] + rest[0]] + rest[1..]
  }

  /** `sep.join(parts)` */
  function Join(parts: seq<string>, sep: char): string
    decreases |parts|
  {
    if |parts| == 0 then ""
    else if |parts| == 1 then parts[0]
    else parts[0] + [sep] + Join(parts[1..], sep)
  }

  lemma JoinFront(parts: seq<string>, sep: char)
    requires |parts| >= 2
    ensures Join(parts, sep) == parts[0] + [sep] + Join(parts[1..], sep)
  {
  }

  /** The first three pieces of a join, then the separator and the rest when there is more. */
  lemma JoinHead3(parts: seq<string>, sep: char)
    requires |parts| >= 3
    ensures Join(parts, sep) == parts[0] + [sep] + parts[1] + [sep] + parts[2] +
              (if |parts| == 3 then "" else [sep] + Join(parts[3..], sep))
  {
    JoinFront(parts, sep);
    JoinFront(parts[1..], sep);
    assert parts[1..][1..] == parts[2..];
    if |parts| > 3 {
      JoinFront(parts[2..], sep);
      assert parts[2..][1..] == parts[3..];
    }
  }

  predicate NoSep(parts: seq<string>, sep: char) {
    forall k :: 0 <= k < |parts| ==> sep !in parts[k]
  }

  /** Joining the pieces back with the separator restores the string. */
  lemma {:induction false} JoinSplit(s: string, sep: char)
    ensures Join(Split(s, sep), sep) == s
    decreases |s|
  {
    if s != "" {
      var rest := Split(s[1..], sep);
      JoinSplit(s[1..], sep);
      assert s == [s[0]] + s[1..];
      if s[0] == sep {
        assert Join([""] + rest, sep) == "" + [sep] + Join(rest, sep);
      } else if |rest| == 1 {
        assert Join(Split(s, sep), sep) == [s[0]] + rest[0];
      } else {
        var parts := Split(s, sep);
        assert parts[1..] == rest[1..];
        assert Join(parts, sep) == [s[0]] + rest[0] + [sep] + Join(rest[1..], sep);
        assert Join(rest, sep) == rest[0] + [sep] + Join(rest[1..], sep);
      }
    }
  }

  /** No piece contains the separator. */
  lemma {:induction false} SplitNoSep(s: string, sep: char)
    ensures NoSep(Split(s, sep), sep)
    decreases |s|
  {
    if s != "" {
      SplitNoSep(s[1..], sep);
      var rest := Split(s[1..], sep);
      var parts := Split(s, sep);
      if s[0] != sep {
        assert sep !in rest[0];
        assert parts[0] == [s[0]] + rest[0];
        forall k | 0 <= k < |parts| ensures sep !in parts[k] {
          if k > 0 { assert parts[k] == rest[k]; }
        }
      } else {
        forall k | 0 <= k < |parts| ensures sep !in parts[k] {
          if k > 0 { assert parts[k] == rest[k - 1]; }
        }
      }
    }
  }

  lemma {:induction false} SplitWhole(a: string, sep: char)
    requires sep !in a
    ensures Split(a, sep) == [a]
    decreases |a|
  {
    if a != "" {
      assert sep !in a[1..];
      SplitWhole(a[1..], sep);
      assert [a[0]] + a[1..] == a;
    }
  }

  lemma {:induction false} SplitCons(a: string, b: string, sep: char)
    requires sep !in a
    ensures Split(a + [sep] + b, sep) == [a] + Split(b, sep)
    decreases |a|
  {
    var s := a + [sep] + b;
    if a == "" {
      assert s[1..] == b;
    } else {
      assert s[1..] == a[1..] + [sep] + b;
      assert sep !in a[1..];
      SplitCons(a[1..], b, sep);
      assert [a[0]] + a[1..] == a;
    }
  }

  /** Splitting a join of separator-free pieces gives the pieces back. */
  lemma {:induction false} SplitJoin(parts: seq<string>, sep: char)
    requires |parts| >= 1 && NoSep(parts, sep)
    ensures Split(Join(parts, sep), sep) == parts
    decreases |parts|
  {
    if |parts| == 1 {
      SplitWhole(parts[0], sep);
    } else {
      assert sep !in parts[0];
      SplitJoin(parts[1..], sep);
      SplitCons(parts[0], Join(parts[1..], sep), sep);
      assert [parts[0]] + parts[1..] == parts;
    }
  }

  // ---------------------------------------------------------------------
  // Decimal digits
  // ---------------------------------------------------------------------

  /** The ASCII digits `0`-`9`, the characters the model lets `\d` match. */
  predicate IsDigit(c: char) {
    '0' <= c <= '9'
  }

  predicate AllDigits(s: string) {
    forall i :: 0 <= i < |s| ==> IsDigit(s[i])
  }

  /** `int(s)` for a string of decimal digits (leading zeros allowed). */
  function DigitsValue(s: string): nat
    requires AllDigits(s)
    decreases |s|
  {
    if s == "" then 0
    else 10 * DigitsValue(s[..|s| - 1]) + (s[|s| - 1] as int - '0' as int)
  }

  function DigitChar(d: nat): (c: char)
    requires d < 10
    ensures IsDigit(c)
  {
    ('0' as int + d) as char
  }

  /** The canonical decimal spelling of `n`: non-empty, digits only. */
  function Decimal(n: nat): (s: string)
    ensures |s| >= 1 && AllDigits(s)
    decreases n
  {
    if n < 10 then [DigitChar(n)] else Decimal(n / 10) + [DigitChar(n % 10)]
  }

  /** Reading a decimal spelling back gives the number. */
  lemma {:induction false} DecimalValue(n: nat)
    ensures DigitsValue(Decimal(n)) == n
    decreases n
  {
    if n >= 10 {
      DecimalValue(n / 10);
      var s := Decimal(n);
      assert s[..|s| - 1] == Decimal(n / 10);
    }
  }

  /** The longest run of digits at the start of `s` (what a greedy `\d+` takes). */
  function LeadingDigits(s: string): (r: string)
    ensures |r| <= |s| && r == s[..|r|] && AllDigits(r)
    ensures |r| == |s| || !IsDigit(s[|r|])
    decreases |s|
  {
    if s != "" && IsDigit(s[0]) then [s[0]] + LeadingDigits(s[1..]) else ""
  }

  // ---------------------------------------------------------------------
  // re.search(r"rated-(\d+)", s) and the number the group spells
  // ---------------------------------------------------------------------

  /** The pattern `rated-\d` matches `s` at position `i`. */
  predicate RatedAt(s: string, i: int) {
    0 <= i && i + 7 <= |s| && s[i..i + 6] == "rated-" && IsDigit(s[i + 6])
  }

  /**
   * The number spelled by the digits of the leftmost match of
   * `rated-(\d+)` in `s`, or None when the pattern does not occur.
   */
  function SearchRated(s: string): (r: Option<nat>)
    ensures r.Some? <==> exists i :: RatedAt(s, i)
    decreases |s|
  {
    if |s| < 7 then None
    else if s[..6] == "rated-" && IsDigit(s[6]) then
      assert RatedAt(s, 0) by { assert s[0..6] == s[..6]; }
      Some(DigitsValue(LeadingDigits(s[6..])))
    else
      assert !RatedAt(s, 0) by { assert s[0..6] == s[..6]; }
      RatedAtShiftAll(s);
      SearchRated(s[1..])
  }

  /** Matches of `s[1..]` are the matches of `s` after position 0, shifted by one. */
  lemma RatedAtShiftAll(s: string)
    requires |s| >= 1
    ensures forall i :: i >= 1 ==> (RatedAt(s, i) <==> RatedAt(s[1..], i - 1))
    ensures forall i :: RatedAt(s[1..], i) ==> RatedAt(s, i + 1)
  {
    forall i | i >= 1 ensures RatedAt(s, i) <==> RatedAt(s[1..], i - 1) {
      RatedAtShift(s, i);
    }
    forall i | RatedAt(s[1..], i) ensures RatedAt(s, i + 1) {
      RatedAtShift(s, i + 1);
    }
  }

  lemma RatedAtShift(s: string, i: int)
    requires |s| >= 1 && i >= 1
    ensures RatedAt(s, i) <==> RatedAt(s[1..], i - 1)
  {
    if i + 7 <= |s| {
      assert s[1..][i - 1..i + 5] == s[i..i + 6];
    }
  }

  /** The search finds the leftmost match and reads all the digits that follow it. */
  lemma {:induction false} SearchRatedLeftmost(s: string, i: int)
    requires RatedAt(s, i)
    requires forall j :: 0 <= j < i ==> !RatedAt(s, j)
    ensures SearchRated(s) == Some(DigitsValue(LeadingDigits(s[i + 6..])))
    decreases |s|
  {
    if i == 0 {
      assert s[..6] == s[0..6];
    } else {
      assert !RatedAt(s, 0);
      assert !(s[..6] == "rated-" && IsDigit(s[6])) by {
        assert s[..6] == s[0..6];
      }
      RatedAtShift(s, i);
      forall j | 0 <= j < i - 1 ensures !RatedAt(s[1..], j) {
        RatedAtShift(s, j + 1);
      }
      SearchRatedLeftmost(s[1..], i - 1);
      assert s[1..][i - 1 + 6..] == s[i + 6..];
    }
  }

  /** Where the pattern does not occur the search reports no match. */
  lemma {:induction false} SearchRatedAbsent(s: string)
    requires forall j :: !RatedAt(s, j)
    ensures SearchRated(s) == None
    decreases |s|
  {
    if |s| >= 7 {
      assert !RatedAt(s, 0);
      assert s[..6] == s[0..6];
      forall j ensures !RatedAt(s[1..], j) {
        if j >= 0 { RatedAtShift(s, j + 1); }
      }
      SearchRatedAbsent(s[1..]);
    }
  }

  /** The class token `rated-<n>` reads back as `n`. */
  lemma SearchRatedToken(n: nat)
    ensures SearchRated("rated-" + Decimal(n)) == Some(n)
  {
    var s := "rated-" + Decimal(n);
    var d := Decimal(n);
    assert s[0..6] == "rated-";
    assert s[6] == d[0];
    assert s[6..] == d;
    assert LeadingDigits(d) == d;
    SearchRatedLeftmost(s, 0);
    DecimalValue(n);
  }
}
