/** The Kotlin string operations the task tracker relies on: `isBlank`, `trim`,
    `toBoolean`, `Boolean.toString`, `split` on one character, `joinToString`
    and the decimal rendering of a position. */
module Text {

  /** `Char.isWhitespace` on the ASCII range: TAB, LF, VT, FF, CR, the four
      information separators U+001C..U+001F, and SPACE. */
  predicate IsWhitespace(c: char) {
    c == ' ' || ('\t' <= c <= '\r') || ('\U{1C}' <= c <= '\U{1F}')
  }

  /** `isBlank`: every character is whitespace, which includes empty text. */
  predicate IsBlank(s: string) {
    forall i :: 0 <= i < |s| ==> IsWhitespace(s[i])
  }

  /** Number of whitespace characters at the start of `s`. */
  function LeadingSpace(s: string): (n: nat)
    ensures n <= |s|
    ensures IsBlank(s[..n])
    ensures n < |s| ==> !IsWhitespace(s[n])
    decreases |s|
  {
    if s != [] && IsWhitespace(s[0]) then
      var n := 1 + LeadingSpace(s[1..]);
      assert forall i :: 1 <= i < n ==> s[..n][i] == s[1..][..n - 1][i - 1];
      n
    else 0
  }

  /** Number of whitespace characters at the end of `s`. */
  function TrailingSpace(s: string): (n: nat)
    ensures n <= |s|
    ensures IsBlank(s[|s| - n..])
    ensures n < |s| ==> !IsWhitespace(s[|s| - n - 1])
    decreases |s|
  {
    if s != [] && IsWhitespace(s[|s| - 1]) then
      var n := 1 + TrailingSpace(s[..|s| - 1]);
      assert s[|s| - n..] == s[..|s| - 1][|s| - n..] + [s[|s| - 1]];
      n
    else 0
  }

  /** `trim()`: `s` without its leading and trailing whitespace. The result is
      the slice of `s` that starts after the leading whitespace, everything
      after it is whitespace, and it neither starts nor ends with whitespace;
      it is empty exactly when `s` is blank. */
  function Trim(s: string): (r: string)
    ensures LeadingSpace(s) + |r| <= |s|
    ensures r == s[LeadingSpace(s)..LeadingSpace(s) + |r|]
    ensures IsBlank(s[LeadingSpace(s) + |r|..])
    ensures r == [] || (!IsWhitespace(r[0]) && !IsWhitespace(r[|r| - 1]))
    ensures r == [] <==> IsBlank(s)
  {
    var a := LeadingSpace(s);
    var rest := s[a..];
    var t := TrailingSpace(rest);
    var r := rest[..|rest| - t];
    assert r == s[a..a + |r|];
    assert s[a + |r|..] == rest[|rest| - t..];
    assert a < |s| ==> !IsBlank(rest) by {
      if a < |s| {
        assert rest[0] == s[a];
      }
    }
    assert t == |rest| ==> rest[|rest| - t..] == rest;
    BlankIsAllLeading(s);
    r
  }

  /** Text is blank exactly when its leading whitespace is all of it. */
  lemma BlankIsAllLeading(s: string)
    ensures IsBlank(s) <==> LeadingSpace(s) == |s|
  {
    assert s[..|s|] == s;
  }

  /** Trimming a string that neither starts nor ends with whitespace changes nothing. */
  lemma TrimOfTrimmed(s: string)
    requires s == [] || (!IsWhitespace(s[0]) && !IsWhitespace(s[|s| - 1]))
    ensures Trim(s) == s
  {
    assert LeadingSpace(s) == 0;
    assert TrailingSpace(s[0..]) == 0 by { assert s[0..] == s; }
  }

  /** `trim()` is idempotent. */
  lemma TrimIdempotent(s: string)
    ensures Trim(Trim(s)) == Trim(s)
  {
    TrimOfTrimmed(Trim(s));
  }

  /** ASCII lower-casing; every other character maps to itself. */
  function LowerAscii(c: char): char {
    if 'A' <= c <= 'Z' then (c as int + 32) as char else c
  }

  /** Kotlin's `equals(other, ignoreCase = true)` with ASCII case folding. */
  predicate EqualsIgnoreCase(a: string, b: string) {
    |a| == |b| && forall i :: 0 <= i < |a| ==> a[i] == b[i] || LowerAscii(a[i]) == LowerAscii(b[i])
  }

  /** `s` with every ASCII capital replaced by its lower-case letter. */
  function ToLowerAscii(s: string): (r: string)
    ensures |r| == |s| && forall i :: 0 <= i < |s| ==> r[i] == LowerAscii(s[i])
  {
    seq(|s|, i requires 0 <= i < |s| => LowerAscii(s[i]))
  }

  /** `String.toBoolean()`: true exactly when the text is "true" in any mix of
      cases, false for any other text (never a parse failure). */
  function ToBoolean(s: string): (r: bool)
    ensures r <==> ToLowerAscii(s) == "true"
  {
    var r := EqualsIgnoreCase(s, "true");
    assert r <==> ToLowerAscii(s) == "true" by {
      if !r && |s| == 4 {
        var i :| 0 <= i < 4 && !(s[i] == "true"[i] || LowerAscii(s[i]) == LowerAscii("true"[i]));
        assert ToLowerAscii(s)[i] != "true"[i];
      }
    }
    r
  }

  /** `Boolean.toString()`; reading it back with `toBoolean` gives `b`. */
  function BoolText(b: bool): (r: string)
    ensures r == "true" || r == "false"
    ensures ToBoolean(r) == b
  {
    if b then "true" else "false"
  }

  /** Number of occurrences of `d` in `s`. */
  function Count(s: string, d: char): (n: nat)
    ensures n == 0 <==> d !in s
    ensures n <= |s|
  {
    if s == [] then 0
    else (if s[0] == d then 1 else 0) + Count(s[1..], d)
  }

  /** Occurrences in a concatenation add up. */
  lemma {:induction false} CountAppend(a: string, b: string, d: char)
    ensures Count(a + b, d) == Count(a, d) + Count(b, d)
    decreases |a|
  {
    if a != [] {
      CountAppend(a[1..], b, d);
      assert (a + b)[1..] == a[1..] + b;
    } else {
      assert a + b == b;
    }
  }

  /** Position of the first `d` in `s`. */
  function IndexOf(s: string, d: char): (i: nat)
    requires d in s
    ensures i < |s| && s[i] == d && d !in s[..i]
  {
    if s[0] == d then 0
    else
      var i := 1 + IndexOf(s[1..], d);
      assert s[..i] == [s[0]] + s[1..][..i - 1];
      i
  }

  /** The first `d` of `a + [d] + b` is the one after `a` when `a` has none. */
  lemma {:induction false} IndexOfAfterPiece(a: string, d: char, b: string)
    requires d !in a
    ensures IndexOf(a + [d] + b, d) == |a|
    decreases |a|
  {
    if a == [] {
      assert a + [d] + b == [d] + b;
    } else {
      IndexOfAfterPiece(a[1..], d, b);
      assert (a + [d] + b)[1..] == a[1..] + [d] + b;
    }
  }

  /** `joinToString(sep)`: the parts in order with `sep` between neighbours.
      No parts join to empty text and one part joins to itself; `JoinAppend`
      says how one more part extends the text. */
  function Join(parts: seq<string>, sep: string): (r: string)
    ensures parts == [] ==> r == []
    ensures |parts| == 1 ==> r == parts[0]
    decreases |parts|
  {
    if |parts| == 0 then []
    else if |parts| == 1 then parts[0]
    else parts[0] + sep + Join(parts[1..], sep)
  }

  /** Joining one more part appends the separator and that part. */
  lemma {:induction false} JoinAppend(parts: seq<string>, p: string, sep: string)
    requires parts != []
    ensures Join(parts + [p], sep) == Join(parts, sep) + sep + p
    decreases |parts|
  {
    if |parts| == 1 {
      assert (parts + [p])[1..] == [p];
    } else {
      JoinAppend(parts[1..], p, sep);
      assert (parts + [p])[1..] == parts[1..] + [p];
    }
  }

  /** `split(d)` for a one-character delimiter: the maximal pieces of `s` that
      do not contain `d`. There are `Count(s, d) + 1` of them and joining them
      with `d` gives back `s`. */
  function Split(s: string, d: char): (r: seq<string>)
    ensures |r| == Count(s, d) + 1
    ensures forall i :: 0 <= i < |r| ==> d !in r[i]
    ensures Join(r, [d]) == s
    decreases |s|
  {
    if d !in s then [s]
    else
      var i := IndexOf(s, d);
      var rest := Split(s[i + 1..], d);
      var r := [s[..i]] + rest;
      CountAfterFirst(s, d);
      assert r[0] == s[..i] && r[1..] == rest;
      assert Join(r, [d]) == s[..i] + [d] + Join(rest, [d]);
      assert s == s[..i] + [d] + s[i + 1..];
      r
  }

  /** Past the first `d`, one occurrence fewer remains. */
  lemma CountAfterFirst(s: string, d: char)
    requires d in s
    ensures Count(s, d) == Count(s[IndexOf(s, d) + 1..], d) + 1
  {
    var i := IndexOf(s, d);
    var before := s[..i];
    var after := s[i + 1..];
    assert s == before + ([d] + after);
    CountAppend(before, [d] + after, d);
    CountAppend([d], after, d);
    assert [d][1..] == [];
    assert Count(before, d) == 0 && Count([d], d) == 1;
  }

  /** Splitting text that has no delimiter yields the text itself. */
  lemma SplitNoDelimiter(s: string, d: char)
    requires d !in s
    ensures Split(s, d) == [s]
  {
  }

  /** A leading piece without the delimiter splits off on its own. */
  lemma {:induction false} SplitAfterPiece(a: string, d: char, b: string)
    requires d !in a
    ensures Split(a + [d] + b, d) == [a] + Split(b, d)
  {
    var s := a + [d] + b;
    assert s[|a|] == d;
    assert s[..|a|] == a;
    assert s[|a| + 1..] == b;
  }

  /** `split` undoes `joinToString` when no part holds the delimiter. */
  lemma {:induction false} SplitJoin(parts: seq<string>, d: char)
    requires |parts| >= 1
    requires forall i :: 0 <= i < |parts| ==> d !in parts[i]
    ensures Split(Join(parts, [d]), d) == parts
    decreases |parts|
  {
    if |parts| == 1 {
      SplitNoDelimiter(parts[0], d);
    } else {
      SplitJoin(parts[1..], d);
      SplitAfterPiece(parts[0], d, Join(parts[1..], [d]));
      assert [parts[0]] + parts[1..] == parts;
    }
  }

  /** The decimal digit character for `d`. */
  function DigitChar(d: nat): (c: char)
    requires d < 10
    ensures '0' <= c <= '9'
  {
    ('0' as int + d) as char
  }

  predicate IsDigits(s: string) {
    forall i :: 0 <= i < |s| ==> '0' <= s[i] <= '9'
  }

  /** The number a string of decimal digits denotes. */
  function DecimalValue(s: string): nat
    requires IsDigits(s)
  {
    if s == [] then 0
    else 10 * DecimalValue(s[..|s| - 1]) + (s[|s| - 1] as int - '0' as int)
  }

  /** The decimal text of `n` (string templates render an `Int` this way for
      non-negative values): digits only, no leading zero, denoting `n`. */
  function NatToString(n: nat): (r: string)
    ensures |r| >= 1 && IsDigits(r)
    ensures r[0] != '0' || n == 0
    ensures DecimalValue(r) == n
    decreases n
  {
    if n < 10 then [DigitChar(n)]
    else
      var r := NatToString(n / 10) + [DigitChar(n % 10)];
      assert r[..|r| - 1] == NatToString(n / 10);
      r
  }
}
