/** String helpers with JavaScript's meaning: the `\s` character class (which is
    also what `String.prototype.trim` strips), `split` on one character, `join`,
    `startsWith`, and decimal rendering of a natural number. */
module Text {

  datatype Option<T> = None | Some(value: T)

  /** JavaScript's white space and line terminators, the class `\s`. */
  predicate IsSpace(c: char) {
    || c == ' ' || c == '\t' || c == '\n' || c == '\r' || c == '\U{B}' || c == '\U{C}'
    || c == '\U{A0}' || c == '\U{1680}' || ('\U{2000}' <= c <= '\U{200A}')
    || c == '\U{2028}' || c == '\U{2029}' || c == '\U{202F}' || c == '\U{205F}'
    || c == '\U{3000}' || c == '\U{FEFF}'
  }

  /** A string made only of white space (the empty string included). */
  predicate IsBlank(s: string) {
    forall i :: 0 <= i < |s| ==> IsSpace(s[i])
  }

  /** `s.startsWith(prefix)`. */
  predicate StartsWith(s: string, prefix: string) {
    |prefix| <= |s| && forall i :: 0 <= i < |prefix| ==> s[i] == prefix[i]
  }

  /** `s.endsWith(suffix)`. */
  predicate EndsWith(s: string, suffix: string) {
    |suffix| <= |s| && forall i :: 0 <= i < |suffix| ==> s[|s| - |suffix| + i] == suffix[i]
  }

  /** Drops the leading white space: what is left is a suffix that is empty or
      starts with a non-space character, and what was dropped is blank. */
  function TrimStart(s: string): (r: string)
    ensures |r| <= |s| && r == s[|s| - |r|..]
    ensures IsBlank(s[..|s| - |r|])
    ensures r == [] || !IsSpace(r[0])
  {
    if s != [] && IsSpace(s[0]) then TrimStart(s[1..]) else s
  }

  /** Drops the trailing white space: what is left is a prefix that is empty or
      ends with a non-space character, and what was dropped is blank. */
  function TrimEnd(s: string): (r: string)
    ensures |r| <= |s| && r == s[..|r|]
    ensures IsBlank(s[|r|..])
    ensures r == [] || !IsSpace(r[|r| - 1])
  {
    if s != [] && IsSpace(s[|s| - 1]) then TrimEnd(s[..|s| - 1]) else s
  }

  /** `String.prototype.trim`. */
  function Trim(s: string): string {
    TrimStart(TrimEnd(s))
  }

  /** `s.trim()` is empty exactly when `s` is blank (the test `!row.trim()`). */
  lemma TrimEmptyIffBlank(s: string)
    ensures Trim(s) == [] <==> IsBlank(s)
  {
    var e := TrimEnd(s);
    if Trim(s) == [] {
      assert e[..|e|] == e;
      forall i | 0 <= i < |s| ensures IsSpace(s[i]) {
        if i >= |e| {
          assert s[i] == s[|e|..][i - |e|];
        }
      }
    }
  }

  lemma {:induction false} TrimStartOfNonSpace(s: string)
    requires s != [] && !IsSpace(s[0])
    ensures TrimStart(s) == s
  {
  }

  /** Trailing white space after a non-blank part is all that `TrimEnd` removes. */
  lemma {:induction false} TrimEndAppendBlank(a: string, b: string)
    requires IsBlank(b)
    ensures TrimEnd(a + b) == TrimEnd(a)
    decreases |b|
  {
    if b != [] {
      assert (a + b)[..|a + b| - 1] == a + b[..|b| - 1];
      TrimEndAppendBlank(a, b[..|b| - 1]);
    } else {
      assert a + b == a;
    }
  }

  /** When the right part is not blank, trimming the end of a concatenation only
      touches the right part. */
  lemma {:induction false} TrimEndAppend(a: string, b: string)
    requires !IsBlank(b)
    ensures TrimEnd(a + b) == a + TrimEnd(b)
    decreases |b|
  {
    if IsSpace(b[|b| - 1]) {
      var b' := b[..|b| - 1];
      assert (a + b)[..|a + b| - 1] == a + b';
      assert !IsBlank(b') by {
        var i :| 0 <= i < |b| && !IsSpace(b[i]);
        assert b'[i] == b[i];
      }
      TrimEndAppend(a, b');
    } else {
      assert (a + b)[|a + b| - 1] == b[|b| - 1];
    }
  }

  /** Regrouping a concatenation; stated on plain variables, it spares the
      solver from unfolding the string literals it is used with. */
  lemma Assoc(a: string, b: string, c: string)
    ensures a + b + c == a + (b + c)
  {
  }

  /** Number of occurrences of `c` in `s`. */
  function Count(s: string, c: char): nat {
    if s == [] then 0 else (if s[0] == c then 1 else 0) + Count(s[1..], c)
  }

  /** `s.split(d)` for a one-character separator: the pieces between
      consecutive separators, one more piece than there are separators. */
  function Split(s: string, d: char): (r: seq<string>)
    ensures |r| == Count(s, d) + 1
    ensures forall k :: 0 <= k < |r| ==> d !in r[k]
  {
    if s == [] then [""]
    else
      var rest := Split(s[1..], d);
      if s[0] == d then [""] + rest
      else [[s[0]] + rest[0]] + rest[1..]
  }

  /** `pieces.join(d)`. */
  function Join(pieces: seq<string>, d: char): string {
    if |pieces| == 0 then ""
    else if |pieces| == 1 then pieces[0]
    else pieces[0] + [d] + Join(pieces[1..], d)
  }

  /** Joining the pieces of a split gives the original string back. */
  lemma {:induction false} JoinSplit(s: string, d: char)
    ensures Join(Split(s, d), d) == s
  {
    if s != [] {
      var rest := Split(s[1..], d);
      JoinSplit(s[1..], d);
      if s[0] == d {
        assert Split(s, d) == [""] + rest;
        assert Split(s, d)[1..] == rest;
      } else {
        var r := Split(s, d);
        assert r == [[s[0]] + rest[0]] + rest[1..];
        assert r[1..] == rest[1..];
        if |rest| == 1 {
          assert rest == [rest[0]];
        } else {
          assert Join(rest, d) == rest[0] + [d] + Join(rest[1..], d);
        }
      }
    }
  }

  /** Splitting a piece that has no separator, followed by a separator, yields
      that piece and then the pieces of the rest. */
  lemma {:induction false} SplitAfterPiece(a: string, d: char, t: string)
    requires d !in a
    ensures Split(a + [d] + t, d) == [a] + Split(t, d)
    decreases |a|
  {
    if a == [] {
      assert a + [d] + t == [d] + t;
      assert ([d] + t)[1..] == t;
    } else {
      assert (a + [d] + t)[1..] == a[1..] + [d] + t;
      SplitAfterPiece(a[1..], d, t);
      assert [a[0]] + a[1..] == a;
    }
  }

  /** A string without the separator splits into itself. */
  lemma {:induction false} SplitNoSeparator(a: string, d: char)
    requires d !in a
    ensures Split(a, d) == [a]
    decreases |a|
  {
    if a != [] {
      SplitNoSeparator(a[1..], d);
      assert [a[0]] + a[1..] == a;
    }
  }

  /** Splitting a join gives the pieces back, when no piece holds the separator. */
  lemma {:induction false} SplitJoin(pieces: seq<string>, d: char)
    requires |pieces| >= 1
    requires forall k :: 0 <= k < |pieces| ==> d !in pieces[k]
    ensures Split(Join(pieces, d), d) == pieces
  {
    if |pieces| == 1 {
      SplitNoSeparator(pieces[0], d);
    } else {
      SplitJoin(pieces[1..], d);
      SplitAfterPiece(pieces[0], d, Join(pieces[1..], d));
      assert [pieces[0]] + pieces[1..] == pieces;
    }
  }

  /** Joining one more piece at the end. */
  lemma {:induction false} JoinSnoc(pieces: seq<string>, last: string, d: char)
    requires |pieces| >= 1
    ensures Join(pieces + [last], d) == Join(pieces, d) + [d] + last
  {
    if |pieces| == 1 {
      assert pieces + [last] == [pieces[0], last];
      assert [pieces[0], last][1..] == [last];
    } else {
      assert (pieces + [last])[1..] == pieces[1..] + [last];
      JoinSnoc(pieces[1..], last, d);
    }
  }

  /** The concatenation of a sequence of strings (the HTML a loop accumulates). */
  function Concat(parts: seq<string>): string {
    if parts == [] then "" else Concat(parts[..|parts| - 1]) + parts[|parts| - 1]
  }

  lemma ConcatSnoc(parts: seq<string>, last: string)
    ensures Concat(parts + [last]) == Concat(parts) + last
  {
    assert (parts + [last])[..|parts|] == parts;
  }

  /** The decimal digit character of `d`. */
  function DigitChar(d: nat): (c: char)
    requires d < 10
    ensures '0' <= c <= '9' && (c as int) - ('0' as int) == d
  {
    (('0' as int) + d) as char
  }

  predicate IsDigits(s: string) {
    forall i :: 0 <= i < |s| ==> '0' <= s[i] <= '9'
  }

  /** The decimal numeral of `n`, as JavaScript's template literals print an
      array index. */
  function NatToString(n: nat): (r: string)
    ensures r != [] && IsDigits(r)
  {
    if n < 10 then [DigitChar(n)] else NatToString(n / 10) + [DigitChar(n % 10)]
  }

  /** The value of a numeral (the inverse of `NatToString`). */
  function DigitsValue(s: string): nat
    requires IsDigits(s)
  {
    if s == [] then 0
    else DigitsValue(s[..|s| - 1]) * 10 + ((s[|s| - 1] as int) - ('0' as int))
  }

  lemma {:induction false} DigitsValueOfNatToString(n: nat)
    ensures DigitsValue(NatToString(n)) == n
  {
    if n >= 10 {
      var r := NatToString(n);
      assert r[..|r| - 1] == NatToString(n / 10);
      DigitsValueOfNatToString(n / 10);
    }
  }

  /** Different numbers have different numerals. */
  lemma NatToStringInjective(m: nat, n: nat)
    requires m != n
    ensures NatToString(m) != NatToString(n)
  {
    DigitsValueOfNatToString(m);
    DigitsValueOfNatToString(n);
  }

  /** No line of a document split on line feeds holds a line feed. */
  predicate NoNewlines(lines: seq<string>) {
    forall k :: 0 <= k < |lines| ==> '\n' !in lines[k]
  }

  /** The first line at or after `k` that holds a non-space character, or
      `|lines|` when there is none: where a regex's `\s*` that starts at the
      beginning of line `k` stops (it swallows blank lines whole). */
  function NextNonBlank(lines: seq<string>, k: nat): (n: nat)
    requires k <= |lines|
    ensures k <= n <= |lines|
    ensures forall j :: k <= j < n ==> IsBlank(lines[j])
    ensures n < |lines| ==> !IsBlank(lines[n])
    decreases |lines| - k
  {
    if k == |lines| || !IsBlank(lines[k]) then k else NextNonBlank(lines, k + 1)
  }

  /** Joining two non-empty runs of lines puts one separator between them. */
  lemma {:induction false} JoinAppend(a: seq<string>, b: seq<string>, d: char)
    requires |a| >= 1 && |b| >= 1
    ensures Join(a + b, d) == Join(a, d) + [d] + Join(b, d)
  {
    if |a| == 1 {
      assert (a + b)[1..] == b;
    } else {
      assert (a + b)[1..] == a[1..] + b;
      JoinAppend(a[1..], b, d);
    }
  }

  /** Blank lines joined by a white-space separator form a blank string. */
  lemma {:induction false} JoinBlank(lines: seq<string>, d: char)
    requires IsSpace(d)
    requires forall k :: 0 <= k < |lines| ==> IsBlank(lines[k])
    ensures IsBlank(Join(lines, d))
  {
    if |lines| >= 2 {
      JoinBlank(lines[1..], d);
      var j := Join(lines, d);
      assert j == lines[0] + [d] + Join(lines[1..], d);
      forall i | 0 <= i < |j| ensures IsSpace(j[i]) {
        if i < |lines[0]| {
          assert j[i] == lines[0][i];
        } else if i > |lines[0]| {
          assert j[i] == Join(lines[1..], d)[i - |lines[0]| - 1];
        }
      }
    }
  }

  /** A string that starts with a non-space character keeps that character
      first when trimmed. */
  lemma TrimOfNonSpaceStart(s: string)
    requires s != [] && !IsSpace(s[0])
    ensures TrimStart(s) == s
    ensures Trim(s) != [] && Trim(s)[0] == s[0]
  {
    var e := TrimEnd(s);
    assert e != [] by {
      assert !IsBlank(s);
    }
    assert e[0] == s[0];
  }

  /** A string with no white space at either end is its own trim. */
  lemma TrimOfNonSpaceEnds(s: string)
    requires s != [] && !IsSpace(s[0]) && !IsSpace(s[|s| - 1])
    ensures Trim(s) == s
  {
    assert TrimEnd(s) == s;
    TrimStartOfNonSpace(s);
  }

  /** `TrimStart` stops at the first non-space character. */
  lemma {:induction false} TrimStartStopsAt(s: string, i: nat)
    requires i < |s| && !IsSpace(s[i])
    ensures |TrimStart(s)| >= |s| - i
    decreases |s|
  {
    if IsSpace(s[0]) {
      assert i > 0;
      assert s[1..][i - 1] == s[i];
      TrimStartStopsAt(s[1..], i - 1);
    }
  }

  /** `TrimStart` drops at least a blank prefix. */
  lemma {:induction false} TrimStartPastBlank(s: string, n: nat)
    requires n <= |s| && IsBlank(s[..n])
    ensures |TrimStart(s)| <= |s| - n
    decreases n
  {
    if n > 0 {
      assert IsSpace(s[..n][0]);
      assert s[1..][..n - 1] == s[1..n];
      assert forall j :: 0 <= j < n - 1 ==> s[1..n][j] == s[..n][j + 1];
      TrimStartPastBlank(s[1..], n - 1);
    }
  }

  /** Leading white space is dropped up to the first non-space character. */
  lemma TrimStartAfterBlank(space: string, t: string)
    requires IsBlank(space) && t != [] && !IsSpace(t[0])
    ensures TrimStart(space + t) == t
  {
    var s := space + t;
    assert s[|space|] == t[0];
    TrimStartStopsAt(s, |space|);
    assert s[..|space|] == space;
    TrimStartPastBlank(s, |space|);
    assert s[|space|..] == t;
  }
}
