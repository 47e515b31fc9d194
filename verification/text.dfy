/** The JavaScript string operations the routes rely on, over `seq<char>`:
    `trim`, `toLowerCase`, `includes`, `indexOf`, `replace` with a one-character
    pattern, `split` on one character and `join`. */
module Text {

  /** Characters `String.prototype.trim` removes: the ECMAScript WhiteSpace
      and LineTerminator characters. */
  predicate IsWhitespace(c: char) {
    || c == ' ' || c == '\t' || c == '\n' || c == '\U{000B}' || c == '\U{000C}' || c == '\r'
    || c == '\U{00A0}' || c == '\U{1680}' || ('\U{2000}' <= c <= '\U{200A}')
    || c == '\U{2028}' || c == '\U{2029}' || c == '\U{202F}' || c == '\U{205F}'
    || c == '\U{3000}' || c == '\U{FEFF}'
  }

  /** Nothing but whitespace (vacuously true of ""). */
  predicate IsBlank(s: string) {
    forall k | 0 <= k < |s| :: IsWhitespace(s[k])
  }

  /** Number of whitespace characters at the start of `s`. */
  function LeadingBlanks(s: string): (n: nat)
    ensures n <= |s|
    ensures forall k | 0 <= k < n :: IsWhitespace(s[k])
    ensures n == |s| || !IsWhitespace(s[n])
    decreases |s|
  {
    if |s| > 0 && IsWhitespace(s[0]) then 1 + LeadingBlanks(s[1..]) else 0
  }

  /** Index where the whitespace at the end of `s` begins. */
  function TrailingBlanksStart(s: string): (n: nat)
    ensures n <= |s|
    ensures forall k | n <= k < |s| :: IsWhitespace(s[k])
    ensures n == 0 || !IsWhitespace(s[n - 1])
    decreases |s|
  {
    if |s| > 0 && IsWhitespace(s[|s| - 1]) then TrailingBlanksStart(s[..|s| - 1]) else |s|
  }

  /** `s.trim()`: leading whitespace removed, then trailing whitespace. */
  function Trim(s: string): (r: string)
    ensures r == [] <==> IsBlank(s)
    ensures r != [] ==> !IsWhitespace(r[0]) && !IsWhitespace(r[|r| - 1])
    ensures exists lo | 0 <= lo <= |s| - |r| :: TrimmedAt(s, r, lo)
  {
    var lo := LeadingBlanks(s);
    var t := s[lo..];
    var hi := TrailingBlanksStart(t);
    TrimBounds(s, lo, hi);
    t[..hi]
  }

  /** `r` is `s` with the blank text before index `lo` and after `r` removed. */
  predicate TrimmedAt(s: string, r: string, lo: int) {
    && 0 <= lo <= |s| - |r|
    && r == s[lo..lo + |r|]
    && IsBlank(s[..lo])
    && IsBlank(s[lo + |r|..])
  }

  lemma TrimBounds(s: string, lo: nat, hi: nat)
    requires lo <= |s| && hi <= |s| - lo
    requires forall k | 0 <= k < lo :: IsWhitespace(s[k])
    requires lo == |s| || !IsWhitespace(s[lo])
    requires forall k | lo + hi <= k < |s| :: IsWhitespace(s[k])
    requires hi == 0 || !IsWhitespace(s[lo + hi - 1])
    ensures s[lo..][..hi] == s[lo..lo + hi]
    ensures TrimmedAt(s, s[lo..lo + hi], lo)
    ensures hi == 0 <==> IsBlank(s)
    ensures hi != 0 ==> !IsWhitespace(s[lo]) && !IsWhitespace(s[lo + hi - 1])
  {
    var r := s[lo..lo + hi];
    assert IsBlank(s[..lo]) by {
      forall k | 0 <= k < lo ensures IsWhitespace(s[..lo][k]) {
        assert s[..lo][k] == s[k];
      }
    }
    var tail := s[lo + hi..];
    assert IsBlank(tail) by {
      forall k | 0 <= k < |tail| ensures IsWhitespace(tail[k]) {
        assert tail[k] == s[lo + hi + k];
      }
    }
    assert hi != 0 ==> !IsBlank(s) by {
      if hi != 0 {
        assert !IsWhitespace(s[lo]);
      }
    }
  }

  /** `toLowerCase` on the ASCII letters. */
  function LowerChar(c: char): char {
    if 'A' <= c <= 'Z' then (c as int + 32) as char else c
  }

  function ToLower(s: string): string {
    seq(|s|, k requires 0 <= k < |s| => LowerChar(s[k]))
  }

  /** `t` occurs in `s` starting at index `i`. */
  predicate OccursAt(t: string, s: string, i: int) {
    0 <= i <= |s| - |t| && s[i..i + |t|] == t
  }

  /** `s.includes(t)`, by scanning `s` for a prefix equal to `t`. */
  function Includes(s: string, t: string): (b: bool)
    ensures b <==> exists i :: OccursAt(t, s, i)
    decreases |s|
  {
    if t <= s then
      assert OccursAt(t, s, 0);
      true
    else if |s| == 0 then
      false
    else
      var b := Includes(s[1..], t);
      assert b ==> exists i :: OccursAt(t, s, i) by {
        if b {
          var i :| OccursAt(t, s[1..], i);
          assert s[i + 1..i + 1 + |t|] == s[1..][i..i + |t|];
          assert OccursAt(t, s, i + 1);
        }
      }
      assert (exists i :: OccursAt(t, s, i)) ==> b by {
        if exists i :: OccursAt(t, s, i) {
          var i :| OccursAt(t, s, i);
          assert i != 0;
          assert s[1..][i - 1..i - 1 + |t|] == s[i..i + |t|];
          assert OccursAt(t, s[1..], i - 1);
        }
      }
      b
  }

  /** `s.indexOf(c)`: the first index holding `c`, or -1. */
  function IndexOf(s: string, c: char): (i: int)
    ensures -1 <= i < |s|
    ensures i < 0 ==> forall k | 0 <= k < |s| :: s[k] != c
    ensures i >= 0 ==> s[i] == c && forall k | 0 <= k < i :: s[k] != c
    decreases |s|
  {
    if |s| == 0 then -1
    else if s[0] == c then 0
    else
      var j := IndexOf(s[1..], c);
      if j < 0 then -1 else j + 1
  }

  /** `IndexOf` is the first position holding `c`. */
  lemma IndexOfIs(s: string, c: char, i: int)
    requires 0 <= i < |s| && s[i] == c && c !in s[..i]
    ensures IndexOf(s, c) == i
  {
  }

  /** `s.replace(c, d)` with one-character strings: only the first `c` is replaced. */
  function ReplaceFirst(s: string, c: char, d: char): (r: string)
    ensures |r| == |s|
    ensures IndexOf(s, c) < 0 ==> r == s
    ensures IndexOf(s, c) >= 0 ==> r == s[IndexOf(s, c) := d]
    decreases |s|
  {
    if |s| == 0 then s
    else if s[0] == c then [d] + s[1..]
    else [s[0]] + ReplaceFirst(s[1..], c, d)
  }

  /** `parts.join(sep)`. */
  function Join(parts: seq<string>, sep: string): string {
    if |parts| == 0 then ""
    else if |parts| == 1 then parts[0]
    else parts[0] + sep + Join(parts[1..], sep)
  }

  /** `s.split(c)` with a one-character separator: the fields between
      occurrences of `c`; there is always at least one field. */
  function Split(s: string, c: char): (fields: seq<string>)
    ensures |fields| >= 1
    ensures forall k | 0 <= k < |fields| :: c !in fields[k]
    decreases |s|
  {
    var i := IndexOf(s, c);
    if i < 0 then [s]
    else
      var rest := Split(s[i + 1..], c);
      ConsFields(s[..i], rest, c);
      [s[..i]] + rest
  }

  lemma ConsFields(first: string, rest: seq<string>, c: char)
    requires c !in first
    requires forall k | 0 <= k < |rest| :: c !in rest[k]
    ensures forall k | 0 <= k < |[first] + rest| :: c !in ([first] + rest)[k]
  {
    var fields := [first] + rest;
    forall k | 0 <= k < |fields|
      ensures c !in fields[k]
    {
      if k > 0 {
        assert fields[k] == rest[k - 1];
      }
    }
  }

  lemma JoinCons(a: string, rest: seq<string>, sep: string)
    requires |rest| >= 1
    ensures Join([a] + rest, sep) == a + sep + Join(rest, sep)
  {
    assert ([a] + rest)[1..] == rest;
  }

  /** `Split` peels off the text before the first separator. */
  lemma SplitFirst(s: string, c: char, i: int)
    requires i == IndexOf(s, c) && i >= 0
    ensures Split(s, c) == [s[..i]] + Split(s[i + 1..], c)
  {
  }

  /** Text without the separator is a single field. */
  lemma SplitWithout(s: string, c: char)
    requires c !in s
    ensures Split(s, c) == [s]
  {
  }

  /** The separator at `i`, with none before it, ends the first field. */
  lemma SplitAt(s: string, c: char, i: int)
    requires 0 <= i < |s| && s[i] == c && c !in s[..i]
    ensures Split(s, c) == [s[..i]] + Split(s[i + 1..], c)
  {
    IndexOfIs(s, c, i);
    SplitFirst(s, c, i);
  }

  /** A field free of the separator, then the separator, ends the first field. */
  lemma SplitConcat(first: string, c: char, after: string)
    requires c !in first
    ensures Split(first + [c] + after, c) == [first] + Split(after, c)
  {
    var s := first + [c] + after;
    assert s[..|first|] == first;
    assert s[|first| + 1..] == after;
    SplitAt(s, c, |first|);
  }

  lemma ConsCons<T>(x: T, y: T, tail: seq<T>)
    ensures [x] + ([y] + tail) == [x, y] + tail
  {
  }

  /** Two fields free of the separator, each followed by it, are the first
      two fields. */
  lemma SplitTwoConcat(first: string, second: string, c: char, after: string)
    requires c !in first && c !in second
    ensures Split(first + [c] + second + [c] + after, c) == [first, second] + Split(after, c)
  {
    var rest := second + [c] + after;
    assert first + [c] + second + [c] + after == first + [c] + rest;
    SplitConcat(first, c, rest);
    SplitConcat(second, c, after);
    ConsCons(first, second, Split(after, c));
  }

  /** Joining the fields with the separator gives the text back. */
  lemma {:induction false} JoinSplit(s: string, c: char)
    ensures Join(Split(s, c), [c]) == s
    decreases |s|
  {
    var i := IndexOf(s, c);
    if i >= 0 {
      var rest := Split(s[i + 1..], c);
      JoinSplit(s[i + 1..], c);
      SplitFirst(s, c, i);
      JoinCons(s[..i], rest, [c]);
      assert s == s[..i] + [c] + s[i + 1..];
    }
  }
}
