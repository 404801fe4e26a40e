/** The few JavaScript string operations the page script relies on:
    `String.prototype.trim`, `Array.prototype.join` and counting a character,
    together with the inverse of `join` used to state what it produces. */
module JsText {

  /** The code points that ECMAScript's WhiteSpace and LineTerminator
      productions name, the set `trim` strips from both ends. */
  predicate IsJsSpace(c: char) {
    c == '\t' || c == '\n' || c == '\U{000B}' || c == '\U{000C}' || c == '\r' ||
    c == ' ' || c == '\U{00A0}' || c == '\U{1680}' ||
    ('\U{2000}' <= c <= '\U{200A}') ||
    c == '\U{2028}' || c == '\U{2029}' || c == '\U{202F}' || c == '\U{205F}' ||
    c == '\U{3000}' || c == '\U{FEFF}'
  }

  predicate AllSpace(s: string) {
    forall k :: 0 <= k < |s| ==> IsJsSpace(s[k])
  }

  /** Neither end of `s` is white space. */
  predicate IsTrimmed(s: string) {
    s != [] ==> !IsJsSpace(s[0]) && !IsJsSpace(s[|s| - 1])
  }

  /** Length of the longest all-space prefix of `s`. */
  function LeadingSpaces(s: string): (n: nat)
    ensures n <= |s|
    ensures AllSpace(s[..n])
    ensures n < |s| ==> !IsJsSpace(s[n])
  {
    if s == [] || !IsJsSpace(s[0]) then 0 else 1 + LeadingSpaces(s[1..])
  }

  /** Length of the longest all-space suffix of `s`. */
  function TrailingSpaces(s: string): (n: nat)
    ensures n <= |s|
    ensures AllSpace(s[|s| - n..])
    ensures n < |s| ==> !IsJsSpace(s[|s| - 1 - n])
  {
    if s == [] || !IsJsSpace(s[|s| - 1]) then 0 else 1 + TrailingSpaces(s[..|s| - 1])
  }

  /** `String.prototype.trim`: `s` without white space at either end. The
      result is a slice of `s`, everything cut off is white space, and the
      result is empty exactly when `s` is all white space. */
  function Trim(s: string): (r: string)
    ensures IsTrimmed(r)
    ensures exists i :: 0 <= i <= |s| - |r| && r == s[i..i + |r|] &&
                        AllSpace(s[..i]) && AllSpace(s[i + |r|..])
    ensures r == [] <==> AllSpace(s)
  {
    TrimSliceTrimmed(s);
    TrimSliceOfInput(s);
    TrimSliceEmpty(s);
    TrimSlice(s)
  }

  /** `s` with its leading and then its trailing white space cut off. */
  function TrimSlice(s: string): string {
    var t := s[LeadingSpaces(s)..];
    t[..|t| - TrailingSpaces(t)]
  }

  lemma TrimSliceTrimmed(s: string)
    ensures IsTrimmed(TrimSlice(s))
  {
    var t := s[LeadingSpaces(s)..];
    var r := t[..|t| - TrailingSpaces(t)];
    if r != [] {
      assert r[0] == t[0] && r[|r| - 1] == t[|r| - 1];
    }
  }

  lemma TrimSliceOfInput(s: string)
    ensures var r := TrimSlice(s);
            exists k :: 0 <= k <= |s| - |r| && r == s[k..k + |r|] &&
                        AllSpace(s[..k]) && AllSpace(s[k + |r|..])
  {
    var i := LeadingSpaces(s);
    var t := s[i..];
    SpaceFramed(s, i, |t| - TrailingSpaces(t));
  }

  /** A slice of `s` with only white space before and after it. */
  lemma SpaceFramed(s: string, i: nat, j: nat)
    requires i <= |s| && j <= |s| - i
    requires AllSpace(s[..i]) && AllSpace(s[i..][j..])
    ensures var r := s[i..][..j];
            exists k :: 0 <= k <= |s| - |r| && r == s[k..k + |r|] &&
                        AllSpace(s[..k]) && AllSpace(s[k + |r|..])
  {
    var r := s[i..][..j];
    assert r == s[i..i + j];
    assert s[i + j..] == s[i..][j..];
    assert 0 <= i <= |s| - |r| && r == s[i..i + |r|] && AllSpace(s[..i]) && AllSpace(s[i + |r|..]);
  }

  lemma TrimSliceEmpty(s: string)
    ensures TrimSlice(s) == [] <==> AllSpace(s)
  {
    var i := LeadingSpaces(s);
    var t := s[i..];
    var j := |t| - TrailingSpaces(t);
    if j == 0 {
      assert i == |s|;
      assert s == s[..i];
    }
  }

  lemma TrimTrimmed(s: string)
    requires IsTrimmed(s)
    ensures Trim(s) == s
  {
  }

  /** Trimming twice changes nothing more than trimming once. */
  lemma TrimIdempotent(s: string)
    ensures Trim(Trim(s)) == Trim(s)
  {
    TrimTrimmed(Trim(s));
  }

  /** Concatenation is associative; stated once so that proofs can use it
      without unfolding the operands. */
  lemma ConcatAssoc<T>(a: seq<T>, b: seq<T>, c: seq<T>)
    ensures (a + b) + c == a + (b + c)
  {
  }

  /** Number of occurrences of `c` in `s`. */
  function Count(c: char, s: string): (n: nat)
    ensures n <= |s|
    ensures n == 0 <==> c !in s
  {
    if s == [] then 0 else (if s[0] == c then 1 else 0) + Count(c, s[1..])
  }

  lemma {:induction false} CountAppend(c: char, a: string, b: string)
    ensures Count(c, a + b) == Count(c, a) + Count(c, b)
  {
    if a == [] {
      assert a + b == b;
    } else {
      assert (a + b)[1..] == a[1..] + b;
      CountAppend(c, a[1..], b);
    }
  }

  /** The number of characters in all of `lines` together. */
  function TotalLength(lines: seq<string>): nat {
    if lines == [] then 0 else |lines[0]| + TotalLength(lines[1..])
  }

  /** `lines.join(sep)`: the elements in order with `sep` between neighbours,
      so one copy of `sep` fewer than there are lines. */
  function Join(lines: seq<string>, sep: string): (r: string)
    ensures lines == [] ==> r == ""
    ensures lines != [] ==> |r| == TotalLength(lines) + (|lines| - 1) * |sep|
    ensures lines != [] ==> r[..|lines[0]|] == lines[0]
  {
    if |lines| == 0 then ""
    else if |lines| == 1 then lines[0]
    else lines[0] + sep + Join(lines[1..], sep)
  }

  /** No element of `lines` contains `c`. */
  predicate NoneContains(lines: seq<string>, c: char) {
    forall i :: 0 <= i < |lines| ==> c !in lines[i]
  }

  lemma NoneContainsAppend(a: seq<string>, b: seq<string>, c: char)
    requires NoneContains(a, c) && NoneContains(b, c)
    ensures NoneContains(a + b, c)
  {
  }

  /** Joining `n` lines free of `c` with `c` puts exactly `n - 1` copies of `c`
      into the result. */
  lemma {:induction false} JoinCount(lines: seq<string>, c: char)
    requires |lines| >= 1 && NoneContains(lines, c)
    ensures Count(c, Join(lines, [c])) == |lines| - 1
  {
    if |lines| > 1 {
      JoinCount(lines[1..], c);
      CountAppend(c, lines[0] + [c], Join(lines[1..], [c]));
      CountAppend(c, lines[0], [c]);
    }
  }

  /** `s.split(c)`: the pieces of `s` between occurrences of `c`. */
  function Split(s: string, c: char): (r: seq<string>)
    ensures |r| == Count(c, s) + 1
    ensures NoneContains(r, c)
  {
    if s == [] then [""]
    else
      var rest := Split(s[1..], c);
      if s[0] == c then [""] + rest
      else [[s[0]] + rest[0]] + rest[1..]
  }

  lemma {:induction false} SplitFree(a: string, c: char)
    requires c !in a
    ensures Split(a, c) == [a]
  {
    if a != [] {
      SplitFree(a[1..], c);
      assert [a[0]] + a[1..] == a;
    }
  }

  lemma {:induction false} SplitAfterFirst(a: string, c: char, b: string)
    requires c !in a
    ensures Split(a + [c] + b, c) == [a] + Split(b, c)
  {
    if a == [] {
      assert a + [c] + b == [c] + b;
      assert ([c] + b)[1..] == b;
    } else {
      assert (a + [c] + b)[1..] == a[1..] + [c] + b;
      SplitAfterFirst(a[1..], c, b);
      assert [a[0]] + a[1..] == a;
    }
  }

  /** Splitting undoes joining, for lines that do not contain the separator. */
  lemma {:induction false} SplitJoin(lines: seq<string>, c: char)
    requires |lines| >= 1 && NoneContains(lines, c)
    ensures Split(Join(lines, [c]), c) == lines
  {
    if |lines| == 1 {
      SplitFree(lines[0], c);
    } else {
      SplitJoin(lines[1..], c);
      SplitAfterFirst(lines[0], c, Join(lines[1..], [c]));
      assert lines == [lines[0]] + lines[1..];
    }
  }

  /** The text with a carriage return inserted before every line feed, the
      line-break form a `mailto:` body must use. */
  function ToCrlf(s: string): (r: string)
    ensures |r| == |s| + Count('\n', s)
    ensures Count('\n', r) == Count('\n', s)
  {
    if s == [] then []
    else (if s[0] == '\n' then "\r\n" else [s[0]]) + ToCrlf(s[1..])
  }
}
