/** Whitespace, line splitting and stripping, as Python's `str.isspace`,
    text-mode `readline` and `str.strip()` behave on already-decoded text. */
module Text {

  /** The characters for which Python's `str.isspace()` holds; `strip()`
      with no argument removes exactly these. */
  predicate IsSpace(c: char) {
    || c == ' '
    || ('\t' <= c <= '\r')
    || ('\U{1c}' <= c <= '\U{1f}')
    || c == '\U{85}' || c == '\U{a0}' || c == '\U{1680}'
    || ('\U{2000}' <= c <= '\U{200a}')
    || c == '\U{2028}' || c == '\U{2029}' || c == '\U{202f}'
    || c == '\U{205f}' || c == '\U{3000}'
  }

  /** A text-mode file opened with universal newlines ends a line at
      "\n", "\r" or "\r\n". */
  predicate IsLineBreak(c: char) {
    c == '\n' || c == '\r'
  }

  predicate AllSpace(s: string) {
    forall k :: 0 <= k < |s| ==> IsSpace(s[k])
  }

  predicate NoLineBreak(s: string) {
    forall k :: 0 <= k < |s| ==> !IsLineBreak(s[k])
  }

  /** Neither end of `s` is whitespace. */
  predicate NoOuterSpace(s: string) {
    |s| > 0 ==> !IsSpace(s[0]) && !IsSpace(s[|s| - 1])
  }

  /** `s` is whitespace, then `r` starting at index `i`, then whitespace. */
  predicate SplitsAt(s: string, i: int, r: string) {
    && 0 <= i && i + |r| <= |s|
    && s[i..i + |r|] == r
    && AllSpace(s[..i])
    && AllSpace(s[i + |r|..])
  }

  /** `r` is what is left of `s` once all leading and trailing whitespace
      is removed. */
  ghost predicate StripsTo(s: string, r: string) {
    NoOuterSpace(r) && exists i :: SplitsAt(s, i, r)
  }

  function TrimStart(s: string): (r: string)
    ensures |r| <= |s| && r == s[|s| - |r|..]
    ensures AllSpace(s[..|s| - |r|])
    ensures |r| > 0 ==> !IsSpace(r[0])
  {
    if |s| > 0 && IsSpace(s[0]) then TrimStart(s[1..]) else s
  }

  function TrimEnd(s: string): (r: string)
    ensures |r| <= |s| && r == s[..|r|]
    ensures AllSpace(s[|r|..])
    ensures |r| > 0 ==> !IsSpace(r[|r| - 1])
  {
    if |s| > 0 && IsSpace(s[|s| - 1]) then TrimEnd(s[..|s| - 1]) else s
  }

  /** Python's `s.strip()`. What it leaves of `s` is stated by
      `StripSplits`, kept out of this contract so that the existential in
      `StripsTo` is only in play where a proof asks for it. */
  function Strip(s: string): (r: string)
    ensures |r| <= |s| && NoOuterSpace(r)
  {
    var t := TrimStart(s);
    var r := TrimEnd(t);
    assert |r| > 0 ==> r[0] == t[0];
    r
  }

  /** `strip()` removes exactly the surrounding whitespace. */
  lemma StripSplits(s: string)
    ensures StripsTo(s, Strip(s))
  {
    TrimmedSplit(s, TrimStart(s), Strip(s));
  }

  /** Whitespace cut from the front of `s`, leaving `t`, then from the back
      of `t`, leaving `r`, splits `s` around `r`. */
  lemma TrimmedSplit(s: string, t: string, r: string)
    requires |t| <= |s| && t == s[|s| - |t|..] && AllSpace(s[..|s| - |t|])
    requires |r| <= |t| && r == t[..|r|] && AllSpace(t[|r|..])
    ensures SplitsAt(s, |s| - |t|, r)
  {
    var i := |s| - |t|;
    assert s[i..i + |r|] == r;
    assert s[i + |r|..] == t[|r|..];
  }

  /** The pointwise reading of `SplitsAt`. */
  lemma SplitFacts(s: string, i: int, r: string)
    requires SplitsAt(s, i, r)
    ensures forall k :: 0 <= k < i ==> IsSpace(s[k])
    ensures forall k :: i + |r| <= k < |s| ==> IsSpace(s[k])
    ensures forall k :: 0 <= k < |r| ==> s[i + k] == r[k]
  {
    assert forall k :: 0 <= k < i ==> s[..i][k] == s[k];
    assert forall k :: i + |r| <= k < |s| ==> s[i + |r|..][k - i - |r|] == s[k];
    assert forall k :: 0 <= k < |r| ==> r[k] == s[i + k];
  }

  /** There is only one way to strip a string: whatever `StripsTo` admits
      is `Strip`'s result. */
  lemma StripUnique(s: string, r1: string, r2: string)
    requires StripsTo(s, r1) && StripsTo(s, r2)
    ensures r1 == r2
  {
    var i1 :| SplitsAt(s, i1, r1);
    var i2 :| SplitsAt(s, i2, r2);
    SplitFacts(s, i1, r1);
    SplitFacts(s, i2, r2);
    if |r1| == 0 || |r2| == 0 {
      assert |r1| == 0 && |r2| == 0;
    } else {
      assert s[i1] == r1[0] && s[i2] == r2[0];
      assert i1 == i2;
      assert s[i1 + |r1| - 1] == r1[|r1| - 1];
      assert s[i2 + |r2| - 1] == r2[|r2| - 1];
      assert |r1| == |r2|;
    }
  }

  /** Stripping twice is stripping once. */
  lemma StripIdempotent(s: string)
    ensures Strip(Strip(s)) == Strip(s)
  {
    StripKeepsTrimmed(Strip(s));
  }

  /** Text with no whitespace at either end is left alone by `strip()`. */
  lemma StripKeepsTrimmed(s: string)
    requires NoOuterSpace(s)
    ensures Strip(s) == s
  {
    assert SplitsAt(s, 0, s);
    StripSplits(s);
    StripUnique(s, s, Strip(s));
  }

  /** The characters `int()` skips around a number: every `IsSpace`
      character except the ASCII separators U+001C to U+001F. `int()` turns
      non-ASCII whitespace into ' ' and then skips only tab, line feed,
      vertical tab, form feed, carriage return and space. */
  predicate IsIntSpace(c: char) {
    IsSpace(c) && !('\U{1c}' <= c <= '\U{1f}')
  }

  /** Neither end of `s` is a character `int()` skips. */
  predicate NoOuterIntSpace(s: string) {
    |s| > 0 ==> !IsIntSpace(s[0]) && !IsIntSpace(s[|s| - 1])
  }

  function TrimIntStart(s: string): (r: string)
    ensures |r| <= |s| && r == s[|s| - |r|..]
    ensures forall k :: 0 <= k < |s| - |r| ==> IsIntSpace(s[k])
    ensures |r| > 0 ==> !IsIntSpace(r[0])
  {
    if |s| > 0 && IsIntSpace(s[0]) then TrimIntStart(s[1..]) else s
  }

  function TrimIntEnd(s: string): (r: string)
    ensures |r| <= |s| && r == s[..|r|]
    ensures forall k :: |r| <= k < |s| ==> IsIntSpace(s[k])
    ensures |r| > 0 ==> !IsIntSpace(r[|r| - 1])
  {
    if |s| > 0 && IsIntSpace(s[|s| - 1]) then TrimIntEnd(s[..|s| - 1]) else s
  }

  /** What `int()` ignores of its text argument: the characters of
      `IsIntSpace` at either end. Text with none there is left alone. */
  function IntStrip(s: string): (r: string)
    ensures |r| <= |s| && NoOuterIntSpace(r)
    ensures NoOuterIntSpace(s) ==> r == s
  {
    var t := TrimIntStart(s);
    var r := TrimIntEnd(t);
    assert |r| > 0 ==> r[0] == t[0];
    r
  }

  /** `s` is characters `int()` skips, then `r` starting at index `i`,
      then characters `int()` skips. */
  predicate IntSplitsAt(s: string, i: int, r: string) {
    && 0 <= i && i + |r| <= |s|
    && s[i..i + |r|] == r
    && (forall k :: 0 <= k < i ==> IsIntSpace(s[k]))
    && (forall k :: i + |r| <= k < |s| ==> IsIntSpace(s[k]))
  }

  /** `IntStrip` removes only what `int()` skips, and only at the ends. */
  lemma IntStripSplits(s: string)
    ensures exists i :: IntSplitsAt(s, i, IntStrip(s))
  {
    var t := TrimIntStart(s);
    var r := IntStrip(s);
    var i := |s| - |t|;
    assert s[i..i + |r|] == r;
    forall k | i + |r| <= k < |s|
      ensures IsIntSpace(s[k])
    {
      assert s[k] == t[k - i];
    }
    assert IntSplitsAt(s, i, r);
  }

  /** Whatever `strip()` leaves, `int()` has nothing more to skip. */
  lemma StripThenIntStrip(s: string)
    ensures IntStrip(Strip(s)) == Strip(s)
  {
  }

  /** Index of the first line break of `s`, or `|s|` when there is none. */
  function LineEnd(s: string): (n: nat)
    ensures n <= |s|
    ensures NoLineBreak(s[..n])
    ensures n < |s| ==> IsLineBreak(s[n])
  {
    if |s| == 0 || IsLineBreak(s[0]) then 0
    else
      var n := 1 + LineEnd(s[1..]);
      assert s[..n] == [s[0]] + s[1..][..n - 1];
      n
  }

  /** The first line of `s` without its terminator. */
  function FirstLine(s: string): (line: string)
    ensures NoLineBreak(line)
    ensures line <= s
    ensures |line| < |s| ==> IsLineBreak(s[|line|])
  {
    s[..LineEnd(s)]
  }

  /** Python's `file.readline()` on a text-mode file holding `s`: the first
      line, with its terminator read as a single "\n" when there is one. */
  function ReadLine(s: string): (line: string)
    ensures line == FirstLine(s) || line == FirstLine(s) + "\n"
    ensures line == FirstLine(s) + "\n" <==> LineEnd(s) < |s|
  {
    if LineEnd(s) < |s| then FirstLine(s) + "\n" else FirstLine(s)
  }

  /** What `file.readline().strip()` leaves: the first line of the content,
      whitespace removed from both ends; it holds no line break. */
  function StrippedFirstLine(s: string): (r: string)
    ensures StripsTo(FirstLine(s), r)
    ensures NoOuterSpace(r) && NoLineBreak(r)
  {
    var r := Strip(ReadLine(s));
    StripReadLine(s);
    StripKeepsNoLineBreak(FirstLine(s), r);
    r
  }

  /** Stripping what `readline()` returns strips the first line. */
  lemma StripReadLine(s: string)
    ensures StripsTo(FirstLine(s), Strip(ReadLine(s)))
  {
    if LineEnd(s) < |s| {
      StripDropsNewline(FirstLine(s));
    } else {
      StripSplits(FirstLine(s));
    }
  }

  lemma StripKeepsNoLineBreak(line: string, r: string)
    requires NoLineBreak(line) && StripsTo(line, r)
    ensures NoLineBreak(r)
  {
    var i :| SplitsAt(line, i, r);
    assert forall k | 0 <= k < |r| :: r[k] == line[i + k];
  }

  /** Cutting whitespace off the end keeps a split as long as `r` survives. */
  lemma SplitPrefix(s: string, i: int, r: string, n: int)
    requires SplitsAt(s, i, r) && i + |r| <= n <= |s|
    ensures SplitsAt(s[..n], i, r)
  {
    assert s[..n][..i] == s[..i];
    assert s[..n][i..i + |r|] == r;
    assert s[..n][i + |r|..] == s[i + |r|..n];
  }

  /** Dropping a trailing whitespace character keeps a split around a
      string with no outer whitespace. */
  lemma SplitDropsLast(s: string, i: int, r: string)
    requires |s| > 0 && IsSpace(s[|s| - 1])
    requires NoOuterSpace(r) && SplitsAt(s, i, r)
    ensures SplitsAt(s[..|s| - 1], if i < |s| then i else |s| - 1, r)
  {
    var n := |s| - 1;
    if i == |s| {
      assert s[..i][..n] == s[..n];
      assert s[n..] == [s[n]];
      SplitPrefix(s, n, r, n);
    } else {
      if |r| > 0 {
        assert s[i..i + |r|][|r| - 1] == s[i + |r| - 1];
      }
      SplitPrefix(s, i, r, n);
    }
  }

  /** A trailing "\n" makes no difference to `strip()`. */
  lemma StripDropsNewline(line: string)
    ensures StripsTo(line, Strip(line + "\n"))
  {
    var s := line + "\n";
    var r := Strip(s);
    StripSplits(s);
    var i :| SplitsAt(s, i, r);
    SplitDropsLast(s, i, r);
    assert s[..|s| - 1] == line;
  }
}
