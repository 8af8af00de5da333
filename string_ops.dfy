/**
 The parts of Swift's String library that the game rules rely on, restated on
 `seq<char>`: `firstIndex(of:)`, `remove(at:)`, `lowercased()`,
 `trimmingCharacters(in: .whitespaces)` and `components(separatedBy: .newlines)`.
 */
module StringOps {

  datatype Option<T> = None | Some(value: T)

  /* ---------------------------------------------------------------------- */
  /* Searching and removing letters                                          */
  /* ---------------------------------------------------------------------- */

  /** The position of the first occurrence of `c` in `s`, if there is one. */
  function FirstIndex(s: string, c: char): (r: Option<nat>)
    ensures r.None? <==> c !in s
    ensures r.Some? ==> r.value < |s| && s[r.value] == c && c !in s[..r.value]
  {
    if |s| == 0 then None
    else if s[0] == c then Some(0)
    else
      match FirstIndex(s[1..], c)
      case None => None
      case Some(k) =>
        assert s[..k + 1] == [s[0]] + s[1..][..k];
        Some(k + 1)
  }

  /** `s` with the letter at position `i` taken out; the other letters keep their order. */
  function RemoveAt(s: string, i: nat): (r: string)
    requires i < |s|
    ensures |r| == |s| - 1
    ensures forall k :: 0 <= k < i ==> r[k] == s[k]
    ensures forall k :: i <= k < |r| ==> r[k] == s[k + 1]
    ensures multiset(r) == multiset(s) - multiset{s[i]}
  {
    assert s == s[..i] + [s[i]] + s[i + 1..];
    s[..i] + s[i + 1..]
  }

  /* ---------------------------------------------------------------------- */
  /* Normalising the player's answer                                         */
  /* ---------------------------------------------------------------------- */

  predicate IsAsciiUpper(c: char) {
    'A' <= c <= 'Z'
  }

  /** The members of `CharacterSet.whitespaces`: the tab and the Unicode space separators (category Zs). */
  predicate IsWhitespace(c: char) {
    var n := c as int;
    n == 0x09 || n == 0x20 || n == 0xA0 || n == 0x1680 || (0x2000 <= n <= 0x200A)
    || n == 0x202F || n == 0x205F || n == 0x3000
  }

  /** Lower-cases one letter; letters outside A-Z are left alone. */
  function ToLower(c: char): (r: char)
    ensures !IsAsciiUpper(r)
    ensures !IsAsciiUpper(c) ==> r == c
    ensures IsAsciiUpper(c) ==> 'a' <= r <= 'z' && r as int - c as int == 'a' as int - 'A' as int
  {
    if IsAsciiUpper(c) then (c as int + ('a' as int - 'A' as int)) as char else c
  }

  ghost predicate NoUpper(s: string) {
    forall i :: 0 <= i < |s| ==> !IsAsciiUpper(s[i])
  }

  /** `lowercased()`, for the ASCII letters. */
  function Lowercase(s: string): (r: string)
    ensures |r| == |s| && NoUpper(r)
    ensures forall i :: 0 <= i < |s| ==> r[i] == ToLower(s[i])
    ensures forall i :: 0 <= i < |s| && !IsAsciiUpper(s[i]) ==> r[i] == s[i]
    ensures NoUpper(s) ==> r == s
  {
    seq(|s|, i requires 0 <= i < |s| => ToLower(s[i]))
  }

  ghost predicate AllWhitespace(s: string) {
    forall i :: 0 <= i < |s| ==> IsWhitespace(s[i])
  }

  /** True when `s` neither starts nor ends with whitespace. */
  ghost predicate Trimmed(s: string) {
    s == [] || (!IsWhitespace(s[0]) && !IsWhitespace(s[|s| - 1]))
  }

  /** Drops the leading whitespace: the result is the suffix of `s` after the longest whitespace prefix. */
  function TrimStart(s: string): (r: string)
    ensures |r| <= |s| && r == s[|s| - |r|..]
    ensures AllWhitespace(s[..|s| - |r|])
    ensures r == [] || !IsWhitespace(r[0])
  {
    if |s| > 0 && IsWhitespace(s[0]) then
      var r := TrimStart(s[1..]);
      assert s[..|s| - |r|] == [s[0]] + s[1..][..|s| - 1 - |r|];
      r
    else s
  }

  /** Drops the trailing whitespace: the result is the prefix of `s` before the longest whitespace suffix. */
  function TrimEnd(s: string): (r: string)
    ensures |r| <= |s| && r == s[..|r|]
    ensures AllWhitespace(s[|r|..])
    ensures r == [] || !IsWhitespace(r[|r| - 1])
    ensures s != [] && !IsWhitespace(s[0]) ==> r == [] || !IsWhitespace(r[0])
  {
    if |s| > 0 && IsWhitespace(s[|s| - 1]) then
      var r := TrimEnd(s[..|s| - 1]);
      assert s[|r|..] == s[..|s| - 1][|r|..] + [s[|s| - 1]];
      r
    else s
  }

  /** `trimmingCharacters(in: .whitespaces)`: whitespace removed from both ends. */
  function Trim(s: string): (r: string)
    ensures Trimmed(r)
    ensures exists a, b :: 0 <= a <= b <= |s| && r == s[a..b] && AllWhitespace(s[..a]) && AllWhitespace(s[b..])
    ensures r == [] <==> AllWhitespace(s)
    ensures Trimmed(s) ==> r == s
  {
    var t := TrimStart(s);
    assert t == [] ==> AllWhitespace(s) by {
      if t == [] { assert s[..|s| - |t|] == s; }
    }
    var r := TrimEnd(t);
    var a := |s| - |t|;
    assert r == s[a..a + |r|] && AllWhitespace(s[a + |r|..]) by {
      assert t[|r|..] == s[a + |r|..];
    }
    r
  }

  /** The answer as the game sees it: `lowercased()` and then the whitespace trimmed. */
  function Normalize(s: string): (r: string)
    ensures NoUpper(r) && Trimmed(r)
    ensures exists a, b :: && 0 <= a <= b <= |s| && r == Lowercase(s)[a..b]
                           && AllWhitespace(Lowercase(s)[..a]) && AllWhitespace(Lowercase(s)[b..])
    ensures r == [] <==> AllWhitespace(s)
  {
    var l := Lowercase(s);
    assert AllWhitespace(l) <==> AllWhitespace(s) by {
      assert forall i :: 0 <= i < |s| ==> (IsWhitespace(l[i]) <==> IsWhitespace(s[i]));
    }
    var r := Trim(l);
    TrimmedLettersStayLower(l);
    r
  }

  /** Trimming keeps only letters that were already there, so it keeps a lower-case string lower-case. */
  lemma TrimmedLettersStayLower(s: string)
    requires NoUpper(s)
    ensures NoUpper(Trim(s))
  {
    var t := TrimStart(s);
    assert NoUpper(t) by {
      forall i | 0 <= i < |t| ensures !IsAsciiUpper(t[i]) {
        assert t[i] == s[|s| - |t| + i];
      }
    }
  }

  /** Normalising twice is the same as normalising once. */
  lemma NormalizeIdempotent(s: string)
    ensures Normalize(Normalize(s)) == Normalize(s)
  {
    var n := Normalize(s);
    assert Lowercase(n) == n;
    assert Trim(n) == n;
  }

  /** A string already in normal form is its own normal form. */
  lemma NormalizeFixesNormalForm(s: string)
    requires NoUpper(s) && Trimmed(s)
    ensures Normalize(s) == s
  {
    assert Lowercase(s) == s;
  }

  /* ---------------------------------------------------------------------- */
  /* Splitting the word list into lines                                      */
  /* ---------------------------------------------------------------------- */

  /** The members of `CharacterSet.newlines`: U+000A through U+000D, U+0085, U+2028 and U+2029. */
  predicate IsNewline(c: char) {
    var n := c as int;
    (0x0A <= n <= 0x0D) || n == 0x85 || n == 0x2028 || n == 0x2029
  }

  ghost predicate NoNewline(s: string) {
    forall i :: 0 <= i < |s| ==> !IsNewline(s[i])
  }

  /** The number of newline characters in `s`. */
  function NewlineCount(s: string): nat {
    if |s| == 0 then 0 else (if IsNewline(s[0]) then 1 else 0) + NewlineCount(s[1..])
  }

  /**
   `components(separatedBy: .newlines)`: every newline character ends one
   component, so there is always one component more than there are newlines,
   and never none at all.
   */
  function SplitLines(s: string): (r: seq<string>)
    ensures |r| == NewlineCount(s) + 1
    ensures forall k :: 0 <= k < |r| ==> NoNewline(r[k])
  {
    if |s| == 0 then [""]
    else
      var rest := SplitLines(s[1..]);
      if IsNewline(s[0]) then [""] + rest
      else [[s[0]] + rest[0]] + rest[1..]
  }

  /** The inverse of `SplitLines`: the lines put back together with `sep` between neighbours. */
  function Join(lines: seq<string>, sep: char): string {
    if |lines| == 0 then ""
    else if |lines| == 1 then lines[0]
    else lines[0] + [sep] + Join(lines[1..], sep)
  }

  /** A first line without newlines is glued to the first component of what follows it. */
  lemma {:induction false} SplitLinesPrefix(x: string, t: string)
    requires NoNewline(x)
    ensures SplitLines(x + t) == [x + SplitLines(t)[0]] + SplitLines(t)[1..]
  {
    if x == [] {
      assert x + t == t;
      assert x + SplitLines(t)[0] == SplitLines(t)[0];
      assert SplitLines(t) == [SplitLines(t)[0]] + SplitLines(t)[1..];
    } else {
      assert (x + t)[1..] == x[1..] + t;
      SplitLinesPrefix(x[1..], t);
      assert [x[0]] + (x[1..] + SplitLines(t)[0]) == x + SplitLines(t)[0];
    }
  }

  /** A text without newline characters is one line. */
  lemma SplitLinesSingle(s: string)
    requires NoNewline(s)
    ensures SplitLines(s) == [s]
  {
    SplitLinesPrefix(s, "");
    assert s + "" == s && s + [] == s;
  }

  /**
   The first newline character ends the first line, whichever of the
   `.newlines` characters it is, and the lines after it are those of the rest.
   */
  lemma SplitLinesCut(x: string, c: char, t: string)
    requires NoNewline(x) && IsNewline(c)
    ensures SplitLines(x + [c] + t) == [x] + SplitLines(t)
  {
    assert ([c] + t)[1..] == t;
    assert SplitLines([c] + t) == [""] + SplitLines(t);
    assert x + [c] + t == x + ([c] + t);
    SplitLinesPrefix(x, [c] + t);
    assert x + "" == x;
  }

  /** Splitting lines that were joined with "\n" gives the lines back. */
  lemma {:induction false} SplitJoin(lines: seq<string>)
    requires |lines| >= 1
    requires forall k :: 0 <= k < |lines| ==> NoNewline(lines[k])
    ensures SplitLines(Join(lines, '\n')) == lines
  {
    if |lines| == 1 {
      SplitLinesPrefix(lines[0], "");
      assert lines[0] + "" == lines[0];
    } else {
      var tail := Join(lines[1..], '\n');
      SplitJoin(lines[1..]);
      assert Join(lines, '\n') == lines[0] + (['\n'] + tail);
      SplitLinesPrefix(lines[0], ['\n'] + tail);
      assert (['\n'] + tail)[1..] == tail;
      assert SplitLines(['\n'] + tail) == [""] + lines[1..];
      assert lines[0] + "" == lines[0];
      assert [lines[0]] + lines[1..] == lines;
    }
  }

  /** Putting a letter in front of the first line puts it in front of the joined text. */
  lemma JoinGlue(c: char, lines: seq<string>, sep: char)
    requires |lines| >= 1
    ensures Join([[c] + lines[0]] + lines[1..], sep) == [c] + Join(lines, sep)
  {
    var glued := [[c] + lines[0]] + lines[1..];
    if |lines| > 1 {
      assert glued[1..] == lines[1..];
    }
  }

  /** Joining the lines of a text whose only line break is "\n" gives the text back. */
  lemma {:induction false} JoinSplit(s: string)
    requires forall i :: 0 <= i < |s| && IsNewline(s[i]) ==> s[i] == '\n'
    ensures Join(SplitLines(s), '\n') == s
  {
    if |s| > 0 {
      var rest := SplitLines(s[1..]);
      JoinSplit(s[1..]);
      if IsNewline(s[0]) {
        assert ([""] + rest)[1..] == rest;
      } else {
        JoinGlue(s[0], rest, '\n');
      }
      assert s == [s[0]] + s[1..];
    }
  }
}
