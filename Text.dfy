/**
 * The string helpers the exporter relies on: the `String.prototype.replaceAll`
 * the source installs (split, then join), carriage-return stripping, and the
 * effect of the `indent-string` package with a count of 4.
 */
module Text {

  /** `s.split(sep)` for a non-empty separator: the pieces between leftmost, non-overlapping occurrences. */
  function SplitOn(s: string, sep: string): (parts: seq<string>)
    requires sep != ""
    ensures |parts| >= 1
    decreases |s|
  {
    if |s| < |sep| then [s]
    else if s[..|sep|] == sep then [""] + SplitOn(s[|sep|..], sep)
    else
      var rest := SplitOn(s[1..], sep);
      [[s[0]] + rest[0]] + rest[1..]
  }

  /** `s.split("")`: one piece per character. */
  function Chars(s: string): (parts: seq<string>)
    ensures |parts| == |s|
  {
    seq(|s|, i requires 0 <= i < |s| => [s[i]])
  }

  /** `parts.join(glue)` */
  function Join(parts: seq<string>, glue: string): string {
    if parts == [] then ""
    else if |parts| == 1 then parts[0]
    else parts[0] + glue + Join(parts[1..], glue)
  }

  /** `String.prototype.replaceAll(target, replacement)` as app/index.js defines it: `this.split(target).join(replacement)`. */
  function ReplaceAll(s: string, target: string, replacement: string): string {
    if target == "" then Join(Chars(s), replacement)
    else Join(SplitOn(s, target), replacement)
  }

  /** Reference definition: `s` with every occurrence of the character `c` left out. */
  function Erase(s: string, c: char): (r: string)
    ensures c !in r
    ensures forall x :: x != c ==> (x in r <==> x in s)
  {
    if s == [] then []
    else (if s[0] == c then [] else [s[0]]) + Erase(s[1..], c)
  }

  /** `text.replaceAll("\r", "")`, applied to every exported text. */
  function StripCarriageReturns(s: string): string {
    ReplaceAll(s, "\r", "")
  }

  lemma JoinCons(x: string, y: string, tail: seq<string>, glue: string)
    ensures Join([x + y] + tail, glue) == x + Join([y] + tail, glue)
  {
    assert ([x + y] + tail)[1..] == tail;
    assert ([y] + tail)[1..] == tail;
  }

  /** Splitting on a separator and joining with the same separator gives the string back. */
  lemma {:induction false} SplitJoin(s: string, sep: string)
    requires sep != ""
    ensures Join(SplitOn(s, sep), sep) == s
    decreases |s|
  {
    if |s| < |sep| {
    } else if s[..|sep|] == sep {
      SplitJoin(s[|sep|..], sep);
      assert ([""] + SplitOn(s[|sep|..], sep))[1..] == SplitOn(s[|sep|..], sep);
      assert s == sep + s[|sep|..];
    } else {
      var rest := SplitOn(s[1..], sep);
      SplitJoin(s[1..], sep);
      JoinCons([s[0]], rest[0], rest[1..], sep);
      assert [rest[0]] + rest[1..] == rest;
      assert s == [s[0]] + s[1..];
    }
  }

  /** So replacing a substring by itself changes nothing. */
  lemma ReplaceAllIdentity(s: string, target: string)
    ensures ReplaceAll(s, target, target) == s
  {
    if target == "" {
      JoinChars(s);
    } else {
      SplitJoin(s, target);
    }
  }

  lemma {:induction false} JoinChars(s: string)
    ensures Join(Chars(s), "") == s
    decreases |s|
  {
    if |s| > 1 {
      JoinChars(s[1..]);
      assert Chars(s)[1..] == Chars(s[1..]);
      assert s == [s[0]] + s[1..];
    } else if |s| == 1 {
      assert s == [s[0]];
      assert Chars(s)[0] == [s[0]];
      assert Chars(s) == [s];
    }
  }

  /** Splitting on one character and joining with nothing erases that character. */
  lemma {:induction false} SplitOnCharErases(s: string, c: char)
    ensures Join(SplitOn(s, [c]), "") == Erase(s, c)
    decreases |s|
  {
    if |s| == 0 {
    } else if s[..1] == [c] {
      var rest := SplitOn(s[1..], [c]);
      SplitOnCharErases(s[1..], c);
      assert ([""] + rest)[1..] == rest;
      assert s[0] == c;
    } else {
      var rest := SplitOn(s[1..], [c]);
      SplitOnCharErases(s[1..], c);
      JoinCons([s[0]], rest[0], rest[1..], "");
      assert [rest[0]] + rest[1..] == rest;
      assert s[0] != c;
    }
  }

  /** `replaceAll("\r", "")` removes exactly the carriage returns. */
  lemma StripIsErase(s: string)
    ensures StripCarriageReturns(s) == Erase(s, '\r')
    ensures '\r' !in StripCarriageReturns(s)
  {
    SplitOnCharErases(s, '\r');
  }

  /** A text without carriage returns is exported unchanged. */
  lemma {:induction false} EraseAbsent(s: string, c: char)
    requires c !in s
    ensures Erase(s, c) == s
  {
    if s != [] {
      EraseAbsent(s[1..], c);
      assert s == [s[0]] + s[1..];
    }
  }

  // ---------------------------------------------------------------- indent-string

  /** The indentation `indentString(text, 4)` inserts. */
  const Pad: string := "    "

  /** JavaScript's line terminators: the characters `.` does not match, and after which a multiline `^` matches. */
  predicate IsLineTerminator(c: char) {
    c == '\n' || c == '\r' || c == '\U{2028}' || c == '\U{2029}'
  }

  /** The characters matched by the regular-expression class `\s`. */
  predicate IsWhiteSpace(c: char) {
    c == '\t' || c == '\n' || c == '\U{000B}' || c == '\U{000C}' || c == '\r' || c == ' '
    || c == '\U{00A0}' || c == '\U{1680}' || ('\U{2000}' <= c <= '\U{200A}')
    || c == '\U{2028}' || c == '\U{2029}' || c == '\U{202F}' || c == '\U{205F}'
    || c == '\U{3000}' || c == '\U{FEFF}'
  }

  /** A line made of white space only (the empty line included). */
  predicate IsBlank(line: string) {
    line == [] || (IsWhiteSpace(line[0]) && IsBlank(line[1..]))
  }

  /** Length of the first line of `s`: the position of its first line terminator, or |s|. */
  function LineEnd(s: string): (e: nat)
    ensures e <= |s|
  {
    if s == [] || IsLineTerminator(s[0]) then 0 else 1 + LineEnd(s[1..])
  }

  /** The first line ends at a line terminator, or at the end of the text, and holds none. */
  lemma {:induction false} LineEndSpec(s: string)
    ensures LineEnd(s) < |s| ==> IsLineTerminator(s[LineEnd(s)])
    ensures forall i :: 0 <= i < LineEnd(s) ==> !IsLineTerminator(s[i])
  {
    if s != [] && !IsLineTerminator(s[0]) {
      LineEndSpec(s[1..]);
      assert forall i :: 1 <= i < |s| ==> s[i] == s[1..][i - 1];
    }
  }

  /**
   * `indentString(s, 4, {includeEmptyLines})`: four spaces in front of every
   * line, or, when `includeEmptyLines` is false, in front of every line that
   * is not blank. Line terminators are kept as they are.
   */
  function Indent(s: string, includeEmptyLines: bool): string
    decreases |s|
  {
    var e := LineEnd(s);
    var head := IndentLine(s[..e], includeEmptyLines);
    if e == |s| then head else head + [s[e]] + Indent(s[e + 1..], includeEmptyLines)
  }

  /** One line as `indentString` writes it: padded, unless it is blank and blank lines are skipped. */
  function IndentLine(line: string, includeEmptyLines: bool): string {
    if includeEmptyLines || !IsBlank(line) then Pad + line else line
  }

  /** Reference inverse of the indentation: drop four leading spaces from every line that has them. */
  function Dedent(s: string): string
    decreases |s|
  {
    var e := LineEnd(s);
    var body := DedentLine(s[..e]);
    if e == |s| then body else body + [s[e]] + Dedent(s[e + 1..])
  }

  /** One line without its four leading spaces, when it has them. */
  function DedentLine(line: string): string {
    if |line| >= 4 && line[..4] == Pad then line[4..] else line
  }

  /** Some line of `s` is blank. */
  predicate HasBlankLine(s: string)
    decreases |s|
  {
    var e := LineEnd(s);
    IsBlank(s[..e]) || (e < |s| && HasBlankLine(s[e + 1..]))
  }

  lemma LineEndOf(x: string, t: char, y: string)
    requires forall i :: 0 <= i < |x| ==> !IsLineTerminator(x[i])
    requires IsLineTerminator(t)
    ensures LineEnd(x + [t] + y) == |x|
    ensures LineEnd(x) == |x|
    decreases |x|
  {
    if x != [] {
      LineEndOf(x[1..], t, y);
      assert (x + [t] + y)[1..] == x[1..] + [t] + y;
    }
  }

  /** Dedent, unfolded once at the first line terminator. */
  lemma DedentUnfold(s: string)
    requires LineEnd(s) < |s|
    ensures Dedent(s) == DedentLine(s[..LineEnd(s)]) + [s[LineEnd(s)]] + Dedent(s[LineEnd(s) + 1..])
  {
  }

  /** A padded line holds no line terminator when the line itself holds none. */
  lemma PaddedLine(s: string)
    ensures forall i :: 0 <= i < |Pad + s[..LineEnd(s)]| ==> !IsLineTerminator((Pad + s[..LineEnd(s)])[i])
    ensures DedentLine(Pad + s[..LineEnd(s)]) == s[..LineEnd(s)]
    ensures LineEnd(s) < |s| ==> IsLineTerminator(s[LineEnd(s)])
  {
    var head := Pad + s[..LineEnd(s)];
    LineEndSpec(s);
    assert head[..4] == Pad && head[4..] == s[..LineEnd(s)];
  }

  /** Dedenting a padded first line, its terminator and the rest handles the first line on its own. */
  lemma DedentJoin(head: string, t: char, rest: string)
    requires forall i :: 0 <= i < |head| ==> !IsLineTerminator(head[i])
    requires IsLineTerminator(t)
    ensures Dedent(head + [t] + rest) == DedentLine(head) + [t] + Dedent(rest)
  {
    var whole := head + [t] + rest;
    LineEndOf(head, t, rest);
    DedentUnfold(whole);
    assert whole[..|head|] == head;
    assert whole[|head| + 1..] == rest;
  }

  /** Removing the four spaces again gives back the text: every line was indented exactly once. */
  lemma {:induction false} DedentIndent(s: string)
    ensures Dedent(Indent(s, true)) == s
    decreases |s|
  {
    var e := LineEnd(s);
    if e == |s| {
      DedentIndentLine(s);
    } else {
      DedentIndent(s[e + 1..]);
      DedentIndentStep(s);
    }
  }

  /** A text of one line. */
  lemma DedentIndentLine(s: string)
    requires LineEnd(s) == |s|
    ensures Dedent(Indent(s, true)) == s
  {
    IndentOneLine(s);
    DedentOneLine(s);
  }

  lemma IndentOneLine(s: string)
    requires LineEnd(s) == |s|
    ensures Indent(s, true) == Pad + s
  {
    assert s[..LineEnd(s)] == s;
  }

  lemma DedentOneLine(s: string)
    requires LineEnd(s) == |s|
    ensures Dedent(Pad + s) == s
  {
    assert s[..LineEnd(s)] == s;
    PaddedLine(s);
    LineEndOf(Pad + s, '\n', "");
    assert (Pad + s)[..|Pad + s|] == Pad + s;
  }

  /** A text of several lines, given the claim for all lines after the first. */
  lemma DedentIndentStep(s: string)
    requires LineEnd(s) < |s|
    requires Dedent(Indent(s[LineEnd(s) + 1..], true)) == s[LineEnd(s) + 1..]
    ensures Dedent(Indent(s, true)) == s
  {
    IndentUnfoldPadded(s);
    DedentPaddedLine(s, Indent(s[LineEnd(s) + 1..], true));
    SplitAround(s, LineEnd(s));
  }

  lemma IndentUnfoldPadded(s: string)
    requires LineEnd(s) < |s|
    ensures Indent(s, true) == Pad + s[..LineEnd(s)] + [s[LineEnd(s)]] + Indent(s[LineEnd(s) + 1..], true)
  {
    IndentUnfold(s, true);
  }

  lemma DedentPaddedLine(s: string, r: string)
    requires LineEnd(s) < |s|
    ensures Dedent(Pad + s[..LineEnd(s)] + [s[LineEnd(s)]] + r) == s[..LineEnd(s)] + [s[LineEnd(s)]] + Dedent(r)
  {
    PaddedLine(s);
    DedentJoin(Pad + s[..LineEnd(s)], s[LineEnd(s)], r);
  }

  lemma SplitAround(s: string, e: nat)
    requires e < |s|
    ensures s == s[..e] + [s[e]] + s[e + 1..]
  {
  }

  /** Indent, unfolded once at the first line terminator. */
  lemma IndentUnfold(s: string, includeEmptyLines: bool)
    requires LineEnd(s) < |s|
    ensures Indent(s, includeEmptyLines) ==
      IndentLine(s[..LineEnd(s)], includeEmptyLines) + [s[LineEnd(s)]] + Indent(s[LineEnd(s) + 1..], includeEmptyLines)
  {
  }

  /** The two indentation modes differ only on blank lines. */
  lemma {:induction false} IndentModesAgree(s: string)
    requires !HasBlankLine(s)
    ensures Indent(s, false) == Indent(s, true)
    decreases |s|
  {
    var e := LineEnd(s);
    assert IndentLine(s[..e], false) == IndentLine(s[..e], true);
    if e < |s| {
      var rest := s[e + 1..];
      assert !HasBlankLine(rest);
      IndentModesAgree(rest);
      IndentUnfold(s, false);
      IndentUnfold(s, true);
    }
  }

  /** Indentation adds no carriage return. */
  lemma {:induction false} IndentNoCarriageReturn(s: string, includeEmptyLines: bool)
    requires '\r' !in s
    ensures '\r' !in Indent(s, includeEmptyLines)
    decreases |s|
  {
    var e := LineEnd(s);
    assert forall i :: 0 <= i < e ==> s[..e][i] == s[i];
    if e < |s| {
      assert s[e] in s;
      IndentNoCarriageReturn(s[e + 1..], includeEmptyLines);
    }
  }
}
