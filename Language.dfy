/**
 * The identifier check of the editor's language support (`isStringValid`):
 * the leftmost match of `[A-z_][A-z0-9._]*` is deleted from the string, bare
 * keywords are refused, a keyword or name may be escaped by a leading `@`,
 * and otherwise the string is accepted when nothing is left over.
 */
module Language {
  import Text

  /** `[A-z_]`: the range `A-z` also holds the characters `[ \ ] ^ _` and the backquote. */
  predicate IsIdentStart(c: char) {
    ('A' <= c <= 'z') || c == '_'
  }

  /** `[A-z0-9._]` */
  predicate IsIdentChar(c: char) {
    ('A' <= c <= 'z') || ('0' <= c <= '9') || c == '.' || c == '_'
  }

  /** Where the leftmost match begins: the first character that may start an identifier, or |s| when there is none. */
  function MatchStart(s: string): (i: nat)
    ensures i <= |s|
    ensures forall k :: 0 <= k < i ==> !IsIdentStart(s[k])
    ensures i < |s| ==> IsIdentStart(s[i])
  {
    if s == [] || IsIdentStart(s[0]) then 0 else 1 + MatchStart(s[1..])
  }

  /** How far the greedy `[A-z0-9._]*` reaches into `s`. */
  function RunLength(s: string): (n: nat)
    ensures n <= |s|
    ensures forall k :: 0 <= k < n ==> IsIdentChar(s[k])
    ensures n < |s| ==> !IsIdentChar(s[n])
  {
    if s == [] || !IsIdentChar(s[0]) then 0 else 1 + RunLength(s[1..])
  }

  /** `str.replace(/[A-z\_][A-z0-9\.\_]*\/, "")`: the first match only, since the pattern has no `g` flag. */
  function RemoveFirstMatch(s: string): string {
    var i := MatchStart(s);
    if i == |s| then s
    else s[..i] + s[i + 1 + RunLength(s[i + 1..])..]
  }

  /** `/^(?:if|else|namespace|definitions|scene|choice)$/`: in JavaScript, `$` without the `m` flag matches only at the very end. */
  predicate IsKeyword(s: string) {
    s == "if" || s == "else" || s == "namespace" || s == "definitions" || s == "scene" || s == "choice"
  }

  /** `/^\@.*$/`: an `@` followed by characters none of which ends a line. */
  predicate IsAtPrefixed(s: string) {
    |s| >= 1 && s[0] == '@' && forall k :: 1 <= k < |s| ==> !Text.IsLineTerminator(s[k])
  }

  /** `isStringValid(str)` */
  function IsStringValid(str: string): bool {
    var s := RemoveFirstMatch(str);
    if IsKeyword(str) then false
    else if IsAtPrefixed(str) && s == "@" then true
    else s == ""
  }

  /** Reference definition: one whole match of `[A-z_][A-z0-9._]*`. */
  predicate IsIdentifier(t: string) {
    |t| >= 1 && IsIdentStart(t[0]) && forall k :: 1 <= k < |t| ==> IsIdentChar(t[k])
  }

  /** Nothing is left over exactly when the string is empty or one identifier. */
  lemma RemovesAll(s: string)
    ensures RemoveFirstMatch(s) == "" <==> s == "" || IsIdentifier(s)
  {
    var i := MatchStart(s);
    if i < |s| {
      var n := RunLength(s[i + 1..]);
      if i == 0 && i + 1 + n == |s| {
        assert forall k :: 1 <= k < |s| ==> s[k] == s[1..][k - 1];
      }
      if IsIdentifier(s) {
        assert i == 0;
        assert n == |s| - 1;
      }
    }
  }

  /** Only `@` is left over exactly when the string is `@` or `@` followed by one identifier. */
  lemma RemovesAllButAt(s: string)
    requires |s| >= 1 && s[0] == '@'
    ensures RemoveFirstMatch(s) == "@" <==> s == "@" || IsIdentifier(s[1..])
  {
    var i := MatchStart(s);
    assert !IsIdentStart(s[0]);
    if i < |s| {
      var n := RunLength(s[i + 1..]);
      if RemoveFirstMatch(s) == "@" {
        assert s[..i] + s[i + 1 + n..] == "@";
        assert i == 1 && i + 1 + n == |s|;
        assert forall k :: 1 <= k < |s| - 1 ==> s[1..][k] == s[2..][k - 1];
      }
      if IsIdentifier(s[1..]) {
        assert s[1..][0] == s[1];
        assert i == 1;
        assert n == |s| - 2;
        assert s[..1] == "@";
      }
    }
  }

  /**
   * What `isStringValid` accepts, stated without the regular expression:
   * never a bare keyword; the empty string, a lone `@`, one identifier, or an
   * `@` followed by one identifier (keywords included).
   */
  lemma ValidIff(str: string)
    ensures IsStringValid(str) <==>
      !IsKeyword(str) &&
      (str == "" || str == "@" || IsIdentifier(str) || (|str| >= 1 && str[0] == '@' && IsIdentifier(str[1..])))
  {
    RemovesAll(str);
    if |str| >= 1 && str[0] == '@' {
      RemovesAllButAt(str);
      assert !IsIdentifier(str);
      if IsIdentifier(str[1..]) {
        assert forall k :: 1 <= k < |str| ==> str[k] == str[1..][k - 1];
      }
    }
  }

  /** A first character that cannot start an identifier (a digit, `.`, a space) is refused unless it is `@`. */
  lemma BadFirstCharacterRejected(str: string)
    requires |str| >= 1 && !IsIdentStart(str[0]) && str[0] != '@'
    ensures !IsStringValid(str)
  {
    ValidIff(str);
  }

  /** An `@` anywhere but at the front is refused. */
  lemma InnerAtRejected(str: string, k: nat)
    requires 1 <= k < |str| && str[k] == '@'
    ensures !IsStringValid(str)
  {
    ValidIff(str);
    if |str| >= 1 && str[0] == '@' && IsIdentifier(str[1..]) {
      assert str[1..][k - 1] == '@';
    }
  }

  /** A prefixed keyword is accepted. */
  lemma EscapedKeywordsAccepted(w: string)
    requires IsKeyword(w)
    ensures IsStringValid("@" + w)
  {
    KeywordIsIdentifier(w);
    EscapedIdentifierAccepted(w);
  }

  /** Every keyword on its own is one identifier. */
  lemma KeywordIsIdentifier(w: string)
    requires IsKeyword(w)
    ensures IsIdentifier(w)
  {
  }

  lemma EscapedIdentifierAccepted(w: string)
    requires IsIdentifier(w)
    ensures IsStringValid("@" + w)
  {
    var t := "@" + w;
    ValidIff(t);
    assert t[0] == '@' && t[1..] == w;
  }

  /** A leading digit: the match starts after it, so the digit is left over. */
  lemma ExampleLeadingDigit()
    ensures RemoveFirstMatch("1abc") == "1" && !IsStringValid("1abc")
  {
    assert MatchStart("1abc") == 1;
    assert RunLength("bc") == 2;
  }

  /** An inner `@` stops the match, so `@b` is left over. */
  lemma ExampleInnerAt()
    ensures RemoveFirstMatch("a@b") == "@b" && !IsStringValid("a@b")
  {
    assert MatchStart("a@b") == 0;
    assert RunLength("@b") == 0;
  }

  /** Keywords need their `@`; the empty string and a lone `@` pass. */
  lemma ExampleKeywords()
    ensures !IsStringValid("if") && IsStringValid("@if") && IsStringValid("@scene")
    ensures IsStringValid("@") && IsStringValid("")
  {
    EscapedKeyword("if", "@if");
    EscapedKeyword("scene", "@scene");
    TrivialStringsAccepted();
  }

  lemma EscapedKeyword(w: string, t: string)
    requires IsKeyword(w) && t == "@" + w
    ensures IsStringValid(t)
  {
    EscapedKeywordsAccepted(w);
  }

  lemma TrivialStringsAccepted()
    ensures IsStringValid("@") && IsStringValid("")
  {
    ValidIff("@");
    ValidIff("");
  }

  /** An identifier that is not a keyword is accepted. */
  lemma IdentifierAccepted(w: string)
    requires IsIdentifier(w) && !IsKeyword(w)
    ensures IsStringValid(w)
  {
    ValidIff(w);
  }

  /** Dots and underscores may follow the first character; the brackets of the range `A-z` count as letters. */
  lemma ExampleCharacters()
    ensures IsStringValid("a.b_c") && !IsStringValid(".a") && IsStringValid("a[b]^`")
  {
    ExampleDots();
    ExampleLeadingDot();
    ExampleBrackets();
  }

  lemma ExampleDots()
    ensures IsStringValid("a.b_c")
  {
    IdentifierAccepted("a.b_c");
  }

  lemma ExampleLeadingDot()
    ensures !IsStringValid(".a")
  {
    BadFirstCharacterRejected(".a");
  }

  lemma ExampleBrackets()
    ensures IsStringValid("a[b]^`")
  {
    IdentifierAccepted("a[b]^`");
  }
}
