/**
  The account search: a `LIKE` pattern built from a query, against the SQL
  semantics of `LIKE` (`%` any text, `_` any one character, `\` the escape).
 */
module PrefixSearch {
  import opened Text

  predicate Special(c: char) {
    c == '%' || c == '_' || c == '\\'
  }

  /** SQL `LIKE` with the default escape character; a pattern ending in a lone escape matches nothing. */
  predicate Like(text: string, pattern: string)
    decreases |pattern| + |text|
  {
    if pattern == "" then text == ""
    else if pattern[0] == '%' then
      Like(text, pattern[1..]) || (text != "" && Like(text[1..], pattern))
    else if pattern[0] == '_' then
      text != "" && Like(text[1..], pattern[1..])
    else if pattern[0] == '\\' then
      |pattern| >= 2 && text != "" && text[0] == pattern[1] && Like(text[1..], pattern[2..])
    else
      text != "" && text[0] == pattern[0] && Like(text[1..], pattern[1..])
  }

  /** A character as the pattern spells it. */
  function Literal(c: char): string {
    if Special(c) then ['\\', c] else [c]
  }

  function Escaped(s: string): string {
    if s == "" then "" else Escaped(s[..|s| - 1]) + Literal(s[|s| - 1])
  }

  /** The pattern of the search, for any notion of white space and any lower-casing of strings. */
  method PrefixPattern(query: string, blank: char -> bool, lower: string -> string) returns (pattern: string)
    ensures pattern == Escaped(lower(Trim(query, blank))) + "%"
    ensures forall text :: Like(text, pattern) <==> lower(Trim(query, blank)) <= text
  {
    pattern := "";
    var chars := lower(Trim(query, blank));
    for i := 0 to |chars|
      invariant pattern == Escaped(chars[..i])
    {
      assert chars[..i + 1][..i] == chars[..i];
      if Special(chars[i]) {
        pattern := pattern + "\\";
      }
      pattern := pattern + [chars[i]];
    }
    assert chars[..|chars|] == chars;
    pattern := pattern + "%";
    forall text
      ensures Like(text, pattern) <==> chars <= text
    {
      EscapedPrefixMatches(chars, text);
    }
  }

  lemma AnyTextMatchesPercent(text: string)
    ensures Like(text, "%")
  {
    if text != "" {
      AnyTextMatchesPercent(text[1..]);
    } else {
      assert Like("", "%"[1..]);
    }
  }

  lemma {:induction false} EscapedFront(c: char, s: string)
    ensures Escaped([c] + s) == Literal(c) + Escaped(s)
    decreases |s|
  {
    hide Literal;
    var all := [c] + s;
    if s == "" {
      assert all[..0] == "";
    } else {
      var front, last := s[..|s| - 1], s[|s| - 1];
      EscapedFront(c, front);
      assert all[..|all| - 1] == [c] + front && all[|all| - 1] == last;
      assert (Literal(c) + Escaped(front)) + Literal(last) == Literal(c) + (Escaped(front) + Literal(last));
    }
  }

  /** A spelled character matches itself and nothing else. */
  lemma LiteralMatches(c: char, after: string, text: string)
    ensures Like(text, Literal(c) + after) <==> text != "" && text[0] == c && Like(text[1..], after)
  {
    var pattern := Literal(c) + after;
    if Special(c) {
      assert pattern[2..] == after;
    } else {
      assert pattern[1..] == after;
    }
  }

  /** Every query character matches itself only, and nothing is asked of what follows. */
  lemma {:induction false} EscapedPrefixMatches(prefix: string, text: string)
    ensures Like(text, Escaped(prefix) + "%") <==> prefix <= text
    decreases |prefix|
  {
    hide Literal, Like;
    if prefix == "" {
      assert Escaped(prefix) + "%" == "%";
      AnyTextMatchesPercent(text);
    } else {
      var c, rest := prefix[0], prefix[1..];
      assert prefix == [c] + rest;
      EscapedFront(c, rest);
      var after := Escaped(rest) + "%";
      assert Escaped(prefix) + "%" == Literal(c) + after;
      LiteralMatches(c, after, text);
      if text != "" {
        EscapedPrefixMatches(rest, text[1..]);
        assert prefix <= text <==> text[0] == c && rest <= text[1..];
      }
    }
  }
}
