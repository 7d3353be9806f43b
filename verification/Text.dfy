/** String operations of the standard library the parsers share. */
module Text {

  /** `s` is white space, then `t`, then white space. */
  ghost predicate Padded(s: string, t: string, blank: char -> bool) {
    exists left: string, right: string ::
      && s == left + t + right
      && (forall c :: c in left ==> blank(c)) && (forall c :: c in right ==> blank(c))
  }

  /** `str::trim`, for any notion of white space. */
  function Trim(s: string, blank: char -> bool): (t: string)
    ensures t != "" ==> !blank(t[0]) && !blank(t[|t| - 1])
    ensures Padded(s, t, blank)
  {
    if s != "" && blank(s[0]) then
      var t := Trim(s[1..], blank);
      assert Padded(s, t, blank) by { PaddedLeft(s, t, blank); }
      t
    else if s != "" && blank(s[|s| - 1]) then
      var t := Trim(s[..|s| - 1], blank);
      assert Padded(s, t, blank) by { PaddedRight(s, t, blank); }
      t
    else
      assert s == "" + s + "";
      s
  }

  /** What is left between white space is the trimmed text, once it begins and ends with something else. */
  lemma TrimIsUnique(s: string, t: string, blank: char -> bool)
    requires Padded(s, t, blank) && t != "" && !blank(t[0]) && !blank(t[|t| - 1])
    ensures Trim(s, blank) == t
  {
    var u := Trim(s, blank);
    hide Trim;
    var left: string, right: string :|
      && s == left + t + right
      && (forall c :: c in left ==> blank(c)) && (forall c :: c in right ==> blank(c));
    var before: string, after: string :|
      && s == before + u + after
      && (forall c :: c in before ==> blank(c)) && (forall c :: c in after ==> blank(c));
    SameEdges(left, t, right, before, u, after, blank);
  }

  predicate Blank(text: string, blank: char -> bool) {
    forall c :: c in text ==> blank(c)
  }

  /** White space in front ends where the first other character stands. */
  lemma LeftEdge(a: string, x: string, b: string, y: string, blank: char -> bool)
    requires a + x == b + y && Blank(a, blank) && Blank(b, blank)
    requires x != "" && y != "" && !blank(x[0]) && !blank(y[0])
    ensures x == y
  {
    var s := a + x;
    assert s[|a|] == x[0] && s[|b|] == y[0];
    assert forall i :: 0 <= i < |a| ==> s[i] in a;
    assert forall i :: 0 <= i < |b| ==> s[i] in b;
    assert x == s[|a|..] && y == s[|b|..];
  }

  lemma RightEdge(x: string, a: string, y: string, b: string, blank: char -> bool)
    requires x + a == y + b && Blank(a, blank) && Blank(b, blank)
    requires x != "" && y != "" && !blank(x[|x| - 1]) && !blank(y[|y| - 1])
    ensures x == y
  {
    var s := x + a;
    assert s[|x| - 1] == x[|x| - 1] && s[|y| - 1] == y[|y| - 1];
    assert forall i :: |x| <= i < |s| ==> s[i] in a;
    assert forall i :: |y| <= i < |s| ==> s[i] in b;
    assert x == s[..|x|] && y == s[..|y|];
  }

  lemma SameEdges(left: string, t: string, right: string, before: string, u: string, after: string, blank: char -> bool)
    requires left + t + right == before + u + after
    requires Blank(left, blank) && Blank(right, blank) && Blank(before, blank) && Blank(after, blank)
    requires t != "" && !blank(t[0]) && !blank(t[|t| - 1])
    requires u != "" ==> !blank(u[0]) && !blank(u[|u| - 1])
    ensures t == u
  {
    var s := left + t + right;
    assert s[|left|] == t[0] && s[|left|] in s;
    assert u == "" ==> s == before + after;
    hide Blank;
    assert left + (t + right) == s == before + (u + after);
    LeftEdge(left, t + right, before, u + after, blank);
    RightEdge(t, right, u, after, blank);
  }

  lemma PaddedLeft(s: string, t: string, blank: char -> bool)
    requires s != "" && blank(s[0]) && Padded(s[1..], t, blank)
    ensures Padded(s, t, blank)
  {
    var left: string, right: string :|
      && s[1..] == left + t + right
      && (forall c :: c in left ==> blank(c)) && (forall c :: c in right ==> blank(c));
    assert s == ([s[0]] + left) + t + right;
  }

  lemma PaddedRight(s: string, t: string, blank: char -> bool)
    requires s != "" && blank(s[|s| - 1]) && Padded(s[..|s| - 1], t, blank)
    ensures Padded(s, t, blank)
  {
    var left: string, right: string :|
      && s[..|s| - 1] == left + t + right
      && (forall c :: c in left ==> blank(c)) && (forall c :: c in right ==> blank(c));
    assert s == left + t + (right + [s[|s| - 1]]);
  }

  function Join(parts: seq<string>, sep: char): string
    requires parts != []
  {
    if |parts| == 1 then parts[0] else parts[0] + [sep] + Join(parts[1..], sep)
  }

  /** `str::split` on one character: the pieces hold no separator and join back to the text. */
  function Split(s: string, sep: char): (parts: seq<string>)
    ensures parts != [] && Join(parts, sep) == s
    ensures forall i :: 0 <= i < |parts| ==> sep !in parts[i]
  {
    if s == "" then [""]
    else
      var rest := Split(s[1..], sep);
      if s[0] == sep then
        var parts := [""] + rest;
        assert parts[1..] == rest;
        parts
      else
        var parts := [[s[0]] + rest[0]] + rest[1..];
        assert parts[1..] == rest[1..];
        parts
  }

  /** Pieces without separators are what splitting their join yields. */
  lemma {:induction false} SplitJoin(parts: seq<string>, sep: char)
    requires parts != [] && forall i :: 0 <= i < |parts| ==> sep !in parts[i]
    ensures Split(Join(parts, sep), sep) == parts
    decreases |parts|, |parts[0]|
  {
    var text := Join(parts, sep);
    if parts[0] == "" {
      if |parts| > 1 {
        SplitJoin(parts[1..], sep);
        assert text == [sep] + Join(parts[1..], sep);
        assert text[1..] == Join(parts[1..], sep);
      }
    } else {
      var shorter := [parts[0][1..]] + parts[1..];
      SplitJoin(shorter, sep);
      assert shorter[1..] == parts[1..];
      assert text == [parts[0][0]] + Join(shorter, sep) by { JoinFront(parts, sep); }
      assert text[1..] == Join(shorter, sep);
      assert [parts[0][0]] + shorter[0] == parts[0];
    }
  }

  /** The pieces of a text with one more character in front. */
  function WithFirst(c: char, sep: char, parts: seq<string>): seq<string>
    requires parts != []
  {
    if c == sep then [""] + parts else [[c] + parts[0]] + parts[1..]
  }

  lemma SplitStep(s: string, sep: char)
    requires s != ""
    ensures Split(s, sep) == WithFirst(s[0], sep, Split(s[1..], sep))
  {
    hide Join;
  }

  lemma WithFirstOfConcatenation(c: char, sep: char, a: seq<string>, b: seq<string>)
    requires a != []
    ensures WithFirst(c, sep, a + b) == WithFirst(c, sep, a) + b
  {
  }

  lemma SplitNothing(sep: char)
    ensures Split("", sep) == [""]
  {
  }

  /** Splitting goes separator by separator: two texts joined by one split into the pieces of each. */
  lemma {:induction false} SplitConcatenation(a: string, sep: char, b: string)
    ensures Split(a + [sep] + b, sep) == Split(a, sep) + Split(b, sep)
    decreases |a|
  {
    hide Split, Join, WithFirst;
    var text := a + [sep] + b;
    SplitStep(text, sep);
    if a == "" {
      assert text[1..] == b;
      SplitNothing(sep);
      assert WithFirst(sep, sep, Split(b, sep)) == [""] + Split(b, sep) by { SeparatorFirst(sep, Split(b, sep)); }
    } else {
      SplitConcatenation(a[1..], sep, b);
      assert text[1..] == a[1..] + [sep] + b;
      SplitStep(a, sep);
      WithFirstOfConcatenation(a[0], sep, Split(a[1..], sep), Split(b, sep));
    }
  }

  lemma SeparatorFirst(sep: char, parts: seq<string>)
    requires parts != []
    ensures WithFirst(sep, sep, parts) == [""] + parts
  {
  }

  lemma JoinFront(parts: seq<string>, sep: char)
    requires parts != [] && parts[0] != ""
    ensures Join(parts, sep) == [parts[0][0]] + Join([parts[0][1..]] + parts[1..], sep)
  {
    var shorter := [parts[0][1..]] + parts[1..];
    assert shorter[1..] == parts[1..];
    assert parts[0] == [parts[0][0]] + parts[0][1..];
  }
}
