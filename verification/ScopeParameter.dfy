/** The `scope` parameter of a request: a list of tokens (section 3.3 of RFC 6749), sorted and without repeats. */
module ScopeParameter {
  import opened Basics
  import opened Text

  /** Printable ASCII other than the double quote and the backslash. */
  predicate IsScopeChar(c: char) {
    c == '!' || '#' <= c <= '[' || ']' <= c <= '~'
  }

  lemma ScopeCharIff(c: char)
    ensures IsScopeChar(c) <==> 33 <= c as int <= 126 && c != '\"' && c != '\\'
  {
  }

  predicate IsScopeToken(token: string) {
    token != "" && forall i :: 0 <= i < |token| ==> IsScopeChar(token[i])
  }

  /** The order of strings, character by character. */
  predicate Before(a: string, b: string) {
    b != "" && (a == "" || a[0] < b[0] || (a[0] == b[0] && Before(a[1..], b[1..])))
  }

  /** One string stands before another at their first difference, or by being its beginning. */
  lemma {:induction false} BeforeIff(a: string, b: string)
    ensures Before(a, b) <==>
            exists i :: 0 <= i <= |a| && i < |b| && a[..i] == b[..i] && (i == |a| || a[i] < b[i])
    decreases |a|
  {
    if Before(a, b) {
      if a == "" || a[0] < b[0] {
        assert a[..0] == b[..0];
      } else {
        BeforeIff(a[1..], b[1..]);
        var i :| 0 <= i <= |a[1..]| && i < |b[1..]| && a[1..][..i] == b[1..][..i] && (i == |a[1..]| || a[1..][i] < b[1..][i]);
        assert a[..i + 1] == [a[0]] + a[1..][..i] && b[..i + 1] == [b[0]] + b[1..][..i];
        assert 0 <= i + 1 <= |a| && a[..i + 1] == b[..i + 1] && (i + 1 == |a| || a[i + 1] < b[i + 1]);
      }
    }
    if i :| 0 <= i <= |a| && i < |b| && a[..i] == b[..i] && (i == |a| || a[i] < b[i]) {
      if i > 0 {
        assert a[0] == a[..i][0] == b[..i][0] == b[0];
        assert a[1..][..i - 1] == a[..i][1..] == b[..i][1..] == b[1..][..i - 1];
        BeforeIff(a[1..], b[1..]);
      }
    }
  }

  lemma {:induction false} BeforeIsTotal(a: string, b: string)
    ensures Before(a, b) || a == b || Before(b, a)
    decreases |a|
  {
    if a != "" && b != "" && a[0] == b[0] {
      BeforeIsTotal(a[1..], b[1..]);
      assert a == [a[0]] + a[1..] && b == [b[0]] + b[1..];
    }
  }

  lemma {:induction false} BeforeIsStrict(a: string, b: string)
    requires Before(a, b)
    ensures a != b && !Before(b, a)
    decreases |a|
  {
    if a != "" && a[0] == b[0] {
      BeforeIsStrict(a[1..], b[1..]);
    }
  }

  lemma {:induction false} BeforeIsTransitive(a: string, b: string, c: string)
    requires Before(a, b) && Before(b, c)
    ensures Before(a, c)
    decreases |a|
  {
    if a != "" && a[0] == b[0] == c[0] {
      BeforeIsTransitive(a[1..], b[1..], c[1..]);
    }
  }

  predicate Ascending(xs: seq<string>) {
    forall i, j :: 0 <= i < j < |xs| ==> Before(xs[i], xs[j])
  }

  /** `sort` then `dedup`, one element at a time. */
  function Insert(x: string, xs: seq<string>): (ys: seq<string>)
    requires Ascending(xs)
    ensures Ascending(ys) && forall y :: y in ys <==> y == x || y in xs
  {
    if xs == [] then [x]
    else if x == xs[0] then xs
    else if Before(x, xs[0]) then
      assert forall j :: 0 <= j < |xs| ==> Before(x, xs[j]) by { BelowHead(x, xs); }
      [x] + xs
    else
      BeforeIsTotal(x, xs[0]);
      var rest := Insert(x, xs[1..]);
      assert forall j :: 0 <= j < |rest| ==> rest[j] in rest;
      [xs[0]] + rest
  }

  lemma BelowHead(x: string, xs: seq<string>)
    requires Ascending(xs) && xs != [] && Before(x, xs[0])
    ensures forall j :: 0 <= j < |xs| ==> Before(x, xs[j])
  {
    forall j | 0 < j < |xs|
      ensures Before(x, xs[j])
    {
      BeforeIsTransitive(x, xs[0], xs[j]);
    }
  }

  function SortDedup(tokens: seq<string>): (scopes: seq<string>)
    ensures Ascending(scopes) && forall x :: x in scopes <==> x in tokens
  {
    if tokens == [] then [] else Insert(tokens[0], SortDedup(tokens[1..]))
  }

  /** An ascending list is determined by its elements: sorting and deduplicating has one possible answer. */
  lemma {:induction false} AscendingIsCanonical(a: seq<string>, b: seq<string>)
    requires Ascending(a) && Ascending(b) && forall x :: x in a <==> x in b
    ensures a == b
  {
    SameEmptiness(a, b);
    if a != [] {
      HeadIsLeast(a, b);
      forall x
        ensures x in a[1..] <==> x in b[1..]
      {
        TailElements(a, x);
        TailElements(b, x);
      }
      AscendingIsCanonical(a[1..], b[1..]);
    }
  }

  lemma HeadIsLeast(a: seq<string>, b: seq<string>)
    requires Ascending(a) && Ascending(b) && a != [] && b != [] && forall x :: x in a <==> x in b
    ensures a[0] == b[0]
  {
    assert a[0] in b && b[0] in a;
    if a[0] != b[0] {
      assert Before(a[0], b[0]) && Before(b[0], a[0]);
      BeforeIsStrict(a[0], b[0]);
    }
  }

  lemma TailElements(a: seq<string>, x: string)
    requires Ascending(a) && a != []
    ensures x in a[1..] <==> x in a && x != a[0]
  {
    if x in a[1..] {
      var j :| 0 < j < |a| && a[j] == x;
      BeforeIsStrict(a[0], a[j]);
    }
  }

  function NonEmpty(parts: seq<string>): (tokens: seq<string>)
    ensures forall x :: x in tokens <==> x in parts && x != ""
  {
    if parts == [] then []
    else NonEmpty(parts[..|parts| - 1]) + if parts[|parts| - 1] != "" then [parts[|parts| - 1]] else []
  }

  /** The tokens a parameter lists, in order and with repeats. */
  function Tokens(text: string): seq<string> {
    NonEmpty(Split(text, ' '))
  }

  /**
    The parameter as parsed: nothing when absent or blank, an error exactly when
    some token holds a character outside the grammar, else the tokens in the one
    ascending order without repeats.
   */
  method ParseScope(scope: Option<string>, blank: char -> bool) returns (r: Result<Option<seq<string>>, string>)
    ensures r == Ok(None) <==> scope.None? || Trim(scope.value, blank) == ""
    ensures r.Err? <==> scope.Some? && exists t :: t in Tokens(Trim(scope.value, blank)) && !IsScopeToken(t)
    ensures r.Ok? && r.value.Some? ==>
      && scope.Some? && r.value.value == SortDedup(Tokens(Trim(scope.value, blank)))
  {
    if scope.None? || Trim(scope.value, blank) == "" {
      assert Tokens("") == [] by { assert Split("", ' ') == [""]; assert NonEmpty([""][..0]) == []; }
      return Ok(None);
    }
    var parts := Split(Trim(scope.value, blank), ' ');
    var scopes: seq<string> := [];
    for i := 0 to |parts|
      invariant scopes == NonEmpty(parts[..i])
      invariant forall t :: t in scopes ==> IsScopeToken(t)
    {
      assert parts[..i + 1][..i] == parts[..i];
      if parts[i] != "" {
        if !IsScopeToken(parts[i]) {
          assert parts[i] in Tokens(Trim(scope.value, blank));
          return Err("scope holds a character outside RFC 6749 scope tokens");
        }
        scopes := scopes + [parts[i]];
      }
    }
    assert parts[..|parts|] == parts;
    return Ok(Some(SortDedup(scopes)));
  }

  lemma {:induction false} NonEmptyKeepsAll(parts: seq<string>)
    requires forall i :: 0 <= i < |parts| ==> parts[i] != ""
    ensures NonEmpty(parts) == parts
  {
    if parts != [] {
      NonEmptyKeepsAll(parts[..|parts| - 1]);
      assert parts == parts[..|parts| - 1] + [parts[|parts| - 1]];
    }
  }

  /** A parsed list, written back with single spaces, parses to itself. */
  lemma ScopesRoundTrip(scopes: seq<string>)
    requires scopes != [] && Ascending(scopes) && forall i :: 0 <= i < |scopes| ==> IsScopeToken(scopes[i])
    ensures SortDedup(Tokens(Join(scopes, ' '))) == scopes
  {
    hide Split, Join, NonEmpty, SortDedup, Before;
    forall i | 0 <= i < |scopes|
      ensures ' ' !in scopes[i]
    {
      assert forall k :: 0 <= k < |scopes[i]| ==> IsScopeChar(scopes[i][k]);
    }
    SplitJoin(scopes, ' ');
    NonEmptyKeepsAll(scopes);
    AscendingIsCanonical(SortDedup(scopes), scopes);
  }
}
