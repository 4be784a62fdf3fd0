/** LIKE patterns built from search text, and what they match. */
module LikePatterns {
  import opened Common
  import opened Collation

  /** `s.replace(c, r)` for a single character. */
  function Replace(s: string, c: char, r: string): string {
    if s == "" then "" else (if s[0] == c then r else [s[0]]) + Replace(s[1..], c, r)
  }

  /** The three chained replaces. */
  function EscapeLike(value: string): string {
    Replace(Replace(Replace(value, '\\', "\\\\"), '%', "\\%"), '_', "\\_")
  }

  function EscapeChar(c: char): string {
    if c == '\\' || c == '%' || c == '_' then ['\\', c] else [c]
  }

  function EscapeEach(value: string): string {
    if value == "" then "" else EscapeChar(value[0]) + EscapeEach(value[1..])
  }

  /** SQL LIKE with %, _ and backslash as the escape character. */
  predicate Like(pattern: string, s: string, eq: CharEq)
    decreases |pattern| + |s|
  {
    if pattern == "" then s == ""
    else if pattern[0] == '%' then Like(pattern[1..], s, eq) || (s != "" && Like(pattern, s[1..], eq))
    else if s == "" then false
    else if pattern[0] == '_' then Like(pattern[1..], s[1..], eq)
    else if pattern[0] == '\\' && |pattern| > 1 then eq(pattern[1], s[0]) && Like(pattern[2..], s[1..], eq)
    else eq(pattern[0], s[0]) && Like(pattern[1..], s[1..], eq)
  }

  lemma {:induction false} ReplaceConcat(a: string, b: string, c: char, r: string)
    ensures Replace(a + b, c, r) == Replace(a, c, r) + Replace(b, c, r)
  {
    if a == "" {
      assert a + b == b;
    } else {
      ReplaceConcat(a[1..], b, c, r);
      assert (a + b)[1..] == a[1..] + b && (a + b)[0] == a[0];
      ConcatAssociates(if a[0] == c then r else [a[0]], Replace(a[1..], c, r), Replace(b, c, r));
    }
  }

  lemma ReplacePair(a: char, b: char, c: char, r: string)
    ensures Replace([a], c, r) == if a == c then r else [a]
    ensures Replace([a, b], c, r) == (if a == c then r else [a]) + if b == c then r else [b]
  {
    assert [a][1..] == "" && [b][1..] == "";
    assert [a, b][1..] == [b];
  }

  lemma EscapeOne(c: char)
    ensures EscapeLike([c]) == EscapeChar(c)
  {
    ReplacePair(c, c, '\\', "\\\\");
    ReplacePair('\\', '\\', '%', "\\%");
    ReplacePair('\\', '\\', '_', "\\_");
    ReplacePair(c, c, '%', "\\%");
    ReplacePair('\\', '%', '_', "\\_");
    ReplacePair(c, c, '_', "\\_");
  }

  /** The chained replaces escape each character on its own: no replacement is escaped a second time. */
  lemma {:induction false} EscapeIsPerCharacter(value: string)
    ensures EscapeLike(value) == EscapeEach(value)
  {
    if value != "" {
      var head, tail := [value[0]], value[1..];
      assert value == head + tail;
      ReplaceConcat(head, tail, '\\', "\\\\");
      var h1, t1 := Replace(head, '\\', "\\\\"), Replace(tail, '\\', "\\\\");
      ReplaceConcat(h1, t1, '%', "\\%");
      ReplaceConcat(Replace(h1, '%', "\\%"), Replace(t1, '%', "\\%"), '_', "\\_");
      EscapeOne(value[0]);
      EscapeIsPerCharacter(tail);
    }
  }

  /** `v` equals the first characters of `s`, up to the collation. */
  predicate Begins(v: string, s: string, eq: CharEq) {
    |v| <= |s| && forall i :: 0 <= i < |v| ==> eq(v[i], s[i])
  }

  lemma EscapedCharMatches(c: char, rest: string, s: string, eq: CharEq)
    ensures Like(EscapeChar(c) + rest, s, eq) <==> s != "" && eq(c, s[0]) && Like(rest, s[1..], eq)
  {
    var e := EscapeChar(c);
    assert (e + rest)[|e|..] == rest;
    assert (e + rest)[0] == e[0];
  }

  lemma BeginsUnfold(v: string, s: string, eq: CharEq)
    requires v != ""
    ensures Begins(v, s, eq) <==> s != "" && eq(v[0], s[0]) && Begins(v[1..], s[1..], eq)
  {
    if s != "" && eq(v[0], s[0]) && Begins(v[1..], s[1..], eq) {
      forall i | 0 <= i < |v|
        ensures eq(v[i], s[i])
      {
        if i > 0 {
          assert eq(v[1..][i - 1], s[1..][i - 1]);
        }
      }
    }
  }

  /** Escaped text matches exactly itself; the rest of the pattern has to match what follows. */
  lemma {:induction false} EscapedMatchesItself(v: string, rest: string, s: string, eq: CharEq)
    ensures Like(EscapeEach(v) + rest, s, eq) <==> Begins(v, s, eq) && Like(rest, s[|v|..], eq)
    decreases |v|
  {
    if v == "" {
      assert EscapeEach(v) + rest == rest && s[0..] == s;
    } else {
      var tail := EscapeEach(v[1..]) + rest;
      assert EscapeEach(v) + rest == EscapeChar(v[0]) + tail;
      EscapedCharMatches(v[0], tail, s, eq);
      BeginsUnfold(v, s, eq);
      if s != "" {
        EscapedMatchesItself(v[1..], rest, s[1..], eq);
        assert |v| <= |s| ==> s[1..][|v| - 1..] == s[|v|..];
      }
    }
  }

  lemma {:induction false} PercentSkips(rest: string, s: string, eq: CharEq)
    ensures Like("%" + rest, s, eq) <==> exists k :: 0 <= k <= |s| && Like(rest, s[k..], eq)
    decreases |s|
  {
    assert ("%" + rest)[1..] == rest && s[0..] == s;
    if s != "" {
      PercentSkips(rest, s[1..], eq);
      assert forall k :: 0 <= k <= |s[1..]| ==> s[1..][k..] == s[k + 1..];
      if k: nat :| k <= |s[1..]| && Like(rest, s[1..][k..], eq) {
        assert Like(rest, s[k + 1..], eq);
      }
      if k: nat :| 0 < k <= |s| && Like(rest, s[k..], eq) {
        assert s[1..][k - 1..] == s[k..];
      }
    }
  }

  datatype TextOperator = BeginsWith | ContainsText | EndsWith

  /** `_like_patterns[operator].format(escaped)`. */
  function Pattern(op: TextOperator, value: string): string {
    match op
    case BeginsWith => EscapeLike(value) + "%"
    case ContainsText => "%" + EscapeLike(value) + "%"
    case EndsWith => "%" + EscapeLike(value)
  }

  /** What the operator promises about the searched text. */
  ghost predicate Promised(op: TextOperator, v: string, s: string, eq: CharEq) {
    match op
    case BeginsWith => Begins(v, s, eq)
    case ContainsText => exists k :: 0 <= k <= |s| && Begins(v, s[k..], eq)
    case EndsWith => |v| <= |s| && Begins(v, s[|s| - |v|..], eq)
  }

  lemma PercentMatchesAll(s: string, eq: CharEq)
    ensures Like("%", s, eq)
  {
    assert "%" + "" == "%" && s[|s|..] == "";
    PercentSkips("", s, eq);
    assert Like("", s[|s|..], eq);
  }

  lemma EscapedThenAnything(v: string, s: string, eq: CharEq)
    ensures Like(EscapeLike(v) + "%", s, eq) <==> Begins(v, s, eq)
  {
    EscapeIsPerCharacter(v);
    EscapedMatchesItself(v, "%", s, eq);
    if |v| <= |s| {
      PercentMatchesAll(s[|v|..], eq);
    }
  }

  lemma EscapedThenEnd(v: string, s: string, eq: CharEq)
    ensures Like(EscapeLike(v), s, eq) <==> |v| == |s| && Begins(v, s, eq)
  {
    EscapeIsPerCharacter(v);
    EscapedMatchesItself(v, "", s, eq);
    assert EscapeEach(v) + "" == EscapeEach(v);
  }

  /**
   A text search matches exactly the texts with the searched prefix, substring or suffix, wildcards taken literally.
   */
  lemma PatternIsExact(op: TextOperator, v: string, s: string, eq: CharEq)
    ensures Like(Pattern(op, v), s, eq) <==> Promised(op, v, s, eq)
  {
    match op {
      case BeginsWith => EscapedThenAnything(v, s, eq);
      case ContainsText =>
        var rest := EscapeLike(v) + "%";
        assert Pattern(op, v) == "%" + rest;
        PercentSkips(rest, s, eq);
        forall k | 0 <= k <= |s|
          ensures Like(rest, s[k..], eq) <==> Begins(v, s[k..], eq)
        {
          EscapedThenAnything(v, s[k..], eq);
        }
      case EndsWith =>
        PercentSkips(EscapeLike(v), s, eq);
        forall k | 0 <= k <= |s|
          ensures Like(EscapeLike(v), s[k..], eq) <==> |v| == |s| - k && Begins(v, s[k..], eq)
        {
          EscapedThenEnd(v, s[k..], eq);
        }
        if |v| <= |s| {
          assert Like(EscapeLike(v), s[|s| - |v|..], eq) <==> Begins(v, s[|s| - |v|..], eq);
        }
    }
  }
}
