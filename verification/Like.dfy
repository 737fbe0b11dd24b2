/** LIKE and the escapers that turn a filter value into a literal pattern
    fragment (database/dialect.go). */
module Like {

  datatype Dialect = MySQL | Postgres | SQLite | ClickHouse

  /** The escape character a pattern is read under: the one likeEscapeSuffix
      declares, or the backslash ClickHouse hardwires. */
  function EscapeChar(d: Dialect): char {
    if d == ClickHouse then '\\' else '|'
  }

  function EscapeOne(c: char, esc: char): string {
    if c == esc || c == '%' || c == '_' then [esc, c] else [c]
  }

  function Escape(v: string, esc: char): string {
    if v == "" then "" else EscapeOne(v[0], esc) + Escape(v[1..], esc)
  }

  /** SQL's LIKE: % is any run of characters, _ any one character, and the
      escape character takes the character after it literally. */
  predicate Matches(pattern: string, s: string, esc: char)
    decreases |pattern|, |s|
  {
    if pattern == "" then s == ""
    else if pattern[0] == esc && |pattern| >= 2 then
      s != "" && s[0] == pattern[1] && Matches(pattern[2..], s[1..], esc)
    else if pattern[0] == '%' then
      Matches(pattern[1..], s, esc) || (s != "" && Matches(pattern, s[1..], esc))
    else s != "" && (pattern[0] == '_' || pattern[0] == s[0]) && Matches(pattern[1..], s[1..], esc)
  }

  predicate Contains(s: string, v: string) {
    exists k :: 0 <= k <= |s| && v <= s[k..]
  }

  predicate EndsWith(s: string, v: string) {
    |v| <= |s| && s[|s| - |v|..] == v
  }

  lemma EscapedOneMatches(c: char, tail: string, s: string, esc: char)
    requires esc != '%' && esc != '_'
    ensures Matches(EscapeOne(c, esc) + tail, s, esc) <==> s != "" && s[0] == c && Matches(tail, s[1..], esc)
  {
    var pattern := EscapeOne(c, esc) + tail;
    assert pattern[|EscapeOne(c, esc)|..] == tail;
  }

  /** An escaped fragment matches itself and nothing else. */
  lemma {:induction false} EscapedIsLiteral(v: string, rest: string, s: string, esc: char)
    requires esc != '%' && esc != '_'
    ensures Matches(Escape(v, esc) + rest, s, esc) <==> v <= s && Matches(rest, s[|v|..], esc)
    decreases |v|
  {
    if v == "" {
      assert Escape(v, esc) + rest == rest;
    } else {
      var tail := Escape(v[1..], esc) + rest;
      assert Escape(v, esc) + rest == EscapeOne(v[0], esc) + tail;
      EscapedOneMatches(v[0], tail, s, esc);
      if s != "" {
        EscapedIsLiteral(v[1..], rest, s[1..], esc);
        StartsAlike(v, s);
      }
    }
  }

  lemma StartsAlike(v: string, s: string)
    requires v != "" && s != ""
    ensures v <= s <==> v[0] == s[0] && v[1..] <= s[1..]
    ensures |v| <= |s| ==> s[1..][|v| - 1..] == s[|v|..]
  {
    assert v == [v[0]] + v[1..] && s == [s[0]] + s[1..];
  }

  lemma {:induction false} PercentSkips(p: string, s: string, esc: char)
    requires esc != '%'
    ensures Matches("%" + p, s, esc) <==> exists k :: 0 <= k <= |s| && Matches(p, s[k..], esc)
    decreases |s|
  {
    var pattern := "%" + p;
    assert pattern[1..] == p && s[0..] == s;
    if s != "" {
      PercentSkips(p, s[1..], esc);
      if k :| 0 <= k <= |s| && Matches(p, s[k..], esc) {
        if k > 0 { assert s[1..][k - 1..] == s[k..]; }
      }
      if k :| 0 <= k <= |s[1..]| && Matches(p, s[1..][k..], esc) {
        assert s[1..][k..] == s[k + 1..];
      }
    } else {
      assert forall k :: 0 <= k <= |s| ==> s[k..] == "";
    }
  }

  lemma AnyTail(s: string, esc: char)
    requires esc != '%'
    ensures Matches("%", s, esc)
  {
    PercentSkips("", s, esc);
    assert "%" + "" == "%" && Matches("", s[|s|..], esc);
  }

  /** The three patterns the filters bind mean containment, prefix and suffix,
      for every value: nothing in the value is pattern language. */
  lemma EscapedLikeIsLiteral(v: string, s: string, d: Dialect)
    ensures Matches("%" + Escape(v, EscapeChar(d)) + "%", s, EscapeChar(d)) <==> Contains(s, v)
    ensures Matches(Escape(v, EscapeChar(d)) + "%", s, EscapeChar(d)) <==> v <= s
    ensures Matches("%" + Escape(v, EscapeChar(d)), s, EscapeChar(d)) <==> EndsWith(s, v)
  {
    var esc := EscapeChar(d);
    forall k | 0 <= k <= |s|
      ensures Matches(Escape(v, esc) + "%", s[k..], esc) <==> v <= s[k..]
      ensures Matches(Escape(v, esc), s[k..], esc) <==> v == s[k..]
    {
      EscapedIsLiteral(v, "%", s[k..], esc);
      if v <= s[k..] { AnyTail(s[k..][|v|..], esc); }
      EscapedIsLiteral(v, "", s[k..], esc);
      assert Escape(v, esc) + "" == Escape(v, esc);
      assert v <= s[k..] && s[k..][|v|..] == "" <==> v == s[k..];
    }
    assert s[0..] == s;
    assert "%" + Escape(v, esc) + "%" == "%" + (Escape(v, esc) + "%");
    PercentSkips(Escape(v, esc) + "%", s, esc);
    PercentSkips(Escape(v, esc), s, esc);
    if EndsWith(s, v) { assert v == s[|s| - |v|..]; }
  }

  /** Escaping loses nothing, so no two values bind one pattern. */
  lemma EscapeIsInjective(v: string, w: string, d: Dialect)
    requires Escape(v, EscapeChar(d)) == Escape(w, EscapeChar(d))
    ensures v == w
  {
    var esc := EscapeChar(d);
    EscapedIsLiteral(v, "", v, esc);
    EscapedIsLiteral(w, "", v, esc);
    assert Escape(v, esc) + "" == Escape(w, esc) + "";
    assert v[|v|..] == "" && w <= v && v[|w|..] == "";
  }

  /** The ESCAPE a statement declares behind a pattern: none on ClickHouse, which parses
      none. */
  function DeclaredEscape(d: Dialect): string { if d.ClickHouse? then "" else "|" }

  /** What a database takes for the escape character: the one declared; without one,
      ClickHouse the backslash. */
  function ReadEscape(d: Dialect, declared: string): string {
    if declared != "" then declared else if d.ClickHouse? then "\\" else ""
  }

  /** Values are escaped with the character the database reads the pattern by. */
  lemma EscaperSuitsReader(d: Dialect)
    ensures ReadEscape(d, DeclaredEscape(d)) == [EscapeChar(d)]
  {
  }

  /** What needs no escape is left as it is, so an ordinary value reads in the statement
      as its caller wrote it. */
  lemma {:induction false} OrdinaryTextIsKept(v: string, esc: char)
    requires forall c :: c in v ==> c !in {esc, '%', '_'}
    ensures Escape(v, esc) == v
  {
    if v != "" {
      assert v[0] in v && v == [v[0]] + v[1..];
      assert forall c :: c in v[1..] ==> c in v;
      OrdinaryTextIsKept(v[1..], esc);
    }
  }

  /** Left unescaped the wildcards would accept other text: an underscore any one
      character, a percent sign anything. */
  lemma {:induction false} WildcardsWiden(c: char, s: string, esc: char)
    requires esc != '%' && esc != '_'
    ensures Matches("_", [c], esc) && Matches("%", s, esc)
    decreases |s|
  {
    assert "_"[1..] == "" && [c][1..] == "" && "%"[1..] == "";
    if s != "" { WildcardsWiden(c, s[1..], esc); }
  }
}
