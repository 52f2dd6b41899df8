/**
 * The prefix pattern that the per-table search hands to SQL `LIKE`, and the
 * semantics of `LIKE` as PostgreSQL defines it: `%` matches any run of
 * characters, `_` matches one character, and a backslash (the default escape
 * character) makes the next pattern character literal.
 */
module LikePattern {

  /** `s LIKE p`. A pattern ending in a lone escape matches nothing (PostgreSQL rejects it). */
  predicate Like(s: string, p: string)
    decreases |s| + |p|
  {
    if p == [] then s == []
    else if p[0] == '%' then Like(s, p[1..]) || (s != [] && Like(s[1..], p))
    else if p[0] == '_' then s != [] && Like(s[1..], p[1..])
    else if p[0] == '\\' then |p| >= 2 && s != [] && s[0] == p[1] && Like(s[1..], p[2..])
    else s != [] && s[0] == p[0] && Like(s[1..], p[1..])
  }

  predicate IsWildcard(c: char) {
    c == '%' || c == '_' || c == '\\'
  }

  /** A string `LIKE` reads literally: no wildcard and no escape character (every hex digest prefix). */
  predicate LikeLiteral(p: string) {
    forall i :: 0 <= i < |p| ==> !IsWildcard(p[i])
  }

  /** Prefixes every wildcard and escape character with the escape character. */
  function Escape(p: string): (r: string)
    ensures |p| <= |r|
  {
    if p == [] then []
    else (if IsWildcard(p[0]) then ['\\', p[0]] else [p[0]]) + Escape(p[1..])
  }

  /** The pattern exactly as the repository builds it: the client's hash followed by `%`. */
  function AsWrittenPattern(hash: string): string {
    hash + "%"
  }

  /** The prefix pattern with the client's hash escaped, so that it matches literally. */
  function PrefixPattern(hash: string): string {
    Escape(hash) + "%"
  }

  /** A lone `%` matches every string. */
  lemma {:induction false} PercentMatchesAll(s: string)
    ensures Like(s, "%")
  {
    if s != [] {
      PercentMatchesAll(s[1..]);
    }
  }

  /** For a literal prefix, `s LIKE p%` holds exactly when `s` starts with `p`. */
  lemma {:induction false} LiteralPrefixMatches(s: string, p: string)
    requires LikeLiteral(p)
    ensures Like(s, p + "%") <==> p <= s
  {
    if p == [] {
      assert p + "%" == "%";
      PercentMatchesAll(s);
    } else {
      var q := p + "%";
      assert q[0] == p[0] && q[1..] == p[1..] + "%";
      assert !IsWildcard(p[0]);
      if s != [] {
        LiteralPrefixMatches(s[1..], p[1..]);
        assert p <= s <==> s[0] == p[0] && p[1..] <= s[1..];
      }
    }
  }

  /** The escaped prefix pattern matches exactly the strings that start with `hash`, whatever `hash` holds. */
  lemma {:induction false} EscapedPatternMatchesPrefix(s: string, hash: string)
    ensures Like(s, PrefixPattern(hash)) <==> hash <= s
  {
    if hash == [] {
      assert PrefixPattern(hash) == "%";
      PercentMatchesAll(s);
    } else {
      var rest := PrefixPattern(hash[1..]);
      var q := PrefixPattern(hash);
      if IsWildcard(hash[0]) {
        assert q == ['\\', hash[0]] + rest;
        assert q[0] == '\\' && q[1] == hash[0] && q[2..] == rest;
      } else {
        assert q == [hash[0]] + rest;
        assert q[0] == hash[0] && q[1..] == rest;
      }
      if s != [] {
        EscapedPatternMatchesPrefix(s[1..], hash[1..]);
        assert hash <= s <==> s[0] == hash[0] && hash[1..] <= s[1..];
      }
    }
  }

  /** Escaping changes nothing in a literal string. */
  lemma {:induction false} EscapeKeepsLiteral(p: string)
    requires LikeLiteral(p)
    ensures Escape(p) == p
  {
    if p != [] {
      assert !IsWildcard(p[0]);
      assert LikeLiteral(p[1..]) by {
        forall i | 0 <= i < |p[1..]| ensures !IsWildcard(p[1..][i]) {
          assert p[1..][i] == p[i + 1];
        }
      }
      EscapeKeepsLiteral(p[1..]);
      assert p == [p[0]] + p[1..];
    }
  }

  /** For a wildcard-free hash (a hex digest prefix) the escaped pattern is the pattern as written. */
  lemma PatternUnchangedForLiteralHash(hash: string)
    requires LikeLiteral(hash)
    ensures PrefixPattern(hash) == AsWrittenPattern(hash)
  {
    EscapeKeepsLiteral(hash);
  }

  /** As written, a hash of "%" turns the prefix search into a search for every row of the table. */
  lemma WildcardHashMatchesEveryKey(s: string)
    ensures Like(s, AsWrittenPattern("%"))
  {
    assert AsWrittenPattern("%") == "%%";
    assert AsWrittenPattern("%")[1..] == "%";
    PercentMatchesAll(s);
  }

  /** As written, a hash of "_" matches a key that does not start with "_". */
  lemma UnderscoreHashMatchesOtherKeys()
    ensures Like("a", AsWrittenPattern("_")) && !("_" <= "a")
  {
    assert AsWrittenPattern("_") == "_%";
    assert AsWrittenPattern("_")[1..] == "%";
    PercentMatchesAll("");
  }
}
