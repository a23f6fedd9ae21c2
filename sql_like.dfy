/**
 * The matching behind `column.ilike(pattern)` on SQLite, which is
 * `lower(column) LIKE lower(pattern)`: ASCII-only lower-casing and the LIKE
 * pattern language without an ESCAPE clause.
 */
module SqlLike {

  /** Lower-cases one character; only ASCII letters change. */
  function LowerChar(c: char): char
  {
    if 'A' <= c <= 'Z' then (c as int + 32) as char else c
  }

  /** Lower-cases a string character by character. */
  function Lower(s: string): (r: string)
    ensures |r| == |s|
  {
    seq(|s|, i requires 0 <= i < |s| => LowerChar(s[i]))
  }

  lemma {:induction false} LowerIdempotent(s: string)
    ensures Lower(Lower(s)) == Lower(s)
  {
    forall i | 0 <= i < |s|
      ensures Lower(Lower(s))[i] == Lower(s)[i]
    {
      var c := s[i];
      assert Lower(s)[i] == LowerChar(c);
    }
  }

  lemma LowerConcat(a: string, b: string)
    ensures Lower(a + b) == Lower(a) + Lower(b)
  {
    assert forall i | 0 <= i < |a + b| :: Lower(a + b)[i] == (Lower(a) + Lower(b))[i];
  }

  /** `s LIKE pattern`: '%' matches any run of characters, '_' any one
      character, and every other character only itself. */
  predicate LikeMatch(pattern: string, s: string)
    decreases |pattern| + |s|
  {
    if pattern == [] then s == []
    else if pattern[0] == '%' then LikeMatch(pattern[1..], s) || (s != [] && LikeMatch(pattern, s[1..]))
    else s != [] && (pattern[0] == '_' || pattern[0] == s[0]) && LikeMatch(pattern[1..], s[1..])
  }

  /** `column.ilike(pattern)` as SQLite evaluates it. */
  predicate ILike(column: string, pattern: string)
  {
    LikeMatch(Lower(pattern), Lower(column))
  }

  /** The pattern `f"%{query.lower()}%"` the search builds. */
  function ContainsPattern(query: string): string
  {
    ['%'] + Lower(query) + ['%']
  }

  /** A query in which LIKE would see a wildcard. */
  predicate HasWildcard(q: string)
  {
    '%' in q || '_' in q
  }

  /** q occurs in s starting at position k. */
  predicate OccursAt(q: string, s: string, k: int)
  {
    0 <= k <= |s| - |q| && s[k..k + |q|] == q
  }

  /** Reference meaning of "q occurs in s". */
  predicate IsSubstring(q: string, s: string)
  {
    exists k | 0 <= k <= |s| - |q| :: OccursAt(q, s, k)
  }

  lemma {:induction false} PercentMatchesAll(s: string)
    ensures LikeMatch(['%'], s)
    decreases |s|
  {
    assert ['%'][1..] == [];
    if s != [] {
      PercentMatchesAll(s[1..]);
    }
  }

  /** Without wildcards, `q%` matches exactly the strings that start with q. */
  lemma {:induction false} PrefixPattern(q: string, s: string)
    requires !HasWildcard(q)
    ensures LikeMatch(q + ['%'], s) <==> |q| <= |s| && s[..|q|] == q
    decreases |q|
  {
    if q == [] {
      assert q + ['%'] == ['%'];
      PercentMatchesAll(s);
    } else {
      var p := q + ['%'];
      assert p[0] == q[0] && p[1..] == q[1..] + ['%'];
      assert !HasWildcard(q[1..]) by {
        assert forall c | c in q[1..] :: c in q;
      }
      if s != [] {
        PrefixPattern(q[1..], s[1..]);
        assert q[0] in q;
        if |q| <= |s| {
          assert s[..|q|] == [s[0]] + s[1..][..|q| - 1];
          assert q == [q[0]] + q[1..];
        }
      }
    }
  }

  /** A leading '%' lets the rest of the pattern match any suffix. */
  lemma {:induction false} PercentPrefix(r: string, s: string)
    ensures LikeMatch(['%'] + r, s) <==> exists k :: 0 <= k <= |s| && LikeMatch(r, s[k..])
    decreases |s|
  {
    var p := ['%'] + r;
    assert p[0] == '%' && p[1..] == r;
    if s == [] {
      assert s[0..] == s;
    } else {
      PercentPrefix(r, s[1..]);
      if LikeMatch(p, s) {
        if LikeMatch(r, s) {
          assert s[0..] == s;
        } else {
          var k :| 0 <= k <= |s[1..]| && LikeMatch(r, s[1..][k..]);
          assert s[1..][k..] == s[k + 1..];
        }
      }
      if exists k :: 0 <= k <= |s| && LikeMatch(r, s[k..]) {
        var k :| 0 <= k <= |s| && LikeMatch(r, s[k..]);
        if k == 0 {
          assert s[0..] == s;
        } else {
          assert s[1..][k - 1..] == s[k..];
        }
      }
    }
  }

  /** Without wildcards, `%q%` matches exactly the strings that contain q. */
  lemma ContainsPatternIffSubstring(q: string, s: string)
    requires !HasWildcard(q)
    ensures LikeMatch(['%'] + q + ['%'], s) <==> IsSubstring(q, s)
  {
    assert ['%'] + q + ['%'] == ['%'] + (q + ['%']);
    PercentPrefix(q + ['%'], s);
    if IsSubstring(q, s) {
      var k :| 0 <= k <= |s| - |q| && OccursAt(q, s, k);
      PrefixPattern(q, s[k..]);
      assert s[k..][..|q|] == s[k..k + |q|];
    }
    if LikeMatch(['%'] + q + ['%'], s) {
      var k :| 0 <= k <= |s| && LikeMatch(q + ['%'], s[k..]);
      PrefixPattern(q, s[k..]);
      assert s[k..][..|q|] == s[k..k + |q|];
      assert OccursAt(q, s, k);
    }
  }

  /** Lower-casing never produces a wildcard character. */
  lemma LowerHasNoWildcard(q: string)
    requires !HasWildcard(q)
    ensures !HasWildcard(Lower(q))
  {
    forall i | 0 <= i < |q|
      ensures Lower(q)[i] != '%' && Lower(q)[i] != '_'
    {
      assert q[i] in q;
    }
  }

  /** For a query without '%' or '_', the search filter on one column holds
      exactly when the lower-cased query occurs in the lower-cased column. */
  lemma ILikeContainsIffSubstring(column: string, query: string)
    requires !HasWildcard(query)
    ensures ILike(column, ContainsPattern(query)) <==> IsSubstring(Lower(query), Lower(column))
  {
    LowerConcat(['%'] + Lower(query), ['%']);
    LowerConcat(['%'], Lower(query));
    LowerIdempotent(query);
    assert Lower(['%']) == ['%'];
    assert Lower(ContainsPattern(query)) == ContainsPattern(query);
    LowerHasNoWildcard(query);
    ContainsPatternIffSubstring(Lower(query), Lower(column));
  }

  /** Because the query is not escaped, '_' in it matches any character:
      "a_c" finds "abc", which does not contain "a_c". */
  lemma UnderscoreIsWildcard()
    ensures ILike("abc", ContainsPattern("a_c"))
    ensures !IsSubstring("a_c", "abc")
  {
    assert Lower("a_c") == "a_c";
    assert Lower("abc") == "abc";
    assert ContainsPattern("a_c") == "%a_c%";
    assert Lower("%a_c%") == "%a_c%";
    assert LikeMatch("%", "");
    assert LikeMatch("c%", "c");
    assert LikeMatch("_c%", "bc");
    assert LikeMatch("a_c%", "abc");
    assert LikeMatch("%a_c%", "abc");
    assert "abc"[0..3][1] != "a_c"[1];
    assert forall k :: OccursAt("a_c", "abc", k) ==> k == 0;
  }
}
