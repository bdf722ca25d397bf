/** The SQL `LIKE` operator as PostgreSQL applies it to the name and outcome
    filters of `get_games` (backend-src/server.py:116-123): '%' matches any run
    of characters, '_' exactly one, a backslash makes the next pattern character
    literal, and every other character matches itself. */
module SqlLike {

  function Like(s: string, p: string): bool
    decreases |s| + |p|
  {
    if |p| == 0 then |s| == 0
    else if p[0] == '%' then Like(s, p[1..]) || (|s| > 0 && Like(s[1..], p))
    else if p[0] == '_' then |s| > 0 && Like(s[1..], p[1..])
    else if p[0] == '\\' && |p| > 1 then |s| > 0 && s[0] == p[1] && Like(s[1..], p[2..])
    else |s| > 0 && s[0] == p[0] && Like(s[1..], p[1..])
  }

  /** True iff `x` holds no character `LIKE` treats specially. */
  predicate Literal(x: string)
  {
    forall i :: 0 <= i < |x| ==> x[i] != '%' && x[i] != '_' && x[i] != '\\'
  }

  /** True iff `x` occurs in `s` as a contiguous run. */
  predicate Contains(s: string, x: string)
  {
    exists k :: 0 <= k <= |s| && x <= s[k..]
  }

  /** A literal pattern followed by '%' matches exactly the strings it begins. */
  lemma {:induction false} LikePrefix(s: string, x: string)
    requires Literal(x)
    ensures Like(s, x + "%") <==> x <= s
    decreases |x|
  {
    if |x| == 0 {
      assert x + "%" == "%";
      LikeAnything(s);
    } else {
      var p := x + "%";
      assert p[0] == x[0] && p[1..] == x[1..] + "%";
      assert Literal(x[1..]) by {
        forall i | 0 <= i < |x[1..]| ensures x[1..][i] != '%' && x[1..][i] != '_' && x[1..][i] != '\\' {
          assert x[1..][i] == x[i + 1];
        }
      }
      assert x[0] != '%' && x[0] != '_' && x[0] != '\\';
      assert Like(s, p) == (|s| > 0 && s[0] == x[0] && Like(s[1..], p[1..]));
      if |s| > 0 {
        LikePrefix(s[1..], x[1..]);
        assert x <= s <==> (s[0] == x[0] && x[1..] <= s[1..]) by {
          if s[0] == x[0] && x[1..] <= s[1..] {
            assert x == [x[0]] + x[1..];
            assert s[..|x|] == [s[0]] + s[1..][..|x| - 1];
          }
        }
      }
    }
  }

  /** The pattern "%" matches every string. */
  lemma {:induction false} LikeAnything(s: string)
    ensures Like(s, "%")
    decreases |s|
  {
    assert "%"[1..] == "";
    if |s| > 0 {
      LikeAnything(s[1..]);
    }
  }

  /** A leading '%' matches iff the rest of the pattern matches some suffix. */
  lemma {:induction false} LikeLeadingPercent(s: string, q: string)
    ensures Like(s, "%" + q) <==> exists k :: 0 <= k <= |s| && Like(s[k..], q)
    decreases |s|
  {
    var p := "%" + q;
    assert p[0] == '%' && p[1..] == q;
    if |s| == 0 {
      assert s[0..] == s;
    } else {
      LikeLeadingPercent(s[1..], q);
      assert s[0..] == s;
      if Like(s, p) {
        if !Like(s, q) {
          var k :| 0 <= k <= |s[1..]| && Like(s[1..][k..], q);
          assert s[1..][k..] == s[k + 1..];
        }
      } else {
        forall k | 0 <= k <= |s| ensures !Like(s[k..], q) {
          if k > 0 { assert s[1..][k - 1..] == s[k..]; }
        }
      }
    }
  }

  /** The name filters' pattern "%" + x + "%" matches exactly the strings that
      contain the literal text x; an empty x matches every string. */
  lemma LikeContains(s: string, x: string)
    requires Literal(x)
    ensures Like(s, "%" + x + "%") <==> Contains(s, x)
    ensures x == "" ==> Like(s, "%" + x + "%")
  {
    assert "%" + x + "%" == "%" + (x + "%");
    LikeLeadingPercent(s, x + "%");
    if Like(s, "%" + x + "%") {
      var k :| 0 <= k <= |s| && Like(s[k..], x + "%");
      LikePrefix(s[k..], x);
    }
    if Contains(s, x) {
      var k :| 0 <= k <= |s| && x <= s[k..];
      LikePrefix(s[k..], x);
    }
    if x == "" {
      assert x <= s[0..];
    }
  }

  /** A literal pattern matches only itself: the result filter with one of the
      offered outcomes is an equality test. */
  lemma {:induction false} LikeLiteral(s: string, x: string)
    requires Literal(x)
    ensures Like(s, x) <==> s == x
    decreases |x|
  {
    if |x| == 0 {
    } else {
      assert Literal(x[1..]) by {
        forall i | 0 <= i < |x[1..]| ensures x[1..][i] != '%' && x[1..][i] != '_' && x[1..][i] != '\\' {
          assert x[1..][i] == x[i + 1];
        }
      }
      assert x[0] != '%' && x[0] != '_' && x[0] != '\\';
      if |s| > 0 {
        LikeLiteral(s[1..], x[1..]);
        assert s == x <==> (s[0] == x[0] && s[1..] == x[1..]) by {
          if s[0] == x[0] && s[1..] == x[1..] {
            assert s == [s[0]] + s[1..] && x == [x[0]] + x[1..];
          }
        }
      }
    }
  }
}
