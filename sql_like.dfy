/**
 * SQL `LIKE` matching as `by_tag` and `by_string` use it: the search text is
 * wrapped as `%text%` with no escape character, so `%` in a pattern matches
 * any run of characters and `_` any single character. Plain substring
 * containment is the reference meaning; the two agree when the searched text
 * holds no wildcard.
 */
module SqlLike {

  /** `s LIKE p`, with no escape character and exact character comparison. */
  function Like(s: string, p: string): (r: bool)
    decreases |s| + |p|
    ensures NoWildcards(p) ==> (r <==> s == p)
  {
    if p == [] then s == []
    else if p[0] == '%' then Like(s, p[1..]) || (s != [] && Like(s[1..], p))
    else s != [] && (p[0] == '_' || p[0] == s[0]) && Like(s[1..], p[1..])
  }

  /** The pattern `%t%` that the search methods build from their argument. */
  function Surround(t: string): (r: string)
    ensures |r| == |t| + 2 && r[0] == '%' && r[|r| - 1] == '%'
    ensures r[1..|r| - 1] == t
  {
    "%" + t + "%"
  }

  predicate NoWildcards(t: string) {
    forall i :: 0 <= i < |t| ==> t[i] != '%' && t[i] != '_'
  }

  predicate IsPrefix(t: string, s: string) {
    |t| <= |s| && s[..|t|] == t
  }

  /** `t` occurs in `s` starting at some position. */
  function Contains(s: string, t: string): bool {
    IsPrefix(t, s) || (s != [] && Contains(s[1..], t))
  }

  /** `t` occurs in `s` at offset `i`. */
  predicate OccursAt(s: string, t: string, i: int) {
    0 <= i <= |s| - |t| && s[i..i + |t|] == t
  }

  /** `Contains` is containment at some offset. */
  lemma {:induction false} ContainsAt(s: string, t: string)
    ensures Contains(s, t) <==> exists i :: OccursAt(s, t, i)
  {
    if s != [] {
      ContainsAt(s[1..], t);
    }
    if Contains(s, t) {
      if IsPrefix(t, s) {
        assert OccursAt(s, t, 0);
      } else {
        var i :| OccursAt(s[1..], t, i);
        assert s[1..][i..i + |t|] == s[i + 1..i + 1 + |t|];
        assert OccursAt(s, t, i + 1);
      }
    }
    if i :| OccursAt(s, t, i) {
      if i == 0 {
        assert IsPrefix(t, s);
      } else {
        assert s[1..][i - 1..i - 1 + |t|] == s[i..i + |t|];
        assert OccursAt(s[1..], t, i - 1);
      }
    }
  }

  /** A string without the first character of `t` does not contain `t`. */
  lemma {:induction false} LacksFirstChar(s: string, t: string)
    requires t != []
    requires forall i :: 0 <= i < |s| ==> s[i] != t[0]
    ensures !Contains(s, t)
  {
    if s != [] {
      assert !IsPrefix(t, s) by {
        assert |t| > |s| || s[..|t|][0] != t[0];
      }
      LacksFirstChar(s[1..], t);
    }
  }

  /** A pattern of `%` only matches every string. */
  lemma {:induction false} LikePercent(s: string)
    ensures Like(s, "%")
  {
    assert "%"[1..] == [];
    if s != [] {
      LikePercent(s[1..]);
    }
  }

  /** `t%` matches exactly the strings that start with a wildcard-free `t`. */
  lemma {:induction false} LikePrefix(s: string, t: string)
    requires NoWildcards(t)
    ensures Like(s, t + "%") <==> IsPrefix(t, s)
  {
    if t == [] {
      assert t + "%" == "%";
      LikePercent(s);
    } else {
      var p := t + "%";
      assert p[0] == t[0] && p[1..] == t[1..] + "%";
      assert NoWildcards(t[1..]) by {
        forall i | 0 <= i < |t[1..]| ensures t[1..][i] != '%' && t[1..][i] != '_' {
          assert t[1..][i] == t[i + 1];
        }
      }
      if s != [] {
        LikePrefix(s[1..], t[1..]);
        if IsPrefix(t, s) {
          assert s[1..][..|t[1..]|] == s[..|t|][1..];
        }
        if IsPrefix(t[1..], s[1..]) && s[0] == t[0] {
          assert s[..|t|] == [s[0]] + s[1..][..|t[1..]|];
        }
      }
    }
  }

  /** The search pattern `%t%` matches exactly the strings containing a
      wildcard-free `t`. */
  lemma {:induction false} LikeSurroundContains(s: string, t: string)
    requires NoWildcards(t)
    ensures Like(s, Surround(t)) <==> Contains(s, t)
  {
    var p := Surround(t);
    assert p[0] == '%' && p[1..] == t + "%";
    LikePrefix(s, t);
    if s != [] {
      LikeSurroundContains(s[1..], t);
    }
  }

  /** A wildcard in the searched text is not taken literally: `a_c` is not
      part of `a-c`, yet the pattern built from it matches `a-c`. */
  lemma WildcardMatchesNonSubstring()
    ensures Like("a-c", Surround("a_c")) && !Contains("a-c", "a_c")
  {
    assert Surround("a_c") == "%a_c%";
    assert Like("", "%") by { LikePercent(""); }
    assert Like("-c", "_c%");
    assert Like("a-c", "a_c%");
    assert !IsPrefix("a_c", "a-c") by { assert "a-c"[..3][1] != "a_c"[1]; }
    assert !Contains("-c", "a_c");
  }
}
