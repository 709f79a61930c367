/**
 * SQLite's `LOWER()` and `LIKE` as the engine uses them. Without the ICU
 * extension both fold case for ASCII letters only; `LIKE` has no escape
 * character here, `%` matches any run of characters and `_` any one character.
 */
module SqlText {
  import opened TextOrder
  import opened JsStrings

  function AsciiLower(c: char): (r: char)
    ensures 'A' <= c <= 'Z' ==> r as int == c as int + 32
    ensures !('A' <= c <= 'Z') ==> r == c
    ensures !('A' <= r <= 'Z')
  {
    if 'A' <= c <= 'Z' then (c as int + 32) as char else c
  }

  /** SQL `LOWER(s)`: ASCII capitals lowered, every other character kept. */
  function Lower(s: Str): (r: Str)
    ensures |r| == |s|
    ensures forall i :: 0 <= i < |s| ==> r[i] == AsciiLower(s[i])
  {
    seq(|s|, i requires 0 <= i < |s| => AsciiLower(s[i]))
  }

  lemma LowerConcat(a: Str, b: Str)
    ensures Lower(a + b) == Lower(a) + Lower(b)
  {
  }

  /**
   * SQL `s LIKE p`: `%` matches any run of characters, `_` any one character,
   * and any other character itself up to ASCII case.
   */
  predicate LikeMatch(s: Str, p: Str)
    decreases |s| + |p|
  {
    if |p| == 0 then |s| == 0
    else if p[0] == '%' then LikeMatch(s, p[1..]) || (|s| > 0 && LikeMatch(s[1..], p))
    else |s| > 0 && (p[0] == '_' || AsciiLower(s[0]) == AsciiLower(p[0])) && LikeMatch(s[1..], p[1..])
  }

  predicate NoWildcards(q: Str)
  {
    '%' !in q && '_' !in q
  }

  /** `t` is a prefix of `s` up to ASCII case. */
  ghost predicate FoldPrefix(t: Str, s: Str)
  {
    |t| <= |s| && forall k :: 0 <= k < |t| ==> AsciiLower(s[k]) == AsciiLower(t[k])
  }

  /** A trailing `%` matches whatever is left. */
  lemma {:induction false} LikeAnyRest(s: Str)
    ensures LikeMatch(s, "%")
    decreases |s|
  {
    if |s| > 0 {
      LikeAnyRest(s[1..]);
    }
  }

  /** A wildcard-free pattern followed by `%` matches exactly the strings it begins, up to case. */
  lemma {:induction false} LikeLiteralThenAny(s: Str, t: Str)
    requires NoWildcards(t)
    ensures LikeMatch(s, t + "%") <==> FoldPrefix(t, s)
    decreases |t|
  {
    if |t| == 0 {
      assert t + "%" == "%";
      LikeAnyRest(s);
    } else {
      var p := t + "%";
      assert p[0] == t[0] && p[1..] == t[1..] + "%";
      assert t[0] in t;
      assert NoWildcards(t[1..]) by {
        assert forall x :: x in t[1..] ==> x in t;
      }
      if |s| > 0 {
        LikeLiteralThenAny(s[1..], t[1..]);
        if FoldPrefix(t, s) {
          assert FoldPrefix(t[1..], s[1..]) by {
            forall k | 0 <= k < |t[1..]|
              ensures AsciiLower(s[1..][k]) == AsciiLower(t[1..][k])
            {
              assert s[1..][k] == s[k + 1] && t[1..][k] == t[k + 1];
            }
          }
        }
        if LikeMatch(s, p) {
          assert FoldPrefix(t, s) by {
            forall k | 0 <= k < |t|
              ensures AsciiLower(s[k]) == AsciiLower(t[k])
            {
              if k > 0 {
                assert s[1..][k - 1] == s[k] && t[1..][k - 1] == t[k];
              }
            }
          }
        }
      }
    }
  }

  /** A leading `%` lets the rest of the pattern match any suffix. */
  lemma {:induction false} LikeAnyThen(s: Str, p: Str)
    ensures LikeMatch(s, "%" + p) <==> exists i :: 0 <= i <= |s| && LikeMatch(s[i..], p)
    decreases |s|
  {
    var q := "%" + p;
    assert q[0] == '%' && q[1..] == p;
    assert s[0..] == s;
    if |s| > 0 {
      LikeAnyThen(s[1..], p);
      if exists i :: 0 <= i <= |s| && LikeMatch(s[i..], p) {
        var i :| 0 <= i <= |s| && LikeMatch(s[i..], p);
        if i > 0 {
          assert s[1..][i - 1..] == s[i..];
        }
      }
      if LikeMatch(s[1..], q) {
        var i :| 0 <= i <= |s[1..]| && LikeMatch(s[1..][i..], p);
        assert s[1..][i..] == s[i + 1..];
      }
    }
  }

  /** Lower-cased text: `AsciiLower` leaves it unchanged. */
  lemma LowerIsLower(s: Str)
    ensures forall k :: 0 <= k < |s| ==> AsciiLower(Lower(s)[k]) == Lower(s)[k]
  {
  }

  /**
   * For a query without wildcards, `LOWER(name) LIKE LOWER('%' || q || '%')`
   * holds exactly when the lower-cased query occurs in the lower-cased name.
   */
  lemma LikeIsSubstring(name: Str, q: Str)
    requires NoWildcards(q)
    ensures LikeMatch(Lower(name), Lower("%" + q + "%")) <==> Contains(Lower(name), Lower(q))
  {
    var s := Lower(name);
    var t := Lower(q);
    LowerConcat("%" + q, "%");
    LowerConcat("%", q);
    assert Lower("%" + q + "%") == "%" + (t + "%");
    assert NoWildcards(t) by {
      forall k | 0 <= k < |t|
        ensures t[k] != '%' && t[k] != '_'
      {
        assert q[k] in q;
      }
    }
    LikeAnyThen(s, t + "%");
    LowerIsLower(name);
    LowerIsLower(q);
    if LikeMatch(s, "%" + (t + "%")) {
      var i :| 0 <= i <= |s| && LikeMatch(s[i..], t + "%");
      LikeLiteralThenAny(s[i..], t);
      assert t <= s[i..] by {
        forall k | 0 <= k < |t|
          ensures s[i..][k] == t[k]
        {
          assert AsciiLower(s[i + k]) == s[i + k];
        }
      }
    }
    if Contains(s, t) {
      var i :| 0 <= i <= |s| && t <= s[i..];
      LikeLiteralThenAny(s[i..], t);
      assert FoldPrefix(t, s[i..]);
    }
  }
}
