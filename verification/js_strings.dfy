/**
 * The JavaScript string operations the source relies on: `trim()`,
 * `split(c)`, `replace(/c/g, '')`, `replace(pattern, replacement)` with a
 * string pattern, `Number.prototype.toString()` and `padStart(2, '0')`.
 */
module JsStrings {
  import opened TextOrder

  /** JavaScript's WhiteSpace and LineTerminator characters: what `trim()` removes. */
  predicate IsJsSpace(c: char)
  {
    || c == '\t' || c == '\n' || c == '\U{000B}' || c == '\U{000C}' || c == '\r'
    || c == ' ' || c == '\U{00A0}' || c == '\U{1680}'
    || ('\U{2000}' <= c <= '\U{200A}')
    || c == '\U{2028}' || c == '\U{2029}' || c == '\U{202F}' || c == '\U{205F}'
    || c == '\U{3000}' || c == '\U{FEFF}'
  }

  ghost predicate AllSpace(s: Str)
  {
    forall i :: 0 <= i < |s| ==> IsJsSpace(s[i])
  }

  /** `t` occurs in `s` starting at some index. */
  ghost predicate Contains(s: Str, t: Str)
  {
    exists i :: 0 <= i <= |s| && t <= s[i..]
  }

  lemma PrefixContained(s: Str, t: Str)
    requires t <= s
    ensures Contains(s, t)
  {
    assert s[0..] == s;
  }

  /** Index of the first character that is not white space (`|s|` when there is none). */
  function SpanStart(s: Str): (k: nat)
    ensures k <= |s|
    ensures forall i :: 0 <= i < k ==> IsJsSpace(s[i])
    ensures k < |s| ==> !IsJsSpace(s[k])
  {
    if |s| > 0 && IsJsSpace(s[0]) then 1 + SpanStart(s[1..]) else 0
  }

  /** One past the last character that is not white space (0 when there is none). */
  function SpanEnd(s: Str): (k: nat)
    ensures k <= |s|
    ensures forall i :: k <= i < |s| ==> IsJsSpace(s[i])
    ensures k > 0 ==> !IsJsSpace(s[k - 1])
  {
    if |s| > 0 && IsJsSpace(s[|s| - 1]) then SpanEnd(s[..|s| - 1]) else |s|
  }

  /**
   * `r` is `s` with all leading and trailing white space removed: a slice of `s`
   * with only white space outside it and none at either of its ends.
   */
  ghost predicate IsTrimOf(r: Str, s: Str)
  {
    && (exists i, j :: 0 <= i <= j <= |s| && r == s[i..j] && AllSpace(s[..i]) && AllSpace(s[j..]))
    && (|r| > 0 ==> !IsJsSpace(r[0]) && !IsJsSpace(r[|r| - 1]))
  }

  /** `String.prototype.trim()`. */
  function Trim(s: Str): (r: Str)
    ensures IsTrimOf(r, s)
  {
    var i := SpanStart(s);
    var j := SpanEnd(s);
    if j <= i then
      assert AllSpace(s[..|s|]) && AllSpace(s[|s|..]);
      assert s[|s|..|s|] == "";
      ""
    else
      assert AllSpace(s[..i]) && AllSpace(s[j..]);
      s[i..j]
  }

  /** A string with no white space at either end is its own trim. */
  lemma TrimOfTrimmed(s: Str)
    requires |s| > 0 ==> !IsJsSpace(s[0]) && !IsJsSpace(s[|s| - 1])
    ensures Trim(s) == s
  {
    if |s| > 0 {
      assert SpanStart(s) == 0;
      assert SpanEnd(s) == |s|;
    }
  }

  lemma TrimIdempotent(s: Str)
    ensures Trim(Trim(s)) == Trim(s)
  {
    TrimOfTrimmed(Trim(s));
  }

  /** `parts` joined with the separator `c` between consecutive parts. */
  function Join(parts: seq<Str>, c: char): Str
    requires |parts| >= 1
  {
    if |parts| == 1 then parts[0] else parts[0] + [c] + Join(parts[1..], c)
  }

  /** `String.prototype.split(c)` for a one-character separator. */
  function Split(s: Str, c: char): (r: seq<Str>)
    ensures |r| >= 1
    ensures forall p :: p in r ==> c !in p
    decreases |s|
  {
    if |s| == 0 then [""]
    else
      var rest := Split(s[1..], c);
      if s[0] == c then [""] + rest
      else [[s[0]] + rest[0]] + rest[1..]
  }

  /** Splitting and joining again gives back the original text. */
  lemma {:induction false} JoinSplit(s: Str, c: char)
    ensures Join(Split(s, c), c) == s
    decreases |s|
  {
    if |s| > 0 {
      JoinSplit(s[1..], c);
      var rest := Split(s[1..], c);
      if s[0] == c {
        assert Split(s, c)[1..] == rest;
      } else {
        var r := Split(s, c);
        assert r[1..] == rest[1..];
        if |rest| == 1 {
          assert s == [s[0]] + s[1..];
        } else {
          assert Join(rest, c) == rest[0] + [c] + Join(rest[1..], c);
          assert s == [s[0]] + s[1..];
        }
      }
    }
  }

  /** Joining parts that do not contain the separator and splitting again gives back the parts. */
  lemma {:induction false} SplitJoin(parts: seq<Str>, c: char)
    requires |parts| >= 1
    requires forall p :: p in parts ==> c !in p
    ensures Split(Join(parts, c), c) == parts
    decreases |parts|, |parts[0]|
  {
    var p := parts[0];
    if |p| == 0 {
      if |parts| == 1 {
      } else {
        SplitJoin(parts[1..], c);
        assert Join(parts, c) == [c] + Join(parts[1..], c);
        assert Join(parts, c)[1..] == Join(parts[1..], c);
      }
    } else {
      var shorter := [p[1..]] + parts[1..];
      assert p == [p[0]] + p[1..];
      assert p[0] != c by {
        assert p[0] in p;
      }
      assert forall q :: q in shorter ==> c !in q by {
        assert forall q :: q in parts[1..] ==> q in parts;
        assert forall x :: x in p[1..] ==> x in p;
      }
      SplitJoin(shorter, c);
      assert shorter[1..] == parts[1..];
      assert Join(parts, c) == [p[0]] + Join(shorter, c) by {
        if |parts| > 1 {
          calc {
            Join(parts, c);
            p + [c] + Join(parts[1..], c);
            [p[0]] + (p[1..] + [c] + Join(shorter[1..], c));
            [p[0]] + Join(shorter, c);
          }
        }
      }
      var j := Join(parts, c);
      assert j[0] == p[0] && j[1..] == Join(shorter, c);
      assert Split(j, c) == [[p[0]] + shorter[0]] + shorter[1..];
      assert parts == [p] + parts[1..];
    }
  }

  /** Three parts joined: the separator between the first two and between the last two. */
  lemma Join3(a: Str, b: Str, d: Str, c: char)
    ensures Join([a, b, d], c) == a + [c] + b + [c] + d
  {
    assert [a, b, d][1..] == [b, d];
    assert [b, d][1..] == [d];
    assert Join([b, d], c) == b + [c] + d;
    assert Join([a, b, d], c) == a + [c] + (b + [c] + d);
  }

  /** Splitting three separator-free parts joined by the separator gives the three parts. */
  lemma Split3(a: Str, b: Str, d: Str, c: char)
    requires c !in a && c !in b && c !in d
    ensures Split(a + [c] + b + [c] + d, c) == [a, b, d]
  {
    Join3(a, b, d, c);
    SplitJoin([a, b, d], c);
  }

  /** The first piece of a split is the text before the first separator. */
  lemma {:induction false} SplitFirst(a: Str, rest: Str, c: char)
    requires c !in a
    ensures Split(a + [c] + rest, c)[0] == a
    decreases |a|
  {
    var s := a + [c] + rest;
    if a == [] {
      assert s[0] == c;
    } else {
      assert a[0] in a;
      assert forall x :: x in a[1..] ==> x in a;
      SplitFirst(a[1..], rest, c);
      assert s[1..] == a[1..] + [c] + rest;
      assert a == [a[0]] + a[1..];
    }
  }

  /** `s.replace(/c/g, '')`: every occurrence of `c` removed, everything else kept in order. */
  function RemoveAll(s: Str, c: char): (r: Str)
    ensures c !in r
    ensures forall x :: x != c ==> multiset(r)[x] == multiset(s)[x]
    ensures c !in s ==> r == s
  {
    if s == [] then []
    else
      assert s == [s[0]] + s[1..];
      if s[0] == c then RemoveAll(s[1..], c) else [s[0]] + RemoveAll(s[1..], c)
  }

  lemma {:induction false} RemoveAllConcat(a: Str, b: Str, c: char)
    ensures RemoveAll(a + b, c) == RemoveAll(a, c) + RemoveAll(b, c)
    decreases |a|
  {
    if a == [] {
      assert a + b == b;
    } else {
      assert (a + b)[0] == a[0];
      assert (a + b)[1..] == a[1..] + b;
      RemoveAllConcat(a[1..], b, c);
    }
  }

  /** `pat` occurs in `s` at index `i` and at no earlier index. */
  ghost predicate FirstAt(s: Str, pat: Str, i: int)
  {
    && 0 <= i && i + |pat| <= |s| && pat <= s[i..]
    && forall j :: 0 <= j < i ==> !(pat <= s[j..])
  }

  /** The first occurrence is unique. */
  lemma FirstAtUnique(s: Str, pat: Str, i: int, k: int)
    requires FirstAt(s, pat, i) && FirstAt(s, pat, k)
    ensures i == k
  {
  }

  lemma FirstAtShift(s: Str, pat: Str, i: int)
    requires |s| > 0 && !(pat <= s) && FirstAt(s[1..], pat, i)
    ensures FirstAt(s, pat, i + 1)
  {
    assert s[i + 1..] == s[1..][i..];
    forall j | 0 <= j < i + 1
      ensures !(pat <= s[j..])
    {
      if j > 0 {
        assert s[j..] == s[1..][j - 1..];
      }
    }
  }

  /** `r` is `s` with the first occurrence of `pat` replaced by `rep`. */
  ghost predicate ReplacedFirst(r: Str, s: Str, pat: Str, rep: Str)
  {
    exists i :: FirstAt(s, pat, i) && r == s[..i] + rep + s[i + |pat|..]
  }

  /** Past a first character that does not start `pat`, `s` contains `pat` iff its tail does. */
  lemma ContainsTail(s: Str, pat: Str)
    requires |s| > 0 && !(pat <= s)
    ensures Contains(s, pat) <==> Contains(s[1..], pat)
  {
    if Contains(s[1..], pat) {
      var i :| 0 <= i <= |s[1..]| && pat <= s[1..][i..];
      assert s[1..][i..] == s[i + 1..];
    }
    if Contains(s, pat) {
      var i :| 0 <= i <= |s| && pat <= s[i..];
      assert i > 0 && s[1..][i - 1..] == s[i..];
    }
  }

  lemma ReplacedFirstCons(s: Str, pat: Str, rep: Str, rest: Str)
    requires |s| > 0 && !(pat <= s)
    requires Contains(s[1..], pat) ==> ReplacedFirst(rest, s[1..], pat, rep)
    ensures Contains(s[1..], pat) ==> ReplacedFirst([s[0]] + rest, s, pat, rep)
  {
    if Contains(s[1..], pat) {
      var t := s[1..];
      var i :| FirstAt(t, pat, i) && rest == t[..i] + rep + t[i + |pat|..];
      ReplacedFirstAt(s, pat, rep, rest, i);
    }
  }

  lemma ReplacedFirstAt(s: Str, pat: Str, rep: Str, rest: Str, i: int)
    requires |s| > 0 && !(pat <= s)
    requires FirstAt(s[1..], pat, i) && rest == s[1..][..i] + rep + s[1..][i + |pat|..]
    ensures ReplacedFirst([s[0]] + rest, s, pat, rep)
  {
    FirstAtShift(s, pat, i);
    var t := s[1..];
    var head, tail := t[..i], t[i + |pat|..];
    assert s[..i + 1] == [s[0]] + head;
    assert s[i + 1 + |pat|..] == tail;
    assert [s[0]] + rest == s[..i + 1] + rep + s[i + 1 + |pat|..];
  }

  /**
   * `s.replace(pat, rep)` with a string pattern: the first occurrence of `pat`,
   * and only that one, is replaced by `rep`; with no occurrence `s` is unchanged.
   */
  function ReplaceFirst(s: Str, pat: Str, rep: Str): (r: Str)
    ensures !Contains(s, pat) ==> r == s
    ensures Contains(s, pat) ==> ReplacedFirst(r, s, pat, rep)
    decreases |s|
  {
    if pat <= s then
      PrefixContained(s, pat);
      assert FirstAt(s, pat, 0) && s[..0] == [] && s[0..] == s;
      rep + s[|pat|..]
    else if |s| == 0 then s
    else
      var rest := ReplaceFirst(s[1..], pat, rep);
      ContainsTail(s, pat);
      assert s == [s[0]] + s[1..];
      ReplacedFirstCons(s, pat, rep, rest);
      [s[0]] + rest
  }

  /** A suffix occurring nowhere earlier is what `replace(suffix, '')` strips. */
  lemma ReplaceFirstSuffix(base: Str, suffix: Str)
    requires |suffix| > 0
    requires forall i :: 0 <= i < |base| ==> !(suffix <= (base + suffix)[i..])
    ensures ReplaceFirst(base + suffix, suffix, "") == base
  {
    var s := base + suffix;
    assert s[|base|..] == suffix;
    assert FirstAt(s, suffix, |base|);
    assert Contains(s, suffix);
    var i :| FirstAt(s, suffix, i) && ReplaceFirst(s, suffix, "") == s[..i] + "" + s[i + |suffix|..];
    FirstAtUnique(s, suffix, i, |base|);
    assert s[..|base|] == base && s[|base| + |suffix|..] == [];
  }

  predicate IsDigit(c: char)
  {
    '0' <= c <= '9'
  }

  /** `n.toString()` for a non-negative integer: its decimal digits, no leading zero. */
  function Decimal(n: nat): (r: Str)
    ensures |r| >= 1
    ensures forall i :: 0 <= i < |r| ==> IsDigit(r[i])
    ensures n < 10 <==> |r| == 1
    ensures |r| > 1 ==> r[0] != '0'
  {
    var d := ['0' + (n % 10) as char];
    if n < 10 then d else Decimal(n / 10) + d
  }

  /** `s.padStart(width, '0')`. */
  function PadStart(s: Str, width: nat): (r: Str)
    ensures |s| >= width ==> r == s
    ensures |s| < width ==> |r| == width && s <= r[width - |s|..] && forall i :: 0 <= i < width - |s| ==> r[i] == '0'
  {
    if |s| >= width then s else seq(width - |s|, _ => '0') + s
  }
}
