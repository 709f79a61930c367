/**
 * Text and its order. Every column of the store is TEXT, so every comparison the
 * engine makes (dates, times, stop sequences, names) is SQLite's BINARY collation:
 * lexicographic by character, a proper prefix sorting first.
 */
module TextOrder {

  type Str = seq<char>

  /** Strict lexicographic order on strings. */
  predicate StrLt(a: Str, b: Str)
    decreases |a|
  {
    if |b| == 0 then false
    else if |a| == 0 then true
    else if a[0] != b[0] then a[0] < b[0]
    else StrLt(a[1..], b[1..])
  }

  /** Non-strict lexicographic order on strings. */
  predicate StrLe(a: Str, b: Str)
  {
    a == b || StrLt(a, b)
  }

  lemma {:induction false} StrLtIrreflexive(a: Str)
    ensures !StrLt(a, a)
    decreases |a|
  {
    if |a| > 0 {
      StrLtIrreflexive(a[1..]);
    }
  }

  lemma {:induction false} StrLtAsymmetric(a: Str, b: Str)
    requires StrLt(a, b)
    ensures !StrLt(b, a)
    decreases |a|
  {
    if |a| > 0 && a[0] == b[0] {
      StrLtAsymmetric(a[1..], b[1..]);
    }
  }

  lemma {:induction false} StrLtTransitive(a: Str, b: Str, c: Str)
    requires StrLt(a, b) && StrLt(b, c)
    ensures StrLt(a, c)
    decreases |a|
  {
    if |a| > 0 && a[0] == b[0] && b[0] == c[0] {
      StrLtTransitive(a[1..], b[1..], c[1..]);
    }
  }

  /** Any two strings are equal or ordered one way or the other. */
  lemma {:induction false} StrLtTrichotomy(a: Str, b: Str)
    ensures a == b || StrLt(a, b) || StrLt(b, a)
    decreases |a|
  {
    if |a| > 0 && |b| > 0 && a[0] == b[0] {
      StrLtTrichotomy(a[1..], b[1..]);
      if a[1..] == b[1..] {
        assert a == [a[0]] + a[1..] && b == [b[0]] + b[1..];
      }
    }
  }

  lemma StrLeTransitive(a: Str, b: Str, c: Str)
    requires StrLe(a, b) && StrLe(b, c)
    ensures StrLe(a, c)
  {
    if a != b && b != c {
      StrLtTransitive(a, b, c);
    }
  }

  lemma StrLeTotal(a: Str, b: Str)
    ensures StrLe(a, b) || StrLe(b, a)
  {
    StrLtTrichotomy(a, b);
  }

  lemma StrLeAntisymmetric(a: Str, b: Str)
    requires StrLe(a, b) && StrLe(b, a)
    ensures a == b
  {
    if a != b {
      StrLtAsymmetric(a, b);
    }
  }

  /** `a <= b` fails exactly when `b < a`. */
  lemma StrLeIffNotGreater(a: Str, b: Str)
    ensures StrLe(a, b) <==> !StrLt(b, a)
  {
    StrLtTrichotomy(a, b);
    if StrLt(a, b) {
      StrLtAsymmetric(a, b);
    }
    if a == b {
      StrLtIrreflexive(a);
    }
  }

  /** SQL `MIN` of two text values. */
  function MinStr(a: Str, b: Str): (r: Str)
    ensures r == a || r == b
    ensures StrLe(r, a) && StrLe(r, b)
  {
    StrLeTotal(a, b);
    if StrLe(a, b) then a else b
  }
}
