/** Lexicographic order on strings by code point, the order Python uses to compare `str` values. */
module Lex {

  /** `a` sorts before or equal to `b`: a proper prefix sorts first, otherwise the first differing character decides. */
  predicate LexLe(a: string, b: string)
    decreases |a|
  {
    |a| == 0 || (|b| > 0 && (a[0] < b[0] || (a[0] == b[0] && LexLe(a[1..], b[1..]))))
  }

  lemma {:induction false} LexLeRefl(a: string)
    ensures LexLe(a, a)
  {
    if |a| > 0 {
      LexLeRefl(a[1..]);
    }
  }

  lemma {:induction false} LexLeTotal(a: string, b: string)
    ensures LexLe(a, b) || LexLe(b, a)
  {
    if |a| > 0 && |b| > 0 && a[0] == b[0] {
      LexLeTotal(a[1..], b[1..]);
    }
  }

  lemma {:induction false} LexLeAntisym(a: string, b: string)
    requires LexLe(a, b) && LexLe(b, a)
    ensures a == b
  {
    if |a| > 0 {
      LexLeAntisym(a[1..], b[1..]);
      assert a == [a[0]] + a[1..];
      assert b == [b[0]] + b[1..];
    }
  }

  lemma {:induction false} LexLeTrans(a: string, b: string, c: string)
    requires LexLe(a, b) && LexLe(b, c)
    ensures LexLe(a, c)
  {
    if |a| > 0 && a[0] == b[0] && b[0] == c[0] {
      LexLeTrans(a[1..], b[1..], c[1..]);
    }
  }

  /** Comparing two strings that start with parts of equal length: the first parts decide unless they are equal. */
  lemma {:induction false} LexLeConcat(a: string, b: string, c: string, d: string)
    requires |a| == |c|
    ensures LexLe(a + b, c + d) <==> (LexLe(a, c) && a != c) || (a == c && LexLe(b, d))
  {
    if |a| == 0 {
      assert a + b == b;
      assert c + d == d;
    } else {
      assert (a + b)[0] == a[0] && (c + d)[0] == c[0];
      assert (a + b)[1..] == a[1..] + b;
      assert (c + d)[1..] == c[1..] + d;
      LexLeConcat(a[1..], b, c[1..], d);
      assert a == [a[0]] + a[1..];
      assert c == [c[0]] + c[1..];
      if a[0] == c[0] && a[1..] == c[1..] {
        assert a == c;
      }
    }
  }
}
