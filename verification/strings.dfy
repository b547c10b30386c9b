/** Character classes, substring search and the join-key normalisation used for subject names. */
module Strings {

  predicate IsDigit(c: char) { '0' <= c <= '9' }

  predicate AllDigits(s: string) { forall i :: 0 <= i < |s| ==> IsDigit(s[i]) }

  /** `sub` occurs in `s` starting at index `i`. */
  predicate OccursAt(s: string, sub: string, i: nat) {
    i + |sub| <= |s| && s[i..i + |sub|] == sub
  }

  /** Plain substring test, like Python's `sub in s`. */
  function Contains(s: string, sub: string): (b: bool)
    ensures b <==> exists i: nat :: OccursAt(s, sub, i)
    decreases |s|
  {
    if OccursAt(s, sub, 0) then true
    else if |s| == 0 then false
    else
      OccursShift(s, sub);
      Contains(s[1..], sub)
  }

  lemma OccursShift(s: string, sub: string)
    requires |s| > 0 && !OccursAt(s, sub, 0)
    ensures (exists i: nat :: OccursAt(s, sub, i)) <==> (exists i: nat :: OccursAt(s[1..], sub, i))
  {
    if i: nat :| OccursAt(s, sub, i) {
      assert i >= 1;
      assert s[1..][i - 1..i - 1 + |sub|] == s[i..i + |sub|];
      assert OccursAt(s[1..], sub, i - 1);
    }
    if i: nat :| OccursAt(s[1..], sub, i) {
      assert s[i + 1..i + 1 + |sub|] == s[1..][i..i + |sub|];
      assert OccursAt(s, sub, i + 1);
    }
  }

  /** Lower-case letters this model knows an upper case for: ASCII and the Cyrillic block U+0430..U+045F. */
  predicate IsLower(c: char) {
    ('a' <= c <= 'z') || ('\U{0430}' <= c <= '\U{045F}')
  }

  /** Upper-case mapping of one character; characters without a known upper case map to themselves. */
  function Upper(c: char): (u: char)
    ensures !IsLower(u)
    ensures !IsLower(c) ==> u == c
    ensures u == ' ' <==> c == ' '
  {
    if 'a' <= c <= 'z' then (c as int - 32) as char
    else if '\U{0430}' <= c <= '\U{044F}' then (c as int - 32) as char
    else if '\U{0450}' <= c <= '\U{045F}' then (c as int - 80) as char
    else c
  }

  /** `str.upper()`, restricted to the letters `Upper` knows. */
  function UpperAll(s: string): (r: string)
    ensures |r| == |s|
    ensures forall i :: 0 <= i < |s| ==> r[i] == Upper(s[i])
  {
    if |s| == 0 then [] else [Upper(s[0])] + UpperAll(s[1..])
  }

  /** `str.replace(' ', '')`: every space character removed, the rest kept in order. */
  function StripSpaces(s: string): (r: string)
    ensures ' ' !in r
    ensures |r| <= |s|
    ensures forall c :: c in r <==> c in s && c != ' '
  {
    if |s| == 0 then []
    else if s[0] == ' ' then StripSpaces(s[1..])
    else [s[0]] + StripSpaces(s[1..])
  }

  /** The join key of a name: spaces removed, then upper-cased. */
  function NormKey(s: string): (k: string)
    ensures ' ' !in k
    ensures |k| <= |s|
    ensures forall i :: 0 <= i < |k| ==> !IsLower(k[i])
  {
    UpperAll(StripSpaces(s))
  }

  /** The key of a single character: nothing for a space, its upper case otherwise; with `NormKeyAppend` this fixes every key. */
  lemma NormKeyChar(c: char)
    ensures NormKey([c]) == if c == ' ' then [] else [Upper(c)]
  {
    assert [c][1..] == [];
  }

  lemma {:induction false} StripSpacesNoop(s: string)
    requires ' ' !in s
    ensures StripSpaces(s) == s
  {
    if |s| > 0 {
      assert s[0] != ' ';
      StripSpacesNoop(s[1..]);
      assert s == [s[0]] + s[1..];
    }
  }

  lemma UpperAllIdempotent(s: string)
    ensures UpperAll(UpperAll(s)) == UpperAll(s)
  {
  }

  /** Normalising a key a second time changes nothing. */
  lemma {:induction false} NormKeyIdempotent(s: string)
    ensures NormKey(NormKey(s)) == NormKey(s)
  {
    var k := NormKey(s);
    StripSpacesNoop(k);
    UpperAllIdempotent(StripSpaces(s));
  }

  lemma {:induction false} StripSpacesAppend(a: string, b: string)
    ensures StripSpaces(a + b) == StripSpaces(a) + StripSpaces(b)
  {
    if |a| > 0 {
      assert (a + b)[0] == a[0];
      assert (a + b)[1..] == a[1..] + b;
      StripSpacesAppend(a[1..], b);
    } else {
      assert a + b == b;
    }
  }

  lemma {:induction false} UpperAllAppend(a: string, b: string)
    ensures UpperAll(a + b) == UpperAll(a) + UpperAll(b)
  {
    if |a| == 0 {
      assert a + b == b;
    } else {
      assert (a + b)[0] == a[0];
      assert (a + b)[1..] == a[1..] + b;
      UpperAllAppend(a[1..], b);
    }
  }

  /** The key of a concatenation is the concatenation of the keys. */
  lemma NormKeyAppend(a: string, b: string)
    ensures NormKey(a + b) == NormKey(a) + NormKey(b)
  {
    StripSpacesAppend(a, b);
    UpperAllAppend(StripSpaces(a), StripSpaces(b));
  }

  /** A space inserted anywhere in a name does not change its key. */
  lemma NormKeyIgnoresSpace(a: string, b: string)
    ensures NormKey(a + " " + b) == NormKey(a + b)
  {
    assert " "[1..] == [];
    assert StripSpaces(" ") == [];
    assert NormKey(" ") == [];
    NormKeyAppend(a + " ", b);
    NormKeyAppend(a, " ");
    NormKeyAppend(a, b);
    assert NormKey(a + " ") == NormKey(a) + [];
    assert NormKey(a) + [] == NormKey(a);
  }

  lemma {:induction false} StripSpacesUpperAll(s: string)
    ensures StripSpaces(UpperAll(s)) == UpperAll(StripSpaces(s))
  {
    if |s| > 0 {
      StripSpacesUpperAll(s[1..]);
      assert UpperAll(s)[1..] == UpperAll(s[1..]);
    }
  }

  /** Upper-casing a name before normalising it does not change its key. */
  lemma NormKeyIgnoresCase(s: string)
    ensures NormKey(UpperAll(s)) == NormKey(s)
  {
    StripSpacesUpperAll(s);
    UpperAllIdempotent(StripSpaces(s));
  }
}
