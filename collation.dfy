/**
 * SQLite's BINARY collation, the one every TEXT comparison in the queries uses:
 * texts compare byte by byte in their UTF-8 encoding, and UTF-8 byte order is
 * code-point order, so on Dafny strings it is the lexicographic order on chars.
 */
module Collation {

  /** `a` sorts strictly before `b` (a proper prefix sorts first). */
  predicate TextLt(a: string, b: string)
    decreases |a|
  {
    if a == [] then b != []
    else if b == [] then false
    else if a[0] != b[0] then a[0] < b[0]
    else TextLt(a[1..], b[1..])
  }

  predicate TextLe(a: string, b: string) {
    a == b || TextLt(a, b)
  }

  lemma {:induction false} TextLtIrreflexive(a: string)
    ensures !TextLt(a, a)
    decreases |a|
  {
    if a != [] {
      TextLtIrreflexive(a[1..]);
    }
  }

  lemma {:induction false} TextLtTransitive(a: string, b: string, c: string)
    requires TextLt(a, b) && TextLt(b, c)
    ensures TextLt(a, c)
    decreases |a|
  {
    if a != [] && a[0] == b[0] && b[0] == c[0] {
      TextLtTransitive(a[1..], b[1..], c[1..]);
    }
  }

  lemma {:induction false} TextLtTrichotomy(a: string, b: string)
    ensures TextLt(a, b) || a == b || TextLt(b, a)
    decreases |a|
  {
    if a != [] && b != [] && a[0] == b[0] {
      TextLtTrichotomy(a[1..], b[1..]);
      if a[1..] == b[1..] {
        assert a == [a[0]] + a[1..] && b == [b[0]] + b[1..];
      }
    }
  }

  lemma TextLtAsymmetric(a: string, b: string)
    requires TextLt(a, b)
    ensures !TextLt(b, a)
  {
    if TextLt(b, a) {
      TextLtTransitive(a, b, a);
      TextLtIrreflexive(a);
    }
  }

  /**
   * Two texts that agree on a prefix compare as their remainders do; this is
   * what makes fixed-width, zero-padded fields sort field by field.
   */
  lemma {:induction false} TextLtCommonPrefix(p: string, a: string, b: string)
    ensures TextLt(p + a, p + b) <==> TextLt(a, b)
    decreases |p|
  {
    if p == [] {
      assert p + a == a && p + b == b;
    } else {
      assert (p + a)[1..] == p[1..] + a;
      assert (p + b)[1..] == p[1..] + b;
      TextLtCommonPrefix(p[1..], a, b);
    }
  }

}
