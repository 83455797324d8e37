/** Small shared vocabulary.  Octet strings are Dafny strings. */
module Basics {

  datatype Option<+T> = None | Some(value: T)

  /** Octet order of two strings: memcmp, then length. */
  predicate Less(a: string, b: string) {
    b != "" && (a == "" || a[0] < b[0] || (a[0] == b[0] && Less(a[1..], b[1..])))
  }

  lemma {:induction false} LessTotal(a: string, b: string)
    ensures a == b || Less(a, b) || Less(b, a)
  {
    if a != [] && b != [] && a[0] == b[0] {
      LessTotal(a[1..], b[1..]);
      if a[1..] == b[1..] {
        assert a == [a[0]] + a[1..] && b == [b[0]] + b[1..];
      }
    }
  }

  lemma {:induction false} LessAsymmetric(a: string, b: string)
    requires Less(a, b)
    ensures !Less(b, a) && a != b
  {
    if a != [] && a[0] == b[0] {
      LessAsymmetric(a[1..], b[1..]);
    }
  }

  lemma {:induction false} LessTransitive(a: string, b: string, c: string)
    requires Less(a, b) && Less(b, c)
    ensures Less(a, c)
  {
    if a != [] && a[0] == b[0] && b[0] == c[0] {
      LessTransitive(a[1..], b[1..], c[1..]);
    }
  }

  lemma {:induction false} LessAppended(s: string)
    ensures Less(s, s + "a")
  {
    if s != "" {
      LessAppended(s[1..]);
      assert (s + "a")[1..] == s[1..] + "a";
    }
  }

  /** A string that begins with `p` is not below it, and anything between the
      two begins with `p` as well. */
  lemma {:induction false} BetweenHasPrefix(p: string, k: string, m: string)
    requires p <= k
    ensures !Less(k, p)
    ensures !Less(m, p) && !Less(k, m) ==> p <= m
  {
    if p != "" {
      assert p[0] == k[0] && p[1..] <= k[1..];
      if m != "" {
        BetweenHasPrefix(p[1..], k[1..], m[1..]);
        if p[0] == m[0] && p[1..] <= m[1..] {
          assert p == [p[0]] + p[1..] && m == [m[0]] + m[1..];
        }
      } else {
        BetweenHasPrefix(p[1..], k[1..], "");
      }
    }
  }
}
