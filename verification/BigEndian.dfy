/** Big-endian octets of a number. */
module BigEndian {
  import opened Basics

  function Pow256(w: nat): (p: nat)
    ensures p > 0
  {
    if w == 0 then 1 else 256 * Pow256(w - 1)
  }

  /** The low `w` octets of `n`, most significant first. */
  function Encode(n: nat, w: nat): (s: string)
    ensures |s| == w
  {
    if w == 0 then "" else Encode(n / 256, w - 1) + [(n % 256) as char]
  }

  function Decode(s: string): nat {
    if s == "" then 0 else Decode(s[..|s| - 1]) * 256 + s[|s| - 1] as int
  }

  lemma {:induction false} RoundTrip(n: nat, w: nat)
    requires n < Pow256(w)
    ensures Decode(Encode(n, w)) == n
  {
    if w > 0 {
      RoundTrip(n / 256, w - 1);
      assert Encode(n, w)[..w - 1] == Encode(n / 256, w - 1);
    }
  }

  lemma {:induction false} LessAppend(a: string, x: char, b: string, y: char)
    requires |a| == |b|
    ensures Less(a + [x], b + [y]) <==> Less(a, b) || (a == b && x < y)
  {
    if a == "" {
      assert a + [x] == [x] && b + [y] == [y];
    } else {
      LessAppend(a[1..], x, b[1..], y);
      assert (a + [x])[1..] == a[1..] + [x] && (b + [y])[1..] == b[1..] + [y];
      assert a == [a[0]] + a[1..] && b == [b[0]] + b[1..];
    }
  }

  /** Octet order of fixed-width big-endian numbers is numeric order. */
  lemma {:induction false} OrderPreserved(m: nat, n: nat, w: nat)
    requires m < Pow256(w) && n < Pow256(w)
    ensures Less(Encode(m, w), Encode(n, w)) <==> m < n
    ensures Encode(m, w) == Encode(n, w) <==> m == n
  {
    if w > 0 {
      OrderPreserved(m / 256, n / 256, w - 1);
      LessAppend(Encode(m / 256, w - 1), (m % 256) as char, Encode(n / 256, w - 1), (n % 256) as char);
      if Encode(m, w) == Encode(n, w) {
        assert Encode(m, w)[..w - 1] == Encode(m / 256, w - 1);
        assert Encode(n, w)[..w - 1] == Encode(n / 256, w - 1);
        assert Encode(m, w)[w - 1] == Encode(n, w)[w - 1];
      }
    }
  }
}
