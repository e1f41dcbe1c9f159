/**
 Names in the order of `strcmp`; a C string is modelled by its characters before the terminating NUL.
 */
module Names {
  /** strcmp(a, b) < 0 */
  predicate Less(a: string, b: string) {
    b != [] && (a == [] || a[0] < b[0] || (a[0] == b[0] && Less(a[1..], b[1..])))
  }

  lemma {:induction false} LessTotal(a: string, b: string)
    ensures Less(a, b) || Less(b, a) || a == b
    ensures !(Less(a, b) && Less(b, a)) && !Less(a, a)
  {
    if a != [] && b != [] {
      LessTotal(a[1..], b[1..]);
      LessTotal(a[1..], a[1..]);
      assert a == [a[0]] + a[1..] && b == [b[0]] + b[1..];
    } else if a != [] {
      LessTotal(a[1..], a[1..]);
    }
  }

  lemma {:induction false} LessTransitive(a: string, b: string, c: string)
    requires !Less(b, a) && !Less(c, b)
    ensures !Less(c, a)
  {
    LessTotal(a, b);
    LessTotal(b, c);
    if a != [] && b != [] && c != [] && a[0] == b[0] == c[0] {
      LessTransitive(a[1..], b[1..], c[1..]);
    }
  }

  /** The first difference decides, by the character codes; */
  lemma {:induction false} LessAtDifference(p: string, c: char, s: string, d: char, t: string)
    requires c < d
    ensures Less(p + [c] + s, p + [d] + t)
    decreases |p|
  {
    var a, b := p + [c] + s, p + [d] + t;
    if p != [] {
      LessAtDifference(p[1..], c, s, d, t);
      assert a[1..] == p[1..] + [c] + s && b[1..] == p[1..] + [d] + t;
    }
  }

  /** without one, the shorter name is less. */
  lemma {:induction false} LessIfShorter(p: string, s: string)
    requires s != []
    ensures Less(p, p + s)
    decreases |p|
  {
    if p != [] {
      LessIfShorter(p[1..], s);
      assert (p + s)[1..] == p[1..] + s;
    }
  }
}
