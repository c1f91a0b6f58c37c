/** Byte strings and the orders and searches the sources use on them.
    A C++ `char` is a Dafny `char`; every statement ranges over all strings, hence over all byte strings. */
module Strings {

  datatype Option<+T> = None | Some(value: T)

  /** `std::string::operator<`: lexicographic by unsigned character. */
  predicate Less(a: string, b: string)
    decreases |a|
  {
    if b == "" then false
    else if a == "" then true
    else if a[0] != b[0] then a[0] < b[0]
    else Less(a[1..], b[1..])
  }

  lemma {:induction false} LessTrichotomy(a: string, b: string)
    ensures (Less(a, b) && !Less(b, a) && a != b)
         || (!Less(a, b) && Less(b, a) && a != b)
         || (!Less(a, b) && !Less(b, a) && a == b)
    decreases |a|
  {
    if a != "" && b != "" {
      if a[0] == b[0] {
        LessTrichotomy(a[1..], b[1..]);
        assert a == [a[0]] + a[1..] && b == [b[0]] + b[1..];
      }
    }
  }

  lemma {:induction false} LessTransitive(a: string, b: string, c: string)
    requires Less(a, b) && Less(b, c)
    ensures Less(a, c)
    decreases |a|
  {
    if a != "" && a[0] == b[0] && b[0] == c[0] {
      LessTransitive(a[1..], b[1..], c[1..]);
    }
  }

  /** `b` goes on where `a` ends, or is greater at the first difference. */
  ghost predicate Precedes(a: string, b: string) {
    exists i :: 0 <= i <= |a| && i < |b| && a[..i] == b[..i] && (i < |a| ==> a[i] < b[i])
  }

  /** The recursive comparison is decided at the first difference, and there by the greater character. */
  lemma {:induction false} LessExactly(a: string, b: string)
    ensures Less(a, b) <==> Precedes(a, b)
    decreases |a|
  {
    if b != "" && a != "" && a[0] == b[0] {
      LessExactly(a[1..], b[1..]);
      if Less(a, b) {
        var i :| 0 <= i <= |a[1..]| && i < |b[1..]| && a[1..][..i] == b[1..][..i] && (i < |a[1..]| ==> a[1..][i] < b[1..][i]);
        assert a[..i + 1] == [a[0]] + a[1..][..i] && b[..i + 1] == [b[0]] + b[1..][..i];
      }
      if Precedes(a, b) {
        var i :| 0 <= i <= |a| && i < |b| && a[..i] == b[..i] && (i < |a| ==> a[i] < b[i]);
        assert a[1..][..i - 1] == a[..i][1..] && b[1..][..i - 1] == b[..i][1..];
      }
    } else if a == "" && b != "" {
      assert a[..0] == b[..0];
    } else if a != "" && b != "" {
      assert a[..0] == b[..0];
      if Precedes(a, b) {
        var i :| 0 <= i <= |a| && i < |b| && a[..i] == b[..i] && (i < |a| ==> a[i] < b[i]);
        SameStart(a, b, i);
      }
    }
  }

  lemma SameStart(a: string, b: string, i: nat)
    requires i <= |a| && i <= |b|
    ensures a[..i] == b[..i] && i > 0 ==> a[0] == b[0]
  {
    if i > 0 { assert a[..i][0] == a[0] && b[..i][0] == b[0]; }
  }

  /** A smaller character decides, whatever follows; and a proper prefix is less. */
  lemma FirstDifferenceDecides(p: string, x: char, s: string, y: char, t: string)
    requires x < y
    ensures Less(p + [x] + s, p + [y] + t) && !Less(p + [y] + t, p + [x] + s)
    ensures Less(p, p + [x] + s) && !Less(p + [x] + s, p)
  {
    var a, b, c := p + [x] + s, p + [y] + t, p;
    assert a[..|p|] == p && b[..|p|] == p && c[..|p|] == p;
    LessExactly(a, b);
    LessExactly(c, a);
    LessTrichotomy(a, b);
    LessTrichotomy(c, a);
  }

  predicate Without(s: string, c: char) {
    forall i :: 0 <= i < |s| ==> s[i] != c
  }

  /** Two splits at the first separator agree. */
  lemma SplitAtFirst(x: string, u: string, y: string, v: string, sep: char)
    requires Without(x, sep) && Without(y, sep)
    requires x + [sep] + u == y + [sep] + v
    ensures x == y && u == v
  {
    var s := x + [sep] + u;
    assert s[|x|] == sep && s[|y|] == sep;
    assert x == s[..|x|] && y == s[..|y|];
    assert u == s[|x| + 1..] && v == s[|y| + 1..];
  }

  /** Two splits at the last separator agree. */
  lemma SplitAtLast(x: string, u: string, y: string, v: string, sep: char)
    requires Without(u, sep) && Without(v, sep)
    requires x + [sep] + u == y + [sep] + v
    ensures x == y && u == v
  {
    var s := x + [sep] + u;
    assert s[|x|] == sep && s[|y|] == sep;
    assert u == s[|x| + 1..] && v == s[|y| + 1..];
    assert x == s[..|x|] && y == s[..|y|];
  }

  /** `n` copies of `c`. */
  function Repeat(c: char, n: nat): (s: string)
    ensures |s| == n && forall i :: 0 <= i < n ==> s[i] == c
  {
    seq(n, _ => c)
  }
}
