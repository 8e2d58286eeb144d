/**
 * Lexicographic order on sequences of numbers. It is both orders the system
 * relies on: LMDB's key order (memcmp, then length) on bytes, and SNMP's order
 * on sub-identifiers (section 4.2.2 of RFC 3416).
 */
module Lex {
  predicate Less(a: seq<int>, b: seq<int>) {
    b != [] && (a == [] || a[0] < b[0] || (a[0] == b[0] && Less(a[1..], b[1..])))
  }

  /** The first-difference form: a proper prefix comes first, otherwise the first unequal element decides. */
  ghost predicate Precedes(a: seq<int>, b: seq<int>) {
    || (|a| < |b| && a == b[..|a|])
    || exists i :: 0 <= i < |a| && i < |b| && a[..i] == b[..i] && a[i] < b[i]
  }

  lemma {:induction false} LessIff(a: seq<int>, b: seq<int>)
    ensures Less(a, b) <==> Precedes(a, b)
  {
    if a == [] || b == [] {
      if b != [] { assert a == b[..|a|]; }
    } else if a[0] == b[0] {
      LessIff(a[1..], b[1..]);
      PrecedesTail(a, b);
    } else {
      PrecedesHead(a, b);
    }
  }

  lemma PrecedesOneWay(a: seq<int>, b: seq<int>)
    requires Precedes(a, b)
    ensures !Precedes(b, a) && a != b
  {
    LessIff(a, b);
    LessIff(b, a);
    Irreflexive(a);
    if Less(b, a) { Transitive(a, b, a); }
  }

  lemma PrecedesIrreflexive(a: seq<int>)
    ensures !Precedes(a, a)
  {
    LessIff(a, a);
    Irreflexive(a);
  }

  lemma PrecedesHead(a: seq<int>, b: seq<int>)
    requires a != [] && b != [] && a[0] != b[0]
    ensures Precedes(a, b) <==> a[0] < b[0]
  {
    assert a[..0] == b[..0];
    assert forall i :: 0 < i <= |a| ==> a[..i][0] == a[0];
    assert forall i :: 0 < i <= |b| ==> b[..i][0] == b[0];
  }

  lemma PrecedesTail(a: seq<int>, b: seq<int>)
    requires a != [] && b != [] && a[0] == b[0]
    ensures Precedes(a, b) <==> Precedes(a[1..], b[1..])
  {
    var s, t := a[1..], b[1..];
    if |a| < |b| && a == b[..|a|] { assert s == b[..|a|][1..] == t[..|s|]; }
    if |s| < |t| && s == t[..|s|] { assert a == [a[0]] + s && b[..|a|] == [b[0]] + t[..|s|]; }
    if i :| 0 <= i < |s| && i < |t| && s[..i] == t[..i] && s[i] < t[i] {
      assert a[..i + 1] == [a[0]] + s[..i] && b[..i + 1] == [b[0]] + t[..i];
      assert a[i + 1] < b[i + 1];
    }
    if i :| 0 <= i < |a| && i < |b| && a[..i] == b[..i] && a[i] < b[i] {
      assert s[..i - 1] == a[..i][1..] && t[..i - 1] == b[..i][1..];
      assert s[i - 1] < t[i - 1];
    }
  }

  predicate IsPrefix(p: seq<int>, s: seq<int>) {
    |p| <= |s| && s[..|p|] == p
  }

  lemma {:induction false} Irreflexive(a: seq<int>)
    ensures !Less(a, a)
  {
    if a != [] { Irreflexive(a[1..]); }
  }

  lemma {:induction false} Trichotomy(a: seq<int>, b: seq<int>)
    ensures Less(a, b) || a == b || Less(b, a)
  {
    if a != [] && b != [] && a[0] == b[0] {
      Trichotomy(a[1..], b[1..]);
      assert a == [a[0]] + a[1..] && b == [b[0]] + b[1..];
    }
  }

  lemma {:induction false} Transitive(a: seq<int>, b: seq<int>, c: seq<int>)
    requires Less(a, b) && Less(b, c)
    ensures Less(a, c)
  {
    if a != [] && a[0] == b[0] && b[0] == c[0] {
      Transitive(a[1..], b[1..], c[1..]);
    }
  }

  /** A prefix sorts first, and everything between it and a carrier carries it. */
  lemma {:induction false} PrefixConvex(p: seq<int>, mid: seq<int>, s: seq<int>)
    requires IsPrefix(p, s) && !Less(mid, p) && !Less(s, mid)
    ensures IsPrefix(p, mid)
  {
    if p != [] {
      Trichotomy(mid, s);
      assert mid != [];
      if mid[0] == p[0] {
        assert s[0] == s[..|p|][0] == p[0];
        assert s[1..][..|p| - 1] == s[..|p|][1..];
        PrefixConvex(p[1..], mid[1..], s[1..]);
        assert mid[..|p|] == [mid[0]] + mid[1..][..|p| - 1];
        assert p == [p[0]] + p[1..];
      }
    }
  }

  lemma {:induction false} PrefixNotAbove(p: seq<int>, s: seq<int>)
    requires IsPrefix(p, s)
    ensures !Less(s, p)
  {
    if p != [] {
      assert s[0] == s[..|p|][0];
      assert s[1..][..|p| - 1] == s[..|p|][1..];
      PrefixNotAbove(p[1..], s[1..]);
    }
  }

  /** Strictly ascending, hence without duplicates. */
  ghost predicate Ascending(s: seq<seq<int>>) {
    forall i, j :: 0 <= i < j < |s| ==> Less(s[i], s[j])
  }

  lemma AscendingIff(s: seq<seq<int>>)
    ensures Ascending(s) <==> forall i, j :: 0 <= i < j < |s| ==> Precedes(s[i], s[j])
  {
    forall i, j | 0 <= i < j < |s| ensures Less(s[i], s[j]) <==> Precedes(s[i], s[j]) { LessIff(s[i], s[j]); }
  }

  /** Ascending, duplicates allowed: what a sort leaves behind. */
  ghost predicate NonDescending(s: seq<seq<int>>) {
    forall i, j :: 0 <= i < j < |s| ==> !Less(s[j], s[i])
  }

  /** An ascending sequence is determined by its set of elements. */
  lemma {:induction false} AscendingUnique(s: seq<seq<int>>, t: seq<seq<int>>)
    requires Ascending(s) && Ascending(t)
    requires forall x :: x in s <==> x in t
    ensures s == t
  {
    if s == [] || t == [] {
      if t != [] { FirstIn(t); }
      if s != [] { FirstIn(s); }
    } else {
      FirstIn(s);
      FirstIn(t);
      FirstIsLeast(s, t[0]);
      FirstIsLeast(t, s[0]);
      if Less(s[0], t[0]) && Less(t[0], s[0]) { Transitive(s[0], t[0], s[0]); }
      Irreflexive(s[0]);
      forall x ensures x in s[1..] <==> x in t[1..] {
        assert x in s <==> x == s[0] || x in s[1..];
        assert x in t <==> x == t[0] || x in t[1..];
      }
      AscendingUnique(s[1..], t[1..]);
      assert s == [s[0]] + s[1..] && t == [t[0]] + t[1..];
    }
  }

  lemma FirstIn(s: seq<seq<int>>)
    requires s != []
    ensures s[0] in s
  {
  }

  lemma FirstIsLeast(s: seq<seq<int>>, x: seq<int>)
    requires Ascending(s) && x in s
    ensures x == s[0] || Less(s[0], x)
  {
    var i :| 0 <= i < |s| && s[i] == x;
  }
}
