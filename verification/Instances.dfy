/**
 * Row instances and their spelling inside cell keys: the specification both
 * implementations are measured against (`src/table_rows.c` in C and
 * `rust-app/src/storage/table.rs` in Rust).
 */
module Instances {
  import opened Types
  import Lex

  /** One row's index sub-identifiers, in OID order. */
  type Instance = seq<U32>

  const DOT: Byte := 46
  const ZERO: Byte := 48
  const SUBID_MAX: nat := 128
  const KEY_MAX: nat := 255

  // ---- decimal numbers -------------------------------------------------

  predicate IsDigit(c: Byte) { ZERO <= c <= ZERO + 9 }

  predicate AllDigits(s: Bytes) { forall i :: 0 <= i < |s| ==> IsDigit(s[i]) }

  function NatOf(s: Bytes): nat
    requires AllDigits(s)
  {
    if s == [] then 0 else NatOf(s[..|s| - 1]) * 10 + (s[|s| - 1] - ZERO)
  }

  function Digits(n: nat): Bytes {
    if n < 10 then [ZERO + n] else Digits(n / 10) + [ZERO + n % 10]
  }

  /** No empty component, digits only, no leading zero. */
  predicate CanonicalPart(p: Bytes) {
    p != [] && AllDigits(p) && (|p| > 1 ==> p[0] != ZERO)
  }

  function DecodePart(p: Bytes): Option<U32> {
    if CanonicalPart(p) && NatOf(p) < U32_LIMIT then Some(NatOf(p)) else None
  }

  lemma {:induction false} NatOfDigits(n: nat)
    ensures CanonicalPart(Digits(n)) && NatOf(Digits(n)) == n
    ensures n > 0 ==> Digits(n)[0] != ZERO
  {
    if n >= 10 {
      NatOfDigits(n / 10);
      var d := Digits(n);
      assert d[..|d| - 1] == Digits(n / 10);
    } else {
      assert Digits(n)[..0] == [];
    }
  }

  lemma {:induction false} LeadingDigitPositive(p: Bytes)
    requires p != [] && AllDigits(p) && p[0] != ZERO
    ensures NatOf(p) > 0
  {
    if |p| > 1 { LeadingDigitPositive(p[..|p| - 1]); }
  }

  lemma {:induction false} DigitsNatOf(p: Bytes)
    requires CanonicalPart(p)
    ensures Digits(NatOf(p)) == p
  {
    var q := p[..|p| - 1];
    assert p == q + [p[|p| - 1]];
    if |p| == 1 {
      assert q == [];
    } else {
      DigitsNatOf(q);
      LeadingDigitPositive(q);
    }
  }

  lemma {:induction false} NatOfMonotone(p: Bytes, q: Bytes)
    requires AllDigits(q) && p <= q
    ensures AllDigits(p) && NatOf(p) <= NatOf(q)
  {
    if |p| < |q| {
      NatOfMonotone(p, q[..|q| - 1]);
    } else {
      assert p == q;
    }
  }

  /** A 32-bit sub-identifier prints in at most ten digits. */
  lemma DigitsLength(n: U32)
    ensures 1 <= |Digits(n)| <= 10
  {
    DigitsBound(n, 10);
  }

  function Pow10(k: nat): nat { if k == 0 then 1 else 10 * Pow10(k - 1) }

  lemma {:induction false} DigitsBound(n: nat, k: nat)
    requires k >= 1 && n < Pow10(k)
    ensures 1 <= |Digits(n)| <= k
  {
    if n >= 10 { DigitsBound(n / 10, k - 1); }
  }

  // ---- dotted decimal --------------------------------------------------

  predicate DotFree(s: Bytes) { DOT !in s }

  function Split(s: Bytes): (parts: seq<Bytes>)
    ensures |parts| >= 1
  {
    if s == [] then [[]]
    else if s[0] == DOT then [[]] + Split(s[1..])
    else var rest := Split(s[1..]); [[s[0]] + rest[0]] + rest[1..]
  }

  function Dotted(inst: Instance): Bytes
    requires inst != []
  {
    if |inst| == 1 then Digits(inst[0])
    else Digits(inst[0]) + [DOT] + Dotted(inst[1..])
  }

  function ParseParts(parts: seq<Bytes>): Option<Instance> {
    if parts == [] then Some([])
    else
      match DecodePart(parts[0])
      case None => None
      case Some(n) =>
        match ParseParts(parts[1..])
        case None => None
        case Some(rest) => Some([n] + rest)
  }

  /** Canonical dotted decimal, with no limit on the number of components. */
  function ParseDotted(s: Bytes): Option<Instance> { ParseParts(Split(s)) }

  predicate ValidInstance(inst: Instance) { 1 <= |inst| <= SUBID_MAX }

  /** What the C parser accepts: at most `TABLE_ROW_SUBID_MAX` components. */
  function Capped(r: Option<Instance>): Option<Instance> {
    if r.Some? && |r.value| <= SUBID_MAX then r else None
  }

  lemma {:induction false} SplitDotFree(p: Bytes)
    requires DotFree(p)
    ensures Split(p) == [p]
  {
    if p != [] {
      SplitDotFree(p[1..]);
      assert p == [p[0]] + p[1..];
    }
  }

  lemma {:induction false} SplitAtDot(p: Bytes, rest: Bytes)
    requires DotFree(p)
    ensures Split(p + [DOT] + rest) == [p] + Split(rest)
  {
    var s := p + [DOT] + rest;
    if p == [] {
      assert s[1..] == rest;
    } else {
      assert s[1..] == p[1..] + [DOT] + rest;
      SplitAtDot(p[1..], rest);
      assert p == [p[0]] + p[1..];
    }
  }

  lemma {:induction false} FirstPartExtends(p: Bytes, rest: Bytes)
    requires DotFree(p)
    ensures p <= Split(p + rest)[0]
    ensures rest != [] && rest[0] != DOT ==> p + [rest[0]] <= Split(p + rest)[0]
  {
    if p == [] {
      assert p + rest == rest;
    } else {
      assert (p + rest)[1..] == p[1..] + rest;
      FirstPartExtends(p[1..], rest);
      assert p == [p[0]] + p[1..];
    }
  }

  lemma ParseOnePart(p: Bytes)
    ensures ParseParts([p]) == if DecodePart(p).Some? then Some([DecodePart(p).value]) else None
  {
    assert ParseParts([p][1..]) == Some([]);
    if DecodePart(p).Some? {
      var n := DecodePart(p).value;
      assert [n] + [] == [n];
    }
  }

  lemma DigitsDotFree(n: nat)
    ensures DotFree(Digits(n))
  {
    NatOfDigits(n);
  }

  /** Printing then parsing gives the instance back ... */
  lemma {:induction false} ParseOfDotted(inst: Instance)
    requires inst != []
    ensures ParseDotted(Dotted(inst)) == Some(inst)
  {
    DigitsDotFree(inst[0]);
    NatOfDigits(inst[0]);
    if |inst| == 1 {
      SplitDotFree(Digits(inst[0]));
      ParseOnePart(Digits(inst[0]));
      assert inst == [inst[0]];
    } else {
      SplitAtDot(Digits(inst[0]), Dotted(inst[1..]));
      ParseOfDotted(inst[1..]);
      assert inst == [inst[0]] + inst[1..];
    }
  }

  /** ... and parsing then printing gives the text back: only one spelling is accepted. */
  lemma {:induction false} DottedOfParse(s: Bytes)
    requires ParseDotted(s).Some?
    ensures ParseDotted(s).value != [] && Dotted(ParseDotted(s).value) == s
  {
    var k := FirstDot(s);
    DigitsNatOf(Split(s)[0]);
    if k < |s| {
      assert s == s[..k] + [DOT] + s[k + 1..];
      SplitAtDot(s[..k], s[k + 1..]);
      DottedOfParse(s[k + 1..]);
    } else {
      SplitDotFree(s[..k]);
      assert s[..k] == s;
      ParseOnePart(s);
    }
  }

  /** The position of the first dot, or the length when there is none. */
  function FirstDot(s: Bytes): (k: nat)
    ensures k <= |s| && DotFree(s[..k]) && (k < |s| ==> s[k] == DOT)
  {
    if s == [] || s[0] == DOT then 0
    else
      var k := FirstDot(s[1..]);
      assert s[..k + 1] == [s[0]] + s[1..][..k];
      k + 1
  }

  lemma {:induction false} DottedLength(inst: Instance)
    requires inst != []
    ensures 2 * |inst| - 1 <= |Dotted(inst)| <= 11 * |inst| - 1
  {
    DigitsLength(inst[0]);
    if |inst| > 1 { DottedLength(inst[1..]); }
  }

  lemma {:induction false} DottedSnoc(inst: Instance, n: U32)
    requires inst != []
    ensures Dotted(inst + [n]) == Dotted(inst) + [DOT] + Digits(n)
  {
    if |inst| == 1 {
      assert (inst + [n])[1..] == [n];
    } else {
      DottedSnoc(inst[1..], n);
      assert (inst + [n])[1..] == inst[1..] + [n];
    }
  }

  lemma DottedInjective(a: Instance, b: Instance)
    requires a != [] && b != [] && Dotted(a) == Dotted(b)
    ensures a == b
  {
    ParseOfDotted(a);
    ParseOfDotted(b);
  }

  /** How the documentation spells instances and keys. */
  lemma SpelledAsDocumented()
    ensures Dotted([3]) == Ascii("3") && Dotted([2, 7]) == Ascii("2.7")
    ensures Dotted([10]) == Ascii("10") && ColumnPrefix(Ascii("portDescr")) == Ascii("portDescr.")
  {
    assert [2, 7][1..] == [7];
    assert Digits(10) == Digits(1) + [ZERO + 0];
  }

  // ---- cell keys -------------------------------------------------------

  function ColumnPrefix(column: Bytes): Bytes { column + [DOT] }

  /** "<column>.<instance>", before any length limit. */
  function CellText(column: Bytes, inst: Instance): Bytes
    requires inst != []
  {
    ColumnPrefix(column) + Dotted(inst)
  }

  /** The key both sides build for a cell: refused beyond `STORAGE_KEY_MAX` bytes. */
  predicate KeyFits(column: Bytes, inst: Instance) {
    column != [] && inst != [] && |CellText(column, inst)| <= KEY_MAX
  }

  lemma DotSplitUnique(p: Bytes, q: Bytes, x: Bytes, y: Bytes)
    requires DotFree(p) && DotFree(q)
    requires p + [DOT] + x == q + [DOT] + y
    ensures p == q && x == y
  {
    SplitAtDot(p, x);
    SplitAtDot(q, y);
    assert p == Split(p + [DOT] + x)[0] == Split(q + [DOT] + y)[0] == q;
    assert x == (p + [DOT] + x)[|p| + 1..] == (q + [DOT] + y)[|q| + 1..] == y;
  }

  /** Distinct cells have distinct keys, across dot-free columns and all instances. */
  lemma CellTextInjective(c: Bytes, i: Instance, d: Bytes, j: Instance)
    requires DotFree(c) && DotFree(d) && i != [] && j != []
    requires CellText(c, i) == CellText(d, j)
    ensures c == d && i == j
  {
    DotSplitUnique(c, d, Dotted(i), Dotted(j));
    DottedInjective(i, j);
  }

  /** A key that fits never holds more sub-identifiers than the C array. */
  lemma KeyFitsCaps(column: Bytes, inst: Instance)
    requires KeyFits(column, inst)
    ensures |inst| <= 127
  {
    DottedLength(inst);
  }

  /** The instance a key carries under a column, if it is spelled canonically. */
  function InstanceUnder(column: Bytes, key: Bytes): Option<Instance> {
    if Lex.IsPrefix(ColumnPrefix(column), key)
    then ParseDotted(key[|column| + 1..])
    else None
  }

  /** A key names a row exactly when it is that row's cell key. */
  lemma InstanceUnderIff(column: Bytes, key: Bytes, inst: Instance)
    ensures InstanceUnder(column, key) == Some(inst) <==> inst != [] && key == CellText(column, inst)
  {
    if inst != [] && key == CellText(column, inst) {
      ParseOfDotted(inst);
      assert key[|column| + 1..] == Dotted(inst);
    }
    if InstanceUnder(column, key) == Some(inst) {
      DottedOfParse(key[|column| + 1..]);
      assert key == key[..|column| + 1] + key[|column| + 1..];
    }
  }
}
