/** `src/table_rows.c`, first half: instances to and from key text, in place. */
module TableKeys {
  import opened Types
  import opened Instances
  import Lex
  import Storage

  /** `snprintf(buf + at, size, "%s", text)`: truncates, always terminates, returns the full length. */
  method Snprintf(buf: array<Byte>, at: nat, text: Bytes) returns (n: nat)
    requires at < buf.Length
    modifies buf
    ensures n == |text|
    ensures buf[..at] == old(buf[..at])
    ensures n < buf.Length - at ==> buf[..at + n] == old(buf[..at]) + text && buf[at + n] == 0
  {
    n := |text|;
    var room := if n < buf.Length - at then n else buf.Length - at - 1;
    var i := 0;
    while i < room
      invariant i <= room
      invariant buf[..at + i] == old(buf[..at]) + text[..i]
    {
      buf[at + i] := text[i];
      i := i + 1;
    }
    buf[at + i] := 0;
    assert buf[..at] == buf[..at + i][..at];
  }

  /** The instance text of the first `i` sub-identifiers. */
  ghost function Partial(inst: Instance, i: nat): Bytes
    requires i <= |inst|
  {
    if i == 0 then [] else Dotted(inst[..i])
  }

  /** The return code of `table_instance_format` for a buffer of `size` bytes. */
  function FormatRc(inst: Instance, size: nat): Rc {
    if size == 0 || !ValidInstance(inst) then Inval
    else if |Dotted(inst)| >= size then TooBig
    else Ok
  }

  /** What one turn of the formatting loop prints: the separator and sub-identifier `i`. */
  function Piece(inst: Instance, i: nat): Bytes
    requires i < |inst|
  {
    (if i == 0 then [] else [DOT]) + Digits(inst[i])
  }

  /** The formatting loop. `at` is how many sub-identifiers no longer fitted. */
  method FormatLoop(inst: Instance, buf: array<Byte>, off: nat) returns (ok: bool, used: nat, ghost at: nat)
    requires off < buf.Length
    modifies buf
    ensures buf[..off] == old(buf[..off])
    ensures ok ==> off + used < buf.Length && used == |Partial(inst, |inst|)| && (inst != [] ==> buf[off + used] == 0)
    ensures ok ==> buf[..off + used] == old(buf[..off]) + Partial(inst, |inst|)
    ensures !ok ==> 1 <= at <= |inst| && off + |Partial(inst, at)| >= buf.Length
  {
    at := 0;
    ghost var head := buf[..off];
    ghost var done := head;
    var end := off;
    var i := 0;
    while i < |inst|
      invariant i <= |inst| && end == |done| < buf.Length
      invariant buf[..end] == done
      invariant Printed(done, head, inst, i)
      invariant i > 0 ==> buf[end] == 0
    {
      ghost var piece := Piece(inst, i);
      PrintedStep(done, head, inst, i);
      var n := Snprintf(buf, end, Piece(inst, i));
      if n >= buf.Length - end {
        assert buf[..off] == buf[..end][..off] == head;
        return false, end - off, i + 1;
      }
      done := done + piece;
      end := end + n;
      i := i + 1;
    }
    assert buf[..off] == buf[..end][..off] == head;
    return true, end - off, 0;
  }

  /** `done` is `head` followed by the first `i` sub-identifiers. */
  ghost predicate Printed(done: Bytes, head: Bytes, inst: Instance, i: nat)
    requires i <= |inst|
  {
    done == head + Partial(inst, i) && |done| == |head| + |Partial(inst, i)| && |done| >= |head| && done[..|head|] == head
  }

  lemma PrintedStep(done: Bytes, head: Bytes, inst: Instance, i: nat)
    requires i < |inst| && Printed(done, head, inst, i)
    ensures Printed(done + Piece(inst, i), head, inst, i + 1)
  {
    Extend(inst, i);
    ConcatAssoc(head, Partial(inst, i), Piece(inst, i));
  }

  /** `table_instance_format(inst, buf + off, buflen - off)`. */
  method InstanceFormat(inst: Instance, buf: array<Byte>, off: nat) returns (rc: Rc, used: nat)
    requires off <= buf.Length
    modifies buf
    ensures rc == FormatRc(inst, buf.Length - off)
    ensures rc == Inval <==> off == buf.Length || |inst| == 0 || |inst| > 128
    ensures rc == Ok <==> off < buf.Length && 1 <= |inst| <= 128 && |Dotted(inst)| < buf.Length - off
    ensures rc == Ok || rc == Inval || rc == TooBig
    ensures buf[..off] == old(buf[..off])
    ensures rc == Ok ==> off + used < buf.Length && buf[off + used] == 0
    ensures rc == Ok ==> buf[..off + used] == old(buf[..off]) + Dotted(inst)
  {
    if off == buf.Length || |inst| == 0 || |inst| > SUBID_MAX {
      return Inval, 0;
    }
    var ok;
    ghost var at;
    ok, used, at := FormatLoop(inst, buf, off);
    if !ok {
      PrefixLength(inst, at);
      return TooBig, 0;
    }
    PartialFull(inst);
    return Ok, used;
  }

  lemma PartialFull(inst: Instance)
    requires inst != []
    ensures Partial(inst, |inst|) == Dotted(inst)
  {
    assert inst[..|inst|] == inst;
  }

  lemma ConcatAssoc(a: Bytes, b: Bytes, c: Bytes)
    ensures a + b + c == a + (b + c)
  {
  }

  lemma Extend(inst: Instance, i: nat)
    requires i < |inst|
    ensures Dotted(inst[..i + 1]) == Partial(inst, i) + ((if i == 0 then [] else [DOT]) + Digits(inst[i]))
  {
    if i > 0 {
      DottedSnoc(inst[..i], inst[i]);
      assert inst[..i + 1] == inst[..i] + [inst[i]];
    } else {
      assert inst[..1] == [inst[0]];
    }
  }

  lemma {:induction false} PrefixLength(inst: Instance, i: nat)
    requires 1 <= i <= |inst|
    ensures |Dotted(inst[..i])| <= |Dotted(inst)|
    decreases |inst| - i
  {
    if i < |inst| {
      Extend(inst, i);
      PrefixLength(inst, i + 1);
    } else {
      assert inst[..i] == inst;
    }
  }

  /** A 1408-byte buffer holds any instance the C side can represent. */
  lemma FormatBufferSufficient(inst: Instance, size: nat)
    requires ValidInstance(inst) && size >= 1408
    ensures FormatRc(inst, size) == Ok
  {
    DottedLength(inst);
  }

  /** `validate_key` takes every key `table_cell_key` can build, and turns away only empty and longer ones. */
  lemma BuiltKeysValid(column: Bytes, inst: Instance, size: nat, k: Bytes)
    ensures CellKeyRc(column, inst, size) == Ok ==> Storage.ValidateKey(CellText(column, inst)) == Ok
    ensures Storage.ValidateKey(k) == Inval <==> k == []
    ensures Storage.ValidateKey(k) == TooBig <==> |k| > 255
    ensures Storage.ValidateKey(k) in {Ok, Inval, TooBig}
  {
    if inst != [] { DottedLength(inst); }
  }

  /** What is still to be parsed, appended to what has been. */
  ghost function Continue(done: Instance, rest: Bytes): Option<Instance> {
    match ParseDotted(rest)
    case None => None
    case Some(more) => Some(done + more)
  }

  lemma SliceOfSlice(s: Bytes, a: nat, b: nat)
    requires a <= b <= |s|
    ensures s[a..][..b - a] == s[a..b] && s[a..][b - a..] == s[b..]
  {
  }

  lemma NextDigit(s: Bytes, start: nat, pos: nat)
    requires start <= pos < |s| && AllDigits(s[start..pos]) && IsDigit(s[pos])
    ensures AllDigits(s[start..pos + 1])
    ensures NatOf(s[start..pos + 1]) == NatOf(s[start..pos]) * 10 + (s[pos] - ZERO)
  {
    var p, q := s[start..pos], s[start..pos + 1];
    assert q == p + [s[pos]];
    assert q[..|q| - 1] == p && q[|q| - 1] == s[pos];
  }

  /**
   * The inner loop of `table_instance_parse`: the value of the digits from
   * `start`, given up as soon as it leaves 32 bits, which is what keeps the
   * `uint64_t` accumulator from overflowing.
   */
  method ScanDigits(s: Bytes, start: nat) returns (pos: nat, value: U64)
    requires start < |s|
    ensures start <= pos <= |s| && AllDigits(s[start..pos]) && value == NatOf(s[start..pos])
    ensures value < U32_LIMIT ==> pos == |s| || !IsDigit(s[pos])
  {
    pos, value := start, 0;
    assert s[start..start] == [];
    while pos < |s| && IsDigit(s[pos])
      invariant start <= pos <= |s|
      invariant AllDigits(s[start..pos])
      invariant value == NatOf(s[start..pos]) < U32_LIMIT
    {
      NextDigit(s, start, pos);
      value := value * 10 + (s[pos] - ZERO);
      pos := pos + 1;
      if value > 0xFFFF_FFFF {
        return;
      }
    }
  }

  /**
   * `table_instance_parse`: one left-to-right pass. It accepts exactly the
   * texts that `table_instance_format` can produce (`ParseExact` below).
   */
  method InstanceParse(s: Bytes) returns (r: Option<Instance>)
    ensures r == Capped(ParseDotted(s))
  {
    if |s| == 0 {
      return None;
    }
    var inst: Instance := [];
    var pos := 0;
    ContinueStart(s);
    while pos < |s|
      invariant pos < |s|
      invariant |inst| <= SUBID_MAX
      invariant ParseDotted(s) == Continue(inst, s[pos..])
      decreases |s| - pos
    {
      ParseNonEmpty(s[pos..]);
      if |inst| == SUBID_MAX {
        return None;
      }
      var start := pos;
      var value;
      pos, value := ScanDigits(s, start);
      SliceOfSlice(s, start, pos);
      FirstPart(s[start..], pos - start);
      if value > 0xFFFF_FFFF || pos == start || (pos - start > 1 && s[start] == ZERO) {
        return None;
      }
      if pos == |s| {
        return Some(inst + [value]);
      }
      if s[pos] != DOT {
        return None;
      }
      ContinueStep(inst, s[start..], pos - start);
      SliceOfSlice(s, start, pos + 1);
      inst := inst + [value];
      pos := pos + 1;
      if pos == |s| {
        ContinueEmpty(inst, s[pos..]);
        return None;
      }
    }
  }

  lemma ContinueStart(s: Bytes)
    ensures ParseDotted(s) == Continue([], s[0..])
  {
    assert s[0..] == s;
    if ParseDotted(s).Some? { assert [] + ParseDotted(s).value == ParseDotted(s).value; }
  }

  lemma ContinueEmpty(done: Instance, rest: Bytes)
    requires rest == []
    ensures Continue(done, rest).None?
  {
    ParseOnePart([]);
  }

  lemma DigitsHaveNoDot(p: Bytes)
    requires AllDigits(p)
    ensures DotFree(p)
  {
  }

  lemma ParseNonEmpty(rest: Bytes)
    ensures ParseDotted(rest).Some? ==> ParseDotted(rest).value != []
  {
    if ParseDotted(rest).Some? { DottedOfParse(rest); }
  }

  /** The first `k` characters are digits: what that says about the whole text. */
  lemma FirstPart(s: Bytes, k: nat)
    requires k <= |s| && AllDigits(s[..k])
    ensures NatOf(s[..k]) >= U32_LIMIT ==> ParseDotted(s).None?
    ensures k == |s| || !IsDigit(s[k]) ==> !CanonicalPart(s[..k]) ==> ParseDotted(s).None?
    ensures k < |s| && !IsDigit(s[k]) && s[k] != DOT ==> ParseDotted(s).None?
    ensures k == |s| && DecodePart(s[..k]).Some? ==> ParseDotted(s) == Some([DecodePart(s[..k]).value])
  {
    var p, rest := s[..k], s[k..];
    assert s == p + rest;
    DigitsHaveNoDot(p);
    FirstPartExtends(p, rest);
    var first := Split(s)[0];
    if AllDigits(first) { NatOfMonotone(p, first); }
    if k == |s| {
      assert p == s;
      SplitDotFree(p);
      ParseOnePart(p);
    } else if s[k] == DOT {
      assert s == p + [DOT] + s[k + 1..];
      SplitAtDot(p, s[k + 1..]);
    } else {
      assert first[k] == (p + [rest[0]])[k] == s[k];
    }
  }

  lemma ContinueStep(done: Instance, s: Bytes, k: nat)
    requires k < |s| && s[k] == DOT && DotFree(s[..k]) && DecodePart(s[..k]).Some?
    ensures Continue(done, s) == Continue(done + [DecodePart(s[..k]).value], s[k + 1..])
  {
    assert s == s[..k] + [DOT] + s[k + 1..];
    SplitAtDot(s[..k], s[k + 1..]);
    var n := DecodePart(s[..k]).value;
    if ParseDotted(s[k + 1..]).Some? {
      var more := ParseDotted(s[k + 1..]).value;
      assert done + ([n] + more) == done + [n] + more;
    }
  }

  /** Parsing and formatting are inverse bijections on instances of 1..128 sub-identifiers. */
  lemma ParseExact(s: Bytes, inst: Instance)
    ensures Capped(ParseDotted(s)) == Some(inst) <==> ValidInstance(inst) && Dotted(inst) == s
  {
    if ValidInstance(inst) { ParseOfDotted(inst); }
    if ParseDotted(s).Some? { DottedOfParse(s); }
  }

  /** The return code of `table_cell_key`. */
  function CellKeyRc(column: Bytes, inst: Instance, size: nat): Rc {
    if column == [] then Inval
    else if |column| + 2 > size then TooBig
    else if !ValidInstance(inst) then Inval
    else if |CellText(column, inst)| >= size || |CellText(column, inst)| > KEY_MAX then TooBig
    else Ok
  }

  /** `table_cell_key(column, inst, buf, buflen)`. */
  method TableCellKey(column: Bytes, inst: Instance, buf: array<Byte>) returns (rc: Rc, len: nat)
    modifies buf
    ensures rc == CellKeyRc(column, inst, buf.Length)
    ensures rc == Inval <==> column == [] || (|column| + 2 <= buf.Length && !(1 <= |inst| <= 128))
    ensures rc == Ok <==>
              && column != [] && 1 <= |inst| <= 128
              && |CellText(column, inst)| < buf.Length && |CellText(column, inst)| <= 255
    ensures rc == Ok || rc == Inval || rc == TooBig
    ensures rc == Ok ==> len < buf.Length && buf[..len] == CellText(column, inst) && buf[len] == 0
  {
    var collen := |column|;
    if collen == 0 {
      return Inval, 0;
    }
    if collen + 2 > buf.Length {
      return TooBig, 0;
    }
    forall i | 0 <= i < collen { buf[i] := column[i]; }
    buf[collen] := DOT;
    assert buf[..collen + 1] == ColumnPrefix(column);
    var used;
    rc, used := InstanceFormat(inst, buf, collen + 1);
    if rc != Ok {
      return rc, 0;
    }
    len := collen + 1 + used;
    if len > KEY_MAX {
      return TooBig, 0;
    }
  }

  /** `table_instance_compare`: the sign of SNMP lexicographic order. */
  method InstanceCompare(a: Instance, b: Instance) returns (c: int)
    ensures c < 0 <==> Lex.Precedes(a, b)
    ensures c == 0 <==> a == b
    ensures c > 0 <==> Lex.Precedes(b, a)
  {
    var shared := if |a| < |b| then |a| else |b|;
    var i := 0;
    while i < shared
      invariant i <= shared
      invariant a[..i] == b[..i]
    {
      if a[i] != b[i] {
        if a[i] < b[i] {
          Lex.PrecedesOneWay(a, b);
          return -1;
        }
        Lex.PrecedesOneWay(b, a);
        return 1;
      }
      i := i + 1;
    }
    if |a| == |b| {
      assert a == a[..i] == b[..i] == b;
      Lex.PrecedesIrreflexive(a);
      return 0;
    }
    if |a| < |b| {
      assert a == a[..i] == b[..|a|];
      Lex.PrecedesOneWay(a, b);
      return -1;
    }
    assert b == b[..i] == a[..|b|];
    Lex.PrecedesOneWay(b, a);
    return 1;
  }
}
