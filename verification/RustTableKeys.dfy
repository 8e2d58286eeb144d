/** `rust-app/src/storage/table.rs`, key half: the independent second implementation. */
module RustTableKeys {
  import opened Types
  import opened Instances
  import TableKeys

  datatype TableKeyError = EmptyColumn | DottedColumn | EmptyInstance | KeyTooLong(len: nat)
  datatype KeyResult = Key(key: Bytes) | Err(error: TableKeyError)

  /** What `cell_key` returns for every input. */
  function CellKeySpec(column: Bytes, inst: Instance): KeyResult {
    if column == [] then Err(EmptyColumn)
    else if !DotFree(column) then Err(DottedColumn)
    else if inst == [] then Err(EmptyInstance)
    else if |CellText(column, inst)| > KEY_MAX then Err(KeyTooLong(|CellText(column, inst)|))
    else Key(CellText(column, inst))
  }

  /** `cell_key`: pushes '.' and the number, sub-identifier by sub-identifier. */
  method CellKey(column: Bytes, inst: Instance) returns (r: KeyResult)
    ensures r == CellKeySpec(column, inst)
    ensures r == Err(EmptyColumn) <==> column == []
    ensures r == Err(DottedColumn) <==> column != [] && '.' as int in column
    ensures r == Err(EmptyInstance) <==> column != [] && '.' as int !in column && inst == []
    ensures inst != [] ==> (r == Err(KeyTooLong(|CellText(column, inst)|)) <==>
              column != [] && '.' as int !in column && |CellText(column, inst)| > 255)
    ensures inst != [] ==> (r == Key(CellText(column, inst)) <==>
              column != [] && '.' as int !in column && |CellText(column, inst)| <= 255)
  {
    if column == [] {
      return Err(EmptyColumn);
    }
    if DOT in column {
      return Err(DottedColumn);
    }
    if inst == [] {
      return Err(EmptyInstance);
    }
    var key := column;
    var i := 0;
    while i < |inst|
      invariant i <= |inst|
      invariant key == if i == 0 then column else CellText(column, inst[..i])
    {
      TableKeys.Extend(inst, i);
      key := key + [DOT];
      key := key + Digits(inst[i]);
      assert key == CellText(column, inst[..i + 1]);
      i := i + 1;
    }
    assert inst[..i] == inst;
    if |key| > KEY_MAX {
      return Err(KeyTooLong(|key|));
    }
    return Key(key);
  }

  /** `parse_instance`: splits on '.', then judges each part. No component limit. */
  method ParseInstance(dotted: Bytes) returns (r: Option<Instance>)
    ensures r == ParseDotted(dotted)
  {
    var parts := Split(dotted);
    if dotted == [] {
      ParseOnePart([]);
      return None;
    }
    var out: Instance := [];
    var i := 0;
    assert parts[0..] == parts;
    assert forall m: Instance :: [] + m == m;
    while i < |parts|
      invariant i <= |parts|
      invariant ParseParts(parts) == Prepend(out, ParseParts(parts[i..]))
    {
      var part := parts[i];
      assert parts[i..][0] == part && parts[i..][1..] == parts[i + 1..];
      if part == [] || !(forall k :: 0 <= k < |part| ==> IsDigit(part[k])) {
        return None;
      }
      if |part| > 1 && part[0] == ZERO {
        return None;
      }
      var n := NatOf(part);
      if n >= U32_LIMIT {
        return None;
      }
      PrependStep(out, n, ParseParts(parts[i + 1..]));
      out := out + [n];
      i := i + 1;
    }
    assert out + [] == out;
    return Some(out);
  }

  function Prepend(done: Instance, rest: Option<Instance>): Option<Instance> {
    if rest.Some? then Some(done + rest.value) else None
  }

  lemma PrependStep(done: Instance, n: U32, rest: Option<Instance>)
    ensures Prepend(done, Prepend([n], rest)) == Prepend(done + [n], rest)
  {
    if rest.Some? { assert done + ([n] + rest.value) == done + [n] + rest.value; }
  }

  /**
   * With the handlers' 256-byte buffer the two key builders succeed together,
   * on the same bytes, exactly on dot-free columns; on a dotted column C may
   * still build a key that Rust refuses.
   */
  lemma CellKeysAgree(column: Bytes, inst: Instance)
    ensures CellKeySpec(column, inst).Key? <==> DotFree(column) && TableKeys.CellKeyRc(column, inst, KEY_MAX + 1) == Ok
    ensures TableKeys.CellKeyRc(column, inst, KEY_MAX + 1) == Ok <==> KeyFits(column, inst)
    ensures CellKeySpec(column, inst).Key? ==> CellKeySpec(column, inst).key == CellText(column, inst)
  {
    if inst != [] { DottedLength(inst); }
  }

  /** The two parsers return the same on every text that fits in a key behind a column and its dot. */
  lemma ParsersAgree(s: Bytes)
    requires |s| <= KEY_MAX - 2
    ensures Capped(ParseDotted(s)) == ParseDotted(s)
  {
    if ParseDotted(s).Some? {
      DottedOfParse(s);
      DottedLength(ParseDotted(s).value);
    }
  }

  /** Beyond that they may differ: 129 components, which only Rust accepts. */
  lemma ParsersDiffer(inst: Instance)
    requires |inst| > SUBID_MAX
    ensures Capped(ParseDotted(Dotted(inst))) == None && ParseDotted(Dotted(inst)) == Some(inst)
  {
    ParseOfDotted(inst);
  }
}
