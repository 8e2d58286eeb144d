/**
 * The writable MIB objects: names, storage mode and declared ranges, as the
 * generated handlers (`src/generated/demo_config.c`,
 * `src/generated/demo_config_table.c`) and `include/storage_mode.h` fix them.
 */
module Objects {
  import opened Types
  import opened Instances
  import opened Storage
  import opened Codec
  import RowSets

  datatype EnvId = ConfigEnv | CacheEnv

  /** Both environments. */
  datatype Store = Store(config: Env, cache: Env) {
    function In(e: EnvId): Env { if e.ConfigEnv? then config else cache }

    function Lookup(e: EnvId, k: Bytes): Option<Bytes> {
      if k in In(e) then Some(In(e)[k]) else None
    }

    /** Write `v`, or delete when `v` is `None`. */
    function Put(e: EnvId, k: Bytes, v: Option<Bytes>): Store {
      var env := if v.Some? then In(e)[k := v.value] else In(e) - {k};
      if e.ConfigEnv? then this.(config := env) else this.(cache := env)
    }
  }

  lemma StoreEqual(s: Store, t: Store)
    requires forall e, k :: s.Lookup(e, k) == t.Lookup(e, k)
    ensures s == t
  {
    forall e: EnvId ensures s.In(e) == t.In(e) {
      forall k: Bytes ensures k in s.In(e) <==> k in t.In(e) { assert s.Lookup(e, k) == t.Lookup(e, k); }
      forall k: Bytes | k in s.In(e) ensures s.In(e)[k] == t.In(e)[k] { assert s.Lookup(e, k) == t.Lookup(e, k); }
    }
    assert s.config == s.In(ConfigEnv) && s.cache == s.In(CacheEnv);
    assert t.config == t.In(ConfigEnv) && t.cache == t.In(CacheEnv);
  }

  /** SYNTAX of a writable object: type and range. */
  datatype Syntax = IntRange(lo: int, hi: int) | UintRange(lo: int, hi: int) | OctetSize(max: nat)

  datatype Scalar = DeviceName | TempThreshold | AdminStatusExt | SampleInterval
  datatype Column = PortDescr | PortAdminStatus | PortAlarmThreshold
  datatype Object = ScalarObject(scalar: Scalar) | CellObject(column: Column, inst: Instance)

  function ScalarName(s: Scalar): Bytes {
    match s
    case DeviceName => Ascii("deviceName")
    case TempThreshold => Ascii("tempThresholdMilliC")
    case AdminStatusExt => Ascii("adminStatusExt")
    case SampleInterval => Ascii("sampleIntervalSec")
  }

  function ColumnName(c: Column): Bytes {
    match c
    case PortDescr => Ascii("portDescr")
    case PortAdminStatus => Ascii("portAdminStatus")
    case PortAlarmThreshold => Ascii("portAlarmThresholdMilliC")
  }

  function ScalarEnv(s: Scalar): EnvId { if s.TempThreshold? then CacheEnv else ConfigEnv }

  function ColumnEnv(c: Column): EnvId { if c.PortAlarmThreshold? then CacheEnv else ConfigEnv }

  function ScalarSyntax(s: Scalar): Syntax {
    match s
    case DeviceName => OctetSize(63)
    case TempThreshold => IntRange(-40000, 125000)
    case AdminStatusExt => IntRange(1, 3)
    case SampleInterval => UintRange(1, 86400)
  }

  function ColumnSyntax(c: Column): Syntax {
    match c
    case PortDescr => OctetSize(63)
    case PortAdminStatus => IntRange(1, 3)
    case PortAlarmThreshold => IntRange(-40000, 125000)
  }

  predicate ValidObject(o: Object) { o.CellObject? ==> ValidInstance(o.inst) }

  function KeyOf(o: Object): Bytes
    requires ValidObject(o)
  {
    match o
    case ScalarObject(s) => ScalarName(s)
    case CellObject(c, inst) => CellText(ColumnName(c), inst)
  }

  function EnvOf(o: Object): EnvId {
    match o
    case ScalarObject(s) => ScalarEnv(s)
    case CellObject(c, _) => ColumnEnv(c)
  }

  function SyntaxOf(o: Object): Syntax {
    match o
    case ScalarObject(s) => ScalarSyntax(s)
    case CellObject(c, _) => ColumnSyntax(c)
  }

  lemma ScalarNameDotFree(s: Scalar)
    ensures DotFree(ScalarName(s))
  {
    match s
    case DeviceName =>
    case TempThreshold =>
    case AdminStatusExt =>
    case SampleInterval =>
  }

  lemma ColumnNameDotFree(c: Column)
    ensures DotFree(ColumnName(c))
  {
    match c
    case PortDescr =>
    case PortAdminStatus =>
    case PortAlarmThreshold =>
  }

  lemma NamesDotFree()
    ensures forall s :: DotFree(ScalarName(s))
    ensures forall c :: DotFree(ColumnName(c))
  {
    forall s: Scalar ensures DotFree(ScalarName(s)) { ScalarNameDotFree(s); }
    forall c: Column ensures DotFree(ColumnName(c)) { ColumnNameDotFree(c); }
  }

  /** Scalar names as published: the keys handlers, IPC, bootstrap and application share. */
  lemma PublishedScalars()
    ensures ScalarName(DeviceName) == Ascii("deviceName") && ScalarEnv(DeviceName) == ConfigEnv
    ensures ScalarName(TempThreshold) == Ascii("tempThresholdMilliC") && ScalarEnv(TempThreshold) == CacheEnv
    ensures ScalarName(AdminStatusExt) == Ascii("adminStatusExt") && ScalarEnv(AdminStatusExt) == ConfigEnv
    ensures ScalarName(SampleInterval) == Ascii("sampleIntervalSec") && ScalarEnv(SampleInterval) == ConfigEnv
  {
  }

  /** And the cells of port `row`. */
  lemma PublishedCells(row: U32)
    ensures KeyOf(CellObject(PortDescr, [row])) == ColumnPrefix(Ascii("portDescr")) + Digits(row)
    ensures KeyOf(CellObject(PortAdminStatus, [row])) == ColumnPrefix(Ascii("portAdminStatus")) + Digits(row)
    ensures KeyOf(CellObject(PortAlarmThreshold, [row])) == ColumnPrefix(Ascii("portAlarmThresholdMilliC")) + Digits(row)
    ensures EnvOf(CellObject(PortDescr, [row])) == EnvOf(CellObject(PortAdminStatus, [row])) == ConfigEnv
    ensures EnvOf(CellObject(PortAlarmThreshold, [row])) == CacheEnv
  {
  }

  /** Distinct objects live under distinct keys, scalars and cells together. */
  lemma KeyOfInjective(o: Object, p: Object)
    requires ValidObject(o) && ValidObject(p) && KeyOf(o) == KeyOf(p)
    ensures o == p
  {
    NamesDotFree();
    match (o, p)
    case (ScalarObject(s), ScalarObject(t)) =>
    case (CellObject(c, i), CellObject(d, j)) =>
      CellTextInjective(ColumnName(c), i, ColumnName(d), j);
    case (ScalarObject(s), CellObject(d, j)) => CellHasDot(d, j);
    case (CellObject(c, i), ScalarObject(t)) => CellHasDot(c, i);
  }

  lemma CellHasDot(c: Column, inst: Instance)
    requires inst != []
    ensures !DotFree(CellText(ColumnName(c), inst))
  {
    var k := CellText(ColumnName(c), inst);
    assert k[|ColumnName(c)|] == DOT;
  }

  /** A stored value of the declared type, inside the declared range. */
  predicate WellTyped(x: Syntax, b: Bytes) {
    match x
    case IntRange(lo, hi) => GetInt(b).Success? && lo <= GetInt(b).value <= hi
    case UintRange(lo, hi) => GetUint(b).Success? && lo <= GetUint(b).value <= hi
    case OctetSize(max) => PayloadFor(b, TAG_BYTES).Success? && |PayloadFor(b, TAG_BYTES).value| <= max
  }

  /** A value of the declared type, inside the declared range. */
  predicate InRange(x: Syntax, v: Value) {
    match x
    case IntRange(lo, hi) => v.Int32? && lo <= v.int32 <= hi
    case UintRange(lo, hi) => v.Uint32? && lo <= v.uint32 <= hi
    case OctetSize(max) => v.Octets? && |v.octets| <= max
  }

  lemma EncodeWellTyped(x: Syntax, v: Value)
    requires InRange(x, v)
    ensures WellTyped(x, Encode(v))
  {
    DecodeOfEncode(v);
    GettersAgree(Encode(v), if v.Octets? then |v.octets| else 0);
  }

  /** The handlers' read of a cell: the getter of the declared type, 64-byte buffer for strings. */
  function ReadAs(x: Syntax, stored: Option<Bytes>): Result<Value> {
    match stored
    case None => Failure(NotFound)
    case Some(b) =>
      match x
      case IntRange(_, _) => (var r := GetInt(b); if r.Success? then Success(Int32(r.value)) else Failure(r.rc))
      case UintRange(_, _) => (var r := GetUint(b); if r.Success? then Success(Uint32(r.value)) else Failure(r.rc))
      case OctetSize(_) => (var r := GetBytes(b, 64); if r.Success? then Success(Octets(r.value)) else Failure(r.rc))
  }

  /** A read never mistakes a present value for an absent one. */
  lemma ReadNotFoundIff(x: Syntax, stored: Option<Bytes>)
    ensures ReadAs(x, stored) == Failure(NotFound) <==> stored.None?
  {
  }

  lemma ReadWellTyped(x: Syntax, b: Bytes)
    requires WellTyped(x, b) && (x.OctetSize? ==> x.max <= 64)
    ensures ReadAs(x, Some(b)).Success? && InRange(x, ReadAs(x, Some(b)).value)
  {
  }

  /** A stored in-range value reads back as itself. */
  lemma ReadBack(x: Syntax, v: Value)
    requires InRange(x, v) && (x.OctetSize? ==> x.max <= 64)
    ensures ReadAs(x, Some(Encode(v))) == Success(v)
  {
    DecodeOfEncode(v);
    GettersAgree(Encode(v), if v.Octets? then |v.octets| else 0);
  }

  /** Writing back what was read is invisible to every accessor. */
  lemma WriteBackInvisible(x: Syntax, b: Bytes)
    requires ReadAs(x, Some(b)).Success?
    ensures ViewOf(Some(Encode(ReadAs(x, Some(b)).value))) == ViewOf(Some(b))
  {
    match x
    case IntRange(_, _) => RewriteInt(b);
    case UintRange(_, _) => RewriteUint(b);
    case OctetSize(_) => RewriteBytes(b, 64);
  }

  /** ... and leaves the bytes alone exactly when they were canonical. */
  lemma WriteBackExactIff(x: Syntax, b: Bytes)
    requires ReadAs(x, Some(b)).Success?
    ensures Encode(ReadAs(x, Some(b)).value) == b <==> Decode(b).Decoded?
  {
    var v := ReadAs(x, Some(b)).value;
    DecodeOfEncode(v);
    if Decode(b).Decoded? {
      GettersAgree(b, 64);
      EncodeOfDecode(b);
    }
  }

  // ---- rows of portConfigTable -----------------------------------------

  predicate CellPresent(s: Store, c: Column, inst: Instance)
    requires ValidInstance(inst)
  {
    CellText(ColumnName(c), inst) in s.In(ColumnEnv(c))
  }

  /** A row of portConfigTable exists while one of its three cells does. */
  predicate PortRow(s: Store, inst: Instance) {
    ValidInstance(inst)
    && (CellPresent(s, PortDescr, inst) || CellPresent(s, PortAdminStatus, inst) || CellPresent(s, PortAlarmThreshold, inst))
  }

  /** `portConfigTable_column_refs`, over given snapshots of the two environments. */
  function PortRefs(config: Snapshot, cache: Snapshot): seq<RowSets.ColumnRef> {
    [RowSets.ColumnRef(config, ColumnName(PortDescr)),
     RowSets.ColumnRef(config, ColumnName(PortAdminStatus)),
     RowSets.ColumnRef(cache, ColumnName(PortAlarmThreshold))]
  }

  /** Which keys make port `row` a row. */
  lemma PublishedRows(s: Store, row: U32)
    ensures PortRow(s, [row]) <==>
              || ColumnPrefix(Ascii("portDescr")) + Digits(row) in s.config
              || ColumnPrefix(Ascii("portAdminStatus")) + Digits(row) in s.config
              || ColumnPrefix(Ascii("portAlarmThresholdMilliC")) + Digits(row) in s.cache
  {
    PublishedCells(row);
  }

  /** The rows a load enumerates are the rows `PortRow` names. */
  lemma PortRowIsRow(config: Snapshot, cache: Snapshot, inst: Instance)
    ensures RowSets.HasRow(PortRefs(config, cache), inst) <==> PortRow(Store(config.data, cache.data), inst)
  {
    var refs := PortRefs(config, cache);
    var s := Store(config.data, cache.data);
    assert RowSets.HasCell(refs[0], inst) <==> ValidInstance(inst) && CellPresent(s, PortDescr, inst);
    assert RowSets.HasCell(refs[1], inst) <==> ValidInstance(inst) && CellPresent(s, PortAdminStatus, inst);
    assert RowSets.HasCell(refs[2], inst) <==> ValidInstance(inst) && CellPresent(s, PortAlarmThreshold, inst);
  }
}
