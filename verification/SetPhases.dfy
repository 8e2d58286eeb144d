/**
 * The Set phases of `src/generated/demo_config.c` (scalars) and
 * `src/generated/demo_config_table.c` (portConfigTable): RESERVE1, RESERVE2,
 * then FREE, or ACTION followed by COMMIT or UNDO, over a list of varbinds with
 * a stash per request.
 */
module SetPhases {
  import opened Types
  import opened Instances
  import opened Codec
  import opened Objects
  import TableKeys
  import Storage

  datatype SnmpError =
    | NoError | NoCreation | WrongType | WrongLength | WrongValue | NotWritable
    | GenErr | ResourceUnavailable | CommitFailed | UndoFailed

  /** The varbind's value as net-snmp parsed it; integers are `long`. */
  datatype Varbind = AsnInteger(v: int) | AsnUnsigned(u: int) | AsnOctets(s: Bytes) | AsnOther

  datatype Target = ScalarTarget(scalar: Scalar) | CellTarget(colnum: int, inst: Instance)

  /** A stash: the object, and the value to write back, or `None` to delete the cell again. */
  datatype Undo = Undo(obj: Object, restore: Option<Value>)

  /** A request: `context` is the iterator's "the row exists" mark. */
  datatype Request = Request(target: Target, vb: Varbind, context: bool, stash: Option<Undo>, error: SnmpError)

  function ColumnOf(colnum: int): Option<Column> {
    if colnum == 2 then Some(PortDescr)
    else if colnum == 3 then Some(PortAdminStatus)
    else if colnum == 4 then Some(PortAlarmThreshold)
    else None
  }

  function ObjectOf(t: Target): Option<Object> {
    match t
    case ScalarTarget(s) => Some(ScalarObject(s))
    case CellTarget(n, inst) => if ColumnOf(n).Some? then Some(CellObject(ColumnOf(n).value, inst)) else None
  }

  /**
   * The table's INDEX is one Unsigned32, so net-snmp's index codec accepts
   * exactly the instances of one sub-identifier.
   */
  predicate IndexValid(inst: Instance) { |inst| == 1 }

  function CheckVarbind(vb: Varbind, x: Syntax): SnmpError {
    match x
    case IntRange(lo, hi) =>
      if !vb.AsnInteger? then WrongType else if lo <= vb.v <= hi then NoError else WrongValue
    case UintRange(lo, hi) =>
      if !vb.AsnUnsigned? then WrongType else if lo <= vb.u <= hi then NoError else WrongValue
    case OctetSize(max) =>
      if !vb.AsnOctets? then WrongType else if |vb.s| <= max then NoError else WrongLength
  }

  // ---- one request per phase -------------------------------------------

  /** RESERVE1. `walk` tells whether the row enumeration itself succeeded. */
  function Reserve1(s: Store, r: Request, walk: bool): Request {
    match r.target
    case ScalarTarget(x) => r.(error := CheckVarbind(r.vb, ScalarSyntax(x)))
    case CellTarget(n, inst) =>
      var context := walk && PortRow(s, inst) && IndexValid(inst);
      r.(context := context,
         error := if !context then NoCreation
                  else if ColumnOf(n).None? then NotWritable
                  else CheckVarbind(r.vb, ColumnSyntax(ColumnOf(n).value)))
  }

  /** What a scalar stashes when its key is absent. */
  function ZeroOf(x: Syntax): Value {
    match x
    case IntRange(_, _) => Int32(0)
    case UintRange(_, _) => Uint32(0)
    case OctetSize(_) => Octets([])
  }

  /** RESERVE2. `oom` tells whether the stash could not be allocated. */
  function Reserve2(s: Store, r: Request, oom: bool): Request {
    match r.target
    case ScalarTarget(x) =>
      var o := ScalarObject(x);
      if oom then r.(error := ResourceUnavailable)
      else
        var was := ReadAs(SyntaxOf(o), s.Lookup(EnvOf(o), KeyOf(o)));
        if was == Failure(NotFound) then r.(stash := Some(Undo(o, Some(ZeroOf(SyntaxOf(o))))))
        else if was.Failure? then r.(error := ResourceUnavailable)
        else r.(stash := Some(Undo(o, Some(was.value))))
    case CellTarget(n, inst) =>
      if !r.context || !IndexValid(inst) then r.(error := GenErr)
      else if ColumnOf(n).None? then r
      else
        var o := CellObject(ColumnOf(n).value, inst);
        if oom then r.(error := ResourceUnavailable)
        else if TableKeys.CellKeyRc(ColumnName(o.column), inst, KEY_MAX + 1) != Ok then r.(error := GenErr)
        else
          var was := ReadAs(SyntaxOf(o), s.Lookup(EnvOf(o), KeyOf(o)));
          if was == Failure(NotFound) then r.(stash := Some(Undo(o, None)))
          else if was.Failure? then r.(error := ResourceUnavailable)
          else r.(stash := Some(Undo(o, Some(was.value))))
  }

  /** The casts `(int32_t)*val.integer` and `(uint32_t)*val.integer`. */
  function NarrowI32(v: int): I32 { AsI32(v % U32_LIMIT) }

  function NarrowU32(v: int): U32 { v % U32_LIMIT }

  /** The value ACTION hands to storage. */
  function NewValue(vb: Varbind, x: Syntax): Value
    requires CheckVarbind(vb, x) == NoError
  {
    match x
    case IntRange(_, _) => Int32(NarrowI32(vb.v))
    case UintRange(_, _) => Uint32(NarrowU32(vb.u))
    case OctetSize(_) => Octets(vb.s)
  }

  /**
   * What RESERVE1 and RESERVE2 establish for a request that neither refused:
   * ACTION only ever sees such requests.
   */
  ghost predicate Ready(r: Request) {
    && r.error == NoError
    && ObjectOf(r.target).Some?
    && ValidObject(ObjectOf(r.target).value)
    && (r.target.CellTarget? ==> r.context && IndexValid(r.target.inst))
    && CheckVarbind(r.vb, SyntaxOf(ObjectOf(r.target).value)) == NoError
    && r.stash.Some? && r.stash.value.obj == ObjectOf(r.target).value
  }

  ghost predicate AllReady(rs: seq<Request>) { forall i :: 0 <= i < |rs| ==> Ready(rs[i]) }

  function Obj(r: Request): Object
    requires ObjectOf(r.target).Some?
  {
    ObjectOf(r.target).value
  }

  /** The phases after RESERVE1 find no row for the request. */
  predicate NoRow(r: Request) { r.target.CellTarget? && (!r.context || !IndexValid(r.target.inst)) }

  /** ACTION finds an object to write. */
  predicate Located(r: Request) { !NoRow(r) && ObjectOf(r.target).Some? }

  /** All ACTION takes for granted: a value it is going to write has passed RESERVE1's check. */
  ghost predicate Vetted(r: Request) {
    Located(r) ==> CheckVarbind(r.vb, SyntaxOf(Obj(r))) == NoError
  }

  ghost predicate AllVetted(rs: seq<Request>) { forall i :: 0 <= i < |rs| ==> Vetted(rs[i]) }

  /** The bytes ACTION stores for a request. */
  function NewBytes(r: Request): Bytes
    requires Located(r) && Vetted(r)
  {
    Encode(NewValue(r.vb, SyntaxOf(Obj(r))))
  }

  /** ACTION on the store: write the new value, unless there is no object or storage refuses. */
  function ActionStore(s: Store, r: Request, fault: Option<Rc>): Store
    requires Vetted(r)
  {
    if fault.Some? || !Located(r) then s
    else s.Put(EnvOf(Obj(r)), KeyOf(Obj(r)), Some(NewBytes(r)))
  }

  /** ACTION on the request: genErr without a row, nothing for a column it does not know. */
  function ActionRequest(r: Request, fault: Option<Rc>): Request {
    if NoRow(r) then r.(error := GenErr)
    else if !Located(r) then r
    else if fault.Some? then r.(error := CommitFailed)
    else r
  }

  /** UNDO on the store: write the stash back, or delete a cell that was not there. */
  function UndoStore(s: Store, r: Request, fault: Option<Rc>): Store
    requires r.stash.Some? ==> ValidObject(r.stash.value.obj)
  {
    if r.stash.None? || fault.Some? then s
    else
      var u := r.stash.value;
      s.Put(EnvOf(u.obj), KeyOf(u.obj), if u.restore.Some? then Some(Encode(u.restore.value)) else None)
  }

  function UndoRequest(r: Request, fault: Option<Rc>): Request {
    if r.stash.None? then r
    else r.(stash := None, error := if fault.Some? then UndoFailed else r.error)
  }

  lemma UndoRequestIs(r: Request, fault: Option<Rc>)
    ensures UndoRequest(r, fault)
         == r.(stash := None, error := if r.stash.Some? && fault.Some? then UndoFailed else r.error)
  {
  }

  /** Dropping the stash, in FREE and COMMIT. */
  function Release(r: Request): Request { r.(stash := None) }

  // ---- whole lists -----------------------------------------------------

  type Faults = seq<Option<Rc>>

  function Reserve1All(s: Store, rs: seq<Request>, walk: bool): seq<Request> {
    seq(|rs|, i requires 0 <= i < |rs| => Reserve1(s, rs[i], walk))
  }

  function Reserve2All(s: Store, rs: seq<Request>, oom: seq<bool>): seq<Request>
    requires |oom| == |rs|
  {
    seq(|rs|, i requires 0 <= i < |rs| => Reserve2(s, rs[i], oom[i]))
  }

  function ActionAll(s: Store, rs: seq<Request>, faults: Faults): Store
    requires |faults| == |rs| && AllVetted(rs)
  {
    if rs == [] then s
    else
      var n := |rs| - 1;
      ActionStore(ActionAll(s, rs[..n], faults[..n]), rs[n], faults[n])
  }

  function ActionRequests(rs: seq<Request>, faults: Faults): seq<Request>
    requires |faults| == |rs|
  {
    seq(|rs|, i requires 0 <= i < |rs| => ActionRequest(rs[i], faults[i]))
  }

  ghost predicate StashesValid(rs: seq<Request>) {
    forall i :: 0 <= i < |rs| ==> rs[i].stash.Some? ==> ValidObject(rs[i].stash.value.obj)
  }

  function UndoAll(s: Store, rs: seq<Request>, faults: Faults): Store
    requires |faults| == |rs| && StashesValid(rs)
  {
    if rs == [] then s
    else
      var n := |rs| - 1;
      UndoStore(UndoAll(s, rs[..n], faults[..n]), rs[n], faults[n])
  }

  ghost predicate NoErrors(rs: seq<Request>) { forall i :: 0 <= i < |rs| ==> rs[i].error == NoError }

  ghost predicate NoFault(faults: Faults) { forall i :: 0 <= i < |faults| ==> faults[i].None? }

  // ---- what the reserve phases establish -------------------------------

  /** A fresh request as the master hands it over. */
  ghost predicate Fresh(r: Request) { r.stash.None? && r.error == NoError && !r.context }

  /** Accepted by RESERVE1. */
  ghost predicate Accepted(r: Request) {
    && r.error == NoError && r.stash.None?
    && ObjectOf(r.target).Some?
    && (r.target.CellTarget? ==> r.context && IndexValid(r.target.inst))
    && CheckVarbind(r.vb, SyntaxOf(Obj(r))) == NoError
  }

  /** The varbind that carries a value, if any does. */
  function VarbindOf(v: Value): Varbind {
    match v
    case Int32(i) => AsnInteger(i)
    case Uint32(u) => AsnUnsigned(u)
    case Octets(b) => AsnOctets(b)
    case _ => AsnOther
  }

  /** A declared syntax whose bounds fit the machine type, as all of this MIB's do. */
  predicate Representable(x: Syntax) {
    match x
    case IntRange(lo, hi) => -0x8000_0000 <= lo && hi < 0x8000_0000
    case UintRange(lo, hi) => 0 <= lo && hi < U32_LIMIT
    case OctetSize(_) => true
  }

  /** RESERVE1's check accepts exactly the varbinds that carry an in-range value. */
  lemma CheckVarbindIff(vb: Varbind, x: Syntax)
    requires Representable(x)
    ensures CheckVarbind(vb, x) == NoError <==> exists v :: InRange(x, v) && vb == VarbindOf(v)
    ensures CheckVarbind(vb, x) == NoError ==> vb == VarbindOf(NewValue(vb, x))
  {
    if CheckVarbind(vb, x) == NoError {
      assert InRange(x, NewValue(vb, x)) && vb == VarbindOf(NewValue(vb, x));
    }
  }

  /**
   * RESERVE1 accepts a cell exactly when its row exists and is an index of the
   * table, its column is one of the three, and its varbind carries an in-range
   * value; an absent row is refused with noCreation whatever else is wrong.
   */
  lemma Reserve1CellIff(s: Store, r: Request)
    requires r.target.CellTarget?
    ensures Reserve1(s, r, true).error == NoError <==>
              && PortRow(s, r.target.inst) && IndexValid(r.target.inst)
              && ColumnOf(r.target.colnum).Some?
              && exists v :: InRange(ColumnSyntax(ColumnOf(r.target.colnum).value), v) && r.vb == VarbindOf(v)
    ensures Reserve1(s, r, true).error == NoCreation <==> !(PortRow(s, r.target.inst) && IndexValid(r.target.inst))
  {
    if ColumnOf(r.target.colnum).Some? {
      CheckVarbindIff(r.vb, ColumnSyntax(ColumnOf(r.target.colnum).value));
    }
  }

  /**
   * What RESERVE1 answers for every request: for a cell first the row, then the
   * column, then the value; wrongType for another ASN.1 type than declared,
   * wrongValue for a number and wrongLength for a string outside the range.
   */
  lemma Reserve1Verdict(s: Store, r: Request, walk: bool)
    ensures var e := Reserve1(s, r, walk).error;
      match r.target
      case ScalarTarget(x) => e == Fault(r.vb, ScalarSyntax(x))
      case CellTarget(n, inst) =>
        && (e == NoCreation <==> !walk || !PortRow(s, inst) || |inst| != 1)
        && (e == NotWritable <==> walk && PortRow(s, inst) && |inst| == 1 && !(2 <= n <= 4))
        && (e != NoCreation && e != NotWritable ==>
              e == Fault(r.vb, if n == 2 then OctetSize(63) else if n == 3 then IntRange(1, 3) else IntRange(-40000, 125000)))
    ensures r.target.CellTarget? ==> (Reserve1(s, r, walk).context <==> walk && PortRow(s, r.target.inst) && |r.target.inst| == 1)
    ensures Reserve1(s, r, walk) == r.(context := Reserve1(s, r, walk).context, error := Reserve1(s, r, walk).error)
  {
  }

  /** The error a varbind deserves under a declared syntax, case by case. */
  ghost function Fault(vb: Varbind, x: Syntax): (e: SnmpError)
    ensures e in {NoError, WrongType, WrongValue, WrongLength}
    ensures e == NoError <==> match x
                              case IntRange(lo, hi) => vb.AsnInteger? && lo <= vb.v <= hi
                              case UintRange(lo, hi) => vb.AsnUnsigned? && lo <= vb.u <= hi
                              case OctetSize(max) => vb.AsnOctets? && |vb.s| <= max
    ensures e == WrongType <==> !(if x.IntRange? then vb.AsnInteger? else if x.UintRange? then vb.AsnUnsigned? else vb.AsnOctets?)
    ensures e == WrongLength ==> x.OctetSize?
    ensures e == WrongValue ==> !x.OctetSize?
  {
    CheckVarbind(vb, x)
  }

  /**
   * What RESERVE2 answers: genErr without a row, resourceUnavailable when the
   * stash cannot be allocated or the old value cannot be read, and a stash
   * exactly when neither happens.
   */
  lemma Reserve2Verdict(s: Store, r: Request, oom: bool)
    requires r.error == NoError && r.stash.None?
    ensures var q := Reserve2(s, r, oom);
      && (q.error == GenErr <==> NoRow(r))
      && (q.error == ResourceUnavailable <==>
            Located(r) && (oom || (var o := Obj(r); var stored := s.Lookup(EnvOf(o), KeyOf(o));
                                   stored.Some? && ReadAs(SyntaxOf(o), stored).Failure?)))
      && (q.error == GenErr || q.error == ResourceUnavailable || q.error == NoError)
      && (q.stash.Some? <==> Located(r) && q.error == NoError)
  {
    match r.target
    case ScalarTarget(x) =>
      ReadNotFoundIff(ScalarSyntax(x), s.Lookup(ScalarEnv(x), ScalarName(x)));
    case CellTarget(n, inst) =>
      if Located(r) {
        LocatedKeysValid(r);
        ReadNotFoundIff(SyntaxOf(Obj(r)), s.Lookup(EnvOf(Obj(r)), KeyOf(Obj(r))));
      }
  }

  /** What ACTION answers, and when nothing stands in the way of COMMIT. */
  lemma ActionErrors(rs: seq<Request>, faults: Faults)
    requires |faults| == |rs| && AllReady(rs)
    ensures forall i :: 0 <= i < |rs| ==>
              ActionRequests(rs, faults)[i].error == if faults[i].Some? then CommitFailed else NoError
    ensures NoErrors(ActionRequests(rs, faults)) <==> forall i :: 0 <= i < |faults| ==> faults[i].None?
  {
    var qs := ActionRequests(rs, faults);
    forall i | 0 <= i < |rs| ensures qs[i].error == if faults[i].Some? then CommitFailed else NoError {
      assert Ready(rs[i]);
    }
    if NoErrors(qs) {
      forall i | 0 <= i < |faults| ensures faults[i].None? { assert qs[i].error == NoError; }
    }
  }

  lemma Reserve1Accepts(s: Store, r: Request, walk: bool)
    requires Fresh(r)
    ensures var q := Reserve1(s, r, walk);
      && q.target == r.target && q.vb == r.vb
      && (q.error == NoError ==> Accepted(q))
      && (q.error == NoError && q.target.CellTarget? ==> PortRow(s, q.target.inst))
  {
  }

  /** What RESERVE2 records for an object, given what is stored under its key. */
  function Recorded(o: Object, stored: Option<Bytes>): Option<Value> {
    if stored.None? then (if o.ScalarObject? then Some(ZeroOf(SyntaxOf(o))) else None)
    else
      match ReadAs(SyntaxOf(o), stored)
      case Success(v) => Some(v)
      case Failure(_) => None
  }

  ghost predicate StashedFrom(s: Store, r: Request) {
    && Ready(r)
    && var stored := s.Lookup(EnvOf(Obj(r)), KeyOf(Obj(r)));
       && r.stash.value.restore == Recorded(Obj(r), stored)
       && (stored.Some? ==> ReadAs(SyntaxOf(Obj(r)), stored).Success?)
  }

  lemma Reserve2Stashes(s: Store, r: Request, oom: bool)
    requires Accepted(r) && Reserve2(s, r, oom).error == NoError
    ensures StashedFrom(s, Reserve2(s, r, oom))
    ensures Reserve2(s, r, oom).(stash := None) == r
  {
    ReadNotFoundIff(SyntaxOf(Obj(r)), None);
  }

  /** Nothing is lost in ACTION's narrowing cast, because RESERVE1 bounded the value. */
  lemma NewValueInRange(r: Request)
    requires Ready(r)
    ensures InRange(SyntaxOf(Obj(r)), NewValue(r.vb, SyntaxOf(Obj(r))))
    ensures match r.vb
            case AsnInteger(v) => NewValue(r.vb, SyntaxOf(Obj(r))) == Int32(v)
            case AsnUnsigned(u) => NewValue(r.vb, SyntaxOf(Obj(r))) == Uint32(u)
            case AsnOctets(b) => NewValue(r.vb, SyntaxOf(Obj(r))) == Octets(b)
            case AsnOther => false
  {
  }

  /**
   * ACTION and UNDO never fail on a key: every key they use is short enough for
   * `table_cell_key`'s 256-byte buffer and passes `validate_key`.
   */
  lemma LocatedKeysValid(r: Request)
    requires Located(r)
    ensures ValidObject(Obj(r)) && 1 <= |KeyOf(Obj(r))| <= 255
    ensures Storage.ValidateKey(KeyOf(Obj(r))) == Ok
    ensures Obj(r).CellObject? ==> TableKeys.CellKeyRc(ColumnName(Obj(r).column), Obj(r).inst, KEY_MAX + 1) == Ok
  {
    if Obj(r).CellObject? { DottedLength(Obj(r).inst); }
  }
}
