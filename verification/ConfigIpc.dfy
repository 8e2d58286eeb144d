/** `src/ipc_server.c`, request handling: the config allowlist and its two requests. */
module ConfigIpc {
  import opened Types
  import opened Codec
  import opened Objects

  datatype ValueType = TypeUnspecified | TypeInt32 | TypeUint32 | TypeUint64 | TypeBytes

  /** `agentx.ipc.v1.Value`: a tag beside one field per type. */
  datatype IpcValue = IpcValue(kind: ValueType, int32: I32, uint32: U32, uint64: U64, octets: Bytes)

  datatype Status = Unspecified | StatusOk | StatusNotFound | TypeMismatch | Invalid | StatusReadOnly | StorageError

  /** An allowlist entry; the bounds are on the length for byte strings. */
  datatype ConfigObject = ConfigObject(name: Bytes, kind: ValueType, env: EnvId, min: int, max: int)

  const ALLOWLIST: seq<ConfigObject> := [
    ConfigObject(Ascii("deviceName"), TypeBytes, ConfigEnv, 0, 63),
    ConfigObject(Ascii("tempThresholdMilliC"), TypeInt32, CacheEnv, -40000, 125000),
    ConfigObject(Ascii("adminStatusExt"), TypeInt32, ConfigEnv, 1, 3),
    ConfigObject(Ascii("sampleIntervalSec"), TypeUint32, ConfigEnv, 1, 86400)
  ]

  /** `find_config_object`: the first entry with that name. */
  method FindConfigObject(key: Bytes) returns (r: Option<ConfigObject>)
    ensures r == Find(key)
  {
    var i := 0;
    while i < |ALLOWLIST|
      invariant i <= |ALLOWLIST|
      invariant forall j :: 0 <= j < i ==> ALLOWLIST[j].name != key
    {
      if ALLOWLIST[i].name == key {
        FindUnique(key, i);
        return Some(ALLOWLIST[i]);
      }
      i := i + 1;
    }
    FindNone(key);
    return None;
  }

  function ScalarNamed(key: Bytes): Option<Scalar> {
    if key == ScalarName(DeviceName) then Some(DeviceName)
    else if key == ScalarName(TempThreshold) then Some(TempThreshold)
    else if key == ScalarName(AdminStatusExt) then Some(AdminStatusExt)
    else if key == ScalarName(SampleInterval) then Some(SampleInterval)
    else None
  }

  function Entry(s: Scalar): ConfigObject {
    match s
    case DeviceName => ALLOWLIST[0]
    case TempThreshold => ALLOWLIST[1]
    case AdminStatusExt => ALLOWLIST[2]
    case SampleInterval => ALLOWLIST[3]
  }

  function Find(key: Bytes): Option<ConfigObject> {
    match ScalarNamed(key)
    case Some(s) => Some(Entry(s))
    case None => None
  }

  lemma FindUnique(key: Bytes, i: nat)
    requires i < |ALLOWLIST| && ALLOWLIST[i].name == key
    ensures Find(key) == Some(ALLOWLIST[i])
  {
    assert i == 0 || i == 1 || i == 2 || i == 3;
  }

  lemma FindNone(key: Bytes)
    requires forall j :: 0 <= j < |ALLOWLIST| ==> ALLOWLIST[j].name != key
    ensures Find(key) == None
  {
    assert ALLOWLIST[0].name != key && ALLOWLIST[1].name != key;
    assert ALLOWLIST[2].name != key && ALLOWLIST[3].name != key;
  }

  /** The allowlist repeats, entry by entry, what the SNMP handlers declare. */
  lemma AllowlistMatchesMib(s: Scalar)
    ensures var e := Entry(s);
      && Find(ScalarName(s)) == Some(e)
      && e.name == ScalarName(s) && e.env == ScalarEnv(s)
      && ScalarSyntax(s) == (match e.kind
                             case TypeInt32 => IntRange(e.min, e.max)
                             case TypeUint32 => UintRange(e.min, e.max)
                             case _ => OctetSize(63))
      && (e.kind == TypeBytes ==> e.min == 0 && e.max == 63)
  {
  }

  /** `storage_rc_to_status`. */
  function StatusOfRc(rc: Rc): Status {
    match rc
    case Ok => StatusOk
    case NotFound => StatusNotFound
    case TypeErr => TypeMismatch
    case Inval => Invalid
    case TooBig => Invalid
    case _ => StorageError
  }

  /** The value a request carries for an entry, once it is of the entry's type and inside its bounds. */
  function Checked(e: ConfigObject, v: IpcValue): Option<Value> {
    match e.kind
    case TypeInt32 => if e.min <= v.int32 <= e.max then Some(Int32(v.int32)) else None
    case TypeUint32 => if e.min <= v.uint32 <= e.max then Some(Uint32(v.uint32)) else None
    case TypeBytes => if e.min <= |v.octets| <= e.max then Some(Octets(v.octets)) else None
    case _ => None
  }

  /** The value an IPC value message carries: its tag says which field. */
  function Carried(v: IpcValue): Option<Value> {
    match v.kind
    case TypeInt32 => Some(Int32(v.int32))
    case TypeUint32 => Some(Uint32(v.uint32))
    case TypeUint64 => Some(Uint64(v.uint64))
    case TypeBytes => Some(Octets(v.octets))
    case TypeUnspecified => None
  }

  /** `handle_write_config`'s status for every request; `fault` is the storage error, if any. */
  function WriteStatus(key: Bytes, value: Option<IpcValue>, fault: Option<Rc>): Status {
    var e := Find(key);
    if e.None? || value.None? then Invalid
    else if value.value.kind != e.value.kind then TypeMismatch
    else if Checked(e.value, value.value).None? then Invalid
    else if fault.Some? then StatusOfRc(fault.value)
    else StatusOk
  }

  /** The store after the request: written only when the answer is STATUS_OK. */
  function WriteConfig(s: Store, key: Bytes, value: Option<IpcValue>, fault: Option<Rc>): Store {
    if WriteStatus(key, value, None) != StatusOk || fault.Some? then s
    else s.Put(Find(key).value.env, key, Some(Encode(Checked(Find(key).value, value.value).value)))
  }

  /** The scalar's declared type, as a message tag. */
  function KindOf(x: Syntax): ValueType {
    match x
    case IntRange(_, _) => TypeInt32
    case UintRange(_, _) => TypeUint32
    case OctetSize(_) => TypeBytes
  }

  /**
   * What a write of a scalar is answered otherwise: STATUS_INVALID for a missing
   * value or one out of range, STATUS_TYPE_MISMATCH for another type, and the
   * storage error's own status when storage refuses a proper value.
   */
  lemma WriteVerdict(x: Scalar, value: Option<IpcValue>, fault: Option<Rc>)
    ensures var status := WriteStatus(ScalarName(x), value, fault);
      if value.None? then status == Invalid
      else if value.value.kind != KindOf(ScalarSyntax(x)) then status == TypeMismatch
      else if !InRange(ScalarSyntax(x), Carried(value.value).value) then status == Invalid
      else status == match fault
                     case None => StatusOk
                     case Some(NotFound) => StatusNotFound
                     case Some(TypeErr) => TypeMismatch
                     case Some(Inval) => Invalid
                     case Some(TooBig) => Invalid
                     case Some(Ok) => StatusOk
                     case Some(Full) => StorageError
                     case Some(Busy) => StorageError
                     case Some(Io) => StorageError
                     case Some(ReadOnly) => StorageError
  {
    AllowlistMatchesMib(x);
  }

  /**
   * What a read of a scalar is answered when it is not answered with a value:
   * STATUS_NOT_FOUND for an absent one, STATUS_TYPE_MISMATCH for another stored
   * type, and STATUS_INVALID for anything else the accessor cannot decode.
   */
  lemma ReadVerdict(s: Store, x: Scalar)
    ensures var stored, r := s.Lookup(ScalarEnv(x), ScalarName(x)), ReadConfig(s, ScalarName(x));
      && (r.status == StatusOk <==> r.value.Some?)
      && (r.status == StatusNotFound <==> stored.None?)
      && (r.status == TypeMismatch <==> stored.Some? && |stored.value| >= 4 && stored.value[0] != TagFor(ScalarSyntax(x)))
      && r.status in {StatusOk, StatusNotFound, TypeMismatch, Invalid}
  {
    AllowlistMatchesMib(x);
  }

  /** The stored type tag of a declared syntax. */
  function TagFor(x: Syntax): Byte {
    match x
    case IntRange(_, _) => 1
    case UintRange(_, _) => 2
    case OctetSize(_) => 4
  }

  /** The allowlist as published: names, types and ranges. */
  lemma PublishedObjects(v: IpcValue)
    ensures WriteStatus(Ascii("deviceName"), Some(v), None) == StatusOk <==> v.kind == TypeBytes && |v.octets| <= 63
    ensures WriteStatus(Ascii("tempThresholdMilliC"), Some(v), None) == StatusOk <==>
              v.kind == TypeInt32 && -40000 <= v.int32 <= 125000
    ensures WriteStatus(Ascii("adminStatusExt"), Some(v), None) == StatusOk <==> v.kind == TypeInt32 && 1 <= v.int32 <= 3
    ensures WriteStatus(Ascii("sampleIntervalSec"), Some(v), None) == StatusOk <==>
              v.kind == TypeUint32 && 1 <= v.uint32 <= 86400
  {
    PublishedScalars();
    AcceptedBy(DeviceName, v);
    AcceptedBy(TempThreshold, v);
    AcceptedBy(AdminStatusExt, v);
    AcceptedBy(SampleInterval, v);
  }

  lemma AcceptedBy(x: Scalar, v: IpcValue)
    ensures WriteStatus(ScalarName(x), Some(v), None) == StatusOk <==>
              v.kind == KindOf(ScalarSyntax(x)) && InRange(ScalarSyntax(x), Carried(v).value)
  {
    AllowlistMatchesMib(x);
  }

  /** The request carries a value of the declared type, inside the declared range, for a writable scalar. */
  ghost predicate Proper(key: Bytes, value: Option<IpcValue>, x: Scalar, v: Value) {
    key == ScalarName(x) && InRange(ScalarSyntax(x), v) && value.Some? && Carried(value.value) == Some(v)
  }

  /** An IPC write is answered OK exactly when it is proper and meets no storage error. */
  lemma WriteOkIff(key: Bytes, value: Option<IpcValue>, fault: Option<Rc>)
    requires fault.Some? ==> fault.value != Ok
    ensures WriteStatus(key, value, fault) == StatusOk <==> fault.None? && exists x, v :: Proper(key, value, x, v)
  {
    if WriteStatus(key, value, fault) == StatusOk {
      var x := ScalarNamed(key).value;
      AllowlistMatchesMib(x);
      assert Proper(key, value, x, Checked(Entry(x), value.value).value);
    }
    if x, v :| Proper(key, value, x, v) { AllowlistMatchesMib(x); }
  }

  /** It then puts that value under that scalar, and otherwise leaves the store alone. */
  lemma WriteConfigEffect(s: Store, key: Bytes, value: Option<IpcValue>, fault: Option<Rc>)
    requires fault.Some? ==> fault.value != Ok
    ensures WriteStatus(key, value, fault) != StatusOk ==> WriteConfig(s, key, value, fault) == s
    ensures WriteStatus(key, value, fault) == StatusOk ==>
              exists x: Scalar, v: Value ::
                && Proper(key, value, x, v)
                && WriteConfig(s, key, value, fault) == s.Put(ScalarEnv(x), ScalarName(x), Some(Encode(v)))
  {
    if WriteStatus(key, value, fault) == StatusOk {
      var x := ScalarNamed(key).value;
      AllowlistMatchesMib(x);
      var v := Checked(Entry(x), value.value).value;
      assert Proper(key, value, x, v);
      assert WriteConfig(s, key, value, fault) == s.Put(ScalarEnv(x), ScalarName(x), Some(Encode(v)));
    }
  }

  datatype ReadResponse = ReadResponse(status: Status, value: Option<Value>)

  /** `handle_read_config`: the getter of the entry's type, 256-byte buffer for strings. */
  function ReadConfig(s: Store, key: Bytes): ReadResponse {
    match Find(key)
    case None => ReadResponse(Invalid, None)
    case Some(e) =>
      match s.Lookup(e.env, key)
      case None => ReadResponse(StatusNotFound, None)
      case Some(b) =>
        match e.kind
        case TypeInt32 => Answer(var r := GetInt(b); if r.Success? then Success(Int32(r.value)) else Failure(r.rc))
        case TypeUint32 => Answer(var r := GetUint(b); if r.Success? then Success(Uint32(r.value)) else Failure(r.rc))
        case TypeBytes => Answer(var r := GetBytes(b, 256); if r.Success? then Success(Octets(r.value)) else Failure(r.rc))
        case _ => ReadResponse(TypeMismatch, None)
  }

  function Answer(r: Result<Value>): ReadResponse {
    match r
    case Success(v) => ReadResponse(StatusOk, Some(v))
    case Failure(rc) => ReadResponse(StatusOfRc(rc), None)
  }

  /** A stored in-range value is what an IPC read answers. */
  lemma ReadConfigBack(s: Store, x: Scalar, v: Value)
    requires InRange(ScalarSyntax(x), v) && s.Lookup(ScalarEnv(x), ScalarName(x)) == Some(Encode(v))
    ensures ReadConfig(s, ScalarName(x)) == ReadResponse(StatusOk, Some(v))
  {
    AllowlistMatchesMib(x);
    DecodeOfEncode(v);
    GettersAgree(Encode(v), 256);
  }

  /** SNMP GET of a scalar: a value, or nothing (noSuchInstance or genErr). */
  function SnmpGet(s: Store, x: Scalar): Option<Value> {
    match ReadAs(ScalarSyntax(x), s.Lookup(ScalarEnv(x), ScalarName(x)))
    case Success(v) => Some(v)
    case Failure(_) => None
  }

  /**
   * SNMP GET and IPC read report the same value for every store, except for a
   * byte string that fits the IPC buffer of 256 but not the handler's 64.
   */
  lemma GetAndReadAgreeIff(s: Store, x: Scalar)
    ensures SnmpGet(s, x) == ReadConfig(s, ScalarName(x)).value <==>
      !(var stored := s.Lookup(ScalarEnv(x), ScalarName(x));
        x == DeviceName && stored.Some? && GetBytes(stored.value, 256).Success?
        && |GetBytes(stored.value, 256).value| > 64)
  {
    AllowlistMatchesMib(x);
  }

  /** The server's view of the environments, and the two handlers on it. */
  class ConfigService {
    var store: Store

    constructor (store: Store)
      ensures this.store == store
    {
      this.store := store;
    }

    method HandleWriteConfig(key: Bytes, value: Option<IpcValue>, fault: Option<Rc>) returns (status: Status)
      requires fault.Some? ==> fault.value != Ok
      modifies this
      ensures status == WriteStatus(key, value, fault)
      ensures store == WriteConfig(old(store), key, value, fault)
    {
      var found := FindConfigObject(key);
      if found.None? {
        return Invalid;
      }
      if value.None? {
        return Invalid;
      }
      var e, v := found.value, value.value;
      if v.kind != e.kind {
        return TypeMismatch;
      }
      var encoded;
      if e.kind == TypeInt32 {
        if v.int32 < e.min || v.int32 > e.max {
          return Invalid;
        }
        encoded := Encode(Int32(v.int32));
      } else if e.kind == TypeUint32 {
        if v.uint32 < e.min || v.uint32 > e.max {
          return Invalid;
        }
        encoded := Encode(Uint32(v.uint32));
      } else {
        if |v.octets| < e.min || |v.octets| > e.max {
          return Invalid;
        }
        encoded := Encode(Octets(v.octets));
      }
      if fault.Some? {
        return StatusOfRc(fault.value);
      }
      store := store.Put(e.env, key, Some(encoded));
      return StatusOk;
    }
  }
}
