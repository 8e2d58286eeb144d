/** The two ways to write a scalar, SNMP Set and IPC, against each other. */
module WritePaths {
  import opened Types
  import opened Codec
  import opened Objects
  import opened SetPhases
  import opened ConfigIpc

  /** The IPC message that carries a value. */
  function MessageOf(v: Value): IpcValue {
    match v
    case Int32(i) => IpcValue(TypeInt32, i, 0, 0, [])
    case Uint32(u) => IpcValue(TypeUint32, 0, u, 0, [])
    case Uint64(w) => IpcValue(TypeUint64, 0, 0, w, [])
    case Octets(b) => IpcValue(TypeBytes, 0, 0, 0, b)
    case Oid(_) => IpcValue(TypeUnspecified, 0, 0, 0, [])
  }

  /**
   * Both paths accept exactly the in-range values of the declared type, although
   * each has its own copy of the table of types and bounds.
   */
  lemma SameDomain(x: Scalar, v: Value)
    ensures CheckVarbind(VarbindOf(v), ScalarSyntax(x)) == NoError <==> InRange(ScalarSyntax(x), v)
    ensures WriteStatus(ScalarName(x), Some(MessageOf(v)), None) == StatusOk <==> InRange(ScalarSyntax(x), v)
  {
    AllowlistMatchesMib(x);
  }

  /** And an accepted value leaves the same bytes under the same key on either path. */
  lemma SameEffect(s: Store, x: Scalar, v: Value, r: Request)
    requires InRange(ScalarSyntax(x), v)
    requires Ready(r) && r.target == ScalarTarget(x) && r.vb == VarbindOf(v)
    ensures ActionStore(s, r, None) == WriteConfig(s, ScalarName(x), Some(MessageOf(v)), None)
  {
    AllowlistMatchesMib(x);
    SameDomain(x, v);
    NewValueInRange(r);
  }

  /** Nothing but the four scalars can be written over IPC. */
  lemma OnlyScalars(s: Store, key: Bytes, value: Option<IpcValue>, fault: Option<Rc>)
    requires forall x :: ScalarName(x) != key
    ensures WriteStatus(key, value, fault) == Invalid && WriteConfig(s, key, value, fault) == s
    ensures ReadConfig(s, key) == ReadResponse(Invalid, None)
  {
    assert ScalarName(DeviceName) != key && ScalarName(TempThreshold) != key;
  }
}
