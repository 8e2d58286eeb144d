/** `src/generated/storage_bootstrap.c`: seeding both environments at startup. */
module Bootstrap {
  import opened Types
  import opened Instances
  import opened Storage
  import opened Codec
  import opened Objects

  datatype Seed = Seed(key: Bytes, value: Value)

  function CellSeed(c: Column, v: Value, row: U32): Seed { Seed(CellText(ColumnName(c), [row]), v) }

  /** One column's cells for rows 1..n. */
  function RowSeeds(c: Column, v: Value, n: nat): seq<Seed>
    requires n < 0xFFFF_FFFF
  {
    seq(n, i requires 0 <= i < n => CellSeed(c, v, i + 1))
  }

  /** DEFVAL of each writable column. */
  function ColumnDefault(c: Column): Value {
    match c
    case PortDescr => Octets(Ascii("port"))
    case PortAdminStatus => Int32(1)
    case PortAlarmThreshold => Int32(80000)
  }

  function ScalarDefault(s: Scalar): Value {
    match s
    case DeviceName => Octets(Ascii("agentx-demo"))
    case TempThreshold => Int32(70000)
    case AdminStatusExt => Int32(1)
    case SampleInterval => Uint32(60)
  }

  function ConfigScalars(): seq<Seed> {
    [Seed(ScalarName(DeviceName), ScalarDefault(DeviceName)),
     Seed(ScalarName(AdminStatusExt), ScalarDefault(AdminStatusExt)),
     Seed(ScalarName(SampleInterval), ScalarDefault(SampleInterval))]
  }

  function CacheScalars(): seq<Seed> {
    [Seed(ScalarName(TempThreshold), ScalarDefault(TempThreshold)),
     Seed(Ascii("cpuTempMilliC"), Int32(0)),
     Seed(Ascii("sampleCount"), Uint32(0)),
     Seed(Ascii("lastUpdateEpoch"), Uint32(0)),
     Seed(Ascii("statusText"), Octets(Ascii("initialising")))]
  }

  function ConfigSeeds(n: nat): seq<Seed>
    requires n < 0xFFFF_FFFF
  {
    ConfigScalars()
    + RowSeeds(PortDescr, ColumnDefault(PortDescr), n)
    + RowSeeds(PortAdminStatus, ColumnDefault(PortAdminStatus), n)
  }

  function CacheSeeds(n: nat): seq<Seed>
    requires n < 0xFFFF_FFFF
  {
    CacheScalars() + RowSeeds(PortAlarmThreshold, ColumnDefault(PortAlarmThreshold), n)
  }

  /** Seeding on values: a key that exists is left alone unless overwriting. */
  function Plant(env: Env, seeds: seq<Seed>, overwrite: bool): Env {
    if seeds == [] then env
    else
      var last := seeds[|seeds| - 1];
      var done := Plant(env, seeds[..|seeds| - 1], overwrite);
      if overwrite || last.key !in done then done[last.key := Encode(last.value)] else done
  }

  lemma PlantSnoc(env: Env, seeds: seq<Seed>, x: Seed, overwrite: bool)
    ensures Plant(env, seeds + [x], overwrite) ==
      var done := Plant(env, seeds, overwrite);
      if overwrite || x.key !in done then done[x.key := Encode(x.value)] else done
  {
    assert (seeds + [x])[..|seeds|] == seeds;
  }

  /** The return code of the typed read used as an existence probe (1-byte buffer for strings). */
  function ProbeRc(stored: Option<Bytes>, v: Value): Rc {
    match stored
    case None => NotFound
    case Some(b) =>
      match v
      case Int32(_) => (if GetInt(b).Success? then Ok else GetInt(b).rc)
      case Uint32(_) => (if GetUint(b).Success? then Ok else GetUint(b).rc)
      case Uint64(_) => (if GetU64(b).Success? then Ok else GetU64(b).rc)
      case Octets(_) => (if GetBytes(b, 1).Success? then Ok else GetBytes(b, 1).rc)
      case Oid(_) => (if GetOid(b, 1).Success? then Ok else GetOid(b, 1).rc)
  }

  /** Only absence reads as NOTFOUND, even for values the probe cannot decode or hold. */
  lemma ProbeNotFoundIff(stored: Option<Bytes>, v: Value)
    ensures ProbeRc(stored, v) == NotFound <==> stored.None?
  {
  }

  /** An environment handle, and a write transaction on it. */
  class Environment {
    var data: Env

    constructor (data: Env)
      ensures this.data == data
    {
      this.data := data;
    }

    /**
     * Probe, then set when absent, inside the transaction's working copy.
     * `fault` is what LMDB makes of the put.
     */
    method SeedKey(work: Env, x: Seed, overwrite: bool, fault: Option<Rc>) returns (rc: Rc, next: Env)
      requires fault.Some? ==> fault.value != Ok
      ensures rc == Ok ==> next == if overwrite || x.key !in work then work[x.key := Encode(x.value)] else work
      ensures rc != Ok ==> fault == Some(rc)
    {
      next := work;
      var exists_rc := NotFound;
      if !overwrite {
        exists_rc := ProbeRc(if x.key in work then Some(work[x.key]) else None, x.value);
      }
      ProbeNotFoundIff(if x.key in work then Some(work[x.key]) else None, x.value);
      if overwrite || exists_rc == NotFound {
        if fault.Some? {
          return fault.value, work;
        }
        next := work[x.key := Encode(x.value)];
      }
      return Ok, next;
    }

    /**
     * One write transaction over a list of objects and then rows: commit makes
     * all of it visible, any failure none of it. `faults(i)` is what LMDB makes
     * of the i-th put, the last one of the commit.
     */
    method SeedTransaction(seeds: seq<Seed>, overwrite: bool, faults: nat -> Option<Rc>) returns (rc: Rc)
      requires forall i :: faults(i).Some? ==> faults(i).value != Ok
      modifies this
      ensures rc == Ok ==> data == Plant(old(data), seeds, overwrite)
      ensures rc != Ok ==> data == old(data) && exists i :: faults(i) == Some(rc)
    {
      var work := data;
      var i := 0;
      while i < |seeds|
        invariant i <= |seeds| && data == old(data)
        invariant work == Plant(old(data), seeds[..i], overwrite)
      {
        assert seeds[..i + 1] == seeds[..i] + [seeds[i]];
        PlantSnoc(old(data), seeds[..i], seeds[i], overwrite);
        rc, work := SeedKey(work, seeds[i], overwrite, faults(i));
        if rc != Ok {
          return;
        }
        i := i + 1;
      }
      assert seeds[..i] == seeds;
      if faults(i).Some? {
        return faults(i).value;
      }
      data := work;
      return Ok;
    }

    /** `config_bootstrap_defaults`, for a firmware provisioning `n` rows. */
    method ConfigBootstrap(n: nat, faults: nat -> Option<Rc>) returns (rc: Rc)
      requires n < 0xFFFF_FFFF
      requires forall i :: faults(i).Some? ==> faults(i).value != Ok
      modifies this
      ensures rc == Ok ==> data == Plant(old(data), ConfigSeeds(n), false)
      ensures rc != Ok ==> data == old(data) && exists i :: faults(i) == Some(rc)
    {
      var descr := ProvisionRows(PortDescr, n);
      var admin := ProvisionRows(PortAdminStatus, n);
      rc := SeedTransaction(ConfigScalars() + descr + admin, false, faults);
    }

    /** `cache_bootstrap_defaults`. */
    method CacheBootstrap(n: nat, overwrite: bool, faults: nat -> Option<Rc>) returns (rc: Rc)
      requires n < 0xFFFF_FFFF
      requires forall i :: faults(i).Some? ==> faults(i).value != Ok
      modifies this
      ensures rc == Ok ==> data == Plant(old(data), CacheSeeds(n), overwrite)
      ensures rc != Ok ==> data == old(data) && exists i :: faults(i) == Some(rc)
    {
      var alarm := ProvisionRows(PortAlarmThreshold, n);
      rc := SeedTransaction(CacheScalars() + alarm, overwrite, faults);
    }
  }

  /** The `for (row = 1; row <= TABLE_ROWS; row++)` loops: one cell per provisioned row. */
  method ProvisionRows(c: Column, n: nat) returns (seeds: seq<Seed>)
    requires n < 0xFFFF_FFFF
    ensures seeds == RowSeeds(c, ColumnDefault(c), n)
  {
    seeds := [];
    var row: U32 := 1;
    while row <= n
      invariant 1 <= row <= n + 1
      invariant seeds == RowSeeds(c, ColumnDefault(c), row - 1)
    {
      seeds := seeds + [CellSeed(c, ColumnDefault(c), row)];
      row := row + 1;
    }
  }

  // ---- what seeding does, key by key -----------------------------------

  ghost predicate Sows(seeds: seq<Seed>, k: Bytes, v: Value) {
    exists i :: 0 <= i < |seeds| && seeds[i] == Seed(k, v)
  }

  ghost predicate SowsKey(seeds: seq<Seed>, k: Bytes) {
    exists i :: 0 <= i < |seeds| && seeds[i].key == k
  }

  /** Seeds that agree on every key they share. */
  ghost predicate Functional(seeds: seq<Seed>) {
    forall i, j :: 0 <= i < |seeds| && 0 <= j < |seeds| && seeds[i].key == seeds[j].key ==> seeds[i] == seeds[j]
  }

  /** An existing key is never changed; an absent one gets its seed, if it has one. */
  lemma {:induction false} PlantLookup(env: Env, seeds: seq<Seed>, k: Bytes)
    requires Functional(seeds)
    ensures k in env ==> k in Plant(env, seeds, false) && Plant(env, seeds, false)[k] == env[k]
    ensures k !in env ==> (k in Plant(env, seeds, false) <==> SowsKey(seeds, k))
    ensures k !in env ==> forall v :: Sows(seeds, k, v) ==> Plant(env, seeds, false)[k] == Encode(v)
  {
    if seeds != [] {
      var n := |seeds| - 1;
      var init := seeds[..n];
      assert forall i :: 0 <= i < n ==> init[i] == seeds[i];
      PlantLookup(env, init, k);
      forall v | k !in env && Sows(seeds, k, v) ensures Plant(env, seeds, false)[k] == Encode(v) {
        SowsInit(seeds, k, v);
      }
    }
  }

  lemma SowsInit(seeds: seq<Seed>, k: Bytes, v: Value)
    requires Functional(seeds) && seeds != [] && Sows(seeds, k, v)
    ensures var n := |seeds| - 1;
      if SowsKey(seeds[..n], k) then Sows(seeds[..n], k, v) else seeds[n] == Seed(k, v)
  {
    var n := |seeds| - 1;
    var i :| 0 <= i < |seeds| && seeds[i] == Seed(k, v);
    if j :| 0 <= j < n && seeds[..n][j].key == k {
      assert seeds[j].key == seeds[i].key;
      assert seeds[..n][j] == Seed(k, v);
    }
    if i < n { assert seeds[..n][i].key == k; }
  }

  /** Overwriting, every seeded key gets its seed and every other key is left alone. */
  lemma {:induction false} PlantOverwrites(env: Env, seeds: seq<Seed>, k: Bytes)
    requires Functional(seeds)
    ensures forall v :: Sows(seeds, k, v) ==> k in Plant(env, seeds, true) && Plant(env, seeds, true)[k] == Encode(v)
    ensures !SowsKey(seeds, k) ==> (k in Plant(env, seeds, true) <==> k in env)
    ensures !SowsKey(seeds, k) && k in env ==> Plant(env, seeds, true)[k] == env[k]
  {
    if seeds != [] {
      var n := |seeds| - 1;
      assert forall i :: 0 <= i < n ==> seeds[..n][i] == seeds[i];
      PlantOverwrites(env, seeds[..n], k);
      forall v | Sows(seeds, k, v) ensures k in Plant(env, seeds, true) && Plant(env, seeds, true)[k] == Encode(v) {
        SowsInit(seeds, k, v);
        var i :| 0 <= i < |seeds| && seeds[i] == Seed(k, v);
        if seeds[n].key == k { assert seeds[n] == seeds[i]; }
      }
    }
  }

  /** Seeding a superset afterwards is the same as seeding only the superset. */
  lemma PlantAbsorbs(env: Env, some: seq<Seed>, all: seq<Seed>)
    requires Functional(all) && forall i :: 0 <= i < |some| ==> some[i] in all
    ensures Plant(Plant(env, some, false), all, false) == Plant(env, all, false)
  {
    assert Functional(some);
    var once, both := Plant(env, some, false), Plant(env, all, false);
    var twice := Plant(once, all, false);
    forall k: Bytes
      ensures k in twice <==> k in both
      ensures k in both ==> twice[k] == both[k]
    {
      PlantLookup(env, some, k);
      PlantLookup(env, all, k);
      PlantLookup(once, all, k);
      if k !in env && SowsKey(some, k) {
        var i :| 0 <= i < |some| && some[i].key == k;
        assert Sows(some, k, some[i].value);
        var j :| 0 <= j < |all| && all[j] == some[i];
        assert Sows(all, k, some[i].value);
      } else if k !in env && SowsKey(all, k) {
        var j :| 0 <= j < |all| && all[j].key == k;
        assert Sows(all, k, all[j].value);
      }
    }
  }

  // ---- the two seed lists ----------------------------------------------

  ghost predicate ConfigSeed(x: Seed, n: nat) {
    || (exists s: Scalar :: ScalarEnv(s) == ConfigEnv && x == Seed(ScalarName(s), ScalarDefault(s)))
    || (exists c: Column, r: U32 :: ColumnEnv(c) == ConfigEnv && 1 <= r <= n && x == CellSeed(c, ColumnDefault(c), r))
  }

  lemma ConfigSeedsExact(n: nat, x: Seed)
    requires n < 0xFFFF_FFFF
    ensures x in ConfigSeeds(n) <==> ConfigSeed(x, n)
  {
    RowSeedsExact(PortDescr, n, x);
    RowSeedsExact(PortAdminStatus, n, x);
  }

  lemma RowSeedsExact(c: Column, n: nat, x: Seed)
    requires n < 0xFFFF_FFFF
    ensures x in RowSeeds(c, ColumnDefault(c), n) <==> exists r: U32 :: 1 <= r <= n && x == CellSeed(c, ColumnDefault(c), r)
  {
    var rows := RowSeeds(c, ColumnDefault(c), n);
    if r: U32 :| 1 <= r <= n && x == CellSeed(c, ColumnDefault(c), r) {
      assert rows[r - 1] == x;
    }
    if x in rows {
      var i :| 0 <= i < |rows| && rows[i] == x;
      var r: U32 := i + 1;
      assert x == CellSeed(c, ColumnDefault(c), r);
    }
  }

  lemma ConfigFunctional(n: nat)
    requires n < 0xFFFF_FFFF
    ensures Functional(ConfigSeeds(n))
  {
    var seeds := ConfigSeeds(n);
    forall i, j | 0 <= i < |seeds| && 0 <= j < |seeds| && seeds[i].key == seeds[j].key ensures seeds[i] == seeds[j] {
      ConfigSeedsExact(n, seeds[i]);
      ConfigSeedsExact(n, seeds[j]);
      ConfigSeedUnique(seeds[i], seeds[j], n);
    }
  }

  lemma ConfigSeedUnique(x: Seed, y: Seed, n: nat)
    requires ConfigSeed(x, n) && ConfigSeed(y, n) && x.key == y.key
    ensures x == y
  {
    var o := ConfigOrigin(x, n);
    var p := ConfigOrigin(y, n);
    KeyOfInjective(o, p);
  }

  ghost function DefaultOf(o: Object): Value {
    match o
    case ScalarObject(s) => ScalarDefault(s)
    case CellObject(c, _) => ColumnDefault(c)
  }

  /** Every seed of config.lmdb is some object's default. */
  lemma ConfigOrigin(x: Seed, n: nat) returns (o: Object)
    requires ConfigSeed(x, n)
    ensures ValidObject(o) && EnvOf(o) == ConfigEnv && x == Seed(KeyOf(o), DefaultOf(o))
    ensures o.CellObject? ==> |o.inst| == 1 && 1 <= o.inst[0] <= n
  {
    if s: Scalar :| ScalarEnv(s) == ConfigEnv && x == Seed(ScalarName(s), ScalarDefault(s)) {
      return ScalarObject(s);
    } else {
      var c: Column, r: U32 :| ColumnEnv(c) == ConfigEnv && 1 <= r <= n && x == CellSeed(c, ColumnDefault(c), r);
      return CellObject(c, [r]);
    }
  }

  /** cache.lmdb holds four telemetry scalars besides. */
  ghost predicate TelemetrySeed(x: Seed) { x in CacheScalars()[1..] }

  ghost predicate CacheSeed(x: Seed, n: nat) {
    || x == Seed(ScalarName(TempThreshold), ScalarDefault(TempThreshold))
    || TelemetrySeed(x)
    || (exists r: U32 :: 1 <= r <= n && x == CellSeed(PortAlarmThreshold, ColumnDefault(PortAlarmThreshold), r))
  }

  lemma CacheSeedsExact(n: nat, x: Seed)
    requires n < 0xFFFF_FFFF
    ensures x in CacheSeeds(n) <==> CacheSeed(x, n)
  {
    RowSeedsExact(PortAlarmThreshold, n, x);
    var all := CacheScalars();
    assert all == [all[0]] + all[1..];
  }

  /** Telemetry scalars are dot-free and are none of the writable objects' keys. */
  lemma TelemetrySeedKey(x: Seed)
    requires TelemetrySeed(x)
    ensures DotFree(x.key) && x.key != ScalarName(TempThreshold)
    ensures forall s :: ScalarName(s) == x.key ==> ScalarEnv(s) == ConfigEnv
  {
    var all := CacheScalars();
    assert x == all[1] || x == all[2] || x == all[3] || x == all[4];
  }

  lemma TelemetrySeedUnique(x: Seed, y: Seed)
    requires TelemetrySeed(x) && TelemetrySeed(y) && x.key == y.key
    ensures x == y
  {
    var all := CacheScalars();
    assert x == all[1] || x == all[2] || x == all[3] || x == all[4];
    assert y == all[1] || y == all[2] || y == all[3] || y == all[4];
  }

  lemma CacheFunctional(n: nat)
    requires n < 0xFFFF_FFFF
    ensures Functional(CacheSeeds(n))
  {
    var seeds := CacheSeeds(n);
    forall i, j | 0 <= i < |seeds| && 0 <= j < |seeds| && seeds[i].key == seeds[j].key ensures seeds[i] == seeds[j] {
      CacheSeedsExact(n, seeds[i]);
      CacheSeedsExact(n, seeds[j]);
      CacheSeedUnique(seeds[i], seeds[j], n);
    }
  }

  lemma CacheSeedUnique(x: Seed, y: Seed, n: nat)
    requires CacheSeed(x, n) && CacheSeed(y, n) && x.key == y.key
    ensures x == y
  {
    if TelemetrySeed(x) && TelemetrySeed(y) {
      TelemetrySeedUnique(x, y);
    } else if !TelemetrySeed(x) && !TelemetrySeed(y) {
      var o := CacheOrigin(x, n);
      var p := CacheOrigin(y, n);
      KeyOfInjective(o, p);
    } else if TelemetrySeed(x) {
      var p := CacheOrigin(y, n);
      TelemetryNotObject(x, p);
    } else {
      var o := CacheOrigin(x, n);
      TelemetryNotObject(y, o);
    }
  }

  lemma CacheOrigin(x: Seed, n: nat) returns (o: Object)
    requires CacheSeed(x, n) && !TelemetrySeed(x)
    ensures ValidObject(o) && EnvOf(o) == CacheEnv && x == Seed(KeyOf(o), DefaultOf(o))
    ensures o.CellObject? ==> |o.inst| == 1 && 1 <= o.inst[0] <= n
  {
    if x == Seed(ScalarName(TempThreshold), ScalarDefault(TempThreshold)) {
      return ScalarObject(TempThreshold);
    } else {
      var r: U32 :| 1 <= r <= n && x == CellSeed(PortAlarmThreshold, ColumnDefault(PortAlarmThreshold), r);
      return CellObject(PortAlarmThreshold, [r]);
    }
  }

  lemma TelemetryNotObject(x: Seed, o: Object)
    requires TelemetrySeed(x) && ValidObject(o) && EnvOf(o) == CacheEnv
    ensures x.key != KeyOf(o)
  {
    TelemetrySeedKey(x);
    if o.CellObject? { CellHasDot(o.column, o.inst); }
  }
}
