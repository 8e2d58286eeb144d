/** What startup seeding does to the objects, the rows and the rest of the store. */
module Provisioning {
  import opened Types
  import opened Instances
  import opened Codec
  import opened Objects
  import opened Bootstrap

  /** `subagent_storage_init` once both bootstraps committed. */
  function Started(s: Store, n: nat): Store
    requires n < 0xFFFF_FFFF
  {
    Store(Plant(s.config, ConfigSeeds(n), false), Plant(s.cache, CacheSeeds(n), false))
  }

  /** A reboot empties cache.lmdb, which lives on tmpfs. */
  function Wiped(s: Store): Store { s.(cache := map[]) }

  /** The objects a firmware with `n` provisioned rows seeds. */
  predicate Provisioned(o: Object, n: nat) {
    o.CellObject? ==> |o.inst| == 1 && 1 <= o.inst[0] <= n
  }

  /** Growing the row count in an update is the same as having shipped the larger count. */
  lemma SeedMoreAbsorbs(s: Store, n: nat, m: nat)
    requires n <= m < 0xFFFF_FFFF
    ensures Started(Started(s, n), m) == Started(s, m)
  {
    ConfigFunctional(m);
    CacheFunctional(m);
    forall i | 0 <= i < |ConfigSeeds(n)| ensures ConfigSeeds(n)[i] in ConfigSeeds(m) {
      ConfigSeedsExact(n, ConfigSeeds(n)[i]);
      ConfigSeedsExact(m, ConfigSeeds(n)[i]);
    }
    forall i | 0 <= i < |CacheSeeds(n)| ensures CacheSeeds(n)[i] in CacheSeeds(m) {
      CacheSeedsExact(n, CacheSeeds(n)[i]);
      CacheSeedsExact(m, CacheSeeds(n)[i]);
    }
    PlantAbsorbs(s.config, ConfigSeeds(n), ConfigSeeds(m));
    PlantAbsorbs(s.cache, CacheSeeds(n), CacheSeeds(m));
  }

  /** Seeding leaves every existing value alone, typed as declared or not. */
  lemma ExistingKept(s: Store, n: nat, e: EnvId, k: Bytes)
    requires n < 0xFFFF_FFFF && s.Lookup(e, k).Some?
    ensures Started(s, n).Lookup(e, k) == s.Lookup(e, k)
  {
    ConfigFunctional(n);
    CacheFunctional(n);
    PlantLookup(s.config, ConfigSeeds(n), k);
    PlantLookup(s.cache, CacheSeeds(n), k);
  }

  /** An absent object appears exactly when it is provisioned, at its DEFVAL. */
  lemma AbsentObjectSeeded(s: Store, n: nat, o: Object)
    requires n < 0xFFFF_FFFF && ValidObject(o) && s.Lookup(EnvOf(o), KeyOf(o)).None?
    ensures Started(s, n).Lookup(EnvOf(o), KeyOf(o))
         == if Provisioned(o, n) then Some(Encode(DefaultOf(o))) else None
  {
    var k := KeyOf(o);
    if EnvOf(o) == ConfigEnv {
      ConfigFunctional(n);
      PlantLookup(s.config, ConfigSeeds(n), k);
      ConfigSows(n, o);
    } else {
      CacheFunctional(n);
      PlantLookup(s.cache, CacheSeeds(n), k);
      CacheSows(n, o);
    }
  }

  lemma ConfigSows(n: nat, o: Object)
    requires n < 0xFFFF_FFFF && ValidObject(o) && EnvOf(o) == ConfigEnv
    ensures SowsKey(ConfigSeeds(n), KeyOf(o)) <==> Provisioned(o, n)
    ensures Provisioned(o, n) ==> Sows(ConfigSeeds(n), KeyOf(o), DefaultOf(o))
  {
    var seeds := ConfigSeeds(n);
    if Provisioned(o, n) {
      var x := Seed(KeyOf(o), DefaultOf(o));
      if o.CellObject? {
        assert o.inst == [o.inst[0]];
        assert x == CellSeed(o.column, ColumnDefault(o.column), o.inst[0]);
      }
      ConfigSeedsExact(n, x);
      var i :| 0 <= i < |seeds| && seeds[i] == x;
    }
    if SowsKey(seeds, KeyOf(o)) {
      var i :| 0 <= i < |seeds| && seeds[i].key == KeyOf(o);
      ConfigSeedsExact(n, seeds[i]);
      var p := ConfigOrigin(seeds[i], n);
      KeyOfInjective(o, p);
    }
  }

  lemma CacheSows(n: nat, o: Object)
    requires n < 0xFFFF_FFFF && ValidObject(o) && EnvOf(o) == CacheEnv
    ensures SowsKey(CacheSeeds(n), KeyOf(o)) <==> Provisioned(o, n)
    ensures Provisioned(o, n) ==> Sows(CacheSeeds(n), KeyOf(o), DefaultOf(o))
  {
    var seeds := CacheSeeds(n);
    if Provisioned(o, n) {
      var x := Seed(KeyOf(o), DefaultOf(o));
      if o.CellObject? {
        assert o.inst == [o.inst[0]];
        assert x == CellSeed(PortAlarmThreshold, ColumnDefault(PortAlarmThreshold), o.inst[0]);
      }
      CacheSeedsExact(n, x);
      var i :| 0 <= i < |seeds| && seeds[i] == x;
    }
    if SowsKey(seeds, KeyOf(o)) {
      var i :| 0 <= i < |seeds| && seeds[i].key == KeyOf(o);
      CacheSeedsExact(n, seeds[i]);
      if TelemetrySeed(seeds[i]) {
        TelemetryNotObject(seeds[i], o);
      } else {
        var p := CacheOrigin(seeds[i], n);
        KeyOfInjective(o, p);
      }
    }
  }

  /** Seeding adds rows 1..n to portConfigTable and no other row. */
  lemma RowsSeeded(s: Store, n: nat, inst: Instance)
    requires n < 0xFFFF_FFFF
    ensures PortRow(Started(s, n), inst) <==> PortRow(s, inst) || (|inst| == 1 && 1 <= inst[0] <= n)
  {
    if ValidInstance(inst) {
      CellSeeded(s, n, PortDescr, inst);
      CellSeeded(s, n, PortAdminStatus, inst);
      CellSeeded(s, n, PortAlarmThreshold, inst);
    }
  }

  lemma CellSeeded(s: Store, n: nat, c: Column, inst: Instance)
    requires n < 0xFFFF_FFFF && ValidInstance(inst)
    ensures CellPresent(Started(s, n), c, inst) <==> CellPresent(s, c, inst) || (|inst| == 1 && 1 <= inst[0] <= n)
  {
    var o := CellObject(c, inst);
    if s.Lookup(EnvOf(o), KeyOf(o)).None? {
      AbsentObjectSeeded(s, n, o);
    } else {
      ExistingKept(s, n, EnvOf(o), KeyOf(o));
    }
    assert CellPresent(s, c, inst) <==> s.Lookup(EnvOf(o), KeyOf(o)).Some?;
    assert CellPresent(Started(s, n), c, inst) <==> Started(s, n).Lookup(EnvOf(o), KeyOf(o)).Some?;
  }

  /** Cells of any other dot-free column, such as sensorTable's, are never seeded. */
  lemma ForeignTablesUntouched(s: Store, n: nat, e: EnvId, column: Bytes, inst: Instance)
    requires n < 0xFFFF_FFFF && inst != [] && DotFree(column)
    requires forall c :: ColumnName(c) != column
    ensures Started(s, n).Lookup(e, CellText(column, inst)) == s.Lookup(e, CellText(column, inst))
  {
    ConfigFunctional(n);
    CacheFunctional(n);
    PlantLookup(s.config, ConfigSeeds(n), CellText(column, inst));
    PlantLookup(s.cache, CacheSeeds(n), CellText(column, inst));
    ForeignCellNotObject(column, inst);
    NotSownInConfig(n, CellText(column, inst));
    NotSownInCache(n, CellText(column, inst));
  }

  lemma ForeignCellNotObject(column: Bytes, inst: Instance)
    requires inst != [] && DotFree(column) && forall c :: ColumnName(c) != column
    ensures !DotFree(CellText(column, inst))
    ensures forall o :: ValidObject(o) ==> KeyOf(o) != CellText(column, inst)
  {
    NamesDotFree();
    var k := CellText(column, inst);
    assert k[|column|] == DOT;
    forall o | ValidObject(o) && KeyOf(o) == k ensures false {
      if o.CellObject? { CellTextInjective(ColumnName(o.column), o.inst, column, inst); }
    }
  }

  lemma NotSownInConfig(n: nat, k: Bytes)
    requires n < 0xFFFF_FFFF && forall o :: ValidObject(o) ==> KeyOf(o) != k
    ensures !SowsKey(ConfigSeeds(n), k)
  {
    var seeds := ConfigSeeds(n);
    if i :| 0 <= i < |seeds| && seeds[i].key == k {
      ConfigSeedsExact(n, seeds[i]);
      var p := ConfigOrigin(seeds[i], n);
    }
  }

  lemma NotSownInCache(n: nat, k: Bytes)
    requires n < 0xFFFF_FFFF && !DotFree(k) && forall o :: ValidObject(o) ==> KeyOf(o) != k
    ensures !SowsKey(CacheSeeds(n), k)
  {
    var seeds := CacheSeeds(n);
    if i :| 0 <= i < |seeds| && seeds[i].key == k {
      CacheSeedsExact(n, seeds[i]);
      if TelemetrySeed(seeds[i]) {
        TelemetrySeedKey(seeds[i]);
      } else {
        var p := CacheOrigin(seeds[i], n);
      }
    }
  }

  /** The columns of sensorTable are such columns. */
  lemma SensorColumnsForeign()
    ensures forall column :: column in {Ascii("sensorName"), Ascii("sensorTempMilliC"), Ascii("sensorSampleCount")} ==>
              DotFree(column) && forall c :: ColumnName(c) != column
  {
    var name, temp, count := Ascii("sensorName"), Ascii("sensorTempMilliC"), Ascii("sensorSampleCount");
    assert DotFree(name) && DotFree(temp) && DotFree(count);
    forall c: Column ensures ColumnName(c) != name && ColumnName(c) != temp && ColumnName(c) != count {
      assert |ColumnName(c)| == 9 || |ColumnName(c)| == 15 || |ColumnName(c)| == 24;
    }
  }

  /** So startup leaves sensorTable, whose rows the telemetry application owns, alone. */
  lemma SensorTableUntouched(s: Store, n: nat, e: EnvId, column: Bytes, inst: Instance)
    requires n < 0xFFFF_FFFF && inst != []
    requires column in {Ascii("sensorName"), Ascii("sensorTempMilliC"), Ascii("sensorSampleCount")}
    ensures Started(s, n).Lookup(e, CellText(column, inst)) == s.Lookup(e, CellText(column, inst))
  {
    SensorColumnsForeign();
    ForeignTablesUntouched(s, n, e, column, inst);
  }

  /**
   * After a reboot, whatever the store was: persistent objects keep their
   * values, and volatile provisioned ones are back at their DEFVAL.
   */
  lemma RebootRestoresDefaults(s: Store, n: nat, o: Object)
    requires n < 0xFFFF_FFFF && ValidObject(o)
    ensures var now := Started(Wiped(s), n).Lookup(EnvOf(o), KeyOf(o));
      && (EnvOf(o) == ConfigEnv && s.Lookup(ConfigEnv, KeyOf(o)).Some? ==> now == s.Lookup(ConfigEnv, KeyOf(o)))
      && (EnvOf(o) == CacheEnv ==> now == if Provisioned(o, n) then Some(Encode(DefaultOf(o))) else None)
  {
    var w := Wiped(s);
    if w.Lookup(EnvOf(o), KeyOf(o)).Some? {
      ExistingKept(w, n, EnvOf(o), KeyOf(o));
    } else {
      AbsentObjectSeeded(w, n, o);
    }
  }

  /** Every DEFVAL lies inside its object's declared range. */
  lemma DefaultsInRange(o: Object)
    ensures InRange(SyntaxOf(o), DefaultOf(o))
  {
  }

  /** A new device provisioned with `n` ports reads back every seeded object's DEFVAL. */
  lemma FreshReads(n: nat, o: Object)
    requires n < 0xFFFF_FFFF && ValidObject(o) && Provisioned(o, n)
    ensures ReadAs(SyntaxOf(o), Started(Store(map[], map[]), n).Lookup(EnvOf(o), KeyOf(o))) == Success(DefaultOf(o))
  {
    AbsentObjectSeeded(Store(map[], map[]), n, o);
    DefaultsInRange(o);
    ReadBack(SyntaxOf(o), DefaultOf(o));
  }

  /** The factory settings, as the MIB's DEFVAL clauses have them. */
  function FactoryValue(o: Object): Value {
    match o
    case ScalarObject(DeviceName) => Octets(Ascii("agentx-demo"))
    case ScalarObject(TempThreshold) => Int32(70000)
    case ScalarObject(AdminStatusExt) => Int32(1)
    case ScalarObject(SampleInterval) => Uint32(60)
    case CellObject(PortDescr, _) => Octets(Ascii("port"))
    case CellObject(PortAdminStatus, _) => Int32(1)
    case CellObject(PortAlarmThreshold, _) => Int32(80000)
  }

  lemma FactoryIsDefault(o: Object)
    ensures DefaultOf(o) == FactoryValue(o)
  {
    match o
    case ScalarObject(s) => assert DefaultOf(o) == ScalarDefault(s);
    case CellObject(c, _) => assert DefaultOf(o) == ColumnDefault(c);
  }

  /** A new device with `n` ports starts with exactly those. */
  lemma FactorySettings(n: nat, o: Object)
    requires n < 0xFFFF_FFFF && ValidObject(o)
    ensures Started(Store(map[], map[]), n).Lookup(EnvOf(o), KeyOf(o))
         == if Provisioned(o, n) then Some(Encode(FactoryValue(o))) else None
  {
    AbsentObjectSeeded(Store(map[], map[]), n, o);
    FactoryIsDefault(o);
  }

  /** The telemetry placeholders seeded beside them, unless the application has already written them. */
  lemma TelemetryPlaceholders(s: Store, n: nat, x: Seed)
    requires n < 0xFFFF_FFFF
    requires || x == Seed(Ascii("cpuTempMilliC"), Int32(0)) || x == Seed(Ascii("sampleCount"), Uint32(0))
             || x == Seed(Ascii("lastUpdateEpoch"), Uint32(0)) || x == Seed(Ascii("statusText"), Octets(Ascii("initialising")))
    ensures Started(s, n).Lookup(CacheEnv, x.key) == if x.key in s.cache then Some(s.cache[x.key]) else Some(Encode(x.value))
  {
    var all := CacheScalars();
    var i := if x == all[1] then 1 else if x == all[2] then 2 else if x == all[3] then 3 else 4;
    assert x == all[i];
    CachePlaceholder(s, n, i);
  }

  lemma CachePlaceholder(s: Store, n: nat, i: nat)
    requires n < 0xFFFF_FFFF && i < |CacheScalars()|
    ensures var x := CacheScalars()[i];
      Started(s, n).Lookup(CacheEnv, x.key) == if x.key in s.cache then Some(s.cache[x.key]) else Some(Encode(x.value))
  {
    var seeds, x := CacheSeeds(n), CacheScalars()[i];
    assert seeds[i] == x;
    CacheFunctional(n);
    PlantLookup(s.cache, seeds, x.key);
    assert Sows(seeds, x.key, x.value);
  }
}
