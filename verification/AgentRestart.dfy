/** Stops and starts in a run, successful and not. */
module AgentRestart {
  import opened Types
  import opened Instances
  import opened Codec
  import opened Objects
  import opened Alarm
  import opened Provisioning
  import opened Agent
  import Bootstrap

  lemma RestartState(s: State, es: seq<Event>, stop: Event, start: Event)
    requires Phased(s) && stop.Stop? && start.Start? && start.rows < 0xFFFF_FFFF
    ensures var was := Exec(s, es).store;
      var now := Exec(s, es + [stop, start]);
      now == State(StartStore(if stop.reboot then Wiped(was) else was, start.rows, start.outcome),
                   if start.outcome.BothSeeded? then Idle else Down, Clear, [])
  {
    var p := Exec(s, es);
    assert [stop, start] == [stop] + [start];
    ExecAppend(s, es, [stop, start]);
    ExecAppend(p, [stop], [start]);
    ExecOne(p, stop);
    ExecOne(Next(p, stop), start);
  }

  /**
   * After any run, a restart without a reboot changes no existing key of either
   * environment, volatile values included; the rows are the old ones and 1..n,
   * and the alarm starts over.
   */
  lemma RestartAfterRun(s: State, es: seq<Event>, n: nat, e: EnvId, k: Bytes, inst: Instance)
    requires Phased(s) && n < 0xFFFF_FFFF
    ensures var was := Exec(s, es).store;
      var now := Exec(s, es + [Stop(false), Start(n, BothSeeded)]);
      && now.phase == Idle && now.alarm == Clear && now.history == []
      && (was.Lookup(e, k).Some? ==> now.store.Lookup(e, k) == was.Lookup(e, k))
      && (PortRow(now.store, inst) <==> PortRow(was, inst) || (|inst| == 1 && 1 <= inst[0] <= n))
  {
    RestartState(s, es, Stop(false), Start(n, BothSeeded));
    var was := Exec(s, es).store;
    if was.Lookup(e, k).Some? { ExistingKept(was, n, e, k); }
    RowsSeeded(was, n, inst);
  }

  /**
   * A start that fails changes no existing key either: nothing at all when
   * config.lmdb cannot be seeded, and when the cache cannot, config.lmdb alone is
   * as a successful start would leave it.
   * The next successful start is as if it had not been attempted.
   */
  lemma FailedStart(s: State, es: seq<Event>, n: nat, k: Bytes)
    requires Phased(s) && n < 0xFFFF_FFFF
    ensures var was := Exec(s, es).store;
      var first := Exec(s, es + [Stop(false), Start(n, ConfigFailed)]);
      var second := Exec(s, es + [Stop(false), Start(n, CacheFailed)]);
      && first.phase == Down && first.store == was
      && second.phase == Down && second.store.cache == was.cache
      && second.store.config == Started(was, n).config
      && (was.Lookup(ConfigEnv, k).Some? ==> second.store.Lookup(ConfigEnv, k) == was.Lookup(ConfigEnv, k))
      && Started(first.store, n) == Started(was, n) && Started(second.store, n) == Started(was, n)
  {
    RestartState(s, es, Stop(false), Start(n, ConfigFailed));
    RestartState(s, es, Stop(false), Start(n, CacheFailed));
    var was := Exec(s, es).store;
    if was.Lookup(ConfigEnv, k).Some? { ExistingKept(was, n, ConfigEnv, k); }
    SeedMoreAbsorbs(was, n, n);
  }

  /**
   * After any run, a reboot and a successful start: persistent objects keep
   * their values, volatile provisioned ones are back at their DEFVAL.
   */
  lemma RebootAfterRun(s: State, es: seq<Event>, n: nat, o: Object)
    requires Phased(s) && n < 0xFFFF_FFFF && ValidObject(o)
    ensures var was := Exec(s, es).store;
      var now := Exec(s, es + [Stop(true), Start(n, BothSeeded)]);
      && now.phase == Idle
      && ((EnvOf(o) == ConfigEnv && was.Lookup(ConfigEnv, KeyOf(o)).Some?)
            ==> now.store.Lookup(ConfigEnv, KeyOf(o)) == was.Lookup(ConfigEnv, KeyOf(o)))
      && (EnvOf(o) == CacheEnv ==> now.store.Lookup(CacheEnv, KeyOf(o))
                                     == if Provisioned(o, n) then Some(Encode(Bootstrap.DefaultOf(o))) else None)
  {
    RestartState(s, es, Stop(true), Start(n, BothSeeded));
    RebootRestoresDefaults(Exec(s, es).store, n, o);
  }
}
