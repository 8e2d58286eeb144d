/** All-or-nothing Sets inside whole runs, with other writers between the phases. */
module AgentSets {
  import opened Types
  import opened Codec
  import opened Objects
  import opened SetPhases
  import opened SetAtomicity
  import opened ConfigIpc
  import opened Agent
  import opened AgentTypes

  /** What can happen between two phases of a Set. */
  ghost predicate Quiet(e: Event) {
    match e
    case IpcWrite(_, _, fault) => fault.Some? ==> fault.value != Ok
    case Telemetry(k, _) => !OwnedBySubagent(k)
    case TempCheck => true
    case _ => false
  }

  ghost predicate AllQuiet(es: seq<Event>) { forall i :: 0 <= i < |es| ==> Quiet(es[i]) }

  /** The writes such an event makes, which do not depend on the store. */
  function WritesOf(e: Event): seq<Foreign> {
    match e
    case IpcWrite(k, v, fault) =>
      if WriteStatus(k, v, None) != StatusOk || fault.Some? then []
      else [Foreign(Find(k).value.env, k, Some(Encode(Checked(Find(k).value, v.value).value)))]
    case Telemetry(k, v) => [Foreign(CacheEnv, k, v)]
    case _ => []
  }

  function AllWrites(es: seq<Event>): seq<Foreign> {
    if es == [] then [] else AllWrites(es[..|es| - 1]) + WritesOf(es[|es| - 1])
  }

  lemma QuietStep(s: State, e: Event)
    requires Phased(s) && Quiet(e) && !s.phase.Down?
    ensures Enabled(s, e) && Next(s, e).phase == s.phase
    ensures Next(s, e).store == Apply(s.store, WritesOf(e))
  {
    var fs := WritesOf(e);
    if fs != [] { assert Apply(s.store, fs[..0]) == s.store; }
  }

  lemma {:induction false} ApplyAppend(s: Store, fs: seq<Foreign>, gs: seq<Foreign>)
    ensures Apply(s, fs + gs) == Apply(Apply(s, fs), gs)
  {
    if gs == [] {
      assert fs + gs == fs;
    } else {
      assert (fs + gs)[..|fs + gs| - 1] == fs + gs[..|gs| - 1];
      ApplyAppend(s, fs, gs[..|gs| - 1]);
    }
  }

  lemma {:induction false} QuietRun(s: State, es: seq<Event>)
    requires Phased(s) && AllQuiet(es) && !s.phase.Down?
    ensures Exec(s, es).phase == s.phase && Exec(s, es).store == Apply(s.store, AllWrites(es))
  {
    if es != [] {
      var n := |es| - 1;
      assert forall i :: 0 <= i < n ==> es[..n][i] == es[i];
      QuietRun(s, es[..n]);
      QuietStep(Exec(s, es[..n]), es[n]);
      ApplyAppend(s.store, AllWrites(es[..n]), WritesOf(es[n]));
    }
  }

  /** The rest of a Set: other writers, ACTION, other writers, and the closing phase. */
  ghost function Finish(s: State, before: seq<Event>, faults: Faults, after: seq<Event>, last: Event): State
    requires Phased(s)
  {
    Exec(Exec(Exec(Exec(s, before), [ToAction(faults)]), after), [last])
  }

  /** `Finish` is the run of those events, one after the other. */
  lemma FinishIsRun(s: State, before: seq<Event>, faults: Faults, after: seq<Event>, last: Event)
    requires Phased(s)
    ensures Finish(s, before, faults, after, last) == Exec(s, before + [ToAction(faults)] + after + [last])
  {
    ExecAppend(s, before, [ToAction(faults)]);
    ExecAppend(s, before + [ToAction(faults)], after);
    ExecAppend(s, before + [ToAction(faults)] + after, [last]);
  }

  /** A Set past RESERVE2 without errors, seen from the state RESERVE2 ran in. */
  ghost predicate ReservedAt(base: State, s: State, oom: seq<bool>) {
    && Phased(base) && Enabled(base, ToReserve2(oom)) && s == Next(base, ToReserve2(oom))
    && NoErrors(s.phase.rs)
  }

  lemma ReservedIsStashed(base: State, s: State, oom: seq<bool>)
    requires ReservedAt(base, s, oom)
    ensures AllStashed(base.store, s.phase.rs)
  {
    ReservePhases(base, oom);
  }

  /** The state after ACTION, with other writers before and after it. */
  lemma ActedRun(s: State, before: seq<Event>, faults: Faults, after: seq<Event>)
    requires Phased(s) && s.phase.Reserved2? && NoErrors(s.phase.rs) && |faults| == |s.phase.rs|
    requires AllQuiet(before) && AllQuiet(after)
    ensures var t := Exec(Exec(Exec(s, before), [ToAction(faults)]), after);
      && t.phase == Acted(ActionRequests(s.phase.rs, faults))
      && t.store == Apply(ActionAll(Apply(s.store, AllWrites(before)), s.phase.rs, faults), AllWrites(after))
  {
    QuietRun(s, before);
    ExecOne(Exec(s, before), ToAction(faults));
    QuietRun(Exec(Exec(s, before), [ToAction(faults)]), after);
  }

  /**
   * A run that ends in UNDO, for any ACTION failures and any interleaving of
   * IPC writes, telemetry and temperature checks, ends in the store `Undone`
   * describes.
   */
  lemma UndoneRun(base: State, s: State, oom: seq<bool>, before: seq<Event>, faults: Faults, after: seq<Event>)
    requires ReservedAt(base, s, oom) && |faults| == |s.phase.rs| && AllQuiet(before) && AllQuiet(after)
    ensures AllStashed(base.store, s.phase.rs)
    ensures var t := Finish(s, before, faults, after, ToUndo(Clean(|s.phase.rs|)));
      t.phase == Idle && t.store == Undone(base.store, s.phase.rs, AllWrites(before), faults, AllWrites(after))
  {
    ReservedIsStashed(base, s, oom);
    ActedRun(s, before, faults, after);
    ExecOne(Exec(Exec(Exec(s, before), [ToAction(faults)]), after), ToUndo(Clean(|s.phase.rs|)));
  }

  /** Every accessor reports the same about an object in both stores. */
  ghost predicate SameReports(s: Store, t: Store, o: Object)
    requires ValidObject(o)
  {
    ViewOf(s.Lookup(EnvOf(o), KeyOf(o))) == ViewOf(t.Lookup(EnvOf(o), KeyOf(o)))
  }

  lemma RequestRestored(base: Store, rs: seq<Request>, before: seq<Foreign>, faults: Faults, after: seq<Foreign>, i: nat)
    requires |faults| == |rs| && AllStashed(base, rs) && ScalarsPresent(base) && i < |rs|
    ensures Ready(rs[i]) && SameReports(Undone(base, rs, before, faults, after), base, Obj(rs[i]))
  {
    assert StashedFrom(base, rs[i]);
    UndoRestoresReports(base, rs, before, faults, after, i);
    var o := Obj(rs[i]);
    if o.ScalarObject? { assert base.Lookup(ScalarEnv(o.scalar), ScalarName(o.scalar)).Some?; }
  }

  lemma FinishRestores(start: State, past: seq<Event>, oom: seq<bool>, s: State,
                       before: seq<Event>, faults: Faults, after: seq<Event>, i: nat)
    requires Phased(start) && AgentInv(start) && ReservedAt(Exec(start, past), s, oom)
    requires |faults| == |s.phase.rs| && AllQuiet(before) && AllQuiet(after) && i < |s.phase.rs|
    ensures Ready(s.phase.rs[i])
    ensures SameReports(Finish(s, before, faults, after, ToUndo(Clean(|s.phase.rs|))).store,
                        Exec(start, past).store, Obj(s.phase.rs[i]))
  {
    var base := Exec(start, past);
    RunKeepsTypes(start, past);
    UndoneRun(base, s, oom, before, faults, after);
    RequestRestored(base.store, s.phase.rs, AllWrites(before), faults, AllWrites(after), i);
  }

  /** The events of a Set from RESERVE2 on. */
  function SetRun(oom: seq<bool>, before: seq<Event>, faults: Faults, after: seq<Event>, last: Event): seq<Event> {
    [ToReserve2(oom)] + (before + [ToAction(faults)] + after + [last])
  }

  lemma SetRunFinishes(start: State, past: seq<Event>, oom: seq<bool>, s: State,
                       before: seq<Event>, faults: Faults, after: seq<Event>, last: Event)
    requires Phased(start) && ReservedAt(Exec(start, past), s, oom)
    ensures Exec(start, past + SetRun(oom, before, faults, after, last)) == Finish(s, before, faults, after, last)
  {
    var base := Exec(start, past);
    ExecAppend(start, past, SetRun(oom, before, faults, after, last));
    ExecAppend(base, [ToReserve2(oom)], before + [ToAction(faults)] + after + [last]);
    ExecOne(base, ToReserve2(oom));
    FinishIsRun(s, before, faults, after, last);
  }

  /**
   * Undone means undone: in every run of the agent, each object of an undone Set
   * reports afterwards what it reported at RESERVE2, absent cells being absent
   * again. The absent-scalar exception never arises, because startup seeds every
   * scalar and no step removes one.
   */
  lemma UndoneRunRestores(start: State, past: seq<Event>, oom: seq<bool>, s: State,
                          before: seq<Event>, faults: Faults, after: seq<Event>, i: nat)
    requires Phased(start) && AgentInv(start) && ReservedAt(Exec(start, past), s, oom)
    requires |faults| == |s.phase.rs| && AllQuiet(before) && AllQuiet(after) && i < |s.phase.rs|
    ensures Ready(s.phase.rs[i])
    ensures SameReports(Exec(start, past + SetRun(oom, before, faults, after, ToUndo(Clean(|faults|)))).store,
                        Exec(start, past).store, Obj(s.phase.rs[i]))
  {
    FinishRestores(start, past, oom, s, before, faults, after, i);
    SetRunFinishes(start, past, oom, s, before, faults, after, ToUndo(Clean(|faults|)));
  }

  lemma ActionPhase(s: State, rs: seq<Request>, faults: Faults)
    requires Phased(s) && s.phase == Reserved2(rs) && NoErrors(rs) && |faults| == |rs|
    ensures AllReady(rs) && Enabled(s, ToAction(faults))
    ensures Next(s, ToAction(faults)).phase == Acted(ActionRequests(rs, faults))
  {
  }

  /**
   * A failed write cannot be committed: after ACTION, COMMIT can happen exactly
   * when no write failed; a request whose write failed reports commitFailed and
   * no other request reports an error. UNDO can happen in any case.
   */
  lemma ActionVerdict(s: State, rs: seq<Request>, faults: Faults, t: State)
    requires Phased(s) && s.phase == Reserved2(rs) && NoErrors(rs) && |faults| == |rs|
    requires Enabled(s, ToAction(faults)) && t == Next(s, ToAction(faults))
    ensures t.phase.Acted? && |t.phase.rs| == |faults|
    ensures forall i :: 0 <= i < |faults| ==> t.phase.rs[i].error == if faults[i].Some? then CommitFailed else NoError
    ensures Enabled(t, ToCommit) <==> forall i :: 0 <= i < |faults| ==> faults[i].None?
    ensures Enabled(t, ToUndo(faults))
  {
    ActionPhase(s, rs, faults);
    ActionErrors(rs, faults);
  }

  /** The store after other writers, ACTION without failures, and other writers again. */
  function Committed(s: Store, rs: seq<Request>, before: seq<Foreign>, after: seq<Foreign>): Store
    requires AllReady(rs)
  {
    Apply(ActionAll(Apply(s, before), rs, Clean(|rs|)), after)
  }

  lemma FinishCommits(s: State, rs: seq<Request>, before: seq<Event>, faults: Faults, after: seq<Event>)
    requires Phased(s) && s.phase == Reserved2(rs) && NoErrors(rs) && |faults| == |rs|
    requires AllQuiet(before) && AllQuiet(after)
    ensures AllReady(rs)
    ensures var t := Finish(s, before, faults, after, ToCommit);
      && (t.phase == Idle <==> forall i :: 0 <= i < |faults| ==> faults[i].None?)
      && t.store == Apply(ActionAll(Apply(s.store, AllWrites(before)), rs, faults), AllWrites(after))
  {
    ActedRun(s, before, faults, after);
    ActionErrors(rs, faults);
    CommitStep(Exec(Exec(Exec(s, before), [ToAction(faults)]), after), ActionRequests(rs, faults));
  }

  lemma CommitStep(t: State, qs: seq<Request>)
    requires Phased(t) && t.phase == Acted(qs)
    ensures Exec(t, [ToCommit]).store == t.store
    ensures Exec(t, [ToCommit]).phase == Idle <==> NoErrors(qs)
  {
    assert [ToCommit][..0] == [];
    assert Exec(t, [ToCommit][..0]) == t;
  }

  /**
   * Whatever ACTION meets, a run that goes on to COMMIT (and so comes to rest)
   * is exactly one in which no write failed, and it applies every varbind and
   * nothing else of its own.
   */
  lemma CommittedRun(base: State, s: State, oom: seq<bool>, rs: seq<Request>,
                     before: seq<Event>, faults: Faults, after: seq<Event>)
    requires ReservedAt(base, s, oom) && s.phase == Reserved2(rs) && |faults| == |rs|
    requires AllQuiet(before) && AllQuiet(after)
    ensures AllReady(rs)
    ensures var t := Finish(s, before, faults, after, ToCommit);
      && (t.phase == Idle <==> forall i :: 0 <= i < |faults| ==> faults[i].None?)
      && (t.phase == Idle ==> t.store == Committed(s.store, rs, AllWrites(before), AllWrites(after)))
  {
    FinishCommits(s, rs, before, faults, after);
    if forall i :: 0 <= i < |faults| ==> faults[i].None? { assert faults == Clean(|faults|); }
  }

  /** Request `i` has the last varbind for its object, and nobody in `fs` writes the object. */
  ghost predicate HasLastWord(rs: seq<Request>, i: nat, fs: seq<Foreign>)
    requires i < |rs|
  {
    && (forall j :: i < j < |rs| ==> ObjectOf(rs[j].target) != ObjectOf(rs[i].target))
    && (Located(rs[i]) ==> !Writes(fs, EnvOf(Obj(rs[i])), KeyOf(Obj(rs[i]))))
  }

  /** The request's object reads back the value of its varbind. */
  ghost predicate ReadsBack(s: Store, r: Request) {
    && Located(r)
    && var now := ReadAs(SyntaxOf(Obj(r)), s.Lookup(EnvOf(Obj(r)), KeyOf(Obj(r))));
       now.Success? && VarbindOf(now.value) == r.vb
  }

  /** A committed object reads back the value of its last varbind. */
  lemma CommittedReads(s: Store, rs: seq<Request>, before: seq<Foreign>, after: seq<Foreign>, i: nat)
    requires AllReady(rs) && i < |rs| && HasLastWord(rs, i, after)
    ensures ReadsBack(Committed(s, rs, before, after), rs[i])
  {
    CommitIsLastVarbind(Apply(s, before), rs, after, i);
    NewValueInRange(rs[i]);
    ReadBack(SyntaxOf(Obj(rs[i])), NewValue(rs[i].vb, SyntaxOf(Obj(rs[i]))));
  }

  lemma FinishReads(base: State, oom: seq<bool>, s: State, rs: seq<Request>,
                    before: seq<Event>, faults: Faults, after: seq<Event>, i: nat)
    requires ReservedAt(base, s, oom) && s.phase == Reserved2(rs) && |faults| == |rs| && AllQuiet(before) && AllQuiet(after)
    requires AllReady(rs) && i < |rs|
    requires ReadsBack(Committed(s.store, rs, AllWrites(before), AllWrites(after)), rs[i])
    ensures var t := Finish(s, before, faults, after, ToCommit); t.phase == Idle ==> ReadsBack(t.store, rs[i])
  {
    CommittedRun(base, s, oom, rs, before, faults, after);
  }

  /**
   * Committed means readable: in every run of the agent in which COMMIT happens,
   * whatever ACTION met, each object of the Set reads back the value of its last
   * varbind, unless somebody else wrote it after ACTION.
   */
  lemma CommittedRunReads(start: State, past: seq<Event>, oom: seq<bool>, s: State, rs: seq<Request>,
                          before: seq<Event>, faults: Faults, after: seq<Event>, i: nat)
    requires Phased(start) && ReservedAt(Exec(start, past), s, oom) && s.phase == Reserved2(rs)
    requires |faults| == |rs| && AllQuiet(before) && AllQuiet(after)
    requires i < |rs| && HasLastWord(rs, i, AllWrites(after))
    ensures var t := Exec(start, past + SetRun(oom, before, faults, after, ToCommit));
      t.phase == Idle ==> ReadsBack(t.store, rs[i])
  {
    ReservedIsStashed(Exec(start, past), s, oom);
    CommittedReads(s.store, rs, AllWrites(before), AllWrites(after), i);
    FinishReads(Exec(start, past), oom, s, rs, before, faults, after, i);
    SetRunFinishes(start, past, oom, s, before, faults, after, ToCommit);
  }

  /** A run that ends in FREE leaves only what the other writers wrote. */
  lemma FreedRun(s: State, quiet: seq<Event>)
    requires Phased(s) && (s.phase.Reserved1? || s.phase.Reserved2?) && AllQuiet(quiet)
    ensures Exec(s, quiet + [ToFree]).phase == Idle
    ensures Exec(s, quiet + [ToFree]).store == Apply(s.store, AllWrites(quiet))
  {
    QuietRun(s, quiet);
    ExecAppend(s, quiet, [ToFree]);
    ExecOne(Exec(s, quiet), ToFree);
  }
}
