/** All-or-nothing (section 4.2.5 of RFC 3416) over the Set phases. */
module SetAtomicity {
  import opened Types
  import opened Codec
  import opened Objects
  import opened SetPhases

  // ---- other writers ---------------------------------------------------

  /** A write or delete by somebody else between two phases. */
  datatype Foreign = Foreign(env: EnvId, key: Bytes, value: Option<Bytes>)

  function Apply(s: Store, fs: seq<Foreign>): Store {
    if fs == [] then s
    else
      var f := fs[|fs| - 1];
      Apply(s, fs[..|fs| - 1]).Put(f.env, f.key, f.value)
  }

  ghost predicate Writes(fs: seq<Foreign>, e: EnvId, k: Bytes) {
    exists i :: 0 <= i < |fs| && fs[i].env == e && fs[i].key == k
  }

  /** What others leave under a key depends only on what was under that key. */
  lemma {:induction false} ApplyFrame(s: Store, t: Store, fs: seq<Foreign>, e: EnvId, k: Bytes)
    requires s.Lookup(e, k) == t.Lookup(e, k)
    ensures Apply(s, fs).Lookup(e, k) == Apply(t, fs).Lookup(e, k)
  {
    if fs != [] { ApplyFrame(s, t, fs[..|fs| - 1], e, k); }
  }

  lemma {:induction false} ApplyUntouched(s: Store, fs: seq<Foreign>, e: EnvId, k: Bytes)
    requires !Writes(fs, e, k)
    ensures Apply(s, fs).Lookup(e, k) == s.Lookup(e, k)
  {
    if fs != [] {
      var n := |fs| - 1;
      assert forall i :: 0 <= i < n ==> fs[..n][i] == fs[i];
      ApplyUntouched(s, fs[..n], e, k);
    }
  }

  // ---- ACTION ----------------------------------------------------------

  ghost predicate Touches(o: Object, e: EnvId, k: Bytes) {
    ValidObject(o) && EnvOf(o) == e && KeyOf(o) == k
  }

  /** Request `i`'s write reached (e, k). */
  ghost predicate Hits(rs: seq<Request>, faults: Faults, i: nat, e: EnvId, k: Bytes)
    requires i < |rs| == |faults| && AllReady(rs)
  {
    faults[i].None? && Touches(Obj(rs[i]), e, k)
  }

  /** The last request of the list whose write reached (e, k); -1 when none did. */
  ghost function LastWrite(rs: seq<Request>, faults: Faults, e: EnvId, k: Bytes): (i: int)
    requires |faults| == |rs| && AllReady(rs)
    ensures -1 <= i < |rs|
  {
    if rs == [] then -1
    else
      var n := |rs| - 1;
      if Hits(rs, faults, n, e, k) then n else LastWrite(rs[..n], faults[..n], e, k)
  }

  lemma {:induction false} LastWriteExact(rs: seq<Request>, faults: Faults, e: EnvId, k: Bytes)
    requires |faults| == |rs| && AllReady(rs)
    ensures var i := LastWrite(rs, faults, e, k);
      && (i >= 0 ==> Hits(rs, faults, i, e, k))
      && forall j :: i < j < |rs| ==> !Hits(rs, faults, j, e, k)
  {
    if rs != [] && !Hits(rs, faults, |rs| - 1, e, k) {
      var n := |rs| - 1;
      LastWriteExact(rs[..n], faults[..n], e, k);
      forall j | 0 <= j < n ensures Hits(rs[..n], faults[..n], j, e, k) == Hits(rs, faults, j, e, k) {
        assert rs[..n][j] == rs[j] && faults[..n][j] == faults[j];
      }
    }
  }

  /** ACTION writes each cell with its last successful varbind and nothing else. */
  lemma {:induction false} ActionLookup(s: Store, rs: seq<Request>, faults: Faults, e: EnvId, k: Bytes)
    requires |faults| == |rs| && AllReady(rs)
    ensures var i := LastWrite(rs, faults, e, k);
      ActionAll(s, rs, faults).Lookup(e, k)
      == if i < 0 then s.Lookup(e, k) else Some(NewBytes(rs[i]))
  {
    if rs != [] {
      var n := |rs| - 1;
      ActionLookup(s, rs[..n], faults[..n], e, k);
      ActionOneLookup(ActionAll(s, rs[..n], faults[..n]), rs[n], faults[n], e, k);
    }
  }

  lemma ActionOneLookup(s: Store, r: Request, fault: Option<Rc>, e: EnvId, k: Bytes)
    requires Ready(r)
    ensures ActionStore(s, r, fault).Lookup(e, k)
         == if fault.None? && Touches(Obj(r), e, k) then Some(NewBytes(r)) else s.Lookup(e, k)
  {
  }

  // ---- UNDO ------------------------------------------------------------

  /** The request still carries what RESERVE2 recorded about `base`. */
  ghost predicate HoldsStash(base: Store, r: Request) {
    && r.stash.Some? && ValidObject(r.stash.value.obj)
    && var o := r.stash.value.obj;
       var stored := base.Lookup(EnvOf(o), KeyOf(o));
       && r.stash.value.restore == Recorded(o, stored)
       && (stored.Some? ==> ReadAs(SyntaxOf(o), stored).Success?)
  }

  ghost predicate AllHold(base: Store, rs: seq<Request>) {
    forall i :: 0 <= i < |rs| ==> HoldsStash(base, rs[i])
  }

  ghost predicate Stashes(rs: seq<Request>, o: Object) {
    exists i :: 0 <= i < |rs| && rs[i].stash.Some? && rs[i].stash.value.obj == o
  }

  /** What UNDO leaves under an object's key. */
  function Restored(o: Object, stored: Option<Bytes>): Option<Bytes> {
    match Recorded(o, stored)
    case Some(v) => Some(Encode(v))
    case None => None
  }

  /** A stash of the object that UNDO managed to write back. */
  ghost predicate Regained(rs: seq<Request>, faults: Faults, o: Object)
    requires |faults| == |rs|
  {
    exists i :: 0 <= i < |rs| && rs[i].stash.Some? && rs[i].stash.value.obj == o && faults[i].None?
  }

  /** When UNDO writes fail: an object one of them reached is back, every other one is as it was found. */
  lemma {:induction false} FaultyUndoLookup(base: Store, s: Store, rs: seq<Request>, faults: Faults, o: Object)
    requires |faults| == |rs| && AllHold(base, rs) && ValidObject(o)
    ensures UndoAll(s, rs, faults).Lookup(EnvOf(o), KeyOf(o))
         == if Regained(rs, faults, o) then Restored(o, base.Lookup(EnvOf(o), KeyOf(o))) else s.Lookup(EnvOf(o), KeyOf(o))
  {
    if rs != [] {
      var n := |rs| - 1;
      AllHoldInit(base, rs);
      FaultyUndoLookup(base, s, rs[..n], faults[..n], o);
      FaultyUndoStep(base, UndoAll(s, rs[..n], faults[..n]), rs[n], faults[n], o);
      RegainedSnoc(rs, faults, o);
    }
  }

  lemma AllHoldInit(base: Store, rs: seq<Request>)
    requires rs != [] && AllHold(base, rs)
    ensures AllHold(base, rs[..|rs| - 1]) && HoldsStash(base, rs[|rs| - 1])
  {
  }

  lemma FaultyUndoStep(base: Store, s: Store, r: Request, fault: Option<Rc>, o: Object)
    requires HoldsStash(base, r) && ValidObject(o)
    ensures UndoStore(s, r, fault).Lookup(EnvOf(o), KeyOf(o))
         == if fault.None? && r.stash.value.obj == o then Restored(o, base.Lookup(EnvOf(o), KeyOf(o)))
            else s.Lookup(EnvOf(o), KeyOf(o))
  {
    if fault.None? { UndoStep(base, s, r, o); }
  }

  lemma RegainedSnoc(rs: seq<Request>, faults: Faults, o: Object)
    requires rs != [] && |faults| == |rs|
    ensures var n := |rs| - 1;
      Regained(rs, faults, o) <==>
        Regained(rs[..n], faults[..n], o) || (faults[n].None? && rs[n].stash.Some? && rs[n].stash.value.obj == o)
  {
    var n := |rs| - 1;
    assert forall i :: 0 <= i < n ==> rs[..n][i] == rs[i] && faults[..n][i] == faults[i];
  }

  lemma UndoStep(base: Store, s: Store, r: Request, o: Object)
    requires HoldsStash(base, r) && ValidObject(o)
    ensures UndoStore(s, r, None).Lookup(EnvOf(o), KeyOf(o))
         == if r.stash.value.obj == o then Restored(o, base.Lookup(EnvOf(o), KeyOf(o))) else s.Lookup(EnvOf(o), KeyOf(o))
  {
    var p := r.stash.value.obj;
    if KeyOf(p) == KeyOf(o) { KeyOfInjective(p, o); }
  }

  /** UNDO whose own writes succeed puts every stashed object back, whatever happened to the store meanwhile. */
  lemma UndoLookup(base: Store, s: Store, rs: seq<Request>, faults: Faults, o: Object)
    requires |faults| == |rs| && NoFault(faults) && AllHold(base, rs) && ValidObject(o)
    ensures UndoAll(s, rs, faults).Lookup(EnvOf(o), KeyOf(o))
         == if Stashes(rs, o) then Restored(o, base.Lookup(EnvOf(o), KeyOf(o))) else s.Lookup(EnvOf(o), KeyOf(o))
  {
    FaultyUndoLookup(base, s, rs, faults, o);
    if i :| 0 <= i < |rs| && rs[i].stash.Some? && rs[i].stash.value.obj == o { assert faults[i].None?; }
  }

  lemma StashesSnoc(rs: seq<Request>, o: Object)
    requires rs != []
    ensures var n := |rs| - 1;
      Stashes(rs, o) <==> Stashes(rs[..n], o) || (rs[n].stash.Some? && rs[n].stash.value.obj == o)
  {
    var n := |rs| - 1;
    assert forall i :: 0 <= i < n ==> rs[..n][i] == rs[i];
  }

  /** Keys of no stashed object are left alone, failing or not. */
  lemma {:induction false} UndoFrame(s: Store, rs: seq<Request>, faults: Faults, e: EnvId, k: Bytes)
    requires |faults| == |rs| && StashesValid(rs)
    requires forall i :: 0 <= i < |rs| && rs[i].stash.Some? ==> !Touches(rs[i].stash.value.obj, e, k)
    ensures UndoAll(s, rs, faults).Lookup(e, k) == s.Lookup(e, k)
  {
    if rs != [] {
      var n := |rs| - 1;
      UndoFrame(s, rs[..n], faults[..n], e, k);
    }
  }

  // ---- whole Sets ------------------------------------------------------

  function Clean(n: nat): Faults { seq(n, _ => None) }

  ghost predicate AllStashed(base: Store, rs: seq<Request>) {
    forall i :: 0 <= i < |rs| ==> StashedFrom(base, rs[i])
  }

  /**
   * The store after RESERVE2 at `base`, other writers, ACTION with any failures,
   * other writers again, and an UNDO whose own writes succeed.
   */
  ghost function Undone(base: Store, rs: seq<Request>, before: seq<Foreign>, faults: Faults, after: seq<Foreign>): Store
    requires |faults| == |rs| && AllStashed(base, rs)
  {
    var acted := Apply(ActionAll(Apply(base, before), rs, faults), after);
    HoldAfterAction(base, rs, faults);
    UndoAll(acted, ActionRequests(rs, faults), Clean(|rs|))
  }

  lemma HoldAfterAction(base: Store, rs: seq<Request>, faults: Faults)
    requires |faults| == |rs| && AllStashed(base, rs)
    ensures AllHold(base, ActionRequests(rs, faults)) && StashesValid(ActionRequests(rs, faults))
    ensures forall o :: Stashes(ActionRequests(rs, faults), o) <==> exists i :: 0 <= i < |rs| && Obj(rs[i]) == o
  {
    var qs := ActionRequests(rs, faults);
    forall i | 0 <= i < |rs| ensures HoldsStash(base, qs[i]) && qs[i].stash.value.obj == Obj(rs[i]) {
      assert StashedFrom(base, rs[i]);
    }
    forall o ensures Stashes(qs, o) <==> exists i :: 0 <= i < |rs| && Obj(rs[i]) == o {
      if Stashes(qs, o) {
        var i :| 0 <= i < |qs| && qs[i].stash.Some? && qs[i].stash.value.obj == o;
        assert Obj(rs[i]) == o;
      }
      if i :| 0 <= i < |rs| && Obj(rs[i]) == o {
        assert qs[i].stash.Some? && qs[i].stash.value.obj == o;
      }
    }
  }

  /**
   * An undone Set leaves what every accessor reports about each of its objects
   * as it was at RESERVE2 -- a cell that did not exist is absent again -- with
   * one exact exception: a scalar whose key was absent, which UNDO writes as
   * zero. Two varbinds on one object, any ACTION failures and any other
   * writer's interference are covered.
   */
  lemma UndoRestoresReports(base: Store, rs: seq<Request>, before: seq<Foreign>, faults: Faults, after: seq<Foreign>, i: nat)
    requires |faults| == |rs| && AllStashed(base, rs) && i < |rs|
    ensures var o := Obj(rs[i]);
      var was := base.Lookup(EnvOf(o), KeyOf(o));
      var now := Undone(base, rs, before, faults, after).Lookup(EnvOf(o), KeyOf(o));
      ViewOf(now) == ViewOf(was) <==> o.CellObject? || was.Some?
  {
    var o := Obj(rs[i]);
    var acted := Apply(ActionAll(Apply(base, before), rs, faults), after);
    assert StashedFrom(base, rs[i]);
    HoldAfterAction(base, rs, faults);
    UndoLookup(base, acted, ActionRequests(rs, faults), Clean(|rs|), o);
    var was := base.Lookup(EnvOf(o), KeyOf(o));
    if was.Some? {
      WriteBackInvisible(SyntaxOf(o), was.value);
    } else if o.ScalarObject? {
      assert ViewOf(was).tag == Failure(NotFound);
      EncodeHasTag(ZeroOf(SyntaxOf(o)));
    }
  }

  /** In that exception UNDO leaves 0 or an empty string behind. */
  lemma AbsentScalarUndone(base: Store, rs: seq<Request>, before: seq<Foreign>, faults: Faults, after: seq<Foreign>, i: nat)
    requires |faults| == |rs| && AllStashed(base, rs) && i < |rs|
    requires Obj(rs[i]).ScalarObject? && base.Lookup(EnvOf(Obj(rs[i])), KeyOf(Obj(rs[i]))).None?
    ensures Undone(base, rs, before, faults, after).Lookup(EnvOf(Obj(rs[i])), KeyOf(Obj(rs[i])))
         == Some(ZeroBytes(Obj(rs[i]).scalar))
  {
    var o := Obj(rs[i]);
    assert StashedFrom(base, rs[i]);
    HoldAfterAction(base, rs, faults);
    UndoLookup(base, Apply(ActionAll(Apply(base, before), rs, faults), after), ActionRequests(rs, faults), Clean(|rs|), o);
    ZeroEncoded(o.scalar);
  }

  function ZeroBytes(x: Scalar): Bytes {
    match x
    case DeviceName => [4, 0, 0, 0]
    case TempThreshold => [1, 0, 0, 0, 0, 0, 0, 0]
    case AdminStatusExt => [1, 0, 0, 0, 0, 0, 0, 0]
    case SampleInterval => [2, 0, 0, 0, 0, 0, 0, 0]
  }

  lemma ZeroEncoded(x: Scalar)
    ensures Encode(ZeroOf(ScalarSyntax(x))) == ZeroBytes(x)
  {
    Le4(0);
  }

  lemma EncodeHasTag(v: Value)
    ensures ViewOf(Some(Encode(v))).tag == Success(TagOf(v))
  {
  }

  /** The raw bytes come back too, exactly when they were canonical (or the cell was absent). */
  lemma UndoRestoresBytesIff(base: Store, rs: seq<Request>, before: seq<Foreign>, faults: Faults, after: seq<Foreign>, i: nat)
    requires |faults| == |rs| && AllStashed(base, rs) && i < |rs|
    ensures var o := Obj(rs[i]);
      var was := base.Lookup(EnvOf(o), KeyOf(o));
      Undone(base, rs, before, faults, after).Lookup(EnvOf(o), KeyOf(o)) == was
      <==> if was.None? then o.CellObject? else Decode(was.value).Decoded?
  {
    var o := Obj(rs[i]);
    var acted := Apply(ActionAll(Apply(base, before), rs, faults), after);
    assert StashedFrom(base, rs[i]);
    HoldAfterAction(base, rs, faults);
    UndoLookup(base, acted, ActionRequests(rs, faults), Clean(|rs|), o);
    var was := base.Lookup(EnvOf(o), KeyOf(o));
    if was.Some? { WriteBackExactIff(SyntaxOf(o), was.value); }
  }

  /** Every other key ends exactly where the other writers alone would have left it. */
  lemma UndoSparesOthers(base: Store, rs: seq<Request>, before: seq<Foreign>, faults: Faults, after: seq<Foreign>, e: EnvId, k: Bytes)
    requires |faults| == |rs| && AllStashed(base, rs)
    requires forall i :: 0 <= i < |rs| ==> !Touches(Obj(rs[i]), e, k)
    ensures Undone(base, rs, before, faults, after).Lookup(e, k) == Apply(Apply(base, before), after).Lookup(e, k)
  {
    var start := Apply(base, before);
    var acted := ActionAll(start, rs, faults);
    ActionSparesOthers(start, rs, faults, e, k);
    ApplyFrame(acted, start, after, e, k);
    HoldAfterAction(base, rs, faults);
    var qs := ActionRequests(rs, faults);
    forall i | 0 <= i < |qs| ensures !Touches(qs[i].stash.value.obj, e, k) {
      assert StashedFrom(base, rs[i]);
    }
    UndoFrame(Apply(acted, after), qs, Clean(|rs|), e, k);
  }

  /** With canonical values, present scalars and no other writer, UNDO gives the store back. */
  lemma UndoIsIdentity(base: Store, rs: seq<Request>, faults: Faults)
    requires |faults| == |rs| && AllStashed(base, rs)
    requires forall i :: 0 <= i < |rs| ==>
               var was := base.Lookup(EnvOf(Obj(rs[i])), KeyOf(Obj(rs[i])));
               if was.None? then Obj(rs[i]).CellObject? else Decode(was.value).Decoded?
    ensures Undone(base, rs, [], faults, []) == base
  {
    forall e, k ensures Undone(base, rs, [], faults, []).Lookup(e, k) == base.Lookup(e, k) {
      if i :| 0 <= i < |rs| && Touches(Obj(rs[i]), e, k) {
        UndoRestoresBytesIff(base, rs, [], faults, [], i);
      } else {
        UndoSparesOthers(base, rs, [], faults, [], e, k);
      }
    }
    StoreEqual(Undone(base, rs, [], faults, []), base);
  }

  /**
   * A committed Set leaves each of its objects at the last varbind for it,
   * unless somebody else wrote there afterwards.
   */
  lemma CommitIsLastVarbind(s: Store, rs: seq<Request>, after: seq<Foreign>, i: nat)
    requires AllReady(rs) && i < |rs| && !Writes(after, EnvOf(Obj(rs[i])), KeyOf(Obj(rs[i])))
    requires forall j :: i < j < |rs| ==> Obj(rs[j]) != Obj(rs[i])
    ensures var o := Obj(rs[i]);
      Apply(ActionAll(s, rs, Clean(|rs|)), after).Lookup(EnvOf(o), KeyOf(o)) == Some(NewBytes(rs[i]))
  {
    var o := Obj(rs[i]);
    var e, k := EnvOf(o), KeyOf(o);
    ActionLookup(s, rs, Clean(|rs|), e, k);
    ApplyUntouched(ActionAll(s, rs, Clean(|rs|)), after, e, k);
    LastWriteExact(rs, Clean(|rs|), e, k);
    LastHit(rs, i, LastWrite(rs, Clean(|rs|), e, k));
  }

  lemma LastHit(rs: seq<Request>, i: nat, last: int)
    requires AllReady(rs) && i < |rs| && -1 <= last < |rs|
    requires forall j :: i < j < |rs| ==> Obj(rs[j]) != Obj(rs[i])
    requires var e, k := EnvOf(Obj(rs[i])), KeyOf(Obj(rs[i]));
      && (last >= 0 ==> Hits(rs, Clean(|rs|), last, e, k))
      && forall j :: last < j < |rs| ==> !Hits(rs, Clean(|rs|), j, e, k)
    ensures last == i
  {
    assert Hits(rs, Clean(|rs|), i, EnvOf(Obj(rs[i])), KeyOf(Obj(rs[i])));
    KeyOfInjective(Obj(rs[last]), Obj(rs[i]));
  }

  /** ... and no key of none of its objects, whichever writes succeeded. */
  lemma ActionSparesOthers(s: Store, rs: seq<Request>, faults: Faults, e: EnvId, k: Bytes)
    requires AllReady(rs) && |faults| == |rs| && forall i :: 0 <= i < |rs| ==> !Touches(Obj(rs[i]), e, k)
    ensures ActionAll(s, rs, faults).Lookup(e, k) == s.Lookup(e, k)
  {
    ActionLookup(s, rs, faults, e, k);
    LastWriteExact(rs, faults, e, k);
  }

  /**
   * The hazard the exact statements above leave room for: whatever others write
   * or delete between RESERVE2 and UNDO, before ACTION or after it, an object
   * ends as they left it exactly when the Set has no varbind for it, or UNDO
   * happens to restore the same.
   */
  lemma InterleavedWriteIsLost(base: Store, rs: seq<Request>, before: seq<Foreign>, faults: Faults, after: seq<Foreign>, o: Object)
    requires |faults| == |rs| && AllStashed(base, rs) && ValidObject(o)
    ensures var theirs := Apply(Apply(base, before), after).Lookup(EnvOf(o), KeyOf(o));
      Undone(base, rs, before, faults, after).Lookup(EnvOf(o), KeyOf(o)) == theirs <==>
        || (forall i :: 0 <= i < |rs| ==> Obj(rs[i]) != o)
        || Restored(o, base.Lookup(EnvOf(o), KeyOf(o))) == theirs
  {
    if forall i :: 0 <= i < |rs| ==> Obj(rs[i]) != o {
      forall i | 0 <= i < |rs| ensures !Touches(Obj(rs[i]), EnvOf(o), KeyOf(o)) {
        if Touches(Obj(rs[i]), EnvOf(o), KeyOf(o)) { KeyOfInjective(Obj(rs[i]), o); }
      }
      UndoSparesOthers(base, rs, before, faults, after, EnvOf(o), KeyOf(o));
    } else {
      var acted := Apply(ActionAll(Apply(base, before), rs, faults), after);
      HoldAfterAction(base, rs, faults);
      UndoLookup(base, acted, ActionRequests(rs, faults), Clean(|rs|), o);
    }
  }
}
