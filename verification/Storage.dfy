/** `src/storage_lmdb.c`: environments, key validation and prefix iteration. */
module Storage {
  import opened Types
  import opened Instances
  import Lex

  /** One LMDB environment's committed contents. */
  type Env = map<Bytes, Bytes>

  /** What a read transaction pins: the contents, and LMDB's key order over them. */
  datatype Snapshot = Snapshot(data: Env, keys: seq<Bytes>) {
    ghost predicate Valid() {
      Lex.Ascending(keys) && forall k :: k in keys <==> k in data
    }
  }

  /** `validate_key`. */
  function ValidateKey(key: Bytes): Rc {
    if key == [] then Inval else if |key| > KEY_MAX then TooBig else Ok
  }

  // ---- prefix iteration ------------------------------------------------

  /** The simple specification of a scan: filter the keys by prefix. */
  function Carriers(keys: seq<Bytes>, prefix: Bytes): seq<Bytes> {
    if keys == [] then []
    else (if Lex.IsPrefix(prefix, keys[0]) then [keys[0]] else []) + Carriers(keys[1..], prefix)
  }

  lemma {:induction false} CarriersElements(keys: seq<Bytes>, prefix: Bytes, k: Bytes)
    ensures k in Carriers(keys, prefix) <==> k in keys && Lex.IsPrefix(prefix, k)
  {
    if keys != [] {
      CarriersElements(keys[1..], prefix, k);
      assert k in keys <==> k == keys[0] || k in keys[1..];
    }
  }

  /** Keys below the prefix contribute nothing. */
  lemma {:induction false} CarriersFrom(keys: seq<Bytes>, prefix: Bytes, n: nat)
    requires n <= |keys| && forall i :: 0 <= i < n ==> Lex.Less(keys[i], prefix)
    ensures Carriers(keys, prefix) == Carriers(keys[n..], prefix)
  {
    if n == 0 {
      assert keys[0..] == keys;
    } else {
      if Lex.IsPrefix(prefix, keys[0]) { Lex.PrefixNotAbove(prefix, keys[0]); }
      CarriersFrom(keys[1..], prefix, n - 1);
      assert keys[1..][n - 1..] == keys[n..];
    }
  }

  /**
   * Why a scan may stop: once a key at or after the prefix does not carry it,
   * no later key does.
   */
  lemma {:induction false} CarriersEnd(keys: seq<Bytes>, prefix: Bytes)
    requires Lex.Ascending(keys) && keys != []
    requires !Lex.Less(keys[0], prefix) && !Lex.IsPrefix(prefix, keys[0])
    ensures Carriers(keys, prefix) == []
  {
    forall k | k in Carriers(keys, prefix) ensures false {
      CarriersElements(keys, prefix, k);
      Lex.FirstIsLeast(keys, k);
      if Lex.Less(k, keys[0]) { Lex.Transitive(k, keys[0], k); }
      Lex.Irreflexive(k);
      Lex.PrefixConvex(prefix, keys[0], k);
    }
    NoElements(Carriers(keys, prefix));
  }

  lemma NoElements(s: seq<Bytes>)
    requires forall k :: k !in s
    ensures s == []
  {
    if s != [] { Lex.FirstIn(s); }
  }

  /** `storage_iter_t`: a cursor over the pinned snapshot, with its two flags. */
  class Iter {
    const keys: seq<Bytes>
    const prefix: Bytes
    var started: bool
    var exhausted: bool
    var pos: nat
    /** LMDB has failed this cursor: where it stands is no longer known. */
    var failed: bool

    ghost predicate Valid()
      reads this
    {
      && Lex.Ascending(keys)
      && (started && !exhausted && !failed ==> pos < |keys| && Lex.IsPrefix(prefix, keys[pos]))
    }

    /** The keys still to be yielded. */
    ghost function Remaining(): seq<Bytes>
      requires Valid() && !failed
      reads this
    {
      if exhausted then [] else if !started then Carriers(keys, prefix) else Carriers(keys[pos + 1..], prefix)
    }

    /** `storage_iter_open`, after its length check. */
    constructor (snapshot: Snapshot, prefix: Bytes)
      requires snapshot.Valid()
      ensures Valid() && !failed && Remaining() == Carriers(snapshot.keys, prefix)
    {
      this.keys := snapshot.keys;
      this.prefix := prefix;
      started, exhausted, pos, failed := false, false, 0, false;
    }

    /** The index `MDB_SET_RANGE` finds: the first key not below the prefix. */
    method SetRange() returns (n: nat)
      ensures n <= |keys|
      ensures forall i :: 0 <= i < n ==> Lex.Less(keys[i], prefix)
      ensures n < |keys| ==> !Lex.Less(keys[n], prefix)
    {
      n := 0;
      while n < |keys| && Lex.Less(keys[n], prefix)
        invariant n <= |keys|
        invariant forall i :: 0 <= i < n ==> Lex.Less(keys[i], prefix)
      {
        n := n + 1;
      }
    }

    /**
     * `storage_iter_next`. `fault` is an error LMDB reports on this call, if
     * any: it is returned as itself and never latched as the end of the range.
     * Where the cursor stands after such an error is LMDB's affair: `resume` is
     * any position at all, and still only prefixed keys come out.
     */
    method Next(fault: Option<Rc>, resume: nat := 0) returns (rc: Rc, key: Bytes)
      requires Valid()
      requires fault.Some? ==> fault.value != Ok && fault.value != NotFound
      modifies this
      ensures Valid()
      ensures !old(failed) && (old(exhausted) || fault.None?) ==>
                && !failed
                && Remaining() == (if old(Remaining()) == [] then [] else old(Remaining())[1..])
                && (if old(Remaining()) == [] then rc == NotFound else rc == Ok && key == old(Remaining())[0])
      ensures !old(exhausted) && fault.Some? ==> failed && rc == fault.value && !exhausted
      ensures old(failed) ==> failed
      ensures rc == NotFound <==> exhausted
      ensures old(exhausted) ==> exhausted
      ensures rc == Ok ==> key in keys && Lex.IsPrefix(prefix, key)
    {
      key := [];
      if exhausted {
        return NotFound, key;
      }
      var at := Position(resume);
      started := true;
      if fault.Some? {
        failed := true;
        return fault.value, key;
      }
      if at == |keys| {
        exhausted := true;
        return NotFound, key;
      }
      if |prefix| > 0 && !Lex.IsPrefix(prefix, keys[at]) {
        if !failed { CarriersEnd(keys[at..], prefix); }
        exhausted := true;
        return NotFound, key;
      }
      pos := at;
      assert keys[at..][1..] == keys[at + 1..];
      return Ok, keys[at];
    }

    /** Where the cursor goes: `MDB_SET_RANGE` or `MDB_FIRST` at first, then `MDB_NEXT`. */
    method Position(resume: nat) returns (at: nat)
      requires Valid() && !exhausted
      ensures at <= |keys|
      ensures !failed ==> Remaining() == Carriers(keys[at..], prefix)
      ensures !failed && at < |keys| ==> !Lex.Less(keys[at], prefix)
    {
      if failed {
        at := if resume < |keys| then resume else |keys|;
      } else if started {
        at := pos + 1;
        Lex.PrefixNotAbove(prefix, keys[pos]);
        if at < |keys| { NotBelow(keys[pos], keys[at], prefix); }
      } else {
        at := 0;
        if |prefix| > 0 {
          at := SetRange();
        }
        CarriersFrom(keys, prefix, at);
      }
    }
  }

  lemma NotBelow(lo: Bytes, hi: Bytes, prefix: Bytes)
    requires Lex.Less(lo, hi) && !Lex.Less(lo, prefix)
    ensures !Lex.Less(hi, prefix)
  {
    if Lex.Less(hi, prefix) { Lex.Transitive(lo, hi, prefix); }
  }

  lemma TakeFirst(done: seq<Bytes>, rest: seq<Bytes>, all: seq<Bytes>)
    requires rest != [] && done + rest == all
    ensures done + [rest[0]] + rest[1..] == all
  {
  }

  /** A caller's drain loop: exactly the prefixed keys, each once, in key order. */
  method Drain(snapshot: Snapshot, prefix: Bytes) returns (found: seq<Bytes>)
    requires snapshot.Valid()
    ensures found == Carriers(snapshot.keys, prefix)
  {
    var it := new Iter(snapshot, prefix);
    found := [];
    ghost var all := Carriers(snapshot.keys, prefix);
    while true
      invariant it.Valid() && !it.failed && fresh(it)
      invariant found + it.Remaining() == all
      decreases |it.Remaining()|
    {
      ghost var rest := it.Remaining();
      var rc, key := it.Next(None);
      if rc == NotFound {
        break;
      }
      TakeFirst(found, rest, all);
      found := found + [key];
    }
  }

  /** What a scan yields, without reference to how it walks. */
  lemma CarriersExact(snapshot: Snapshot, prefix: Bytes)
    requires snapshot.Valid()
    ensures Lex.Ascending(Carriers(snapshot.keys, prefix))
    ensures var found := Carriers(snapshot.keys, prefix);
      forall i, j :: 0 <= i < j < |found| ==> Lex.Precedes(found[i], found[j])
    ensures forall k: Bytes ::
              k in Carriers(snapshot.keys, prefix) <==> k in snapshot.data && |prefix| <= |k| && k[..|prefix|] == prefix
  {
    CarriersAscending(snapshot.keys, prefix);
    Lex.AscendingIff(Carriers(snapshot.keys, prefix));
    forall k: Bytes
      ensures k in Carriers(snapshot.keys, prefix) <==> k in snapshot.data && Lex.IsPrefix(prefix, k)
    {
      CarriersElements(snapshot.keys, prefix, k);
    }
  }

  lemma {:induction false} CarriersAscending(keys: seq<Bytes>, prefix: Bytes)
    requires Lex.Ascending(keys)
    ensures Lex.Ascending(Carriers(keys, prefix))
  {
    if keys != [] {
      CarriersAscending(keys[1..], prefix);
      var rest := Carriers(keys[1..], prefix);
      forall i | 0 <= i < |rest| ensures Lex.Less(keys[0], rest[i]) {
        CarriersElements(keys[1..], prefix, rest[i]);
      }
    }
  }
}
