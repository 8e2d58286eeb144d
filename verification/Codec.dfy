/**
 * Stored values. The C typed accessors of `src/storage_lmdb.c` and the Rust
 * `Value::encode`/`Value::decode` of `rust-app/src/storage/codec.rs` are two
 * codecs over the same bytes: tag, three reserved bytes, little-endian payload.
 */
module Codec {
  import opened Types

  datatype Value =
    | Int32(int32: I32)
    | Uint32(uint32: U32)
    | Uint64(uint64: U64)
    | Octets(octets: Bytes)
    | Oid(subids: seq<U32>)

  const TAG_INT32: Byte := 1
  const TAG_UINT32: Byte := 2
  const TAG_UINT64: Byte := 3
  const TAG_BYTES: Byte := 4
  const TAG_OID: Byte := 5
  const HEADER_LEN: nat := 4

  // ---- little endian ---------------------------------------------------

  function Pow256(k: nat): nat { if k == 0 then 1 else 256 * Pow256(k - 1) }

  function Le(n: nat, k: nat): (b: Bytes)
    ensures |b| == k
  {
    if k == 0 then [] else [n % 256] + Le(n / 256, k - 1)
  }

  function FromLe(b: Bytes): nat {
    if b == [] then 0 else b[0] + 256 * FromLe(b[1..])
  }

  lemma {:induction false} FromLeOfLe(n: nat, k: nat)
    requires n < Pow256(k)
    ensures FromLe(Le(n, k)) == n
  {
    if k > 0 {
      FromLeOfLe(n / 256, k - 1);
      assert Le(n, k)[1..] == Le(n / 256, k - 1);
    }
  }

  lemma {:induction false} LeOfFromLe(b: Bytes)
    ensures FromLe(b) < Pow256(|b|) && Le(FromLe(b), |b|) == b
  {
    if b != [] {
      LeOfFromLe(b[1..]);
      LowByte(b[0], FromLe(b[1..]));
      assert b == [b[0]] + b[1..];
    }
  }

  lemma LowByte(c: Byte, rest: nat)
    ensures (c + 256 * rest) % 256 == c && (c + 256 * rest) / 256 == rest
  {
  }

  lemma WordSizes()
    ensures Pow256(4) == U32_LIMIT && Pow256(8) == U64_LIMIT
  {
    assert Pow256(3) == 0x100_0000;
    assert Pow256(5) == 0x100_0000_0000;
    assert Pow256(6) == 0x1_0000_0000_0000;
  }

  /** `put_u64le` at offset `at`: emits the low byte and shifts, eight times. */
  method PutU64le(buf: array<Byte>, at: nat, v: U64)
    requires at + 8 <= buf.Length
    modifies buf
    ensures buf[..at + 8] == old(buf[..at]) + Le(v, 8)
    ensures buf[at + 8..] == old(buf[at + 8..])
  {
    var w := v;
    var i := 0;
    while i < 8
      invariant 0 <= i <= 8 && w >= 0
      invariant buf[..at + i] + Le(w, 8 - i) == old(buf[..at]) + Le(v, 8)
      invariant buf[at + 8..] == old(buf[at + 8..])
    {
      ghost var done := buf[..at + i];
      buf[at + i] := w % 256;
      assert done + Le(w, 8 - i) == done + [w % 256] + Le(w / 256, 7 - i);
      assert buf[..at + i + 1] == done + [w % 256];
      w := w / 256;
      i := i + 1;
    }
    assert Le(w, 0) == [];
  }

  /** `get_u64le`: shifts in from the top byte down; no bit is shifted out. */
  method GetU64le(p: array<Byte>) returns (v: U64)
    requires p.Length >= 8
    ensures v == FromLe(p[..8])
  {
    WordSizes();
    var w := 0;
    var i := 8;
    while i > 0
      invariant 0 <= i <= 8
      invariant w == FromLe(p[i..8])
    {
      i := i - 1;
      LeOfFromLe(p[i + 1..8]);
      Pow256Monotone(7 - i, 7);
      assert p[i..8][1..] == p[i + 1..8];
      w := (w * 256) % U64_LIMIT + p[i];
    }
    assert p[0..8] == p[..8];
    LeOfFromLe(p[..8]);
    v := w;
  }

  lemma {:induction false} Pow256Monotone(i: nat, j: nat)
    requires i <= j
    ensures 1 <= Pow256(i) <= Pow256(j)
  {
    if i > 0 { Pow256Monotone(i - 1, j - 1); } else if j > 0 { Pow256Monotone(0, j - 1); }
  }

  /** The two's complement casts between `int32_t` and `uint32_t`. */
  function AsU32(i: I32): U32 { if i < 0 then i + U32_LIMIT else i }

  function AsI32(u: U32): I32 { if u >= 0x8000_0000 then u - U32_LIMIT else u }

  // ---- OID payloads ----------------------------------------------------

  function OidPayload(ids: seq<U32>): (b: Bytes)
    ensures |b| == 4 * |ids|
  {
    if ids == [] then [] else Le(ids[0], 4) + OidPayload(ids[1..])
  }

  function SubidsOf(b: Bytes): (ids: seq<U32>)
    requires |b| % 4 == 0
    ensures 4 * |ids| == |b|
  {
    if b == [] then []
    else
      WordSizes();
      LeOfFromLe(b[..4]);
      [FromLe(b[..4])] + SubidsOf(b[4..])
  }

  lemma {:induction false} SubidsOfPayload(ids: seq<U32>)
    ensures SubidsOf(OidPayload(ids)) == ids
  {
    if ids != [] {
      var b := OidPayload(ids);
      WordSizes();
      FromLeOfLe(ids[0], 4);
      SubidsOfPayload(ids[1..]);
      assert b[..4] == Le(ids[0], 4) && b[4..] == OidPayload(ids[1..]);
      assert ids == [ids[0]] + ids[1..];
    }
  }

  lemma {:induction false} PayloadOfSubids(b: Bytes)
    requires |b| % 4 == 0
    ensures OidPayload(SubidsOf(b)) == b
  {
    if b != [] {
      LeOfFromLe(b[..4]);
      PayloadOfSubids(b[4..]);
      assert SubidsOf(b)[1..] == SubidsOf(b[4..]);
      assert b == b[..4] + b[4..];
    }
  }

  // ---- the Rust codec --------------------------------------------------

  function TagOf(v: Value): Byte {
    match v
    case Int32(_) => TAG_INT32
    case Uint32(_) => TAG_UINT32
    case Uint64(_) => TAG_UINT64
    case Octets(_) => TAG_BYTES
    case Oid(_) => TAG_OID
  }

  function Payload(v: Value): Bytes {
    match v
    case Int32(i) => Le(AsU32(i), 4)
    case Uint32(u) => Le(u, 4)
    case Uint64(w) => Le(w, 8)
    case Octets(b) => b
    case Oid(ids) => OidPayload(ids)
  }

  /** `Value::encode`. */
  function Encode(v: Value): Bytes { [TagOf(v), 0, 0, 0] + Payload(v) }

  datatype CodecError = BufferTooShort | ReservedNonZero | UnknownTag | InvalidPayloadLength
  datatype Decoded = Decoded(value: Value) | Rejected(error: CodecError)

  /** `Value::decode`: rejects anything that is not byte for byte what `encode` writes. */
  function Decode(b: Bytes): Decoded {
    if |b| < HEADER_LEN then Rejected(BufferTooShort)
    else if b[1..4] != [0, 0, 0] then Rejected(ReservedNonZero)
    else
      WordSizes();
      var p := b[4..];
      LeOfFromLe(p);
      if b[0] == TAG_INT32 then
        if |p| == 4 then Decoded(Int32(AsI32(FromLe(p)))) else Rejected(InvalidPayloadLength)
      else if b[0] == TAG_UINT32 then
        if |p| == 4 then Decoded(Uint32(FromLe(p))) else Rejected(InvalidPayloadLength)
      else if b[0] == TAG_UINT64 then
        if |p| == 8 then Decoded(Uint64(FromLe(p))) else Rejected(InvalidPayloadLength)
      else if b[0] == TAG_BYTES then Decoded(Octets(p))
      else if b[0] == TAG_OID then
        if |p| % 4 == 0 then Decoded(Oid(SubidsOf(p))) else Rejected(InvalidPayloadLength)
      else Rejected(UnknownTag)
  }

  lemma DecodeOfEncode(v: Value)
    ensures Decode(Encode(v)) == Decoded(v)
  {
    var b := Encode(v);
    assert b[4..] == Payload(v) && b[1..4] == [0, 0, 0];
    WordSizes();
    match v
    case Int32(i) => FromLeOfLe(AsU32(i), 4);
    case Uint32(u) => FromLeOfLe(u, 4);
    case Uint64(w) => FromLeOfLe(w, 8);
    case Octets(_) =>
    case Oid(ids) => SubidsOfPayload(ids);
  }

  lemma EncodeOfDecode(b: Bytes)
    requires Decode(b).Decoded?
    ensures Encode(Decode(b).value) == b
  {
    var v := Decode(b).value;
    PayloadOfDecoded(b);
    assert b == [b[0]] + b[1..4] + b[4..];
    assert Encode(v) == [b[0]] + [0, 0, 0] + b[4..];
  }

  /** Why a buffer is rejected, and that nothing else is. */
  lemma DecodeVerdict(b: Bytes)
    ensures Decode(b) == Rejected(BufferTooShort) <==> |b| < 4
    ensures Decode(b) == Rejected(ReservedNonZero) <==> |b| >= 4 && !(b[1] == b[2] == b[3] == 0)
    ensures Decode(b) == Rejected(UnknownTag) <==> |b| >= 4 && b[1] == b[2] == b[3] == 0 && !(1 <= b[0] <= 5)
    ensures Decode(b).Decoded? <==>
              && |b| >= 4 && b[1] == b[2] == b[3] == 0
              && ((1 <= b[0] <= 2 && |b| == 8) || (b[0] == 3 && |b| == 12) || b[0] == 4 || (b[0] == 5 && |b| % 4 == 0))
  {
    if |b| >= 4 { assert b[1..4] == [b[1], b[2], b[3]]; }
  }

  function WordBytes(u: U32): Bytes { [u % 256, u / 256 % 256, u / 65536 % 256, u / 16777216 % 256] }

  /** The documented layout, byte by byte: type tag, three reserved bytes, little-endian payload. */
  lemma LayoutInt(i: I32)
    ensures Encode(Int32(i)) == [1, 0, 0, 0] + WordBytes(if i < 0 then i + 4294967296 else i)
  {
    WordIsLe(AsU32(i));
  }

  lemma LayoutUint(u: U32)
    ensures Encode(Uint32(u)) == [2, 0, 0, 0] + WordBytes(u)
  {
    WordIsLe(u);
  }

  lemma LayoutOctets(s: Bytes)
    ensures Encode(Octets(s)) == [4, 0, 0, 0] + s
  {
  }

  lemma LayoutOid(id: U32, rest: seq<U32>)
    ensures Encode(Oid([id] + rest)) == [5, 0, 0, 0] + OidPayload([id] + rest)
    ensures OidPayload([]) == [] && OidPayload([id] + rest) == WordBytes(id) + OidPayload(rest)
  {
    WordIsLe(id);
    assert ([id] + rest)[1..] == rest;
  }

  lemma WordIsLe(u: U32)
    ensures Le(u, 4) == WordBytes(u)
  {
    Le4(u);
  }

  /** What is left of a number after shifting out `k` bytes. */
  function Shifted(n: nat, k: nat): nat { if k == 0 then n else Shifted(n / 256, k - 1) }

  /** A 64-bit value: tag 3, and byte `k` of the payload is the low byte after shifting out `k` bytes. */
  lemma LayoutU64(w: U64, k: nat)
    requires k < 8
    ensures |Encode(Uint64(w))| == 12 && Encode(Uint64(w))[..4] == [3, 0, 0, 0]
    ensures Encode(Uint64(w))[4 + k] == Shifted(w, k) % 256
  {
    LeAt(w, 8, k);
  }

  lemma {:induction false} LeAt(n: nat, size: nat, k: nat)
    requires k < size
    ensures Le(n, size)[k] == Shifted(n, k) % 256
  {
    if k > 0 { LeAt(n / 256, size - 1, k - 1); }
  }

  lemma PayloadOfDecoded(b: Bytes)
    requires Decode(b).Decoded?
    ensures TagOf(Decode(b).value) == b[0] && Payload(Decode(b).value) == b[4..]
  {
    var p := b[4..];
    LeOfFromLe(p);
    if b[0] == TAG_OID { PayloadOfSubids(p); }
  }

  // ---- the C codec -----------------------------------------------------

  /** `decode_header`: only the length and the tag are looked at. */
  function PayloadFor(b: Bytes, tag: Byte): Result<Bytes> {
    if |b| < HEADER_LEN then Failure(Inval)
    else if b[0] != tag then Failure(TypeErr)
    else Success(b[4..])
  }

  function Word32(b: Bytes): U32
    requires |b| >= 4
  {
    WordSizes();
    LeOfFromLe(b[..4]);
    FromLe(b[..4])
  }

  function GetInt(b: Bytes): Result<I32> {
    var p := PayloadFor(b, TAG_INT32);
    if p.Failure? then Failure(p.rc)
    else if |p.value| < 4 then Failure(Inval)
    else Success(AsI32(Word32(p.value)))
  }

  function GetUint(b: Bytes): Result<U32> {
    var p := PayloadFor(b, TAG_UINT32);
    if p.Failure? then Failure(p.rc)
    else if |p.value| < 4 then Failure(Inval)
    else Success(Word32(p.value))
  }

  function GetU64(b: Bytes): Result<U64> {
    var p := PayloadFor(b, TAG_UINT64);
    if p.Failure? then Failure(p.rc)
    else if |p.value| < 8 then Failure(Inval)
    else
      WordSizes();
      LeOfFromLe(p.value[..8]);
      Success(FromLe(p.value[..8]))
  }

  /** `storage_get_bytes` with room for `cap` bytes. */
  function GetBytes(b: Bytes, cap: nat): Result<Bytes> {
    var p := PayloadFor(b, TAG_BYTES);
    if p.Failure? then Failure(p.rc)
    else if |p.value| > cap then Failure(TooBig)
    else Success(p.value)
  }

  /** `storage_get_oid` with room for `cap` sub-identifiers. */
  function GetOid(b: Bytes, cap: nat): Result<seq<U32>> {
    var p := PayloadFor(b, TAG_OID);
    if p.Failure? then Failure(p.rc)
    else if |p.value| % 4 != 0 then Failure(Inval)
    else if |SubidsOf(p.value)| > cap then Failure(TooBig)
    else Success(SubidsOf(p.value))
  }

  function TypeOf(b: Bytes): Result<Byte> {
    if |b| < HEADER_LEN then Failure(Inval) else Success(b[0])
  }

  /**
   * For every buffer Rust decodes, the C accessor of that type returns the same
   * value (given room) and every other accessor reports a type error.
   */
  lemma GettersAgree(b: Bytes, cap: nat)
    requires Decode(b).Decoded?
    ensures var v := Decode(b).value;
      && GetInt(b) == (if v.Int32? then Success(v.int32) else Failure(TypeErr))
      && GetUint(b) == (if v.Uint32? then Success(v.uint32) else Failure(TypeErr))
      && GetU64(b) == (if v.Uint64? then Success(v.uint64) else Failure(TypeErr))
      && (v.Octets? && |v.octets| <= cap ==> GetBytes(b, cap) == Success(v.octets))
      && (!v.Octets? ==> GetBytes(b, cap) == Failure(TypeErr))
      && (v.Oid? && |v.subids| <= cap ==> GetOid(b, cap) == Success(v.subids))
      && (!v.Oid? ==> GetOid(b, cap) == Failure(TypeErr))
      && TypeOf(b) == Success(TagOf(v))
  {
    var p := b[4..];
    if |p| == 4 { assert p[..4] == p; }
    if |p| == 8 { assert p[..8] == p; }
  }

  /** The other answers of the C accessors: too short, another type, or no room. */
  lemma GetterVerdict(b: Bytes, cap: nat)
    ensures GetInt(b) == Failure(TypeErr) <==> |b| >= 4 && b[0] != 1
    ensures GetInt(b) == Failure(Inval) <==> |b| < 4 || (b[0] == 1 && |b| < 8)
    ensures GetUint(b) == Failure(TypeErr) <==> |b| >= 4 && b[0] != 2
    ensures GetUint(b) == Failure(Inval) <==> |b| < 4 || (b[0] == 2 && |b| < 8)
    ensures GetU64(b) == Failure(TypeErr) <==> |b| >= 4 && b[0] != 3
    ensures GetU64(b) == Failure(Inval) <==> |b| < 4 || (b[0] == 3 && |b| < 12)
    ensures GetBytes(b, cap) == Failure(TypeErr) <==> |b| >= 4 && b[0] != 4
    ensures GetBytes(b, cap) == Failure(Inval) <==> |b| < 4
    ensures GetBytes(b, cap) == Failure(TooBig) <==> |b| > 4 + cap && b[0] == 4
    ensures GetOid(b, cap) == Failure(TypeErr) <==> |b| >= 4 && b[0] != 5
    ensures GetOid(b, cap) == Failure(Inval) <==> |b| < 4 || (b[0] == 5 && |b| % 4 != 0)
    ensures GetOid(b, cap) == Failure(TooBig) <==> |b| > 4 + 4 * cap && b[0] == 5 && |b| % 4 == 0
    ensures TypeOf(b) == if |b| < 4 then Failure(Inval) else Success(b[0])
    ensures GetInt(b).Success? || GetInt(b).rc in {TypeErr, Inval}
    ensures GetUint(b).Success? || GetUint(b).rc in {TypeErr, Inval}
    ensures GetU64(b).Success? || GetU64(b).rc in {TypeErr, Inval}
    ensures GetBytes(b, cap).Success? || GetBytes(b, cap).rc in {TypeErr, Inval, TooBig}
    ensures GetOid(b, cap).Success? || GetOid(b, cap).rc in {TypeErr, Inval, TooBig}
  {
  }

  /**
   * What leniency means: reserved bytes and bytes after a fixed-size payload do
   * not change what the C accessors return.
   */
  lemma LenientReads(v: Value, r: Bytes, extra: Bytes)
    requires |r| == 3
    ensures v.Int32? ==> GetInt([1] + r + (Payload(v) + extra)) == Success(v.int32)
    ensures v.Uint32? ==> GetUint([2] + r + (Payload(v) + extra)) == Success(v.uint32)
    ensures v.Uint64? ==> GetU64([3] + r + (Payload(v) + extra)) == Success(v.uint64)
    ensures v.Octets? ==> GetBytes([4] + r + v.octets, |v.octets|) == Success(v.octets)
    ensures v.Oid? ==> GetOid([5] + r + Payload(v), |v.subids|) == Success(v.subids)
  {
    var p := Payload(v);
    WordSizes();
    Behind(TagOf(v), r, p + extra);
    Behind(TagOf(v), r, p);
    assert (p + extra)[..|p|] == p;
    match v
    case Int32(i) => FromLeOfLe(AsU32(i), 4);
    case Uint32(u) => FromLeOfLe(u, 4);
    case Uint64(w) => FromLeOfLe(w, 8);
    case Octets(_) =>
    case Oid(ids) => SubidsOfPayload(ids);
  }

  lemma Behind(tag: Byte, r: Bytes, p: Bytes)
    requires |r| == 3
    ensures ([tag] + r + p)[0] == tag && ([tag] + r + p)[4..] == p
  {
  }

  /** C is the more lenient side: exactly these integers are readable in C and rejected by Rust. */
  lemma LenientIff(b: Bytes)
    requires GetInt(b).Success?
    ensures Decode(b).Decoded? <==> b[1..4] == [0, 0, 0] && |b| == 8
    ensures Decode(b).Decoded? ==> Decode(b).value == Int32(GetInt(b).value)
  {
    if |b| == 8 { assert b[4..][..4] == b[4..]; }
  }

  /** `txn_set_int_impl`: the buffer handed to `mdb_put`. */
  method SetIntBuffer(v: I32) returns (buf: array<Byte>)
    ensures buf[..] == Encode(Int32(v))
  {
    buf := new Byte[8];
    EncodeHeader(buf, TAG_INT32);
    PutU32le(buf, 4, AsU32(v));
    assert buf[..] == buf[..8];
  }

  /** `txn_set_uint_impl`. */
  method SetUintBuffer(v: U32) returns (buf: array<Byte>)
    ensures buf[..] == Encode(Uint32(v))
  {
    buf := new Byte[8];
    EncodeHeader(buf, TAG_UINT32);
    PutU32le(buf, 4, v);
    assert buf[..] == buf[..8];
  }

  /** `txn_set_u64_impl`. */
  method SetU64Buffer(v: U64) returns (buf: array<Byte>)
    ensures buf[..] == Encode(Uint64(v))
  {
    buf := new Byte[12];
    EncodeHeader(buf, TAG_UINT64);
    PutU64le(buf, 4, v);
    assert buf[..] == buf[..12];
  }

  /** `txn_set_bytes_impl`. */
  method SetBytesBuffer(s: Bytes) returns (buf: array<Byte>)
    ensures buf[..] == Encode(Octets(s))
  {
    buf := new Byte[4 + |s|];
    EncodeHeader(buf, TAG_BYTES);
    forall i | 0 <= i < |s| { buf[4 + i] := s[i]; }
    assert buf[..] == buf[..4] + buf[4..];
  }

  /** `txn_set_oid_impl`: one little-endian word per sub-identifier. */
  method SetOidBuffer(ids: seq<U32>) returns (buf: array<Byte>)
    ensures buf[..] == Encode(Oid(ids))
  {
    buf := new Byte[4 + 4 * |ids|];
    EncodeHeader(buf, TAG_OID);
    var i := 0;
    while i < |ids|
      invariant i <= |ids|
      invariant buf[..4 + 4 * i] == [TAG_OID, 0, 0, 0] + OidPayload(ids[..i])
    {
      PutU32le(buf, 4 + 4 * i, ids[i]);
      OidPayloadNext(ids, i);
      i := i + 1;
    }
    assert ids[..i] == ids;
    assert buf[..] == buf[..4 + 4 * i];
  }

  lemma OidPayloadNext(ids: seq<U32>, i: nat)
    requires i < |ids|
    ensures [TAG_OID, 0, 0, 0] + OidPayload(ids[..i]) + Le(ids[i], 4) == [TAG_OID, 0, 0, 0] + OidPayload(ids[..i + 1])
  {
    OidPayloadSnoc(ids[..i], ids[i]);
    assert ids[..i + 1] == ids[..i] + [ids[i]];
  }

  lemma {:induction false} OidPayloadSnoc(ids: seq<U32>, n: U32)
    ensures OidPayload(ids + [n]) == OidPayload(ids) + Le(n, 4)
  {
    if ids != [] {
      assert (ids + [n])[1..] == ids[1..] + [n];
      OidPayloadSnoc(ids[1..], n);
    } else {
      assert OidPayload([n]) == Le(n, 4) + OidPayload([]);
    }
  }

  method EncodeHeader(buf: array<Byte>, tag: Byte)
    requires buf.Length >= 4
    modifies buf
    ensures buf[..4] == [tag, 0, 0, 0] && buf[4..] == old(buf[4..])
  {
    buf[0], buf[1], buf[2], buf[3] := tag, 0, 0, 0;
  }

  /** `put_u32le` at offset `at`. */
  method PutU32le(buf: array<Byte>, at: nat, v: U32)
    requires at + 4 <= buf.Length
    modifies buf
    ensures buf[..at + 4] == old(buf[..at]) + Le(v, 4)
    ensures buf[at + 4..] == old(buf[at + 4..])
  {
    buf[at] := v % 256;
    buf[at + 1] := v / 256 % 256;
    buf[at + 2] := v / 0x1_0000 % 256;
    buf[at + 3] := v / 0x100_0000 % 256;
    Le4(v);
  }

  lemma Le4(v: U32)
    ensures Le(v, 4) == [v % 256, v / 256 % 256, v / 0x1_0000 % 256, v / 0x100_0000 % 256]
  {
    assert Le(v / 0x100_0000, 1) == [v / 0x100_0000 % 256] + Le(v / 0x100_0000 / 256, 0);
    assert Le(v / 0x1_0000, 2) == [v / 0x1_0000 % 256] + Le(v / 0x1_0000 / 256, 1);
    assert Le(v / 256, 3) == [v / 256 % 256] + Le(v / 256 / 256, 2);
  }

  // ---- what the accessors can tell apart -------------------------------

  /** Everything the typed accessors can report about one key, before buffer limits. */
  datatype View = View(
    int32: Result<I32>, uint32: Result<U32>, uint64: Result<U64>,
    octets: Result<Bytes>, oid: Result<seq<U32>>, tag: Result<Byte>)

  ghost function ViewOf(stored: Option<Bytes>): View {
    match stored
    case None =>
      View(Failure(NotFound), Failure(NotFound), Failure(NotFound),
           Failure(NotFound), Failure(NotFound), Failure(NotFound))
    case Some(b) =>
      View(GetInt(b), GetUint(b), GetU64(b), PayloadFor(b, TAG_BYTES), GetOid(b, |b|), TypeOf(b))
  }

  /** Rewriting an integer with the value that was read is invisible to every accessor. */
  lemma RewriteInt(b: Bytes)
    requires GetInt(b).Success?
    ensures ViewOf(Some(Encode(Int32(GetInt(b).value)))) == ViewOf(Some(b))
  {
    var c := Encode(Int32(GetInt(b).value));
    DecodeOfEncode(Int32(GetInt(b).value));
    GettersAgree(c, |c|);
  }

  lemma RewriteUint(b: Bytes)
    requires GetUint(b).Success?
    ensures ViewOf(Some(Encode(Uint32(GetUint(b).value)))) == ViewOf(Some(b))
  {
    var c := Encode(Uint32(GetUint(b).value));
    DecodeOfEncode(Uint32(GetUint(b).value));
    GettersAgree(c, |c|);
  }

  lemma RewriteBytes(b: Bytes, cap: nat)
    requires GetBytes(b, cap).Success?
    ensures ViewOf(Some(Encode(Octets(GetBytes(b, cap).value)))) == ViewOf(Some(b))
  {
    var c := Encode(Octets(GetBytes(b, cap).value));
    assert c[4..] == b[4..];
  }
}
