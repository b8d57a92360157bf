/**
 The writes that put a memcache request on a connection, as client/gen_memcache.cc and
 client/load_memcache.cc make them: the header and the extras are built in place in the transmit ring,
 the key and the value are copied.  An object built in place is only right if it does not straddle the
 end of the ring.
 */
module Requests {
  import opened Common
  import opened Packets
  import opened RingBuffers
  import opened Sockets
  import Tx = TxStream

  /** One write: a copy of some bytes, or an object built in place, with what lies behind it in memory. */
  datatype Part = Copied(bytes: seq<byte>) | Emplaced(bytes: seq<byte>, junk: nat -> byte)

  /** The transmit ring as the writes see it: what waits, where the next byte goes, and the free space. */
  datatype TxRing = TxRing(pending: seq<byte>, tail: nat, space: nat, ok: bool)

  /** What a write leaves in a ring of `cap` bytes. */
  function Landed(p: Part, tail: nat, cap: nat): (bytes: seq<byte>)
    requires tail < cap
    ensures |bytes| == |p.bytes|
  {
    if p.Copied? then p.bytes else Garbled(p.bytes, cap - tail, p.junk)
  }

  function Total(parts: seq<Part>): nat {
    if parts == [] then 0 else |parts[0].bytes| + Total(parts[1..])
  }

  /** The bytes of these writes, one after the other. */
  function Stream(parts: seq<Part>, tail: nat, cap: nat): seq<byte>
    requires tail < cap && Total(parts) <= cap
  {
    if parts == [] then []
    else Landed(parts[0], tail, cap) + Stream(parts[1..], Wrap(tail + |parts[0].bytes|, cap), cap)
  }

  /** The writes in order, up to the first that throws: one of no bytes, or of more than there is room for. */
  function Writes(parts: seq<Part>, r: TxRing, cap: nat): TxRing
    requires r.tail < cap && r.space <= cap
  {
    if parts == [] then r
    else
      var p, len := parts[0], |parts[0].bytes|;
      if len == 0 || len > r.space then r.(ok := false)
      else
        var next := TxRing(r.pending + Landed(p, r.tail, cap), Wrap(r.tail + len, cap), r.space - len, r.ok);
        Writes(parts[1..], next, cap)
  }

  predicate NoneEmpty(parts: seq<Part>) {
    parts == [] || (parts[0].bytes != [] && NoneEmpty(parts[1..]))
  }

  /** All writes succeed if and only if none is empty and all of them fit together; then exactly their
      bytes are appended. */
  lemma {:induction false} WritesSucceedIff(parts: seq<Part>, r: TxRing, cap: nat)
    requires r.tail < cap && r.space <= cap && r.ok
    ensures Writes(parts, r, cap).ok <==> NoneEmpty(parts) && Total(parts) <= r.space
    ensures Writes(parts, r, cap).ok ==> Writes(parts, r, cap).pending == r.pending + Stream(parts, r.tail, cap)
    decreases |parts|
  {
    if parts != [] {
      var len := |parts[0].bytes|;
      if 0 < len <= r.space {
        var landed, tail := Landed(parts[0], r.tail, cap), Wrap(r.tail + len, cap);
        WritesSucceedIff(parts[1..], TxRing(r.pending + landed, tail, r.space - len, true), cap);
        if Total(parts) <= r.space {
          Appended(r.pending, landed, Stream(parts[1..], tail, cap));
        }
      }
    }
  }

  lemma Appended(a: seq<byte>, b: seq<byte>, c: seq<byte>)
    ensures a + (b + c) == a + b + c
  {
  }

  /** The transmit ring of a socket. */
  ghost function RingOf(tx: Transmitter, ok: bool): (r: TxRing)
    requires tx.Valid()
    reads tx, tx.cbs, tx.cbs.buf, tx.wbuf, tx.wbuf.buf
  {
    TxRing(tx.Model().pending, tx.wbuf.tail, tx.wbuf.Space(), ok)
  }

  /** One write, of either kind. */
  method Put(tx: Transmitter, p: Part) returns (r: Result<(), BufferError>)
    requires tx.Valid()
    modifies tx.wbuf, tx.wbuf.buf
    ensures tx.Valid()
    ensures tx.Model() == old(tx.Model()).(pending := tx.Model().pending)
    ensures RingOf(tx, r.Success?) == Writes([p], old(RingOf(tx, true)), tx.wbuf.buf.Length)
  {
    ghost var before := RingOf(tx, true);
    assert [p][1..] == [];
    match p {
      case Copied(bytes) => r := tx.Write(bytes);
      case Emplaced(bytes, junk) => r := tx.WriteEmplace(bytes, junk);
    }
  }

  /** The rest of the writes follows a write that succeeded. */
  lemma OneWrite(p: Part, rest: seq<Part>, r: TxRing, cap: nat)
    requires r.tail < cap && r.space <= cap && r.ok
    ensures var one := Writes([p], r, cap);
            && one.tail < cap && one.space <= cap
            && Writes([p] + rest, r, cap) == if one.ok then Writes(rest, one, cap) else one
  {
    assert [p][1..] == [] && ([p] + rest)[1..] == rest;
  }

  /** The header of a request, before its parts are written. */
  function HeaderFor(cmd: byte, el: byte, key: seq<byte>, value: seq<byte>): (h: seq<byte>)
    ensures |h| == HEADER_SIZE
  {
    HeaderBytes(cmd, el, |key|, el as nat + |key| % 0x1_0000 + |value|)
  }

  /** A set: header, extras, key and value. */
  function SetParts(key: seq<byte>, value: seq<byte>, quiet: bool, junk1: nat -> byte, junk2: nat -> byte)
    : (p: seq<Part>)
    ensures |p| == 4
  {
    [Emplaced(HeaderFor(if quiet then SETQ else SET, 8, key, value), junk1), Emplaced(Zeros(LONG), junk2),
     Copied(key), Copied(value)]
  }

  /** A get: header and key. */
  function GetParts(key: seq<byte>, junk: nat -> byte): (p: seq<Part>)
    ensures |p| == 2
  {
    [Emplaced(HeaderFor(GET, 0, key, []), junk), Copied(key)]
  }

  /** After these writes, doing the rest of `parts` leads to `goal`. */
  ghost predicate Ahead(tx: Transmitter, parts: seq<Part>, goal: TxRing)
    requires tx.Valid()
    reads tx, tx.cbs, tx.cbs.buf, tx.wbuf, tx.wbuf.buf
  {
    goal == Writes(parts, RingOf(tx, true), tx.wbuf.buf.Length)
  }

  /** The next write: it throws, or it brings the transmitter one part further. */
  method PutNext(tx: Transmitter, p: Part, ghost rest: seq<Part>, ghost goal: TxRing)
    returns (r: Result<(), BufferError>)
    requires tx.Valid() && Ahead(tx, [p] + rest, goal)
    modifies tx.wbuf, tx.wbuf.buf
    ensures tx.Valid()
    ensures tx.Model() == old(tx.Model()).(pending := tx.Model().pending)
    ensures if r.Success? then Ahead(tx, rest, goal) else RingOf(tx, false) == goal
  {
    OneWrite(p, rest, RingOf(tx, true), tx.wbuf.buf.Length);
    r := Put(tx, p);
  }

  /** Four writes in a row, up to the first that throws. */
  method PutFour(tx: Transmitter, a: Part, b: Part, c: Part, d: Part) returns (r: Result<(), BufferError>)
    requires tx.Valid()
    modifies tx.wbuf, tx.wbuf.buf
    ensures tx.Valid()
    ensures tx.Model() == old(tx.Model()).(pending := tx.Model().pending)
    ensures RingOf(tx, r.Success?) == Writes([a, b, c, d], old(RingOf(tx, true)), tx.wbuf.buf.Length)
  {
    ghost var goal := Writes([a, b, c, d], RingOf(tx, true), tx.wbuf.buf.Length);
    assert [a, b, c, d] == [a] + [b, c, d];
    r := PutNext(tx, a, [b, c, d], goal);
    if r.Success? {
      assert [b, c, d] == [b] + [c, d];
      r := PutNext(tx, b, [c, d], goal);
      if r.Success? {
        r := PutTwo(tx, c, d, goal);
      }
    }
  }

  method PutTwo(tx: Transmitter, a: Part, b: Part, ghost goal: TxRing) returns (r: Result<(), BufferError>)
    requires tx.Valid() && Ahead(tx, [a, b], goal)
    modifies tx.wbuf, tx.wbuf.buf
    ensures tx.Valid()
    ensures tx.Model() == old(tx.Model()).(pending := tx.Model().pending)
    ensures RingOf(tx, r.Success?) == goal
  {
    assert [a, b] == [a] + [b] && [b] == [b] + [];
    r := PutNext(tx, a, [b], goal);
    if r.Success? {
      r := PutNext(tx, b, [], goal);
    }
  }

  method MakeHeader(cmd: byte, el: byte, key: seq<byte>, value: seq<byte>) returns (h: seq<byte>)
    ensures h == HeaderFor(cmd, el, key, value)
  {
    h := HeaderOf(cmd, el, |key|, |value|);
  }

  /** The writes of a set.  What is appended, and how far they get, is what `Writes` says. */
  method WriteSet(tx: Transmitter, key: seq<byte>, value: seq<byte>, quiet: bool,
                  junk1: nat -> byte, junk2: nat -> byte)
    returns (r: Result<(), BufferError>)
    requires tx.Valid()
    modifies tx.wbuf, tx.wbuf.buf
    ensures tx.Valid()
    ensures tx.Model() == old(tx.Model()).(pending := tx.Model().pending)
    ensures RingOf(tx, r.Success?) ==
            Writes(SetParts(key, value, quiet, junk1, junk2), old(RingOf(tx, true)), tx.wbuf.buf.Length)
  {
    var header := MakeHeader(if quiet then SETQ else SET, 8, key, value);
    r := PutFour(tx, Emplaced(header, junk1), Emplaced(Zeros(LONG), junk2), Copied(key), Copied(value));
  }

  /** The writes of a get. */
  method WriteGet(tx: Transmitter, key: seq<byte>, junk: nat -> byte) returns (r: Result<(), BufferError>)
    requires tx.Valid()
    modifies tx.wbuf, tx.wbuf.buf
    ensures tx.Valid()
    ensures tx.Model() == old(tx.Model()).(pending := tx.Model().pending)
    ensures RingOf(tx, r.Success?) == Writes(GetParts(key, junk), old(RingOf(tx, true)), tx.wbuf.buf.Length)
  {
    var header := MakeHeader(GET, 0, key, []);
    ghost var goal := Writes(GetParts(key, junk), RingOf(tx, true), tx.wbuf.buf.Length);
    r := PutTwo(tx, Emplaced(header, junk), Copied(key), goal);
  }

  // ---------- When the bytes are the encoded request ----------

  lemma FirstPart(p: Part, rest: seq<Part>, tail: nat, cap: nat)
    requires tail < cap && |p.bytes| + Total(rest) <= cap
    ensures Total([p] + rest) == |p.bytes| + Total(rest)
    ensures Stream([p] + rest, tail, cap) == Landed(p, tail, cap) + Stream(rest, Wrap(tail + |p.bytes|, cap), cap)
  {
    assert ([p] + rest)[1..] == rest;
  }

  lemma TwoParts(p: Part, q: Part, tail: nat, cap: nat)
    requires tail < cap && |p.bytes| + |q.bytes| <= cap
    ensures Total([p, q]) == |p.bytes| + |q.bytes|
    ensures Stream([p, q], tail, cap) == Landed(p, tail, cap) + Landed(q, Wrap(tail + |p.bytes|, cap), cap)
  {
    assert [q] == [q] + [] && [p, q] == [p] + [q];
    FirstPart(q, [], Wrap(tail + |p.bytes|, cap), cap);
    FirstPart(p, [q], tail, cap);
  }

  lemma SameFront(a: seq<byte>, b: seq<byte>, c: seq<byte>, d: seq<byte>)
    requires |a| == |b|
    ensures a + c == b + d <==> a == b && c == d
  {
    if a + c == b + d {
      assert a == (a + c)[..|a|] == (b + d)[..|b|] == b;
      assert c == (a + c)[|a|..] == (b + d)[|b|..] == d;
    }
  }

  /** What the writes of a get leave, and when that is the request. */
  lemma GetBytes(key: seq<byte>, junk: nat -> byte, tail: nat, cap: nat)
    requires tail < cap && HEADER_SIZE + |key| <= cap
    ensures Total(GetParts(key, junk)) == HEADER_SIZE + |key|
    ensures Stream(GetParts(key, junk), tail, cap) == Encode(GetRequest(key)) <==>
            Garbled(HeaderFor(GET, 0, key, []), cap - tail, junk) == HeaderFor(GET, 0, key, [])
  {
    var h := HeaderFor(GET, 0, key, []);
    TwoParts(Emplaced(h, junk), Copied(key), tail, cap);
    assert [] + key + [] == key;
    SameFront(Garbled(h, cap - tail, junk), h, key, key);
  }

  ghost predicate GetIsEncoded(key: seq<byte>, junk: nat -> byte, tail: nat, cap: nat)
    requires tail < cap
  {
    && Total(GetParts(key, junk)) == HEADER_SIZE + |key| <= cap
    && Stream(GetParts(key, junk), tail, cap) == Encode(GetRequest(key))
  }

  /** The writes of a get put the encoded request on the stream for sure, whatever lies behind the header in
      memory, if and only if the header does not straddle the end of the ring. */
  lemma GetIsEncodedIff(key: seq<byte>, tail: nat, cap: nat)
    requires tail < cap && HEADER_SIZE + |key| <= cap
    ensures (forall junk :: GetIsEncoded(key, junk, tail, cap)) <==> tail + HEADER_SIZE <= cap
  {
    var h := HeaderFor(GET, 0, key, []);
    GarbledIsRightIff(h, cap - tail);
    if tail + HEADER_SIZE <= cap {
      forall junk
        ensures GetIsEncoded(key, junk, tail, cap)
      {
        GetBytes(key, junk, tail, cap);
      }
    } else {
      var junk :| Garbled(h, cap - tail, junk) != h;
      GetBytes(key, junk, tail, cap);
      assert !GetIsEncoded(key, junk, tail, cap);
    }
  }

  lemma FourParts(p: Part, q: Part, key: seq<byte>, value: seq<byte>, tail: nat, t: nat, cap: nat)
    requires tail < cap && |p.bytes| + |q.bytes| + |key| + |value| <= cap && t == Wrap(tail + |p.bytes|, cap)
    ensures Total([p, q, Copied(key), Copied(value)]) == |p.bytes| + |q.bytes| + |key| + |value|
    ensures Stream([p, q, Copied(key), Copied(value)], tail, cap) ==
            Landed(p, tail, cap) + (Landed(q, t, cap) + (key + value))
  {
    var data := [Copied(key), Copied(value)];
    assert [p, q, Copied(key), Copied(value)] == [p] + ([q] + data);
    TwoParts(Copied(key), Copied(value), Wrap(t + |q.bytes|, cap), cap);
    FirstPart(q, data, t, cap);
    FirstPart(p, [q] + data, tail, cap);
  }

  lemma EncodedSet(key: seq<byte>, value: seq<byte>, quiet: bool, h: seq<byte>, z: seq<byte>)
    requires h == HeaderFor(if quiet then SETQ else SET, 8, key, value) && z == Zeros(LONG)
    ensures Encode(SetRequest(key, value, quiet)) == h + (z + (key + value))
  {
    assert z + key + value == z + (key + value);
  }

  lemma SameFronts(a: seq<byte>, b: seq<byte>, c: seq<byte>, d: seq<byte>, e: seq<byte>)
    requires |a| == |b| && |c| == |d|
    ensures a + (c + e) == b + (d + e) <==> a == b && c == d
  {
    SameFront(a, b, c + e, d + e);
    SameFront(c, d, e, e);
  }

  /** What the writes of a set leave, and when that is the request. */
  lemma SetBytes(key: seq<byte>, value: seq<byte>, quiet: bool, j1: nat -> byte, j2: nat -> byte,
                 h: seq<byte>, z: seq<byte>, tail: nat, t: nat, cap: nat)
    requires tail < cap && HEADER_SIZE + LONG + |key| + |value| <= cap && t == Wrap(tail + HEADER_SIZE, cap)
    requires h == HeaderFor(if quiet then SETQ else SET, 8, key, value) && z == Zeros(LONG)
    ensures Total(SetParts(key, value, quiet, j1, j2)) == HEADER_SIZE + LONG + |key| + |value|
    ensures Stream(SetParts(key, value, quiet, j1, j2), tail, cap) == Encode(SetRequest(key, value, quiet)) <==>
            Garbled(h, cap - tail, j1) == h && Garbled(z, cap - t, j2) == z
  {
    EncodedSet(key, value, quiet, h, z);
    FourParts(Emplaced(h, j1), Emplaced(z, j2), key, value, tail, t, cap);
    SameFronts(Garbled(h, cap - tail, j1), h, Garbled(z, cap - t, j2), z, key + value);
  }

  ghost predicate SetIsEncoded(key: seq<byte>, value: seq<byte>, quiet: bool, j1: nat -> byte, j2: nat -> byte,
                               tail: nat, cap: nat)
    requires tail < cap
  {
    && Total(SetParts(key, value, quiet, j1, j2)) == HEADER_SIZE + LONG + |key| + |value| <= cap
    && Stream(SetParts(key, value, quiet, j1, j2), tail, cap) == Encode(SetRequest(key, value, quiet))
  }

  /** The same for a set: neither the header nor the extras may straddle the end of the ring. */
  lemma SetIsEncodedIff(key: seq<byte>, value: seq<byte>, quiet: bool, tail: nat, cap: nat)
    requires tail < cap && HEADER_SIZE + LONG + |key| + |value| <= cap
    ensures (forall j1, j2 :: SetIsEncoded(key, value, quiet, j1, j2, tail, cap))
            <==> tail + HEADER_SIZE <= cap && Wrap(tail + HEADER_SIZE, cap) + LONG <= cap
  {
    var h, z := HeaderFor(if quiet then SETQ else SET, 8, key, value), Zeros(LONG);
    var t := Wrap(tail + HEADER_SIZE, cap);
    GarbledIsRightIff(h, cap - tail);
    GarbledIsRightIff(z, cap - t);
    if tail + HEADER_SIZE <= cap && t + LONG <= cap {
      forall j1, j2
        ensures SetIsEncoded(key, value, quiet, j1, j2, tail, cap)
      {
        SetBytes(key, value, quiet, j1, j2, h, z, tail, t, cap);
      }
    } else {
      var j1: nat -> byte, j2: nat -> byte := _ => 0, _ => 0;
      if tail + HEADER_SIZE > cap {
        j1 :| Garbled(h, cap - tail, j1) != h;
      } else {
        j2 :| Garbled(z, cap - t, j2) != z;
      }
      SetBytes(key, value, quiet, j1, j2, h, z, tail, t, cap);
      assert !SetIsEncoded(key, value, quiet, j1, j2, tail, cap);
    }
  }

  // ---------- Over a whole run ----------

  /** The tail of a transmit ring is where the stream stands, so the stream alone tells which gets are right:
      those whose header, after `written` bytes of other requests, does not reach across the end. */
  lemma GetInStreamIff(tx: Transmitter, key: seq<byte>, written: nat)
    requires tx.Valid() && written == |tx.sent| + |tx.Model().pending|
    requires HEADER_SIZE + |key| <= tx.wbuf.buf.Length
    ensures var cap := tx.wbuf.buf.Length;
            (forall junk :: GetIsEncoded(key, junk, tx.wbuf.tail, cap))
            <==> written % cap + HEADER_SIZE <= cap
  {
    AroundIsMod(written, tx.wbuf.buf.Length);
    GetIsEncodedIff(key, tx.wbuf.tail, tx.wbuf.buf.Length);
  }

  /** The same for sets. */
  lemma SetInStreamIff(tx: Transmitter, key: seq<byte>, value: seq<byte>, quiet: bool, written: nat)
    requires tx.Valid() && written == |tx.sent| + |tx.Model().pending|
    requires HEADER_SIZE + LONG + |key| + |value| <= tx.wbuf.buf.Length
    ensures var cap := tx.wbuf.buf.Length;
            (forall j1, j2 :: SetIsEncoded(key, value, quiet, j1, j2, tx.wbuf.tail, cap))
            <==> written % cap + HEADER_SIZE <= cap && (written + HEADER_SIZE) % cap + LONG <= cap
  {
    AroundIsMod(written, tx.wbuf.buf.Length);
    WrapIsMod(written, HEADER_SIZE, tx.wbuf.buf.Length);
    SetIsEncodedIff(key, value, quiet, tx.wbuf.tail, tx.wbuf.buf.Length);
  }
}
