/**
 The memcache packets of client/memcache.hh: a packed 24-byte header whose fields a little-endian
 host swaps into network order, and the header-plus-body framing of section 2 ("Packet Structure")
 of draft-stone-memcache-binary-01.
 */
module Packets {
  import opened Common

  // ---------- Integers in memory ----------

  /** The `k` bytes of an unsigned integer, least significant first. */
  function Le(n: nat, k: nat): (s: seq<byte>)
    ensures |s| == k
    decreases k, n
  {
    if k == 0 then [] else [(n % 256) as byte] + Le(n / 256, k - 1)
  }

  function FromLe(s: seq<byte>): nat {
    if s == [] then 0 else s[0] as nat + 256 * FromLe(s[1..])
  }

  function Reverse(s: seq<byte>): (r: seq<byte>)
    ensures |r| == |s|
    ensures forall i :: 0 <= i < |s| ==> r[i] == s[|s| - 1 - i]
  {
    seq(|s|, i requires 0 <= i < |s| => s[|s| - 1 - i])
  }

  /** Network order. */
  function Be(n: nat, k: nat): (s: seq<byte>)
    ensures |s| == k
  {
    Reverse(Le(n, k))
  }

  function FromBe(s: seq<byte>): nat {
    FromLe(Reverse(s))
  }

  /** `htons`, `htonl` and `htonll` on a little-endian host, and their inverses. */
  function Swap(n: nat, k: nat): nat {
    FromLe(Reverse(Le(n, k)))
  }

  function Pow256(k: nat): (p: nat)
    ensures p > 0
  {
    if k == 0 then 1 else 256 * Pow256(k - 1)
  }

  lemma {:induction false} LeRoundTrip(n: nat, k: nat)
    ensures FromLe(Le(n, k)) == n % Pow256(k) && FromLe(Le(n, k)) < Pow256(k)
    decreases k
  {
    if k > 0 {
      LeRoundTrip(n / 256, k - 1);
      SplitMod(n, Pow256(k - 1));
    }
  }

  lemma SplitMod(n: nat, p: nat)
    requires p > 0
    ensures n % (256 * p) == n % 256 + 256 * (n / 256 % p)
  {
    var q := n / 256 / p;
    assert n == 256 * (n / 256) + n % 256;
    assert n / 256 == p * q + n / 256 % p;
    assert n == q * (256 * p) + (n % 256 + 256 * (n / 256 % p));
    DivModIs(n, 256 * p, q, n % 256 + 256 * (n / 256 % p));
  }

  lemma {:induction false} FromLeRoundTrip(s: seq<byte>)
    ensures Le(FromLe(s), |s|) == s && FromLe(s) < Pow256(|s|)
    decreases |s|
  {
    if s != [] {
      FromLeRoundTrip(s[1..]);
      var r := FromLe(s[1..]);
      assert (s[0] as nat + 256 * r) % 256 == s[0] as nat && (s[0] as nat + 256 * r) / 256 == r;
    }
  }

  /** Swapping puts a field into network order in memory, and swapping again restores it. */
  lemma SwapIsNetworkOrder(n: nat, k: nat)
    ensures Le(Swap(n, k), k) == Be(n, k)
    ensures n < Pow256(k) ==> Swap(Swap(n, k), k) == n
    ensures Swap(n, k) < Pow256(k)
  {
    FromLeRoundTrip(Reverse(Le(n, k)));
    LeRoundTrip(n, k);
    assert Reverse(Reverse(Le(n, k))) == Le(n, k);
    if n < Pow256(k) {
      SmallMod(n, Pow256(k));
    }
  }

  lemma SwapFits(n: nat, k: nat)
    ensures Swap(n, k) < Pow256(k)
  {
    SwapIsNetworkOrder(n, k);
  }

  lemma SmallMod(n: nat, m: nat)
    requires n < m
    ensures n % m == n
  {
  }

  lemma BeRoundTrip(n: nat, k: nat)
    ensures FromBe(Be(n, k)) == n % Pow256(k)
  {
    assert Reverse(Be(n, k)) == Le(n, k);
    LeRoundTrip(n, k);
  }

  /** Storing a value in `k` bytes keeps it modulo the width. */
  lemma {:induction false} LeTruncates(n: nat, k: nat)
    ensures Le(n % Pow256(k), k) == Le(n, k)
    decreases k
  {
    if k > 0 {
      LeTruncates(n / 256, k - 1);
      SplitMod(n, Pow256(k - 1));
      LowByte(n % 256, n / 256 % Pow256(k - 1));
    }
  }

  lemma LowByte(b: nat, r: nat)
    requires b < 256
    ensures (b + 256 * r) % 256 == b && (b + 256 * r) / 256 == r
  {
  }

  lemma {:induction false} ZeroInMemory(k: nat)
    ensures forall b <- Le(0, k) :: b == 0
    decreases k
  {
    if k > 0 {
      ZeroInMemory(k - 1);
    }
  }

  lemma {:induction false} ZeroFromMemory(s: seq<byte>)
    requires forall i :: 0 <= i < |s| ==> s[i] == 0
    ensures FromLe(s) == 0
    decreases |s|
  {
    if s != [] {
      ZeroFromMemory(s[1..]);
    }
  }

  lemma SwapOfZero(k: nat)
    ensures Swap(0, k) == 0 && Le(0, k) == Zeros(k)
  {
    ZeroInMemory(k);
    assert forall i :: 0 <= i < k ==> Le(0, k)[i] in Le(0, k);
    ZeroFromMemory(Be(0, k));
  }

  // ---------- The header ----------

  const REQUEST: byte := 0x80
  const GET: byte := 0x00
  const SET: byte := 0x01
  const SETQ: byte := 0x11
  const HEADER_SIZE := 24

  // The widths of the fields in bytes.
  const HALF: nat := 2
  const WORD: nat := 4
  const LONG: nat := 8

  /** The header bytes that go on the wire. */
  function HeaderBytes(cmd: byte, extralen: byte, keylen: nat, bodylen: nat): (h: seq<byte>)
    ensures |h| == HEADER_SIZE
  {
    [REQUEST, cmd] + Be(keylen, HALF) + [extralen, 0, 0, 0] + Be(bodylen, WORD) + Zeros(12)
  }

  /** The fields of the packed struct, in declaration order. */
  datatype Fields = Fields(ty: byte, cmd: byte, keylen: nat, extralen: byte, datatype_: byte, status: nat,
                           bodylen: nat, opaque_: nat, version: nat)

  /** The struct in the memory of a little-endian host. */
  function Packed(f: Fields): (b: seq<byte>)
    ensures |b| == HEADER_SIZE
  {
    [f.ty, f.cmd] + Le(f.keylen, HALF) + [f.extralen, f.datatype_] + Le(f.status, HALF) +
    Le(f.bodylen, WORD) + Le(f.opaque_, WORD) + Le(f.version, LONG)
  }

  /** The fields after `hton`: `version` is computed from the `opaque` that was just swapped. */
  function HtonFields(f: Fields): Fields {
    var o := Swap(f.opaque_, WORD);
    f.(keylen := Swap(f.keylen, HALF), status := Swap(f.status, HALF), bodylen := Swap(f.bodylen, WORD),
       opaque_ := o, version := Swap(o, LONG))
  }

  function Constructed(cmd: byte, el: byte, kl: nat, vl: nat): Fields {
    Fields(REQUEST, cmd, kl, el, 0, 0, (el as nat + kl + vl) % 0x1_0000_0000, 0, 0)
  }

  lemma ZeroTail()
    ensures Zeros(WORD) + Zeros(8) == Zeros(12) && Zeros(2) == [0, 0]
  {
  }

  lemma FieldsInPairs(a: seq<byte>, b: seq<byte>, c: seq<byte>, d: seq<byte>, e: seq<byte>, f: seq<byte>, g: seq<byte>)
    ensures a + b + c + d + e + f + g == a + b + (c + d) + e + (f + g)
  {
  }

  /** In memory, byte by byte, the fields are those of a request header in network order. */
  ghost predicate InNetworkOrder(f: Fields, cmd: byte, el: byte, kl: nat, bl: nat) {
    && f.ty == REQUEST && f.cmd == cmd && f.extralen == el && f.datatype_ == 0
    && Le(f.keylen, HALF) == Be(kl, HALF) && Le(f.bodylen, WORD) == Be(bl, WORD)
    && Le(f.status, HALF) == Zeros(HALF) && Le(f.opaque_, WORD) == Zeros(WORD) && Le(f.version, LONG) == Zeros(LONG)
  }

  /** Such a struct is, packed, exactly what goes on the wire. */
  lemma PackedIsHeader(f: Fields, cmd: byte, el: byte, kl: nat, bl: nat)
    requires InNetworkOrder(f, cmd, el, kl, bl)
    ensures Packed(f) == HeaderBytes(cmd, el, kl, bl)
  {
    FieldsInPairs([f.ty, f.cmd], Le(f.keylen, HALF), [f.extralen, f.datatype_], Le(f.status, HALF),
            Le(f.bodylen, WORD), Le(f.opaque_, WORD), Le(f.version, LONG));
    ZeroTail();
    assert [f.extralen, 0] + [0, 0] == [f.extralen, 0, 0, 0];
  }

  /** `hton` puts a constructed header into network order, wherever the lengths wrap. */
  lemma ConstructedInNetworkOrder(cmd: byte, el: byte, kl: nat, vl: nat)
    requires kl < 0x1_0000
    ensures InNetworkOrder(HtonFields(Constructed(cmd, el, kl, vl)), cmd, el, kl, el as nat + kl + vl)
  {
    LengthsInOrder(kl, el as nat + kl + vl);
    ZerosInOrder();
  }

  lemma LengthsInOrder(kl: nat, bl: nat)
    requires kl < 0x1_0000
    ensures Le(Swap(kl, HALF), HALF) == Be(kl, HALF) && Le(Swap(bl % 0x1_0000_0000, WORD), WORD) == Be(bl, WORD)
  {
    Widths();
    SwapIsNetworkOrder(kl, HALF);
    SwapInMemory(bl, WORD);
  }

  lemma ZerosInOrder()
    ensures Le(Swap(0, HALF), HALF) == Zeros(HALF) && Le(Swap(0, WORD), WORD) == Zeros(WORD) && Swap(0, WORD) == 0
    ensures Le(Swap(0, LONG), LONG) == Zeros(LONG)
  {
    SwapOfZero(HALF);
    SwapOfZero(WORD);
    SwapOfZero(LONG);
  }

  lemma SwapInMemory(n: nat, k: nat)
    ensures Le(Swap(n % Pow256(k), k), k) == Be(n, k)
  {
    SwapIsNetworkOrder(n % Pow256(k), k);
    LeTruncates(n, k);
  }

  class MemcHeader {
    var ty: byte
    var cmd: byte
    var keylen: nat
    var extralen: byte
    var datatype_: byte
    var status: nat
    var bodylen: nat
    var opaque_: nat
    var version: nat

    /** Each field fits its declared width. */
    ghost predicate Valid()
      reads this
    {
      && keylen < Pow256(HALF) && status < Pow256(HALF)
      && bodylen < Pow256(WORD) && opaque_ < Pow256(WORD) && version < Pow256(LONG)
    }

    function Value(): Fields
      reads this
    {
      Fields(ty, cmd, keylen, extralen, datatype_, status, bodylen, opaque_, version)
    }

    /** The parameters are 8, 16 and 32 bits wide; their sum wraps at 32 bits. */
    constructor (c: byte, el: byte, kl: nat, vl: nat)
      requires kl < 0x1_0000 && vl < 0x1_0000_0000
      ensures Valid() && InNetworkOrder(Value(), c, el, kl, el as nat + kl + vl)
    {
      ConstructedInNetworkOrder(c, el, kl, vl);
      ty, cmd, extralen, datatype_ := REQUEST, c, el, 0;
      keylen, status, bodylen := kl, 0, (el as nat + kl + vl) % 0x1_0000_0000;
      opaque_, version := 0, 0;
      new;
      Widths();
      Hton();
    }

    method Hton()
      requires Valid()
      modifies this
      ensures Valid() && Value() == HtonFields(old(Value()))
    {
      SwapFits(keylen, HALF);
      SwapFits(status, HALF);
      SwapFits(bodylen, WORD);
      SwapFits(opaque_, WORD);
      SwapFits(Swap(opaque_, WORD), LONG);
      keylen := Swap(keylen, HALF);
      status := Swap(status, HALF);
      bodylen := Swap(bodylen, WORD);
      opaque_ := Swap(opaque_, WORD);
      version := Swap(opaque_, LONG);
    }

    /** Swapping is its own inverse on this host, so `ntoh` does what `hton` does. */
    method Ntoh()
      requires Valid()
      modifies this
      ensures Valid() && Value() == HtonFields(old(Value()))
    {
      Hton();
    }
  }

  /** Converting to network order and back restores every field but `version`, which both directions
      compute from `opaque`; it survives exactly when it was the swapped `opaque` already. */
  lemma HtonRoundTrip(f: Fields)
    requires f.keylen < Pow256(HALF) && f.status < Pow256(HALF) && f.bodylen < Pow256(WORD) && f.opaque_ < Pow256(WORD)
    ensures var g := HtonFields(HtonFields(f));
            && g == f.(version := Swap(f.opaque_, LONG))
            && (g == f <==> f.version == Swap(f.opaque_, LONG))
  {
    SwapIsNetworkOrder(f.keylen, HALF);
    SwapIsNetworkOrder(f.status, HALF);
    SwapIsNetworkOrder(f.bodylen, WORD);
    SwapIsNetworkOrder(f.opaque_, WORD);
  }

  lemma Widths()
    ensures Pow256(HALF) == 0x1_0000 && Pow256(WORD) == 0x1_0000_0000
    ensures Pow256(LONG) == TWO_64
  {
    assert Pow256(1) == 256 * Pow256(0);
    assert Pow256(3) == 256 * Pow256(HALF) && Pow256(5) == 256 * Pow256(WORD);
    assert Pow256(6) == 256 * Pow256(5) && Pow256(7) == 256 * Pow256(6);
  }

  // ---------- Requests on the wire ----------

  datatype Request = Request(cmd: byte, extras: seq<byte>, key: seq<byte>, value: seq<byte>)

  /** The loader's sets carry eight bytes of zero flags and expiration. */
  function SetRequest(key: seq<byte>, value: seq<byte>, quiet: bool): Request {
    Request(if quiet then SETQ else SET, Zeros(LONG), key, value)
  }

  function GetRequest(key: seq<byte>): Request {
    Request(GET, [], key, [])
  }

  /** A header and then the body, as the senders write them. */
  function Encode(r: Request): seq<byte>
    requires |r.extras| < 256
  {
    HeaderBytes(r.cmd, |r.extras| as byte, |r.key|, |r.extras| + |r.key| % 0x1_0000 + |r.value|) +
    (r.extras + r.key + r.value)
  }

  /** Equal remainders are the same on the wire. */
  lemma SameHeader(cmd: byte, el: byte, k1: nat, k2: nat, b1: nat, b2: nat)
    requires k1 % Pow256(HALF) == k2 % Pow256(HALF) && b1 % Pow256(WORD) == b2 % Pow256(WORD)
    ensures HeaderBytes(cmd, el, k1, b1) == HeaderBytes(cmd, el, k2, b2)
  {
    SameBytes(k1, k2, HALF);
    SameBytes(b1, b2, WORD);
  }

  lemma SameBytes(a: nat, b: nat, k: nat)
    requires a % Pow256(k) == b % Pow256(k)
    ensures Be(a, k) == Be(b, k)
  {
    LeTruncates(a, k);
    LeTruncates(b, k);
  }

  lemma SameRemainder(a: nat, b: nat, v: nat)
    requires b - a == v - v % 0x1_0000_0000
    ensures a % 0x1_0000_0000 == b % 0x1_0000_0000
  {
    assert b == a + (v / 0x1_0000_0000) * 0x1_0000_0000;
  }

  lemma Narrowed(kl: nat, k: nat, bl: nat, b: nat, vl: nat)
    requires k == kl % 0x1_0000 && bl - b == vl - vl % 0x1_0000_0000
    ensures k % Pow256(HALF) == kl % Pow256(HALF) && b % Pow256(WORD) == bl % Pow256(WORD)
  {
    Widths();
    SameRemainder(b, bl, vl);
  }

  /** The header struct of a request with these parts: the lengths are narrowed to 16 and 32 bits. */
  method HeaderOf(cmd: byte, el: byte, kl: nat, vl: nat) returns (bytes: seq<byte>)
    ensures bytes == HeaderBytes(cmd, el, kl, el as nat + kl % 0x1_0000 + vl)
  {
    var k, v := kl % 0x1_0000, vl % 0x1_0000_0000;
    ghost var b, bl := el as nat + k + v, el as nat + k + vl;
    bytes := Struct(cmd, el, k, v, b);
    Narrowed(kl, k, bl, b, vl);
    SameHeader(cmd, el, k, kl, b, bl);
  }

  method Struct(cmd: byte, el: byte, kl: nat, vl: nat, ghost bl: nat) returns (bytes: seq<byte>)
    requires kl < 0x1_0000 && vl < 0x1_0000_0000 && bl == el as nat + kl + vl
    ensures bytes == HeaderBytes(cmd, el, kl, bl)
  {
    var h := new MemcHeader(cmd, el, kl, vl);
    bytes := Packed(h.Value());
    PackedIsHeader(h.Value(), cmd, el, kl, bl);
  }

  /** The lengths fit in the header fields that hold them. */
  predicate Fits(r: Request) {
    |r.key| < 0x1_0000 && |r.extras| + |r.key| + |r.value| < 0x1_0000_0000
  }

  function EncodeAll(rs: seq<Request>): seq<byte>
    requires forall i :: 0 <= i < |rs| ==> |rs[i].extras| < 256
  {
    if rs == [] then [] else Encode(rs[0]) + EncodeAll(rs[1..])
  }

  function KeyLength(h: seq<byte>): nat
    requires |h| == HEADER_SIZE
  {
    FromBe(h[2..4])
  }

  function BodyLength(h: seq<byte>): nat
    requires |h| == HEADER_SIZE
  {
    FromBe(h[8..12])
  }

  /** The first packet of a stream, and its length. */
  function ParseOne(stream: seq<byte>): (r: Option<(Request, nat)>)
    ensures r.Some? ==> HEADER_SIZE <= r.value.1 <= |stream|
  {
    if |stream| < HEADER_SIZE then None else
    var h, rest := stream[..HEADER_SIZE], stream[HEADER_SIZE..];
    var el, kl, bl := h[4] as nat, KeyLength(h), BodyLength(h);
    if h[0] != REQUEST || bl > |rest| || el + kl > bl then None
    else Some((Request(h[1], rest[..el], rest[el..el + kl], rest[el + kl..bl]), HEADER_SIZE + bl))
  }

  /** Header-plus-body framing of a whole stream of requests. */
  function ParseAll(stream: seq<byte>): Option<seq<Request>>
    decreases |stream|
  {
    if stream == [] then Some([]) else
    var first := ParseOne(stream);
    if first.None? then None else
    var rest := ParseAll(stream[first.value.1..]);
    if rest.None? then None else Some([first.value.0] + rest.value)
  }

  lemma HeaderFields(cmd: byte, el: byte, kl: nat, bl: nat)
    ensures var h := HeaderBytes(cmd, el, kl, bl);
            && h[0] == REQUEST && h[1] == cmd && h[4] == el
            && KeyLength(h) == kl % 0x1_0000 && BodyLength(h) == bl % 0x1_0000_0000
  {
    Widths();
    BeRoundTrip(kl, HALF);
    BeRoundTrip(bl, WORD);
    var h := HeaderBytes(cmd, el, kl, bl);
    assert h[2..4] == Be(kl, HALF);
    assert h[8..12] == Be(bl, WORD);
  }

  lemma BodyFields(extras: seq<byte>, key: seq<byte>, value: seq<byte>, more: seq<byte>)
    ensures var body := extras + key + value;
            var el, kl := |extras|, |key|;
            && (body + more)[..el] == extras
            && (body + more)[el..el + kl] == key
            && (body + more)[el + kl..|body|] == value
  {
  }

  lemma HeadAndTail(h: seq<byte>, body: seq<byte>, more: seq<byte>)
    ensures (h + body + more)[..|h|] == h && (h + body + more)[|h|..] == body + more
  {
  }

  lemma ParseOneByFields(h: seq<byte>, r: Request, more: seq<byte>)
    requires |h| == HEADER_SIZE && h[0] == REQUEST && h[1] == r.cmd && h[4] as nat == |r.extras|
    requires KeyLength(h) == |r.key| && BodyLength(h) == |r.extras + r.key + r.value|
    ensures ParseOne(h + (r.extras + r.key + r.value) + more) ==
            Some((r, HEADER_SIZE + |r.extras + r.key + r.value|))
  {
    HeadAndTail(h, r.extras + r.key + r.value, more);
    BodyFields(r.extras, r.key, r.value, more);
  }

  lemma FittingFields(cmd: byte, el: byte, kl: nat, bl: nat, h: seq<byte>)
    requires kl < 0x1_0000 && bl < 0x1_0000_0000 && h == HeaderBytes(cmd, el, kl, bl)
    ensures h[0] == REQUEST && h[1] == cmd && h[4] == el && KeyLength(h) == kl && BodyLength(h) == bl
  {
    HeaderFields(cmd, el, kl, bl);
    SmallMod(kl, 0x1_0000);
    SmallMod(bl, 0x1_0000_0000);
  }

  lemma EncodedAs(r: Request, bl: nat, h: seq<byte>)
    requires |r.extras| < 256 && |r.key| < 0x1_0000 && bl == |r.extras| + |r.key| + |r.value|
    requires h == HeaderBytes(r.cmd, |r.extras| as byte, |r.key|, bl)
    ensures Encode(r) == h + (r.extras + r.key + r.value)
  {
    SmallMod(|r.key|, 0x1_0000);
  }

  lemma ParseOneOfEncoded(r: Request, more: seq<byte>)
    requires |r.extras| < 256 && Fits(r)
    ensures ParseOne(Encode(r) + more) == Some((r, |Encode(r)|))
  {
    var bl := |r.extras| + |r.key| + |r.value|;
    var h := HeaderBytes(r.cmd, |r.extras| as byte, |r.key|, bl);
    EncodedAs(r, bl, h);
    FittingFields(r.cmd, |r.extras| as byte, |r.key|, bl, h);
    ParseOneByFields(h, r, more);
  }

  /** Any sequence of requests whose lengths fit is read back exactly as it was written. */
  lemma {:induction false} StreamRoundTrip(rs: seq<Request>)
    requires forall i :: 0 <= i < |rs| ==> |rs[i].extras| < 256 && Fits(rs[i])
    ensures ParseAll(EncodeAll(rs)) == Some(rs)
    decreases |rs|
  {
    if rs != [] {
      var first, rest := Encode(rs[0]), EncodeAll(rs[1..]);
      ParseOneOfEncoded(rs[0], rest);
      StreamRoundTrip(rs[1..]);
      assert (first + rest)[|first|..] == rest;
      assert [rs[0]] + rs[1..] == rs;
    }
  }

  lemma FieldsOfParsed(h: seq<byte>, r: Request)
    requires |h| == HEADER_SIZE && h[4] as nat == |r.extras|
    requires ParseOne(h + (r.extras + r.key + r.value)) == Some((r, HEADER_SIZE + |r.extras + r.key + r.value|))
    ensures KeyLength(h) == |r.key| && BodyLength(h) == |r.extras + r.key + r.value|
  {
    var body := r.extras + r.key + r.value;
    HeadAndTail(h, body, []);
    assert h + body == h + body + [];
  }

  lemma ParsedFits(r: Request)
    requires |r.extras| < 256 && ParseOne(Encode(r)) == Some((r, |Encode(r)|))
    ensures Fits(r)
  {
    var bl := |r.extras| + |r.key| % 0x1_0000 + |r.value|;
    HeaderFields(r.cmd, |r.extras| as byte, |r.key|, bl);
    FieldsOfParsed(HeaderBytes(r.cmd, |r.extras| as byte, |r.key|, bl), r);
  }

  /** The bound on the lengths is exact. */
  lemma RoundTripIffFits(r: Request)
    requires |r.extras| < 256
    ensures ParseAll(EncodeAll([r])) == Some([r]) <==> Fits(r)
  {
    if Fits(r) {
      StreamRoundTrip([r]);
    }
    var stream := Encode(r);
    assert EncodeAll([r]) == stream + [] == stream;
    if ParseAll(stream) == Some([r]) {
      var first := ParseOne(stream).value;
      assert first.0 == r && stream[first.1..] == [];
      ParsedFits(r);
    }
  }

  // ---------- The bytes, one by one ----------

  /** The most significant byte comes first. */
  function Number(b: seq<byte>): nat {
    if b == [] then 0 else Number(b[..|b| - 1]) * 0x100 + b[|b| - 1] as nat
  }

  lemma FromBeIsNumber(b: seq<byte>)
    ensures FromBe(b) == Number(b)
    decreases |b|
  {
    if b != [] {
      assert Reverse(b)[1..] == Reverse(b[..|b| - 1]);
      FromBeIsNumber(b[..|b| - 1]);
    }
  }

  /** The announced length of a header is the number in its bytes 8 to 11, and that of the key in 2 and 3. */
  lemma LengthsAreBytes(h: seq<byte>)
    requires |h| == HEADER_SIZE
    ensures BodyLength(h) == h[8] as nat * 0x100_0000 + h[9] as nat * 0x1_0000 + h[10] as nat * 0x100 + h[11] as nat
    ensures KeyLength(h) == h[2] as nat * 0x100 + h[3] as nat
  {
    FromBeIsNumber(h[8..12]);
    FromBeIsNumber(h[2..4]);
    Number4(h[8..12]);
    Number2(h[2..4]);
  }

  lemma Number2(b: seq<byte>)
    requires |b| == 2
    ensures Number(b) == b[0] as nat * 0x100 + b[1] as nat
  {
    var c := b[..1];
    assert c[..0] == [] && Number([]) == 0;
    assert Number(c) == Number(c[..0]) * 0x100 + c[0] as nat;
  }

  lemma Number4(b: seq<byte>)
    requires |b| == 4
    ensures Number(b) == b[0] as nat * 0x100_0000 + b[1] as nat * 0x1_0000 + b[2] as nat * 0x100 + b[3] as nat
  {
    assert b[..3][..2] == b[..2];
    Number2(b[..2]);
  }

  /** Two bytes on the wire. */
  function Two(n: nat): (b: seq<byte>)
    requires n < 0x1_0000
  {
    [(n / 0x100) as byte, (n % 0x100) as byte]
  }

  /** Four bytes on the wire. */
  function Four(n: nat): (b: seq<byte>)
    requires n < 0x1_0000_0000
  {
    Two(n / 0x1_0000) + Two(n % 0x1_0000)
  }

  lemma BeOfTwo(n: nat)
    requires n < 0x1_0000
    ensures Be(n, HALF) == Two(n)
  {
    BeRoundTrip(n, HALF);
    Widths();
    SmallMod(n, 0x1_0000);
    FromBeIsNumber(Be(n, HALF));
    FromBeIsNumber(Two(n));
    Number2(Be(n, HALF));
    Number2(Two(n));
    FromBeInjective(Be(n, HALF), Two(n));
  }

  lemma BeOfFour(n: nat)
    requires n < 0x1_0000_0000
    ensures Be(n, WORD) == Four(n)
  {
    BeRoundTrip(n, WORD);
    Widths();
    SmallMod(n, 0x1_0000_0000);
    FromBeIsNumber(Be(n, WORD));
    FromBeIsNumber(Four(n));
    Number4(Four(n));
    FromBeInjective(Be(n, WORD), Four(n));
  }

  /** A set on the wire, byte by byte. */
  lemma SetIsBytes(key: seq<byte>, value: seq<byte>, quiet: bool)
    requires Fits(SetRequest(key, value, quiet))
    ensures Encode(SetRequest(key, value, quiet)) ==
            [0x80, if quiet then 0x11 else 0x01] + Two(|key|) + [8, 0, 0, 0] + Four(8 + |key| + |value|)
            + [0, 0, 0, 0] + [0, 0, 0, 0, 0, 0, 0, 0] + [0, 0, 0, 0, 0, 0, 0, 0] + key + value
  {
    SmallMod(|key|, 0x1_0000);
    BeOfTwo(|key|);
    BeOfFour(8 + |key| + |value|);
    ZeroBytes();
    Flatten([0x80, if quiet then 0x11 else 0x01], Two(|key|), [8, 0, 0, 0], Four(8 + |key| + |value|),
            [0, 0, 0, 0], [0, 0, 0, 0, 0, 0, 0, 0], [0, 0, 0, 0, 0, 0, 0, 0], key, value);
  }

  /** A get on the wire, byte by byte. */
  lemma GetIsBytes(key: seq<byte>)
    requires Fits(GetRequest(key))
    ensures Encode(GetRequest(key)) ==
            [0x80, 0x00] + Two(|key|) + [0, 0, 0, 0] + Four(|key|)
            + [0, 0, 0, 0] + [0, 0, 0, 0, 0, 0, 0, 0] + [] + key + []
  {
    SmallMod(|key|, 0x1_0000);
    BeOfTwo(|key|);
    BeOfFour(|key|);
    ZeroBytes();
    Flatten([0x80, 0x00], Two(|key|), [0, 0, 0, 0], Four(|key|),
            [0, 0, 0, 0], [0, 0, 0, 0, 0, 0, 0, 0], [], key, []);
  }

  lemma ZeroBytes()
    ensures Zeros(12) == [0, 0, 0, 0] + [0, 0, 0, 0, 0, 0, 0, 0] && Zeros(LONG) == [0, 0, 0, 0, 0, 0, 0, 0]
  {
  }

  lemma Flatten(a: seq<byte>, b: seq<byte>, c: seq<byte>, d: seq<byte>, e: seq<byte>, f: seq<byte>, g: seq<byte>,
                key: seq<byte>, value: seq<byte>)
    ensures a + b + c + d + (e + f) + (g + key + value) == a + b + c + d + e + f + g + key + value
  {
  }

  // ---------- Objects that straddle the end of a ring ----------

  /** An object whose second part is copied from the wrong place is right for sure only if there is no
      second part. */
  lemma GarbledIsRightIff(x: seq<byte>, n: nat)
    ensures (forall junk :: Garbled(x, n, junk) == x) <==> n >= |x|
  {
    if n < |x| {
      var junk: nat -> byte := _ => if x[n] == 0 then 1 else 0;
      assert Garbled(x, n, junk)[n] != x[n];
    }
  }

  // ---------- A response header in two segments ----------

  /** What the header object holds once the first `n` bytes are copied into it: the rest is still the default
      request header that it was constructed with. */
  function PutTogether(h: seq<byte>, n: nat): (g: seq<byte>)
    requires |h| == HEADER_SIZE
    ensures |g| == HEADER_SIZE
  {
    var k := Min(HEADER_SIZE, n);
    h[..k] + HeaderBytes(GET, 0, 0, 0)[k..]
  }

  /** Where the `j`-th byte of the second copy goes: it starts `n` whole headers behind the first one. */
  function CopyTarget(n: nat, j: nat): nat {
    HEADER_SIZE * n + j
  }

  predicate CopyStaysInside(n: nat) {
    forall j :: 0 <= j < HEADER_SIZE - n ==> CopyTarget(n, j) < HEADER_SIZE
  }

  /** The second copy stays inside the header object if and only if there is nothing to copy. */
  lemma CopyStaysInsideIff(n: nat)
    requires n > 0
    ensures CopyStaysInside(n) <==> n >= HEADER_SIZE
  {
    if n < HEADER_SIZE {
      assert CopyTarget(n, 0) >= HEADER_SIZE;
    }
  }

  lemma FromBeInjective(a: seq<byte>, b: seq<byte>)
    requires |a| == |b|
    ensures FromBe(a) == FromBe(b) <==> a == b
  {
    FromLeRoundTrip(Reverse(a));
    FromLeRoundTrip(Reverse(b));
    assert Reverse(Reverse(a)) == a && Reverse(Reverse(b)) == b;
  }

  lemma DefaultLength()
    ensures HeaderBytes(GET, 0, 0, 0)[8..12] == Zeros(4)
  {
    SwapOfZero(WORD);
    assert HeaderBytes(GET, 0, 0, 0)[8..12] == Be(0, WORD);
    assert Be(0, WORD) == Zeros(4);
  }

  /** What such a header announces is what the response announced, if and only if the bytes of the length
      field that are missing from the first part are zero. */
  lemma PutTogetherIsRightIff(h: seq<byte>, n: nat)
    requires |h| == HEADER_SIZE
    ensures BodyLength(PutTogether(h, n)) == BodyLength(h) <==> forall i :: 8 <= i < 12 && n <= i ==> h[i] == 0
  {
    var g := PutTogether(h, n);
    DefaultLength();
    FromBeInjective(g[8..12], h[8..12]);
    forall i | 8 <= i < 12
      ensures g[i] == if i < n then h[i] else 0
    {
      assert HeaderBytes(GET, 0, 0, 0)[i] == HeaderBytes(GET, 0, 0, 0)[8..12][i - 8];
    }
    if forall i :: 8 <= i < 12 && n <= i ==> h[i] == 0 {
      assert g[8..12] == h[8..12];
    } else {
      var i :| 8 <= i < 12 && n <= i && h[i] != 0;
      assert g[8..12][i - 8] != h[8..12][i - 8];
    }
  }

  /** So it is right for every response if and only if the first part has the whole length field in it. */
  lemma PutTogetherIsAlwaysRightIff(n: nat)
    ensures (forall h | |h| == HEADER_SIZE :: BodyLength(PutTogether(h, n)) == BodyLength(h)) <==> n >= 12
  {
    if n >= 12 {
      forall h: seq<byte> | |h| == HEADER_SIZE
        ensures BodyLength(PutTogether(h, n)) == BodyLength(h)
      {
        PutTogetherIsRightIff(h, n);
      }
    } else {
      var h := Zeros(11) + [1] + Zeros(12);
      PutTogetherIsRightIff(h, n);
      assert h[11] == 1;
      assert BodyLength(PutTogether(h, n)) != BodyLength(h);
    }
  }
}
