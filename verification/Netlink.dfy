/** The rtnetlink attribute buffer: appending attributes and walking them (RFC 3549, sections 2.2
    and 3.1.1; the alignment macros of the Linux headers). */
module Netlink {
  import opened Text

  type Byte = x: int | 0 <= x < 256

  /** A request: the two headers, and its whole size. */
  const REQUEST_BASE := 28
  const REQUEST_BYTES := 156

  const ATTRIBUTE_HEADER := 4
  const MAX_WORD := 0xffff

  const RTA_DST := 1
  const RTA_OIF := 4
  const RTA_GATEWAY := 5
  const RTA_TABLE := 15

  datatype Attribute = Attribute(kind: nat, payload: seq<Byte>)

  /** `NLMSG_ALIGN` and `RTA_ALIGN`: up to the next multiple of four. */
  function Align(n: nat): (r: nat)
    ensures n <= r < n + 4 && r % 4 == 0
    ensures n % 4 == 0 ==> r == n
  {
    if n % 4 == 0 then n else n + 4 - n % 4
  }

  /** A 16-bit field as it lies in memory, low byte first; wider values lose their upper bits. */
  function WordBytes(n: nat): (r: seq<Byte>)
    ensures |r| == 2
  {
    [n % 256, n / 256 % 256]
  }

  function Word(b: seq<Byte>, i: nat): nat
    requires i + 2 <= |b|
  {
    var low: int, high: int := b[i], b[i + 1];
    low + 256 * high
  }

  lemma WordRoundTrip(n: nat, b: seq<Byte>, i: nat)
    requires i + 2 <= |b| && b[i..i + 2] == WordBytes(n)
    ensures Word(b, i) == n % (MAX_WORD + 1)
  {
    assert b[i..i + 2][0] == b[i] && b[i..i + 2][1] == b[i + 1];
    var low: int, high: int := b[i], b[i + 1];
    var upper := n / 256;
    assert n == 256 * upper + low && upper == 256 * (upper / 256) + high;
    Remainder(n, upper / 256, low + 256 * high);
  }

  lemma Remainder(n: nat, q: nat, r: nat)
    requires n == 65536 * q + r && r < 65536
    ensures n % 65536 == r
  {
  }

  /** Length of an attribute with its header: `RTA_LENGTH`. */
  function Length(a: Attribute): nat {
    ATTRIBUTE_HEADER + |a.payload|
  }

  /** The attribute's length and type fit their 16-bit fields. */
  predicate Fits(a: Attribute) {
    Length(a) <= MAX_WORD && a.kind <= MAX_WORD
  }

  /** `RTA_OK`: a whole attribute lies at `pos`. */
  predicate AttributeAt(b: seq<Byte>, pos: nat) {
    pos + ATTRIBUTE_HEADER <= |b| && ATTRIBUTE_HEADER <= Word(b, pos) && pos + Word(b, pos) <= |b|
  }

  /** What the walk with `RTA_OK` and `RTA_NEXT` sees from `pos` on. */
  function WalkFrom(b: seq<Byte>, pos: nat): seq<Attribute>
    decreases |b| - pos
  {
    if !AttributeAt(b, pos) then []
    else
      var n := Word(b, pos);
      [Attribute(Word(b, pos + 2), b[pos + ATTRIBUTE_HEADER..pos + n])] + WalkFrom(b, pos + Align(n))
  }

  /** At `pos` lies one appended attribute; its padding may hold anything. */
  ghost predicate BlockAt(b: seq<Byte>, pos: nat, a: Attribute) {
    && pos + Align(Length(a)) <= |b|
    && b[pos..pos + 2] == WordBytes(Length(a)) && b[pos + 2..pos + 4] == WordBytes(a.kind)
    && b[pos + ATTRIBUTE_HEADER..pos + Length(a)] == a.payload
  }

  /** From `pos` on, `b` is the blocks of the attributes, one after the other. */
  ghost predicate Tiles(b: seq<Byte>, pos: nat, attributes: seq<Attribute>)
    decreases |attributes|
  {
    if attributes == [] then pos == |b|
    else BlockAt(b, pos, attributes[0]) && Tiles(b, pos + Align(Length(attributes[0])), attributes[1..])
  }

  lemma {:induction false} WalkStep(b: seq<Byte>, pos: nat)
    requires AttributeAt(b, pos)
    ensures var n := Word(b, pos);
      WalkFrom(b, pos) ==
        [Attribute(Word(b, pos + 2), b[pos + ATTRIBUTE_HEADER..pos + n])] + WalkFrom(b, pos + Align(n))
  {
  }

  lemma {:induction false} WalkEnds(b: seq<Byte>, pos: nat)
    requires !AttributeAt(b, pos)
    ensures WalkFrom(b, pos) == []
  {
  }

  lemma {:induction false} WalkOverBlock(b: seq<Byte>, pos: nat, a: Attribute)
    requires BlockAt(b, pos, a) && Fits(a)
    ensures WalkFrom(b, pos) == [a] + WalkFrom(b, pos + Align(Length(a)))
  {
    WordRoundTrip(Length(a), b, pos);
    WordRoundTrip(a.kind, b, pos + 2);
    assert Word(b, pos) == Length(a) && Word(b, pos + 2) == a.kind;
    WalkStep(b, pos);
  }

  /** Where a walk goes on and where it ends: at an offset where no whole header is left, or the length
      read there, low byte first, is below four or beyond the end; else one attribute is seen, with its
      type and payload, and the walk goes on at the next multiple of four. */
  lemma {:induction false} WalkExactly(b: seq<Byte>, pos: nat)
    ensures
      if pos + 4 > |b| then WalkFrom(b, pos) == []
      else
        var low: int, high: int, kindLow: int, kindHigh: int := b[pos], b[pos + 1], b[pos + 2], b[pos + 3];
        var n := low + 256 * high;
        if n < 4 || pos + n > |b| then WalkFrom(b, pos) == []
        else
          WalkFrom(b, pos) ==
            [Attribute(kindLow + 256 * kindHigh, b[pos + 4..pos + n])] + WalkFrom(b, pos + 4 * ((n + 3) / 4))
  {
    if pos + 4 <= |b| {
      var low: int, high: int := b[pos], b[pos + 1];
      assert Word(b, pos) == low + 256 * high;
      assert Align(Word(b, pos)) == 4 * ((low + 256 * high + 3) / 4) by { AlignExactly(low + 256 * high); }
    }
    if AttributeAt(b, pos) {
      WalkStep(b, pos);
    } else {
      WalkEnds(b, pos);
    }
  }

  lemma AlignExactly(n: nat)
    ensures Align(n) == 4 * ((n + 3) / 4)
  {
  }

  /** The bytes of an appended attribute: length and type of two bytes each, low byte first, then the
      payload. */
  lemma {:induction false} BlockBytes(b: seq<Byte>, pos: nat, a: Attribute)
    requires pos + 4 * ((|a.payload| + 7) / 4) <= |b|
    ensures BlockAt(b, pos, a) <==>
      && b[pos] == (4 + |a.payload|) % 256 && b[pos + 1] == (4 + |a.payload|) / 256 % 256
      && b[pos + 2] == a.kind % 256 && b[pos + 3] == a.kind / 256 % 256
      && b[pos + 4..pos + 4 + |a.payload|] == a.payload
  {
    AlignExactly(4 + |a.payload|);
    assert b[pos..pos + 2] == [b[pos], b[pos + 1]] && b[pos + 2..pos + 4] == [b[pos + 2], b[pos + 3]];
  }

  /** Walking back any sequence of fitting attributes yields the same types and payloads in order. */
  lemma {:induction false} WalkRoundTrip(b: seq<Byte>, pos: nat, attributes: seq<Attribute>)
    requires Tiles(b, pos, attributes) && forall a :: a in attributes ==> Fits(a)
    ensures WalkFrom(b, pos) == attributes
    decreases |attributes|
  {
    if attributes == [] {
      WalkEnds(b, pos);
    } else {
      var a, rest := attributes[0], attributes[1..];
      assert Fits(a) && forall x :: x in rest ==> Fits(x);
      WalkRoundTrip(b, pos + Align(Length(a)), rest);
      WalkOverBlock(b, pos, a);
    }
  }

  lemma {:induction false} BlockKept(b: seq<Byte>, longer: seq<Byte>, pos: nat, a: Attribute)
    requires BlockAt(b, pos, a) && b <= longer
    ensures BlockAt(longer, pos, a)
  {
    assert longer[pos..pos + 2] == b[pos..pos + 2];
    assert longer[pos + 2..pos + 4] == b[pos + 2..pos + 4];
    assert longer[pos + ATTRIBUTE_HEADER..pos + Length(a)] == b[pos + ATTRIBUTE_HEADER..pos + Length(a)];
  }

  lemma {:induction false} TilesAppend(b: seq<Byte>, longer: seq<Byte>, pos: nat,
                                       attributes: seq<Attribute>, a: Attribute)
    requires Tiles(b, pos, attributes) && b <= longer
    requires BlockAt(longer, |b|, a) && |longer| == |b| + Align(Length(a))
    ensures Tiles(longer, pos, attributes + [a])
    decreases |attributes|
  {
    if attributes == [] {
      assert Tiles(longer, |longer|, []);
    } else {
      BlockKept(b, longer, pos, attributes[0]);
      TilesAppend(b, longer, pos + Align(Length(attributes[0])), attributes[1..], a);
      assert (attributes + [a])[1..] == attributes[1..] + [a];
    }
  }

  /** What a walk yields fits. */
  lemma {:induction false} WalkFits(b: seq<Byte>, pos: nat)
    ensures forall a :: a in WalkFrom(b, pos) ==> Fits(a)
    decreases |b| - pos
  {
    if AttributeAt(b, pos) {
      WalkStep(b, pos);
      WalkFits(b, pos + Align(Word(b, pos)));
    }
  }

  /** A sequence of appended attributes reads back exactly when all lengths and types fit 16 bits. */
  lemma {:induction false} ReadsBackExactly(b: seq<Byte>, pos: nat, attributes: seq<Attribute>)
    requires Tiles(b, pos, attributes)
    ensures WalkFrom(b, pos) == attributes <==> forall a :: a in attributes ==> Fits(a)
  {
    WalkFits(b, pos);
    if forall a :: a in attributes ==> Fits(a) {
      WalkRoundTrip(b, pos, attributes);
    }
  }

  /** A message under construction; `len` is the header's `nlmsg_len`. */
  class Message {
    const buf: array<Byte>
    const base: nat
    var len: nat

    ghost predicate Valid()
      reads this, buf
    {
      && base <= len <= buf.Length < 0x1_0000_0000
      && base % 4 == 0 && len % 4 == 0
    }

    /** The message holds exactly these attributes. */
    ghost predicate Holds(attributes: seq<Attribute>)
      requires Valid()
      reads this, buf
    {
      Tiles(buf[..len], base, attributes)
    }

    /** `base` is what header and `rtmsg` occupy: 28 bytes in the program. */
    constructor (capacity: nat, base: nat)
      requires base <= capacity < 0x1_0000_0000 && base % 4 == 0
      ensures Valid() && fresh(buf) && buf.Length == capacity && this.base == base && Holds([])
    {
      this.buf := new Byte[capacity](_ => 0);
      this.base := base;
      this.len := base;
    }

    /** Refused exactly when the aligned attribute does not fit the capacity, and then nothing
        changes; otherwise one aligned block follows the old content, which stays. */
    method AddAttribute(kind: nat, data: seq<Byte>) returns (ok: bool)
      requires Valid()
      modifies this`len, buf
      ensures Valid()
      ensures ok <==> old(len) + Align(Length(Attribute(kind, data))) <= buf.Length
      ensures !ok ==> len == old(len) && buf[..] == old(buf[..])
      ensures ok ==> len == old(len) + Align(Length(Attribute(kind, data)))
      ensures ok ==> BlockAt(buf[..len], old(len), Attribute(kind, data))
      ensures buf[..old(len)] == old(buf[..len])
    {
      var attributeLength := ATTRIBUTE_HEADER + |data|;
      var messageLength := Align(len);
      if messageLength + Align(attributeLength) > buf.Length {
        return false;
      }
      WriteAttribute(messageLength, kind, data);
      len := messageLength + Align(attributeLength);
      return true;
    }

    /** Appending attributes one after the other until one is refused: the message holds exactly
        those accepted, and the refused one changes nothing. */
    method AddAttributes(attributes: seq<Attribute>) returns (accepted: nat)
      requires Valid() && Holds([])
      modifies this`len, buf
      ensures Valid() && accepted <= |attributes| && Holds(attributes[..accepted])
      ensures accepted < |attributes| ==> len + Align(Length(attributes[accepted])) > buf.Length
    {
      accepted := 0;
      while accepted < |attributes|
        invariant Valid() && accepted <= |attributes| && Holds(attributes[..accepted])
      {
        var a := attributes[accepted];
        ghost var before := buf[..len];
        var ok := AddAttribute(a.kind, a.payload);
        assert buf[..len][..|before|] == before;
        if !ok {
          return;
        }
        TilesAppend(before, buf[..len], base, attributes[..accepted], a);
        assert attributes[..accepted + 1] == attributes[..accepted] + [a];
        accepted := accepted + 1;
      }
    }

    /** The header fields and the copied payload; padding stays as it was. */
    method WriteAttribute(at: nat, kind: nat, data: seq<Byte>)
      requires at + Align(ATTRIBUTE_HEADER + |data|) <= buf.Length
      modifies buf
      ensures BlockAt(buf[..at + Align(ATTRIBUTE_HEADER + |data|)], at, Attribute(kind, data))
      ensures buf[..at] == old(buf[..at])
    {
      WriteHeader(at, ATTRIBUTE_HEADER + |data|, kind);
      ghost var header := buf[..at + ATTRIBUTE_HEADER];
      CopyPayload(at + ATTRIBUTE_HEADER, data);
      assert buf[..at + ATTRIBUTE_HEADER] == header;
      assert buf[at..at + 2] == header[at..at + 2] && buf[at + 2..at + 4] == header[at + 2..at + 4];
      BlockWithin(buf[..], at, Attribute(kind, data));
      assert buf[..][..at + Align(ATTRIBUTE_HEADER + |data|)] == buf[..at + Align(ATTRIBUTE_HEADER + |data|)];
    }

    static lemma BlockWithin(b: seq<Byte>, at: nat, a: Attribute)
      requires BlockAt(b, at, a)
      ensures BlockAt(b[..at + Align(Length(a))], at, a)
    {
      var part := b[..at + Align(Length(a))];
      assert part[at..at + 2] == b[at..at + 2] && part[at + 2..at + 4] == b[at + 2..at + 4];
      assert part[at + ATTRIBUTE_HEADER..at + Length(a)] == b[at + ATTRIBUTE_HEADER..at + Length(a)];
    }

    method WriteHeader(at: nat, length: nat, kind: nat)
      requires at + ATTRIBUTE_HEADER <= buf.Length
      modifies buf
      ensures buf[at..at + 2] == WordBytes(length) && buf[at + 2..at + 4] == WordBytes(kind)
      ensures buf[..at] == old(buf[..at])
    {
      var lengthBytes, kindBytes := WordBytes(length), WordBytes(kind);
      buf[at], buf[at + 1], buf[at + 2], buf[at + 3] := lengthBytes[0], lengthBytes[1], kindBytes[0], kindBytes[1];
      assert buf[at..at + 2] == lengthBytes;
      assert buf[at + 2..at + 4] == kindBytes;
    }

    /** The `memcpy`. */
    method CopyPayload(to: nat, data: seq<Byte>)
      requires to + |data| <= buf.Length
      modifies buf
      ensures buf[to..to + |data|] == data
      ensures forall i :: 0 <= i < buf.Length && !(to <= i < to + |data|) ==> buf[i] == old(buf[i])
    {
      forall i | 0 <= i < |data| {
        buf[to + i] := data[i];
      }
    }
  }

  // ----- the reader -----

  /** The last attribute of a type whose payload has at least four bytes, cut to four. */
  function LastValue(attributes: seq<Attribute>, kind: nat): Option<seq<Byte>> {
    if attributes == [] then None
    else
      var a := attributes[|attributes| - 1];
      if a.kind == kind && |a.payload| >= 4 then Some(a.payload[..4])
      else LastValue(attributes[..|attributes| - 1], kind)
  }

  /** Attribute `n` is the last of its type with at least four bytes. */
  ghost predicate LastAt(attributes: seq<Attribute>, kind: nat, n: nat) {
    && n < |attributes| && attributes[n].kind == kind && |attributes[n].payload| >= 4
    && forall m :: n < m < |attributes| ==> attributes[m].kind != kind || |attributes[m].payload| < 4
  }

  lemma {:induction false} LastExactly(attributes: seq<Attribute>, kind: nat)
    ensures forall n: nat :: LastAt(attributes, kind, n) ==>
      LastValue(attributes, kind) == Some(attributes[n].payload[..4])
    ensures (forall n: nat :: !LastAt(attributes, kind, n)) ==> LastValue(attributes, kind) == None
  {
    if attributes != [] {
      var k := |attributes| - 1;
      var earlier := attributes[..k];
      LastExactly(earlier, kind);
      if attributes[k].kind == kind && |attributes[k].payload| >= 4 {
        assert LastAt(attributes, kind, k);
      } else {
        forall n: nat ensures LastAt(attributes, kind, n) <==> LastAt(earlier, kind, n) {
          LastAtEarlier(attributes, kind, n);
        }
      }
    }
  }

  lemma LastAtEarlier(attributes: seq<Attribute>, kind: nat, n: nat)
    requires attributes != []
    requires var last := attributes[|attributes| - 1]; last.kind != kind || |last.payload| < 4
    ensures LastAt(attributes, kind, n) <==> LastAt(attributes[..|attributes| - 1], kind, n)
  {
    var k := |attributes| - 1;
    var earlier := attributes[..k];
    if LastAt(earlier, kind, n) {
      forall m | n < m < |attributes| ensures attributes[m].kind != kind || |attributes[m].payload| < 4 {
        if m < k {
          assert earlier[m] == attributes[m];
        }
      }
    }
    if LastAt(attributes, kind, n) {
      assert n < k && earlier[n] == attributes[n];
      forall m | n < m < k ensures earlier[m].kind != kind || |earlier[m].payload| < 4 {
        assert earlier[m] == attributes[m];
      }
    }
  }

  /** Which types the four fields are read from: destination 1, output interface 4, gateway 5, table 15. */
  lemma {:induction false} FieldsExactly(attributes: seq<Attribute>)
    ensures var f := FieldsOf(attributes);
      forall n :: 0 <= n < |attributes| && LastAt(attributes, attributes[n].kind, n) ==>
        var v := Some(attributes[n].payload[..4]);
        && (attributes[n].kind == 1 ==> f.destination == v) && (attributes[n].kind == 4 ==> f.interface == v)
        && (attributes[n].kind == 5 ==> f.gateway == v) && (attributes[n].kind == 15 ==> f.table == v)
    ensures var f := FieldsOf(attributes);
      && (f.destination.Some? ==> exists n: nat :: LastAt(attributes, 1, n))
      && (f.interface.Some? ==> exists n: nat :: LastAt(attributes, 4, n))
      && (f.gateway.Some? ==> exists n: nat :: LastAt(attributes, 5, n))
      && (f.table.Some? ==> exists n: nat :: LastAt(attributes, 15, n))
  {
    LastExactly(attributes, 1);
    LastExactly(attributes, 4);
    LastExactly(attributes, 5);
    LastExactly(attributes, 15);
  }

  datatype RouteFields = RouteFields(
    destination: Option<seq<Byte>>, gateway: Option<seq<Byte>>, interface: Option<seq<Byte>>, table: Option<seq<Byte>>)

  function FieldsOf(attributes: seq<Attribute>): RouteFields {
    RouteFields(LastValue(attributes, RTA_DST), LastValue(attributes, RTA_GATEWAY),
                LastValue(attributes, RTA_OIF), LastValue(attributes, RTA_TABLE))
  }

  /** The switch on one attribute. */
  function Collect(f: RouteFields, a: Attribute): RouteFields {
    if |a.payload| < 4 then f
    else if a.kind == RTA_DST then f.(destination := Some(a.payload[..4]))
    else if a.kind == RTA_GATEWAY then f.(gateway := Some(a.payload[..4]))
    else if a.kind == RTA_OIF then f.(interface := Some(a.payload[..4]))
    else if a.kind == RTA_TABLE then f.(table := Some(a.payload[..4]))
    else f
  }

  lemma CollectNext(attributes: seq<Attribute>, a: Attribute)
    ensures FieldsOf(attributes + [a]) == Collect(FieldsOf(attributes), a)
  {
    var all := attributes + [a];
    assert all[..|all| - 1] == attributes && all[|all| - 1] == a;
  }

  /** The attribute at `pos`, and its aligned length. */
  method ReadAttribute(received: seq<Byte>, pos: nat, ghost visited: seq<Attribute>) returns (a: Attribute, n: nat)
    requires AttributeAt(received, pos)
    ensures n == Align(Word(received, pos)) && n >= ATTRIBUTE_HEADER
    ensures visited + WalkFrom(received, pos) == visited + [a] + WalkFrom(received, pos + n)
  {
    n := Word(received, pos);
    a := Attribute(Word(received, pos + 2), received[pos + ATTRIBUTE_HEADER..pos + n]);
    WalkStep(received, pos);
    n := Align(n);
  }

  /** The attribute loop over any received bytes: it ends, stays inside them, and visits what
      `WalkFrom` sees. The remaining length may turn negative after an unaligned last attribute. */
  method VisitAttributes(received: seq<Byte>, start: nat) returns (visited: seq<Attribute>)
    ensures visited == WalkFrom(received, start)
  {
    visited := [];
    var pos := start;
    var remaining: int := |received| - start;
    while remaining >= ATTRIBUTE_HEADER && ATTRIBUTE_HEADER <= Word(received, pos) <= remaining
      invariant pos + remaining == |received|
      invariant WalkFrom(received, start) == visited + WalkFrom(received, pos)
      decreases remaining
    {
      var a, n := ReadAttribute(received, pos, visited);
      visited := visited + [a];
      remaining := remaining - n;
      pos := pos + n;
    }
    WalkEnds(received, pos);
  }

  /** What the listing learns about one route message. */
  method ReadRoute(received: seq<Byte>, start: nat) returns (fields: RouteFields)
    ensures fields == FieldsOf(WalkFrom(received, start))
  {
    var visited := VisitAttributes(received, start);
    fields := RouteFields(None, None, None, None);
    var n := 0;
    while n < |visited|
      invariant 0 <= n <= |visited|
      invariant fields == FieldsOf(visited[..n])
    {
      CollectNext(visited[..n], visited[n]);
      assert visited[..n + 1] == visited[..n] + [visited[n]];
      fields := Collect(fields, visited[n]);
      n := n + 1;
    }
    assert visited[..n] == visited;
  }

  /** The attributes of `change_route`'s request, in a message of 28 and 128 bytes: both are
      accepted, and walking the request gives destination and gateway back. */
  method BuildRequest(destination: seq<Byte>, gateway: seq<Byte>) returns (request: Message)
    requires |destination| == 4 && |gateway| == 4
    ensures fresh(request) && request.Valid()
    ensures request.base == 28 && request.len == 44 && request.buf.Length == 156
    ensures FieldsOf(WalkFrom(request.buf[..request.len], request.base)) ==
      RouteFields(Some(destination), Some(gateway), None, None)
  {
    var d, g := Attribute(RTA_DST, destination), Attribute(RTA_GATEWAY, gateway);
    request := new Message(REQUEST_BYTES, REQUEST_BASE);
    assert Align(Length(d)) == 8 && Align(Length(g)) == 8;
    var ok := request.AddAttribute(RTA_DST, destination);
    assert Tiles(request.buf[..request.len], REQUEST_BASE, [d]) by {
      assert Tiles(request.buf[..request.len], 36, []);
    }
    ghost var first := request.buf[..request.len];
    ok := request.AddAttribute(RTA_GATEWAY, gateway);
    TilesAppend(first, request.buf[..request.len], REQUEST_BASE, [d], g);
    assert [d] + [g] == [d, g];
    RequestRoundTrip(request.buf[..request.len], REQUEST_BASE, destination, gateway);
  }

  /** What `change_route` sends is what the listing reads: destination and gateway come back. */
  lemma RequestRoundTrip(b: seq<Byte>, start: nat, destination: seq<Byte>, gateway: seq<Byte>)
    requires |destination| == 4 && |gateway| == 4
    requires Tiles(b, start, [Attribute(RTA_DST, destination), Attribute(RTA_GATEWAY, gateway)])
    ensures FieldsOf(WalkFrom(b, start)) == RouteFields(Some(destination), Some(gateway), None, None)
  {
    var d, g := Attribute(RTA_DST, destination), Attribute(RTA_GATEWAY, gateway);
    WalkRoundTrip(b, start, [d, g]);
    CollectNext([d], g);
    CollectNext([], d);
    assert [d] + [g] == [d, g] && [] + [d] == [d];
    assert destination[..4] == destination && gateway[..4] == gateway;
  }
}
