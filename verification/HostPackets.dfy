/** Packets of version 3 of the host command protocol: their bytes, and what each side makes of them. */
module HostPackets {
  import opened MachineInts

  const HEADER: nat := 8
  const VERSION: uint8 := 3
  const PROTOCOL_3: uint8 := 0xda
  const PACKET_SIZE: nat := 0x100

  const RES_SUCCESS := 0
  const RES_INVALID_RESPONSE := 5
  const RES_INVALID_CHECKSUM := 7
  const RES_INVALID_HEADER := 12
  const RES_REQUEST_TRUNCATED := 13
  const RES_RESPONSE_TOO_BIG := 14
  const RES_BUS_ERROR := 15

  function Sum(s: seq<uint8>): nat
  {
    if s == [] then 0 else Sum(s[..|s| - 1]) + s[|s| - 1] as nat
  }

  predicate ZeroSum(s: seq<uint8>)
  {
    Sum(s) % 0x100 == 0
  }

  lemma ZeroSumIs(s: seq<uint8>)
    ensures ZeroSum(s) <==> Sum(s) % 256 == 0
  {
    hide Sum;
  }

  lemma {:induction false} SumConcat(a: seq<uint8>, b: seq<uint8>)
    ensures Sum(a + b) == Sum(a) + Sum(b)
  {
    if b == [] {
      assert a + b == a;
    } else {
      var n := |b| - 1;
      SumConcat(a, b[..n]);
      assert (a + b)[..|a + b| - 1] == a + b[..n] && (a + b)[|a + b| - 1] == b[n];
    }
  }

  lemma SumNext(s: seq<uint8>, n: nat)
    requires n < |s|
    ensures Sum(s[..n + 1]) == Sum(s[..n]) + s[n] as nat
  {
    assert s[..n + 1][..n] == s[..n] && s[..n + 1][n] == s[n];
  }

  function Low(x: nat): uint8
  {
    (x % 0x100) as uint8
  }

  function High(x: nat): uint8
  {
    (x / 0x100 % 0x100) as uint8
  }

  function Word(lo: uint8, hi: uint8): nat
  {
    lo as nat + 0x100 * hi as nat
  }

  lemma WordOf(x: nat)
    ensures Word(Low(x), High(x)) == x % 0x1_0000
  {
    var q := x / 0x100;
    RemainderIs(x, q / 0x100, 0x100 * (q % 0x100) + x % 0x100);
  }

  lemma RemainderIs(x: nat, q: nat, r: nat)
    requires x == 0x1_0000 * q + r && r < 0x1_0000
    ensures x % 0x1_0000 == r
  {
  }

  /** The byte that makes a sum vanish modulo 256. */
  function Negated(sum: nat): (c: uint8)
    ensures (sum + c as nat) % 0x100 == 0
  {
    ((0x100 - sum % 0x100) % 0x100) as uint8
  }

  // Header layouts. Request: version, checksum, command, command version, reserved, data length.
  // Response: version, checksum, result, data length, reserved. Words are little-endian.

  function RequestHeader(checksum: uint8, command: nat, version: nat, length: nat): (h: seq<uint8>)
    ensures |h| == HEADER
  {
    [VERSION, checksum, Low(command), High(command), Low(version), 0, Low(length), High(length)]
  }

  function ResponseHeader(checksum: uint8, result: nat, length: nat): (h: seq<uint8>)
    ensures |h| == HEADER
  {
    [VERSION, checksum, Low(result), High(result), Low(length), High(length), 0, 0]
  }

  /** A header with its checksum filled in, and data behind it. */
  function Request(command: nat, version: nat, data: seq<uint8>): (p: seq<uint8>)
    ensures |p| == HEADER + |data|
  {
    RequestHeader(Negated(Sum(RequestHeader(0, command, version, |data|)) + Sum(data)), command, version, |data|) + data
  }

  function Response(result: nat, data: seq<uint8>): (p: seq<uint8>)
    ensures |p| == HEADER + |data|
  {
    ResponseHeader(Negated(Sum(ResponseHeader(0, result, |data|)) + Sum(data)), result, |data|) + data
  }

  lemma SumOfOne(c: uint8)
    ensures Sum([c]) == c as nat
  {
    SumNext([c], 0);
    assert [c][..1] == [c];
  }

  /** A header's checksum byte adds itself to the sum. */
  lemma ChecksumAdds(h: seq<uint8>, c: uint8)
    requires |h| == HEADER && h[1] == 0
    ensures Sum(h[1 := c]) == Sum(h) + c as nat
  {
    var a, b := h[..1], h[2..];
    assert h == a + [0] + b && h[1 := c] == a + [c] + b;
    SumConcat(a + [0], b);
    SumConcat(a + [c], b);
    SumConcat(a, [0]);
    SumConcat(a, [c]);
    SumOfOne(c);
    SumOfOne(0);
  }

  /** Every request and every response sums to zero modulo 256. */
  lemma RequestSumsToZero(command: nat, version: nat, data: seq<uint8>)
    ensures Sum(Request(command, version, data)) % 0x100 == 0
  {
    hide Sum;
    var h := RequestHeader(0, command, version, |data|);
    var c := Negated(Sum(h) + Sum(data));
    ChecksumAdds(h, c);
    assert h[1 := c] == RequestHeader(c, command, version, |data|);
    SumConcat(h[1 := c], data);
  }

  lemma ResponseSumsToZero(result: nat, data: seq<uint8>)
    ensures Sum(Response(result, data)) % 0x100 == 0
  {
    hide Sum;
    var h := ResponseHeader(0, result, |data|);
    var c := Negated(Sum(h) + Sum(data));
    ChecksumAdds(h, c);
    assert h[1 := c] == ResponseHeader(c, result, |data|);
    SumConcat(h[1 := c], data);
  }

  // ---------------------------------------------------------------------------
  // Receiving a request.

  datatype Received = Accepted(command: nat, version: nat, params: seq<uint8>) | Bad(result: nat)

  function DataLength(request: seq<uint8>): nat
    requires |request| >= HEADER
  {
    Word(request[6], request[7])
  }

  /** host_packet_receive: the buffer's first `size` bytes were received. */
  function Parse(driverResult: nat, buffer: seq<uint8>, size: nat): Received
  {
    if driverResult != RES_SUCCESS then Bad(driverResult)
    else if size < HEADER || size > |buffer| then Bad(RES_REQUEST_TRUNCATED)
    else if buffer[0] != VERSION then Bad(RES_INVALID_HEADER)
    else if size < HEADER + DataLength(buffer) then Bad(RES_REQUEST_TRUNCATED)
    else if !ZeroSum(buffer[..HEADER + DataLength(buffer)]) then Bad(RES_INVALID_CHECKSUM)
    else Accepted(Word(buffer[2], buffer[3]), buffer[4] as nat, buffer[HEADER..HEADER + DataLength(buffer)])
  }

  /** Every request is accepted with the same command, version and parameters, in as many bits as the
      header has for them, also with padding behind it. */
  lemma RequestIsAccepted(command: nat, version: nat, data: seq<uint8>, padding: seq<uint8>, size: nat)
    requires |data| < 0x1_0000
    requires HEADER + |data| <= size <= HEADER + |data| + |padding|
    ensures Parse(0, Request(command, version, data) + padding, size)
         == Accepted(command % 0x1_0000, version % 0x100, data)
  {
    hide Sum, Negated, Word, Request;
    var p := Request(command, version, data);
    RequestFields(command, version, data);
    RequestSumsToZero(command, version, data);
    var buffer := p + padding;
    var n := HEADER + |data|;
    assert forall i :: 0 <= i < HEADER ==> buffer[i] == p[i];
    assert buffer[..n] == p && buffer[HEADER..n] == p[HEADER..];
  }

  lemma RequestFields(command: nat, version: nat, data: seq<uint8>)
    requires |data| < 0x1_0000
    ensures (var p := Request(command, version, data);
             && p[0] == VERSION && Word(p[2], p[3]) == command % 0x1_0000 && p[4] as nat == version % 0x100
             && Word(p[6], p[7]) == |data| && p[HEADER..] == data)
  {
    hide Sum, Negated, Word, RequestHeader;
    var c := Negated(Sum(RequestHeader(0, command, version, |data|)) + Sum(data));
    RequestHeaderFields(c, command, version, |data|);
    HeadAndTail(RequestHeader(c, command, version, |data|), data);
  }

  lemma RequestHeaderFields(checksum: uint8, command: nat, version: nat, length: nat)
    requires length < 0x1_0000
    ensures (var h := RequestHeader(checksum, command, version, length);
             && h[0] == VERSION && Word(h[2], h[3]) == command % 0x1_0000 && h[4] as nat == version % 0x100
             && Word(h[6], h[7]) == length)
  {
    WordOf(command);
    WordOf(length);
    assert Low(version) as nat == version % 0x100;
    hide Word, Low, High;
  }

  lemma SumUpdate(s: seq<uint8>, k: nat, x: uint8)
    requires k < |s|
    ensures Sum(s[k := x]) == Sum(s) - s[k] as int + x as int
  {
    var a, b := s[..k], s[k + 1..];
    assert s == a + [s[k]] + b && s[k := x] == a + [x] + b;
    SumConcat(a + [s[k]], b);
    SumConcat(a + [x], b);
    SumConcat(a, [s[k]]);
    SumConcat(a, [x]);
    SumNext([x], 0);
    SumNext([s[k]], 0);
    assert [x][..1] == [x] && [s[k]][..1] == [s[k]];
  }

  /** An accepted request with one byte changed, other than in its length, is not accepted. */
  lemma OneByteIsCaught(buffer: seq<uint8>, size: nat, k: nat, x: uint8)
    requires HEADER <= |buffer| && k < HEADER + DataLength(buffer) <= |buffer| && k != 6 && k != 7 && x != buffer[k]
    ensures Parse(0, buffer, size).Accepted? ==>
              Parse(0, buffer[k := x], size) in {Bad(RES_INVALID_HEADER), Bad(RES_INVALID_CHECKSUM)}
  {
    hide Sum;
    var n := HEADER + DataLength(buffer);
    assert buffer[k := x][..n] == buffer[..n][k := x];
    SumUpdate(buffer[..n], k, x);
  }

  // ---------------------------------------------------------------------------
  // Checking a response.

  datatype Checked = Data(data: seq<uint8>) | Failed(code: int)

  /** What the master makes of the received bytes: the driver's result and the packet length, then
      the packet. */
  function Check(bytes: seq<uint8>, insize: nat): Checked
    requires |bytes| >= 2 && |bytes| >= 2 + bytes[1] as nat && |bytes| >= 2 + HEADER
  {
    var length := bytes[1] as nat;
    if length > insize + HEADER then Failed(-RES_RESPONSE_TOO_BIG)
    else if bytes[0] != 0 then Failed(-(bytes[0] as int))
    else if bytes[2] != VERSION then Failed(-RES_INVALID_RESPONSE)
    else if Word(bytes[8], bytes[9]) != 0 then Failed(-RES_INVALID_RESPONSE)
    else if Word(bytes[6], bytes[7]) > insize then Failed(-RES_RESPONSE_TOO_BIG)
    else CheckSum(bytes[2..2 + if length < HEADER then HEADER else length], length)
  }

  /** The last tests, on a packet said to have `length` bytes and summed over its head at least. */
  function CheckSum(packet: seq<uint8>, length: nat): Checked
    requires |packet| >= HEADER
  {
    if !ZeroSum(packet) then Failed(-RES_INVALID_CHECKSUM)
    else if length < HEADER then Failed(length - HEADER)
    else Data(packet[HEADER..])
  }

  /** Exactly which bytes are accepted as a response and what comes of them: a packet of `length` bytes. */
  lemma CheckExactly(bytes: seq<uint8>, insize: nat, length: nat, packet: seq<uint8>)
    requires |bytes| >= 10 && length == bytes[1] as nat && |bytes| >= 2 + length && packet == bytes[2..2 + length]
    ensures Check(bytes, insize).Data? <==>
            && bytes[0] == 0 && 8 <= length <= insize + 8 && bytes[2] == 3 && bytes[8] == 0 && bytes[9] == 0
            && bytes[6] as nat + 256 * bytes[7] as nat <= insize && Sum(packet) % 256 == 0
    ensures Check(bytes, insize).Data? ==> Check(bytes, insize).data == packet[8..]
  {
    hide Sum, ZeroSum;
    ZeroSumIs(packet);
    if length >= 8 {
      assert packet[8..] == bytes[2 + 8..2 + length];
    }
  }

  /** The head of a response that passes the tests before the checksum. */
  predicate PlainHead(bytes: seq<uint8>, insize: nat)
    requires |bytes| >= 10
  {
    && bytes[1] as nat <= insize + 8 && bytes[0] == 0 && bytes[2] == 3 && bytes[8] == 0 && bytes[9] == 0
    && bytes[6] as nat + 256 * bytes[7] as nat <= insize
  }

  /** What each test that fails returns, the first one deciding. */
  lemma CheckCodes(bytes: seq<uint8>, insize: nat)
    requires |bytes| >= 10 && |bytes| >= 2 + bytes[1] as nat
    ensures bytes[1] as nat > insize + 8 ==> Check(bytes, insize) == Failed(-14)
    ensures bytes[1] as nat <= insize + 8 && bytes[0] != 0 ==> Check(bytes, insize) == Failed(-(bytes[0] as int))
    ensures bytes[1] as nat <= insize + 8 && bytes[0] == 0 && (bytes[2] != 3 || bytes[8] != 0 || bytes[9] != 0) ==>
              Check(bytes, insize) == Failed(-5)
    ensures (&& bytes[1] as nat <= insize + 8 && bytes[0] == 0 && bytes[2] == 3 && bytes[8] == 0 && bytes[9] == 0
             && bytes[6] as nat + 256 * bytes[7] as nat > insize) ==> Check(bytes, insize) == Failed(-14)
  {
    hide Sum, ZeroSum;
  }

  /** A damaged checksum, and a packet shorter than its head, which counts with the bytes that lie
      behind it. */
  lemma ChecksumCodes(bytes: seq<uint8>, insize: nat, packet: seq<uint8>)
    requires |bytes| >= 10 && |bytes| >= 2 + bytes[1] as nat && PlainHead(bytes, insize)
    requires packet == (if bytes[1] < 8 then bytes[2..10] else bytes[2..2 + bytes[1] as nat])
    ensures Sum(packet) % 256 != 0 ==> Check(bytes, insize) == Failed(-7)
    ensures Sum(packet) % 256 == 0 && bytes[1] < 8 ==> Check(bytes, insize) == Failed(bytes[1] as int - 8)
  {
    hide Sum, ZeroSum, Check, Word;
    ZeroSumIs(packet);
    PlainWords(bytes, insize);
    CheckIsCheckSum(bytes, insize);
  }

  lemma CheckIsCheckSum(bytes: seq<uint8>, insize: nat)
    requires |bytes| >= 10 && |bytes| >= 2 + bytes[1] as nat
    requires bytes[1] as nat <= insize + HEADER && bytes[0] == 0 && bytes[2] == VERSION
    requires Word(bytes[8], bytes[9]) == 0 && Word(bytes[6], bytes[7]) <= insize
    ensures Check(bytes, insize)
         == CheckSum(bytes[2..2 + if bytes[1] as nat < HEADER then HEADER else bytes[1] as nat], bytes[1] as nat)
  {
    hide CheckSum, Word;
  }

  lemma PlainWords(bytes: seq<uint8>, insize: nat)
    requires |bytes| >= 10 && PlainHead(bytes, insize)
    ensures Word(bytes[8], bytes[9]) == 0 && Word(bytes[6], bytes[7]) <= insize
  {
  }

  /** An accepted response with any one byte of its packet changed is refused. */
  lemma OneByteOfResponseIsCaught(bytes: seq<uint8>, insize: nat, k: nat, x: uint8)
    requires |bytes| >= 10 && |bytes| >= 2 + bytes[1] as nat
    requires 2 <= k < 2 + bytes[1] as nat && x != bytes[k]
    ensures Check(bytes, insize).Data? ==> Check(bytes[k := x], insize) in {Failed(-5), Failed(-7), Failed(-14)}
  {
    hide Sum, ZeroSum, Check;
    if Check(bytes, insize).Failed? {
      return;
    }
    var n := bytes[1] as nat;
    var bad, packet := bytes[k := x], bytes[2..2 + n];
    CheckExactly(bytes, insize, n, packet);
    var bent := bad[2..2 + n];
    assert bent == packet[k - 2 := x];
    SumUpdate(packet, k - 2, x);
    SumHolds(packet, k - 2);
    NotBoth(Sum(packet), packet[k - 2], x);
    CheckCodes(bad, insize);
    if PlainHead(bad, insize) {
      ChecksumCodes(bad, insize, bent);
    }
  }

  lemma SumHolds(s: seq<uint8>, k: nat)
    requires k < |s|
    ensures Sum(s) >= s[k] as nat
  {
    SumUpdate(s, k, 0);
  }

  lemma NotBoth(sum: nat, a: uint8, b: uint8)
    requires a != b && sum % 256 == 0 && sum >= a as nat
    ensures (sum - a as nat + b as nat) % 256 != 0
  {
    var q := sum / 256;
    var r := b as int - a as int;
    assert -256 < r < 256 && r != 0;
    assert (256 * q + r) % 256 == if r > 0 then r else 256 + r;
  }

  /** The packet 03 F5 00 00 01 00 00 00 07 carries one byte, 7; with 8 in its place it is refused. */
  lemma SmallResponse(bytes: seq<uint8>, last: uint8)
    requires bytes == [0, 9, 3, 0xF5, 0, 0, 1, 0, 0, 0, last]
    ensures last == 7 ==> Check(bytes, 1) == Data([7])
    ensures last == 8 ==> Check(bytes, 1) == Failed(-7)
  {
    hide Check, Sum;
    var p := bytes[2..11];
    assert p == [3, 0xF5, 0, 0, 1, 0, 0, 0, last];
    NineBytes(3, 0xF5, 0, 0, 1, 0, 0, 0, last);
    CheckExactly(bytes, 1, 9, p);
    ChecksumCodes(bytes, 1, p);
    assert p[8..] == [last];
  }

  lemma NineBytes(a: uint8, b: uint8, c: uint8, d: uint8, e: uint8, f: uint8, g: uint8, h: uint8, i: uint8)
    ensures Sum([a, b, c, d, e, f, g, h, i])
         == a as nat + b as nat + c as nat + d as nat + e as nat + f as nat + g as nat + h as nat + i as nat
  {
    EightBytes(a, b, c, d, e, f, g, h);
    SumOfOne(i);
    hide Sum;
    SumConcat([a, b, c, d, e, f, g, h], [i]);
    assert [a, b, c, d, e, f, g, h] + [i] == [a, b, c, d, e, f, g, h, i];
  }

  lemma EightBytes(a: uint8, b: uint8, c: uint8, d: uint8, e: uint8, f: uint8, g: uint8, h: uint8)
    ensures Sum([a, b, c, d, e, f, g, h])
         == a as nat + b as nat + c as nat + d as nat + e as nat + f as nat + g as nat + h as nat
  {
    FourBytes(a, b, c, d);
    FourBytes(e, f, g, h);
    hide Sum;
    SumConcat([a, b, c, d], [e, f, g, h]);
    assert [a, b, c, d] + [e, f, g, h] == [a, b, c, d, e, f, g, h];
  }

  lemma FourBytes(a: uint8, b: uint8, c: uint8, d: uint8)
    ensures Sum([a, b, c, d]) == a as nat + b as nat + c as nat + d as nat
  {
    SumOfOne(a);
    SumOfOne(b);
    SumOfOne(c);
    SumOfOne(d);
    hide Sum;
    SumConcat([a], [b]);
    SumConcat([a] + [b], [c]);
    SumConcat([a] + [b] + [c], [d]);
    assert [a] + [b] + [c] + [d] == [a, b, c, d];
  }

  /** The request for command 1 with four bytes of data, byte by byte. */
  lemma HelloRequest()
    ensures Request(1, 0, [0xD0, 0xC0, 0xB0, 0xA0]) == [3, 0x18, 1, 0, 0, 0, 4, 0, 0xD0, 0xC0, 0xB0, 0xA0]
  {
    var data: seq<uint8> := [0xD0, 0xC0, 0xB0, 0xA0];
    HelloHeader(0);
    HelloHeader(0x18);
    EightBytes(3, 0, 1, 0, 0, 0, 4, 0);
    FourBytes(0xD0, 0xC0, 0xB0, 0xA0);
    assert Negated(744) == 0x18;
    hide Sum, Negated, RequestHeader;
    assert [3, 0x18, 1, 0, 0, 0, 4, 0] + data == [3, 0x18, 1, 0, 0, 0, 4, 0, 0xD0, 0xC0, 0xB0, 0xA0];
  }

  lemma HelloHeader(checksum: uint8)
    ensures RequestHeader(checksum, 1, 0, 4) == [3, checksum, 1, 0, 0, 0, 4, 0]
  {
  }

  /** Exactly which bytes are accepted as a request and what comes of them; it ends within the
      received size. */
  lemma ParseExactly(buffer: seq<uint8>, size: nat, n: nat, packet: seq<uint8>)
    requires |buffer| >= 8 && n == buffer[6] as nat + 256 * buffer[7] as nat
    requires 8 + n <= |buffer| ==> packet == buffer[..8 + n]
    ensures Parse(0, buffer, size).Accepted? <==>
            8 + n <= size <= |buffer| && buffer[0] == 3 && Sum(packet) % 256 == 0
    ensures 8 + n <= size <= |buffer| && buffer[0] == 3 && Sum(packet) % 256 != 0 ==> Parse(0, buffer, size) == Bad(7)
    ensures Parse(0, buffer, size).Accepted? ==>
              && Parse(0, buffer, size).command == buffer[2] as nat + 256 * buffer[3] as nat
              && Parse(0, buffer, size).version == buffer[4] as nat
              && Parse(0, buffer, size).params == packet[8..]
  {
    hide Sum, ZeroSum;
    ZeroSumIs(packet);
    assert 8 + n <= |buffer| ==> buffer[8..8 + n] == packet[8..];
  }

  /** What each test that fails reports, the first one deciding. */
  lemma ParseCodes(driverResult: nat, buffer: seq<uint8>, size: nat)
    ensures (var r := Parse(driverResult, buffer, size);
             if driverResult != 0 then r == Bad(driverResult)
             else if size < 8 || size > |buffer| then r == Bad(13)
             else if buffer[0] != 3 then r == Bad(12)
             else size < 8 + buffer[6] as nat + 256 * buffer[7] as nat ==> r == Bad(13))
    ensures Parse(0, buffer, size).Bad? ==> Parse(0, buffer, size).result in {7, 12, 13}
  {
    hide Sum, ZeroSum;
  }

  lemma ResponseFields(result: nat, data: seq<uint8>)
    requires |data| < 0x1_0000
    ensures (var p := Response(result, data);
             && p[0] == VERSION && Word(p[2], p[3]) == result % 0x1_0000 && Word(p[4], p[5]) == |data|
             && Word(p[6], p[7]) == 0 && p[HEADER..] == data)
  {
    hide Sum, Negated, Word, ResponseHeader;
    var c := Negated(Sum(ResponseHeader(0, result, |data|)) + Sum(data));
    ResponseHeaderFields(c, result, |data|);
    HeadAndTail(ResponseHeader(c, result, |data|), data);
  }

  lemma ResponseHeaderFields(checksum: uint8, result: nat, length: nat)
    requires length < 0x1_0000
    ensures (var h := ResponseHeader(checksum, result, length);
             && h[0] == VERSION && Word(h[2], h[3]) == result % 0x1_0000 && Word(h[4], h[5]) == length
             && Word(h[6], h[7]) == 0)
  {
    WordOf(result);
    WordOf(length);
    NoWord();
    hide Word, Low, High;
  }

  lemma NoWord()
    ensures Word(0, 0) == 0
  {
  }

  lemma HeadAndTail(h: seq<uint8>, data: seq<uint8>)
    requires |h| == HEADER
    ensures (forall i :: 0 <= i < HEADER ==> (h + data)[i] == h[i]) && (h + data)[HEADER..] == data
  {
  }

  lemma CheckAccepts(bytes: seq<uint8>, p: seq<uint8>, insize: nat)
    requires HEADER <= |p| <= insize + HEADER && |bytes| >= 2 + |p| && bytes[0] == 0 && bytes[1] as nat == |p|
    requires bytes[2..2 + |p|] == p && p[0] == VERSION && Sum(p) % 0x100 == 0
    requires Word(p[6], p[7]) == 0 && Word(p[4], p[5]) <= insize
    ensures Check(bytes, insize) == Data(p[HEADER..])
  {
    hide Sum, Word;
    var b := bytes[2..2 + |p|];
    assert b[0] == bytes[2] && b[4] == bytes[6] && b[5] == bytes[7] && b[6] == bytes[8] && b[7] == bytes[9];
    assert bytes[2 + HEADER..2 + |p|] == b[HEADER..];
  }

  /** The bytes that reach the master: the driver's result and packet length, the packet, and
      whatever else its buffer holds. */
  function Wire(result: uint8, p: seq<uint8>, rest: seq<uint8>): (bytes: seq<uint8>)
    requires |p| < 0x100
    ensures |bytes| == 2 + |p| + |rest| && bytes[0] == result && bytes[1] as nat == |p| && bytes[2..2 + |p|] == p
  {
    [result, |p| as uint8] + p + rest
  }

  /** A response that fits the caller's buffer arrives as it was sent: its data, or the negative of
      its result, which is then not success. */
  lemma ResponseArrives(result: uint8, data: seq<uint8>, insize: nat, rest: seq<uint8>)
    requires HEADER + |data| < 0x100 && |data| <= insize
    ensures Check(Wire(result, Response(result as nat, data), rest), insize)
         == if result == 0 then Data(data) else Failed(-(result as int))
  {
    hide Response, Sum, Word, Check, Wire;
    var p := Response(result as nat, data);
    ResponseSumsToZero(result as nat, data);
    ResponseFields(result as nat, data);
    if result == 0 {
      CheckAccepts(Wire(result, p, rest), p, insize);
    } else {
      CheckRefuses(Wire(result, p, rest), insize);
    }
  }

  lemma CheckRefuses(bytes: seq<uint8>, insize: nat)
    requires |bytes| >= 2 && |bytes| >= 2 + bytes[1] as nat && |bytes| >= 2 + HEADER
    requires bytes[0] != 0 && bytes[1] as nat <= insize + HEADER
    ensures Check(bytes, insize) == Failed(-(bytes[0] as int))
  {
  }
}
