/** The two ends of the host command protocol, and command lookup. */
module HostCommand {
  import opened MachineInts
  import opened HostPackets

  /** Adds up s[from..to], on top of a running checksum. */
  method AddBytes(s: seq<uint8>, from: nat, to: nat, start: nat) returns (csum: nat)
    requires from <= to <= |s|
    ensures csum == start + Sum(s[from..to])
  {
    csum := start;
    for i := from to to
      invariant csum == start + Sum(s[from..i])
    {
      assert s[from..i + 1][..i - from] == s[from..i] && s[from..i + 1][i - from] == s[i];
      csum := csum + s[i] as nat;
    }
  }

  // ---------------------------------------------------------------------------
  // The master.

  /** What comes of filling req_buf. PastEnd is a write to the first index behind the array. */
  datatype Built = Refused | PastEnd(index: nat) | Built

  /** The request part of pd_host_command_internal, with the array it has: the size check leaves out
      the protocol byte that goes before the packet. */
  method BuildRequest(command: nat, version: nat, data: seq<uint8>, reqBuf: array<uint8>) returns (r: Built)
    requires reqBuf.Length == PACKET_SIZE
    modifies reqBuf
    ensures r == Refused <==> HEADER + |data| > PACKET_SIZE
    ensures r.PastEnd? <==> |data| == LONGEST_REQUEST
    ensures r.PastEnd? ==> r.index == PACKET_SIZE
    ensures r == Refused ==> reqBuf[..] == old(reqBuf[..])
    ensures r == Built ==> reqBuf[0] == PROTOCOL_3 && reqBuf[1..1 + HEADER + |data|] == Request(command, version, data)
  {
    hide Sum, Negated, RequestHeader, Request;
    if |data| + HEADER > PACKET_SIZE {
      return Refused;
    }
    var rq := RequestHeader(0, command, version, |data|);
    var past, sum := CopyBytes(data, reqBuf, HEADER + 1);
    if past {
      return PastEnd(PACKET_SIZE);
    }
    var headerSum := AddBytes(rq, 0, HEADER, 0);
    assert rq[0..HEADER] == rq;
    sum := (sum + headerSum) % 0x100;
    RequestPieces(command, version, data, sum);
    rq := rq[1 := Negated(sum)];
    ghost var copied := reqBuf[..];
    var _, _ := CopyBytes(rq, reqBuf, 1);
    reqBuf[0] := PROTOCOL_3;
    BehindHeader(copied, reqBuf[..], rq, data);
    return Built;
  }

  /** The one length that the check admits and the array has no room for. */
  const LONGEST_REQUEST: nat := 248

  lemma RequestDoesNotFit(n: nat)
    ensures HEADER + n <= PACKET_SIZE < 1 + HEADER + n <==> n == LONGEST_REQUEST
  {
  }

  /** With so much data, protocol byte and packet are 257 bytes. */
  lemma LongestRequest(command: nat, version: nat, data: seq<uint8>)
    requires |data| == 248
    ensures |[PROTOCOL_3] + Request(command, version, data)| == 257 == PACKET_SIZE + 1
  {
  }

  lemma RequestPieces(command: nat, version: nat, data: seq<uint8>, sum: nat)
    requires sum == (Sum(data) % 0x100 + Sum(RequestHeader(0, command, version, |data|))) % 0x100
    ensures RequestHeader(0, command, version, |data|)[1 := Negated(sum)] + data == Request(command, version, data)
  {
    hide Sum, Negated, RequestHeader;
    var h := RequestHeader(0, command, version, |data|);
    NegatedSum(Sum(data), Sum(h));
    FillChecksum(0, Negated(sum), command, version, |data|);
  }

  lemma FillChecksum(blank: uint8, checksum: uint8, command: nat, version: nat, length: nat)
    ensures RequestHeader(blank, command, version, length)[1 := checksum]
         == RequestHeader(checksum, command, version, length)
  {
    hide Low, High;
  }

  lemma BehindHeader(copied: seq<uint8>, buf: seq<uint8>, rq: seq<uint8>, data: seq<uint8>)
    requires |copied| == |buf| && |rq| == HEADER && 1 + HEADER + |data| <= |buf|
    requires copied[1 + HEADER..1 + HEADER + |data|] == data
    requires buf[1..1 + HEADER] == rq && buf[1 + HEADER..] == copied[1 + HEADER..]
    ensures buf[1..1 + HEADER + |data|] == rq + data
  {
    assert buf[1..1 + HEADER + |data|] == buf[1..1 + HEADER] + buf[1 + HEADER..][..|data|];
    assert copied[1 + HEADER..][..|data|] == copied[1 + HEADER..1 + HEADER + |data|];
  }

  /** Copies bytes into a buffer and gives their sum in eight bits; stops at the end of the buffer. */
  method CopyBytes(bytes: seq<uint8>, buf: array<uint8>, at: nat) returns (past: bool, sum: nat)
    requires at <= buf.Length
    modifies buf
    ensures past <==> at + |bytes| > buf.Length
    ensures !past ==>
              && buf[..at] == old(buf[..at]) && buf[at..at + |bytes|] == bytes
              && buf[at + |bytes|..] == old(buf[at + |bytes|..])
              && sum == Sum(bytes) % 0x100
  {
    sum := 0;
    for i := 0 to |bytes|
      invariant sum == Sum(bytes[..i]) % 0x100
      invariant at + i <= buf.Length
      invariant buf[..at] == old(buf[..at]) && buf[at..at + i] == bytes[..i] && buf[at + i..] == old(buf[at + i..])
    {
      if at + i == buf.Length {
        return true, sum;
      }
      buf[at + i] := bytes[i];
      SumNext(bytes, i);
      sum := (sum + bytes[i] as nat) % 0x100;
    }
    assert bytes[..|bytes|] == bytes;
    past := false;
  }

  lemma NegatedSum(data: nat, header: nat)
    ensures Negated((data % 0x100 + header) % 0x100) == Negated(header + data)
  {
    hide Negated;
    ModSum(data, header);
    NegatedByte(header + data);
  }

  lemma ModSum(a: nat, b: nat)
    ensures (a % 0x100 + b) % 0x100 == (b + a) % 0x100
  {
    assert a == 0x100 * (a / 0x100) + a % 0x100;
  }

  lemma NegatedByte(sum: nat)
    ensures Negated(sum % 0x100) == Negated(sum)
  {
    assert sum % 0x100 % 0x100 == sum % 0x100;
  }

  /** What comes of a response: Beyond is a transfer that is asked for more than resp_buf holds. */
  datatype Reply = Beyond | Returned(ret: int)

  /** Exactly when the second transfer leaves the array. */
  lemma ResponseDoesNotFit(length: uint8, insize: nat)
    ensures length as nat <= insize + HEADER && 2 + length as nat > PACKET_SIZE <==> length == 255 && insize >= 247
  {
  }

  /** A reply of 255 bytes to a caller with room for 247: the last byte goes to index 256. */
  lemma LongestResponse(length: uint8, insize: nat)
    requires length == 255 && insize == 247
    ensures length as nat <= insize + HEADER && 2 + (length as nat - 1) == 256 == PACKET_SIZE
  {
  }

  /** The response part of pd_host_command_internal: two bytes, and then as many as the second of
      them says, come over the bus; either transfer may fail. resp_buf keeps what it held before. */
  method ReceiveResponse(respBuf: array<uint8>, firstOk: bool, result: uint8, length: uint8,
                         secondOk: bool, packet: seq<uint8>, insize: nat, indata: array<uint8>) returns (r: Reply)
    requires respBuf.Length == PACKET_SIZE && indata.Length == insize && indata != respBuf && |packet| == length as nat
    modifies respBuf, indata
    ensures r == Beyond <==> firstOk && length == 255 && insize >= 247
    ensures r != Beyond && !(firstOk && length as nat <= insize + HEADER && secondOk) ==>
              r == Returned(if firstOk && length as nat > insize + HEADER then -RES_RESPONSE_TOO_BIG
                            else -RES_BUS_ERROR)
    ensures r != Beyond && firstOk && length as nat <= insize + HEADER && secondOk ==>
              && 2 + |packet| <= PACKET_SIZE
              && match Check(Wire(result, packet, old(respBuf[..])[2 + |packet|..]), insize)
                 case Failed(code) => r == Returned(code)
                 case Data(data) =>
                   && r == Returned(|data|) && |data| <= insize
                   && indata[..|data|] == data && indata[|data|..] == old(indata[..])[|data|..]
  {
    hide Check, Wire;
    if !firstOk {
      return Returned(-RES_BUS_ERROR);
    }
    respBuf[0], respBuf[1] := result, length;
    if length as nat > insize + HEADER {
      return Returned(-RES_RESPONSE_TOO_BIG);
    }
    if 2 + length as nat > respBuf.Length {
      return Beyond;
    }
    if !secondOk {
      return Returned(-RES_BUS_ERROR);
    }
    var _, _ := CopyBytes(packet, respBuf, 2);
    TransfersGive(old(respBuf[..]), respBuf[..], result, length, packet);
    var ret := CheckResponse(respBuf[..], insize, indata);
    return Returned(ret);
  }

  /** What the two transfers leave in the buffer. */
  lemma TransfersGive(before: seq<uint8>, after: seq<uint8>, result: uint8, length: uint8, packet: seq<uint8>)
    requires |before| == |after| && |packet| == length as nat && 2 + |packet| <= |after|
    requires after[..2] == [result, length] && after[2..2 + |packet|] == packet
    requires after[2 + |packet|..] == before[2 + |packet|..]
    ensures after == Wire(result, packet, before[2 + |packet|..])
  {
    assert after == after[..2] + after[2..2 + |packet|] + after[2 + |packet|..];
  }

  /** The checks, and the copy to the caller, once both transfers have succeeded. */
  method CheckResponse(respBuf: seq<uint8>, insize: nat, indata: array<uint8>) returns (ret: int)
    requires |respBuf| >= 2 && |respBuf| >= 2 + respBuf[1] as nat && |respBuf| >= 2 + HEADER
    requires indata.Length == insize
    modifies indata
    ensures match Check(respBuf, insize)
            case Failed(code) => ret == code
            case Data(data) =>
              ret == |data| <= insize && indata[..ret] == data && indata[ret..] == old(indata[..])[ret..]
  {
    hide Sum, Word;
    var length := respBuf[1] as int;
    if length > insize + HEADER {
      return -RES_RESPONSE_TOO_BIG;
    }
    ret := respBuf[0] as int;
    if ret != 0 {
      return -ret;
    }
    var sum := AddBytes(respBuf, 2, 2 + HEADER, 0);
    if respBuf[2] != VERSION {
      return -RES_INVALID_RESPONSE;
    }
    if Word(respBuf[8], respBuf[9]) != 0 {
      return -RES_INVALID_RESPONSE;
    }
    if Word(respBuf[6], respBuf[7]) > insize {
      return -RES_RESPONSE_TOO_BIG;
    }
    length := length - HEADER;
    var i := 0;
    while i < length
      invariant 0 <= i && (i <= length || length < 0 == i)
      invariant i > 0 ==> i <= length
      invariant sum == Sum(respBuf[2..2 + HEADER + i])
      invariant i <= insize && indata[..i] == respBuf[2 + HEADER..2 + HEADER + i] && indata[i..] == old(indata[..])[i..]
    {
      indata[i] := respBuf[HEADER + i + 2];
      SumGrows(respBuf, HEADER + i);
      sum := sum + indata[i] as nat;
      i := i + 1;
    }
    if sum % 0x100 != 0 {
      return -RES_INVALID_CHECKSUM;
    }
    return length;
  }

  lemma SumGrows(s: seq<uint8>, n: nat)
    requires 2 + n < |s|
    ensures Sum(s[2..2 + n + 1]) == Sum(s[2..2 + n]) + s[2 + n] as nat
  {
    SumNext(s[2..], n);
    assert s[2..][..n + 1] == s[2..2 + n + 1] && s[2..][..n] == s[2..2 + n];
  }

  // ---------------------------------------------------------------------------
  // The embedded controller.

  /** host_packet_receive: `request` is the driver's buffer of requestMax bytes; with a temporary
      buffer, header and parameters are copied there and read from the copy. */
  method HostPacketReceive(driverResult: nat, request: array<uint8>, size: nat, temp: array?<uint8>)
    returns (r: Received)
    requires temp != null ==> temp != request && temp.Length >= request.Length
    modifies if temp == null then {} else {temp}
    ensures request[..] == old(request[..])
    ensures r == Parse(driverResult, request[..], size)
    ensures temp != null && r.Accepted? ==> temp[HEADER..HEADER + |r.params|] == r.params
  {
    hide Sum, Word;
    if driverResult != RES_SUCCESS {
      return Bad(driverResult);
    }
    if size < HEADER {
      return Bad(RES_REQUEST_TRUNCATED);
    }
    if size > request.Length {
      return Bad(RES_REQUEST_TRUNCATED);
    }
    var csum := CopyAndAdd(request, 0, HEADER, temp, 0);
    ghost var buffer := request[..];
    var version := if temp != null then temp[0] else request[0];
    if version != VERSION {
      return Bad(RES_INVALID_HEADER);
    }
    var length := if temp != null then Word(temp[6], temp[7]) else Word(request[6], request[7]);
    if size < HEADER + length {
      return Bad(RES_REQUEST_TRUNCATED);
    }
    csum := CopyAndAdd(request, HEADER, HEADER + length, temp, csum);
    SumParts(buffer, HEADER, HEADER + length);
    if csum % 0x100 != 0 {
      return Bad(RES_INVALID_CHECKSUM);
    }
    if temp != null {
      return Accepted(Word(temp[2], temp[3]), temp[4] as nat, temp[HEADER..HEADER + length]);
    }
    return Accepted(Word(request[2], request[3]), request[4] as nat, request[HEADER..HEADER + length]);
  }

  lemma SumParts(s: seq<uint8>, m: nat, n: nat)
    requires m <= n <= |s|
    ensures Sum(s[..n]) == Sum(s[0..m]) + Sum(s[m..n])
  {
    SumConcat(s[0..m], s[m..n]);
    assert s[0..m] + s[m..n] == s[..n];
  }

  /** Adds up in[from..to], copying it to the same place of the temporary buffer if there is one. */
  method CopyAndAdd(input: array<uint8>, from: nat, to: nat, temp: array?<uint8>, start: nat) returns (csum: nat)
    requires from <= to <= input.Length && (temp != null ==> temp != input && temp.Length >= input.Length)
    modifies if temp == null then {} else {temp}
    ensures input[..] == old(input[..]) && csum == start + Sum(input[..][from..to])
    ensures temp != null ==> temp[from..to] == input[from..to] && temp[..from] == old(temp[..from])
  {
    csum := start;
    for i := from to to
      invariant input[..] == old(input[..])
      invariant csum == start + Sum(input[..][from..i])
      invariant temp != null ==> temp[from..i] == input[from..i] && temp[..from] == old(temp[..from])
    {
      ghost var s := input[..];
      SumNext(s[from..], i - from);
      assert s[from..][..i - from] == s[from..i] && s[from..][..i - from + 1] == s[from..i + 1];
      csum := csum + input[i] as nat;
      if temp != null {
        temp[i] := input[i];
      }
    }
  }

  /** What is sent: a failed command has no data, and data that does not fit is an error. */
  function Clipped(result: nat, size: nat, room: nat): (nat, nat)
  {
    if result != RES_SUCCESS then (result, 0)
    else if size > room then (RES_RESPONSE_TOO_BIG, 0)
    else (RES_SUCCESS, size)
  }

  /** host_packet_respond: the handler has left its data behind the header. */
  method HostPacketRespond(response: array<uint8>, result: nat, size: nat)
    returns (responseSize: nat, driverResult: nat)
    requires response.Length >= HEADER && size < 0x1_0000
    modifies response
    ensures result != 0 ==> driverResult == result && responseSize == 8
    ensures result == 0 && 8 + size > response.Length ==> driverResult == 14 && responseSize == 8
    ensures result == 0 && 8 + size <= response.Length ==> driverResult == 0 && responseSize == 8 + size
    ensures (var (res, n) := Clipped(result, size, response.Length - HEADER);
             && responseSize == HEADER + n <= response.Length && driverResult == res
             && response[..][..responseSize] == Response(res, old(response[..])[HEADER..HEADER + n])
             && response[..][HEADER..] == old(response[..])[HEADER..])
  {
    hide Sum, Negated, ResponseHeader;
    var res, n := result, size;
    if result != RES_SUCCESS {
      n := 0;
    } else if size > response.Length - HEADER {
      res, n := RES_RESPONSE_TOO_BIG, 0;
    }
    ghost var rest := response[..][HEADER..];
    ghost var data := rest[..n];
    assert response[..][HEADER..HEADER + n] == data;
    PutHeader(response, res, n);
    Slices(response[..], ResponseHeader(0, res, n), rest, n);
    var csum := AddBytes(response[..], 0, HEADER, 0);
    csum := AddBytes(response[..], HEADER, HEADER + n, csum);
    response[1] := Negated(csum);
    ResponseChecksum(0, Negated(csum), res, n);
    assert response[..][..HEADER] == ResponseHeader(0, res, n)[1 := Negated(csum)];
    assert response[..][HEADER..] == rest;
    Slices(response[..], ResponseHeader(Negated(csum), res, n), rest, n);
    responseSize := HEADER + n;
    driverResult := res;
  }

  lemma Slices(s: seq<uint8>, header: seq<uint8>, rest: seq<uint8>, n: nat)
    requires |header| == HEADER && n <= |rest| && |s| >= HEADER && s[..HEADER] == header && s[HEADER..] == rest
    ensures s[0..HEADER] == header && s[HEADER..HEADER + n] == rest[..n] && s[..HEADER + n] == header + rest[..n]
  {
    assert s == header + rest;
  }

  lemma ResponseChecksum(blank: uint8, checksum: uint8, result: nat, length: nat)
    ensures ResponseHeader(blank, result, length)[1 := checksum] == ResponseHeader(checksum, result, length)
  {
    hide Low, High;
  }

  method PutHeader(response: array<uint8>, result: nat, n: nat)
    requires response.Length >= HEADER
    modifies response
    ensures response[..][..HEADER] == ResponseHeader(0, result, n)
    ensures response[..][HEADER..] == old(response[..])[HEADER..]
  {
    response[0], response[1] := VERSION, 0;
    response[2], response[3] := Low(result), High(result);
    response[4], response[5] := Low(n), High(n);
    response[6], response[7] := 0, 0;
  }

  // ---------------------------------------------------------------------------
  // Looking up a command.

  /** The linear scan: the first entry with the command, or none. */
  function LinearFind(table: seq<int>, command: int): int
  {
    if table == [] then -1
    else if table[0] == command then 0
    else
      var k := LinearFind(table[1..], command);
      if k < 0 then -1 else k + 1
  }

  lemma {:induction false} LinearFindMeans(table: seq<int>, command: int)
    ensures (var k := LinearFind(table, command);
             && -1 <= k < |table| && (k == -1 <==> command !in table)
             && (k >= 0 ==> table[k] == command && forall j :: 0 <= j < k ==> table[j] != command))
  {
    if table != [] {
      LinearFindMeans(table[1..], command);
      assert command in table <==> command == table[0] || command in table[1..];
    }
  }

  ghost predicate StrictlySorted(table: seq<int>)
  {
    forall i, j :: 0 <= i < j < |table| ==> table[i] < table[j]
  }

  /** find_host_command on a sorted table: the binary search finds what the linear scan finds. */
  method FindHostCommand(table: seq<int>, command: int) returns (k: int)
    requires StrictlySorted(table)
    ensures k == LinearFind(table, command)
  {
    LinearFindMeans(table, command);
    var l, r := 0, |table| - 1;
    while true
      invariant 0 <= l <= |table| && -1 <= r < |table| && l <= r + 1
      invariant forall i :: 0 <= i < |table| && (i < l || r < i) ==> table[i] != command
      decreases r - l
    {
      if l > r {
        return -1;
      }
      var m := l + (r - l) / 2;
      if table[m] < command {
        l := m + 1;
      } else if table[m] > command {
        r := m - 1;
      } else {
        return m;
      }
    }
  }
}
