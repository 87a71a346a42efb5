/** The CEC receive queue: variable-length messages in a ring of bytes. */
module Cec {
  import opened MachineInts

  const SIZE: nat := 20
  const MAX_LEN: nat := 16

  datatype Rv = Success | Invalid | Overflow

  type Msg = seq<uint8>

  ghost predicate Proper(m: Msg)
  {
    1 <= |m| <= MAX_LEN
  }

  ghost function Framed(m: Msg): seq<uint8>
    requires Proper(m)
  {
    [|m| as uint8] + m
  }

  ghost predicate AllProper(ms: seq<Msg>)
  {
    forall i :: 0 <= i < |ms| ==> Proper(ms[i])
  }

  /** The bytes that a queue of messages takes. */
  ghost function Flat(ms: seq<Msg>): seq<uint8>
    requires AllProper(ms)
  {
    if ms == [] then [] else Framed(ms[0]) + Flat(ms[1..])
  }

  lemma {:induction false} FlatAppend(ms: seq<Msg>, m: Msg)
    requires AllProper(ms) && Proper(m)
    ensures Flat(ms + [m]) == Flat(ms) + Framed(m)
  {
    hide Framed, Proper;
    if ms == [] {
      assert Flat([m]) == Framed(m) + Flat([m][1..]);
      assert ms + [m] == [m];
    } else {
      FlatAppend(ms[1..], m);
      assert (ms + [m])[1..] == ms[1..] + [m] && (ms + [m])[0] == ms[0];
      assert Flat(ms + [m]) == Framed(ms[0]) + (Flat(ms[1..]) + Framed(m));
    }
  }

  /** Each message takes its own bytes and one more. */
  lemma FlatLength(ms: seq<Msg>, m: Msg)
    requires AllProper(ms) && Proper(m)
    ensures |Flat([])| == 0 && |Flat(ms + [m])| == |Flat(ms)| + |m| + 1
  {
    FlatAppend(ms, m);
  }

  /** The offset k bytes behind r. */
  function Off(r: nat, k: nat): (o: nat)
    ensures o < SIZE
  {
    (r + k) % SIZE
  }

  lemma OffNext(r: nat, k: nat)
    ensures (Off(r, k) + 1) % SIZE == Off(r, k + 1)
  {
  }

  lemma OffPlus(r: nat, m: nat, n: nat)
    ensures Off(Off(r, m), n) == Off(r, m + n)
  {
  }

  /** Going round meets the start again after SIZE bytes and no sooner. */
  lemma OffMeets(r: nat, k: nat)
    requires r < SIZE && k <= SIZE
    ensures Off(r, k) == r <==> k == 0 || k == SIZE
    ensures Off(r, 0) == r
  {
  }

  lemma OffApart(r: nat, j: nat, k: nat)
    requires r < SIZE && j < k < SIZE
    ensures Off(r, j) != Off(r, k)
  {
  }

  /** n bytes of the ring from offset r on. */
  ghost function Ring(buf: seq<uint8>, r: nat, n: nat): (s: seq<uint8>)
    requires |buf| == SIZE
    ensures |s| == n
  {
    seq(n, i requires 0 <= i < n => buf[Off(r, i)])
  }

  lemma RingSplit(buf: seq<uint8>, r: nat, m: nat, n: nat)
    requires |buf| == SIZE
    ensures Ring(buf, r, m + n) == Ring(buf, r, m) + Ring(buf, Off(r, m), n)
  {
    hide Off;
    var a, b := Ring(buf, r, m + n), Ring(buf, r, m) + Ring(buf, Off(r, m), n);
    forall i | 0 <= i < m + n ensures a[i] == b[i] {
      if m <= i {
        OffPlus(r, m, i - m);
      }
    }
  }

  /** A write outside a part of the ring does not show in it: d bytes into the ring, n long. */
  lemma RingFrame(buf: seq<uint8>, r: nat, d: nat, n: nat, k: nat, x: uint8)
    requires |buf| == SIZE && r < SIZE && (k < d || d + n <= k) && k < SIZE && d + n <= SIZE
    ensures Ring(buf[Off(r, k) := x], Off(r, d), n) == Ring(buf, Off(r, d), n)
  {
    hide Off;
    forall i: nat | i < n ensures Off(Off(r, d), i) != Off(r, k) {
      OffPlus(r, d, i);
      if k < d { OffApart(r, k, d + i); } else { OffApart(r, d + i, k); }
    }
  }

  lemma RingOne(buf: seq<uint8>, r: nat)
    requires |buf| == SIZE && r < SIZE
    ensures Ring(buf, r, 1) == [buf[r]]
  {
  }

  class RxQueue {
    const buf: array<uint8>
    var readOffset: nat
    var writeOffset: nat
    ghost var msgs: seq<Msg>

    ghost predicate Valid()
      reads this, buf
    {
      && buf.Length == SIZE && readOffset < SIZE && AllProper(msgs)
      && |Flat(msgs)| < SIZE
      && writeOffset == Off(readOffset, |Flat(msgs)|)
      && Ring(buf[..], readOffset, |Flat(msgs)|) == Flat(msgs)
    }

    constructor ()
      ensures Valid() && msgs == [] && fresh(buf)
    {
      buf := new uint8[SIZE];
      readOffset, writeOffset, msgs := 0, 0, [];
    }

    method Flush()
      requires Valid()
      modifies this
      ensures Valid() && msgs == [] && buf[..] == old(buf[..])
    {
      readOffset := 0;
      writeOffset := 0;
      msgs := [];
    }

    method Push(msg: seq<uint8>) returns (rv: Rv)
      requires Valid() && |msg| < 0x100
      modifies this, buf
      ensures Valid() && readOffset == old(readOffset)
      ensures rv == Invalid <==> |msg| == 0 || |msg| > 16
      ensures rv == Success <==> 1 <= |msg| <= 16 && |Flat(old(msgs))| + |msg| + 1 < 20
      ensures msgs == if rv == Success then old(msgs) + [msg] else old(msgs)
    {
      hide Flat, Ring, Off;
      if |msg| > MAX_LEN || |msg| == 0 {
        return Invalid;
      }
      ghost var r, used := readOffset, |Flat(msgs)|;
      var offset := writeOffset;
      OffMeets(r, 0);
      RingFrame(buf[..], r, 0, used, used, 0);
      buf[offset] := 0;
      assert buf[..] == old(buf[..])[writeOffset := 0];
      OffNext(r, used);
      offset := (offset + 1) % SIZE;
      for i := 0 to |msg|
        invariant Kept(used, i) && readOffset == r && msgs == old(msgs) && offset == Off(r, used + 1 + i)
        invariant Ring(buf[..], Off(r, used + 1), i) == msg[..i]
      {
        OffMeets(r, used + 1 + i);
        if offset == readOffset {
          return Overflow;
        }
        PutByte(used, offset, i, msg[i]);
        assert msg[..i] + [msg[i]] == msg[..i + 1];
        OffNext(r, used + 1 + i);
        offset := (offset + 1) % SIZE;
      }
      OffMeets(r, used + 1 + |msg|);
      if offset == readOffset {
        return Overflow;
      }
      Commit(used, offset, msg);
      return Success;
    }

    /** Writes the byte that lies k bytes behind the length byte of the message being pushed. */
    method PutByte(ghost used: nat, offset: nat, ghost k: nat, x: uint8)
      requires Kept(used, k) && used + 1 + k < SIZE && offset == Off(readOffset, used + 1 + k)
      modifies buf
      ensures Kept(used, k + 1)
      ensures Ring(buf[..], Off(readOffset, used + 1), k + 1) == old(Ring(buf[..], Off(readOffset, used + 1), k)) + [x]
    {
      hide Flat, Ring, Off;
      ghost var r := readOffset;
      OffMeets(r, 0);
      RingFrame(buf[..], r, 0, used, used + 1 + k, x);
      RingFrame(buf[..], r, used + 1, k, used + 1 + k, x);
      buf[offset] := x;
      assert buf[..] == old(buf[..])[offset := x];
      OffPlus(r, used + 1, k);
      RingSplit(buf[..], Off(r, used + 1), k, 1);
      RingOne(buf[..], offset);
    }

    /** Fills in the length and moves the write offset. */
    method Commit(ghost used: nat, offset: nat, msg: seq<uint8>)
      requires Proper(msg) && Kept(used, |msg|) && used + 1 + |msg| < SIZE
            && offset == Off(readOffset, used + 1 + |msg|)
      requires Ring(buf[..], Off(readOffset, used + 1), |msg|) == msg
      modifies this, buf
      ensures Valid() && readOffset == old(readOffset) && msgs == old(msgs) + [msg]
    {
      hide Flat, Ring, Off;
      ghost var r := readOffset;
      OffMeets(r, 0);
      RingFrame(buf[..], r, 0, used, used, |msg| as uint8);
      RingFrame(buf[..], r, used + 1, |msg|, used, |msg| as uint8);
      buf[writeOffset] := |msg| as uint8;
      assert buf[..] == old(buf[..])[writeOffset := |msg| as uint8];
      RingOne(buf[..], writeOffset);
      OffPlus(r, used, 1);
      RingSplit(buf[..], writeOffset, 1, |msg|);
      RingSplit(buf[..], r, used, 1 + |msg|);
      FlatAppend(msgs, msg);
      writeOffset := offset;
      msgs := msgs + [msg];
    }

    /** What every byte that Push writes keeps; `written` bytes follow the length byte so far. */
    ghost predicate Kept(used: nat, written: nat)
      reads this, buf
    {
      Valid() && used == |Flat(msgs)| && used + 1 + written <= SIZE
    }

    /** msg has room for the longest message. */
    method Pop(msg: array<uint8>) returns (ok: bool, len: nat)
      requires Valid() && msg.Length >= MAX_LEN && msg != buf
      modifies this, msg
      ensures Valid() && buf[..] == old(buf[..])
      ensures ok <==> old(msgs) != []
      ensures !ok ==> len == 0 && msgs == [] && msg[..] == old(msg[..])
      ensures len <= MAX_LEN
      ensures ok ==> msgs == old(msgs)[1..] && msg[..len] == old(msgs)[0] && msg[len..] == old(msg[len..])
    {
      hide Flat, Ring, Off;
      FlatEmpty(msgs);
      OffMeets(readOffset, |Flat(msgs)|);
      if readOffset == writeOffset {
        return false, 0;
      }
      ghost var r, m := readOffset, msgs[0];
      Head(buf[..], r, msgs);
      len := buf[readOffset] as nat;
      if len == 0 || len > MAX_LEN {
        assert false;
      }
      OffNext(r, 0);
      readOffset := (readOffset + 1) % SIZE;
      for i := 0 to len
        invariant readOffset == Off(r, 1 + i) && writeOffset == old(writeOffset) && msgs == old(msgs)
        invariant buf[..] == old(buf[..])
        invariant msg[..i] == m[..i] && msg[len..] == old(msg[len..])
      {
        assert buf[..][Off(r, 1 + i)] == m[i];
        msg[i] := buf[readOffset];
        assert msg[..i + 1] == m[..i + 1];
        OffNext(r, 1 + i);
        readOffset := (readOffset + 1) % SIZE;
      }
      assert m[..len] == m;
      OffPlus(r, 1 + len, |Flat(msgs[1..])|);
      msgs := msgs[1..];
      return true, len;
    }
  }

  lemma FlatEmpty(ms: seq<Msg>)
    requires AllProper(ms)
    ensures |Flat(ms)| == 0 <==> ms == []
  {
  }

  lemma SplitEqual(a: seq<uint8>, b: seq<uint8>, x: seq<uint8>, y: seq<uint8>)
    requires a + b == x + y && |a| == |x|
    ensures a == x && b == y
  {
    assert a == (a + b)[..|a|] && b == (a + b)[|a|..];
    assert x == (x + y)[..|a|] && y == (x + y)[|a|..];
  }

  /** The oldest message lies at the read offset, and the others after it. */
  lemma Head(buf: seq<uint8>, r: nat, ms: seq<Msg>)
    requires |buf| == SIZE && r < SIZE && AllProper(ms) && ms != []
    requires Ring(buf, r, |Flat(ms)|) == Flat(ms)
    ensures buf[r] as nat == |ms[0]|
    ensures forall j :: 0 <= j < |ms[0]| ==> buf[Off(r, 1 + j)] == ms[0][j]
    ensures |Flat(ms)| == 1 + |ms[0]| + |Flat(ms[1..])|
    ensures Ring(buf, Off(r, 1 + |ms[0]|), |Flat(ms[1..])|) == Flat(ms[1..])
  {
    var m, rest := ms[0], Flat(ms[1..]);
    assert Flat(ms) == Framed(m) + rest;
    hide Flat, Off;
    RingSplit(buf, r, 1 + |m|, |rest|);
    var a := Ring(buf, r, 1 + |m|);
    SplitEqual(a, Ring(buf, Off(r, 1 + |m|), |rest|), Framed(m), rest);
    OffMeets(r, 0);
    assert a[0] == buf[r];
    forall j | 0 <= j < |m| ensures buf[Off(r, 1 + j)] == m[j] {
      assert a[1 + j] == Framed(m)[1 + j] == m[j];
    }
  }
}
