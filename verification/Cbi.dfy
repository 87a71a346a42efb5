/** The CBI store: an image in RAM, its EEPROM copy, and the operations on them. */
module Cbi {
  import opened MachineInts
  import opened Options
  import opened CbiList
  import opened CbiImage
  import Crc

  datatype Rv = Success | Unknown | Invalid | OutOfBuffer | Overflow | AccessDenied | WriteError

  // LeavesBuffer is where the model stops: an access behind the buffer.
  datatype Response = Done | AccessRefused | Unreadable | InvalidParam | WriteFailed | LeavesBuffer

  /** cached_read_result. */
  datatype Cached = Unread | Loaded | Failed

  const TAG_BOARD_VERSION: uint8 := 0
  const TAG_OEM_ID: uint8 := 1
  /** Both reads of one of the two attempts succeed. */
  predicate Readable(ok: (bool, bool, bool, bool))
  {
    (ok.0 && ok.1) || (ok.2 && ok.3)
  }

  /** hc_cbi_set: who may not set a tag. */
  predicate Refuses(tag: uint8, noSync: bool, locked: bool, writeProtected: bool)
  {
    (writeProtected && !noSync) || (locked && (tag == TAG_BOARD_VERSION || tag == TAG_OEM_ID))
  }

  method Memmove(a: array<uint8>, dst: nat, src: nat, n: nat)
    requires dst + n <= a.Length && src + n <= a.Length
    modifies a
    ensures a[..] == old(a[..dst]) + old(a[src..src + n]) + old(a[dst + n..])
  {
    forall i | 0 <= i < n { a[dst + i] := a[src + i]; }
  }

  method Memcpy(a: array<uint8>, dst: nat, v: seq<uint8>)
    requires dst + |v| <= a.Length
    modifies a
    ensures a[..] == old(a[..dst]) + v + old(a[dst + |v|..])
  {
    forall i | 0 <= i < |v| { a[dst + i] := v[i]; }
  }

  class Store {
    const cbi: array<uint8>
    var eeprom: seq<uint8>
    var cached: Cached
    ghost var entries: seq<Entry>

    constructor ()
      ensures Inv() && cached == Unread && fresh(cbi)
    {
      cbi := new uint8[EEPROM_SIZE];
      eeprom := seq(EEPROM_SIZE, _ => 0);
      entries := [];
      cached := Unread;
    }

    ghost predicate Inv()
      reads this, cbi
    {
      && cbi.Length == EEPROM_SIZE == |eeprom|
      && (cached == Loaded ==> Magic(cbi[..]) && HEADER <= Total(cbi[..]) <= EEPROM_SIZE)
    }

    /** What has been loaded, or is still to be read, is a good list. */
    ghost predicate Listed()
      reads this, cbi
    {
      (cached == Loaded ==> Valid()) && (cached == Unread ==> ReadsAsList(eeprom))
    }

    /** Whether there is an image to work on: one that was read, or can be. */
    ghost predicate Loads(ok: (bool, bool, bool, bool))
      reads this
    {
      if cached == Unread then Readable(ok) && Acceptable(eeprom) else cached == Loaded
    }

    /** The RAM image is a good list. */
    ghost predicate Valid()
      reads this, cbi
    {
      cbi.Length == EEPROM_SIZE && |eeprom| == EEPROM_SIZE && Image(cbi[..], entries) && Good(entries)
    }

    /** cbi_find_tag, on any image. */
    method FindTag(tag: uint8) returns (d: int)
      requires cbi.Length == EEPROM_SIZE && Sized(cbi[..])
      ensures match Find(cbi[..], Total(cbi[..]), HEADER, tag)
              case None => d == -1
              case Some(at) => d == at
    {
      var total := cbi[6] as nat + 0x100 * cbi[7] as nat;
      var p := HEADER;
      while p + 2 < total
        invariant HEADER <= p && Find(cbi[..], total, p, tag) == Find(cbi[..], total, HEADER, tag)
        decreases total - p
      {
        if cbi[p] == tag {
          return p;
        }
        p := p + 2 + cbi[p + 1] as nat;
      }
      return -1;
    }

    /** Writes total_size. */
    method SetTotal(n: nat)
      requires cbi.Length == EEPROM_SIZE && n <= EEPROM_SIZE
      modifies cbi
      ensures cbi[..] == WithTotal(old(cbi[..]), n)
    {
      cbi[6] := (n % 0x100) as uint8;
      cbi[7] := (n / 0x100) as uint8;
    }

    /** cbi_remove_tag: moves what follows the entry at d over it, and shrinks the total. */
    method RemoveTag(d: nat)
      requires cbi.Length == EEPROM_SIZE && Sized(cbi[..]) && HEADER <= d && d + 2 <= Total(cbi[..])
      requires EndsInside(cbi[..], d)
      modifies cbi
      ensures cbi[..] == Removed(old(cbi[..]), d)
    {
      hide WithTotal;
      var total := cbi[6] as nat + 0x100 * cbi[7] as nat;
      var size := 2 + cbi[d + 1] as nat;
      var next := d + size;
      var after := total - next;
      Memmove(cbi, d, next, after);
      SetTotal(total - size);
    }

    /** cbi_set_data: writes tag, size and value at p. */
    method SetData(p: nat, tag: uint8, v: seq<uint8>)
      requires |v| < 0x100 && p + 2 + |v| <= cbi.Length
      modifies cbi
      ensures cbi[..] == old(cbi[..p]) + Bytes(Entry(tag, v)) + old(cbi[p + 2 + |v|..])
    {
      cbi[p] := tag;
      cbi[p + 1] := |v| as uint8;
      Memcpy(cbi, p + 2, v);
    }

    /** The bytes of cbi_set_board_info, on any image. */
    method SetBytes(tag: uint8, v: seq<uint8>) returns (r: Stored)
      requires cbi.Length == EEPROM_SIZE && Sized(cbi[..]) && |v| < 0x100
      modifies cbi
      ensures (cbi[..], r) == Store1(old(cbi[..]), tag, v)
    {
      hide Removed, Appended, Overwritten, Find, Add;
      ghost var before := cbi[..];
      var d := FindTag(tag);
      if d != -1 && cbi[d + 1] as nat != |v| {
        if !EndsInside(cbi[..], d) {
          return Outside;
        }
        RemovedBytes(before, d);
        RemoveTag(d);
        d := -1;
      }
      if d == -1 {
        r := AddBytes(tag, v);
        return r;
      }
      if EEPROM_SIZE < d + 2 + |v| {
        return Outside;
      }
      Memcpy(cbi, d + 2, v);
      OverwrittenIs(before, d, v);
      return Stored;
    }

    /** Appends an item if it fits. */
    method AddBytes(tag: uint8, v: seq<uint8>) returns (r: Stored)
      requires cbi.Length == EEPROM_SIZE && Sized(cbi[..]) && |v| < 0x100
      modifies cbi
      ensures (cbi[..], r) == Add(old(cbi[..]), tag, v)
    {
      hide Appended, WithTotal;
      var total := cbi[6] as nat + 0x100 * cbi[7] as nat;
      if EEPROM_SIZE < total + 2 + |v| {
        return Full;
      }
      ghost var unset := cbi[..];
      SetData(total, tag, v);
      AppendedTotal(unset, cbi[..], tag, v);
      SetTotal(total + 2 + |v|);
      return Stored;
    }

    /** cbi_set_board_info, on any image, and what it means for one that is a list. */
    method SetBoardInfo(tag: uint8, v: seq<uint8>) returns (r: Stored)
      requires cbi.Length == EEPROM_SIZE == |eeprom| && Sized(cbi[..]) && |v| < 0x100
      modifies cbi, `entries
      ensures (cbi[..], r) == Store1(old(cbi[..]), tag, v)
      ensures Sized(cbi[..]) && cbi[..6] == old(cbi[..])[..6]
      ensures r == Outside <==> SetLeaves(old(cbi[..]), tag, |v|)
      ensures old(Valid()) && 0 < |v| ==>
                && Valid() && r != Outside && (entries, r == Stored) == Set(old(entries), tag, v, ROOM)
      ensures r == Outside ==> entries == old(entries)
    {
      hide Serialize, Store1, SetLeaves;
      ghost var before := cbi[..];
      r := SetBytes(tag, v);
      Store1Sized(before, tag, v);
      if Image(before, entries) && Good(entries) && 0 < |v| {
        Store1RefinesSet(before, entries, tag, v);
        entries := Set(entries, tag, v, ROOM).0;
      }
    }

    /** cbi_get_board_info: reads the image if need be, copies the value of a tag to buf, which has
        room for `size` bytes, and clears the rest of that room. OutOfBuffer is a value that does
        not end within the image's buffer. */
    method GetBoardInfo(tag: uint8, buf: array<uint8>, size: nat, ok: (bool, bool, bool, bool))
      returns (rv: Rv, length: nat)
      requires Inv() && size <= buf.Length && buf != cbi
      modifies this, cbi, buf
      ensures Inv() && eeprom == old(eeprom) && rv in {Success, Unknown, Invalid, OutOfBuffer}
      ensures old(cached) == Loaded ==> entries == old(entries) && cbi[..] == old(cbi[..])
      ensures old(cached) == Unread && old(Loads(ok)) ==>
                && Total(cbi[..]) == Total(eeprom) && cbi[..Total(eeprom)] == eeprom[..Total(eeprom)]
                && (ReadsAsList(eeprom) ==> Valid() && Image(eeprom, entries))
      ensures !old(Loads(ok)) ==> rv == Unknown
      ensures old(Loads(ok)) ==>
                match Find(cbi[..], Total(cbi[..]), HEADER, tag)
                case None => rv == Unknown
                case Some(d) =>
                  && rv != Unknown && (rv == Invalid <==> size < cbi[d + 1] as nat)
                  && (rv == OutOfBuffer <==> GetLeaves(cbi[..], tag, size))
                  && (rv == Success ==>
                        && length == cbi[d + 1] as nat <= size && d + 2 + length <= EEPROM_SIZE
                        && buf[..length] == cbi[..][d + 2..d + 2 + length])
      ensures old(Loads(ok)) && Valid() ==>
                && rv != OutOfBuffer && (rv == Unknown <==> Lookup(entries, tag) == None)
                && (rv == Success ==> buf[..length] == Lookup(entries, tag).value)
      ensures rv == Success ==>
                && length <= size && (forall i :: length <= i < size ==> buf[i] == 0)
                && buf[..][size..] == old(buf[..])[size..]
      ensures rv in {Unknown, Invalid} ==> buf[..] == old(buf[..])
    {
      hide Serialize, Image, Acceptable, Good, Find, ReadsAsList, GetLeaves;
      var success := ReadBoardInfo(ok);
      if !success {
        return Unknown, 0;
      }
      rv, length := GetValue(tag, buf, size);
      if Image(cbi[..], entries) && Good(entries) {
        ValueInImage(cbi[..], entries, tag, size);
      }
    }

    /** The rest of cbi_get_board_info, on a loaded image. */
    method GetValue(tag: uint8, buf: array<uint8>, size: nat) returns (rv: Rv, length: nat)
      requires cbi.Length == EEPROM_SIZE && Sized(cbi[..]) && size <= buf.Length && buf != cbi
      modifies buf
      ensures cbi[..] == old(cbi[..]) && rv in {Success, Unknown, Invalid, OutOfBuffer}
      ensures match Find(cbi[..], Total(cbi[..]), HEADER, tag)
              case None => rv == Unknown
              case Some(d) =>
                && rv != Unknown && (rv == Invalid <==> size < cbi[d + 1] as nat)
                && (rv == OutOfBuffer <==> GetLeaves(cbi[..], tag, size))
                && (rv == Success ==>
                      && length == cbi[d + 1] as nat <= size && d + 2 + length <= EEPROM_SIZE
                      && buf[..length] == cbi[..][d + 2..d + 2 + length])
      ensures rv == Success ==>
                && length <= size && (forall i :: length <= i < size ==> buf[i] == 0)
                && buf[..][size..] == old(buf[..])[size..]
      ensures rv in {Unknown, Invalid} ==> buf[..] == old(buf[..])
    {
      hide Find;
      var d := FindTag(tag);
      if d == -1 {
        return Unknown, 0;
      }
      length := cbi[d + 1] as nat;
      if size < length {
        return Invalid, 0;
      }
      var inside := CopyValue(d, length, buf, size);
      if !inside {
        return OutOfBuffer, 0;
      }
      return Success, length;
    }

    /** Clears the room and copies the value of the entry at d to it, if it ends within the buffer. */
    method CopyValue(d: nat, length: nat, buf: array<uint8>, size: nat) returns (inside: bool)
      requires cbi.Length == EEPROM_SIZE && length <= size <= buf.Length && buf != cbi
      modifies buf
      ensures cbi[..] == old(cbi[..])
      ensures inside <==> d + 2 + length <= EEPROM_SIZE
      ensures inside ==>
                && buf[..length] == cbi[..][d + 2..d + 2 + length]
                && (forall i :: length <= i < size ==> buf[i] == 0) && buf[..][size..] == old(buf[..])[size..]
    {
      ghost var before := buf[..];
      forall i | 0 <= i < size { buf[i] := 0; }
      ghost var cleared := buf[..];
      if EEPROM_SIZE < d + 2 + length {
        return false;
      }
      var value := cbi[d + 2..d + 2 + length];
      Memcpy(buf, 0, value);
      CopiedInto(before, cleared, buf[..], value, size);
      return true;
    }

    method CbiCrc8() returns (crc: uint8)
      requires cbi.Length == EEPROM_SIZE && HEADER <= Total(cbi[..]) <= EEPROM_SIZE
      ensures crc == ImageCrc(cbi[..])
    {
      var total := cbi[6] as nat + 0x100 * cbi[7] as nat;
      assert cbi[4..total] == cbi[..][4..total];
      var c := Crc.Crc8Arg(ToBits8(cbi[4..total]), 0);
      crc := c as uint8;
    }

    /** Takes over the format version and recomputes the CRC. */
    method Seal()
      requires cbi.Length == EEPROM_SIZE == |eeprom| && Sized(cbi[..])
      modifies cbi
      ensures Sized(cbi[..]) && Total(cbi[..]) == old(Total(cbi[..])) && cbi[HEADER..] == old(cbi[..])[HEADER..]
      ensures old(Valid()) ==> Valid()
      ensures cbi[..3] == old(cbi[..])[..3] && cbi[5] == 0 && cbi[3] == ImageCrc(cbi[..])
    {
      hide Serialize, ImageCrc;
      ghost var before := cbi[..];
      cbi[5] := 0;
      cbi[4] := 0;
      ghost var body := cbi[..];
      var crc := CbiCrc8();
      cbi[3] := crc;
      assert cbi[HEADER..Total(before)] == before[HEADER..Total(before)];
      CrcIgnoresItself(body, cbi[..]);
    }

    /** write_board_info: page by page; pageOk(n) says whether writing page n succeeds. */
    method WriteBoardInfo(writeProtected: bool, pageOk: nat -> bool) returns (rv: Rv)
      requires cbi.Length == EEPROM_SIZE == |eeprom| && Total(cbi[..]) <= EEPROM_SIZE
      modifies `eeprom
      ensures |eeprom| == EEPROM_SIZE
      ensures rv == AccessDenied <==> writeProtected
      ensures writeProtected ==> eeprom == old(eeprom)
      ensures rv == Success <==> !writeProtected && forall n :: 0 <= n < Pages(Total(cbi[..])) ==> pageOk(n)
      ensures rv == Success ==> eeprom == cbi[..][..Total(cbi[..])] + old(eeprom)[Total(cbi[..])..]
      ensures rv in {Success, AccessDenied, WriteError}
      ensures rv == WriteError ==> StopsAt(cbi[..], old(eeprom), eeprom, pageOk)
    {
      if writeProtected {
        return AccessDenied;
      }
      var total := cbi[6] as nat + 0x100 * cbi[7] as nat;
      var p, rest, n := 0, total, 0;
      while rest > 0
        invariant 0 <= p && 0 <= n && 0 <= rest && p + rest == total <= EEPROM_SIZE == |eeprom|
        invariant rest > 0 ==> p == PAGE * n
        invariant rest == 0 ==> n == Pages(total)
        invariant forall m :: 0 <= m < n ==> pageOk(m)
        invariant eeprom == cbi[..][..p] + old(eeprom)[p..]
      {
        var size := if PAGE < rest then PAGE else rest;
        if !pageOk(n) {
          assert n < Pages(total) && PAGE * n <= total;
          return WriteError;
        }
        PageWritten(cbi[..], old(eeprom), eeprom, p, size);
        eeprom := eeprom[..p] + cbi[..][p..p + size] + eeprom[p + size..];
        p, rest, n := p + size, rest - size, n + 1;
      }
      return Success;
    }

    /** do_read_board_info: header, checks, body, CRC; the flags say whether the two reads succeed. */
    method DoReadBoardInfo(headerOk: bool, bodyOk: bool) returns (rv: Rv)
      requires cbi.Length == EEPROM_SIZE == |eeprom|
      modifies cbi
      ensures rv == Success <==> headerOk && bodyOk && Acceptable(eeprom)
      ensures rv == Success ==> Magic(cbi[..]) && Total(cbi[..]) == Total(eeprom)
      ensures rv == Success ==> cbi[..Total(eeprom)] == eeprom[..Total(eeprom)]
    {
      hide ImageCrc;
      if !headerOk {
        return Invalid;
      }
      Memcpy(cbi, 0, eeprom[..HEADER]);
      assert forall i :: 0 <= i < HEADER ==> cbi[i] == eeprom[i];
      if !(cbi[0] == 0x43 && cbi[1] == 0x42 && cbi[2] == 0x49) {
        return Invalid;
      }
      if cbi[5] > 0 {
        return Invalid;
      }
      var total := cbi[6] as nat + 0x100 * cbi[7] as nat;
      if total < HEADER || EEPROM_SIZE < total {
        return Overflow;
      }
      if !bodyOk {
        return Invalid;
      }
      Memcpy(cbi, HEADER, eeprom[HEADER..total]);
      assert cbi[..total] == eeprom[..total];
      var crc := CbiCrc8();
      CrcOfPrefix(cbi[..], eeprom);
      if crc != cbi[3] {
        return Invalid;
      }
      return Success;
    }

    /** read_board_info: the cached verdict, or up to two attempts. ok tells which of the four
        EEPROM reads succeed. */
    method ReadBoardInfo(ok: (bool, bool, bool, bool)) returns (success: bool)
      requires Inv()
      modifies this, cbi
      ensures Inv() && eeprom == old(eeprom) && cached == (if success then Loaded else Failed)
      ensures success <==> old(Loads(ok))
      ensures old(cached) == Unread ==> (success <==> ((ok.0 && ok.1) || (ok.2 && ok.3)) && Acceptable(eeprom))
      ensures old(cached) != Unread ==> (success <==> old(cached) == Loaded)
      ensures success && old(cached) == Unread ==>
                && Total(cbi[..]) == Total(eeprom) && cbi[..Total(eeprom)] == eeprom[..Total(eeprom)]
                && (ReadsAsList(eeprom) ==> Valid() && Image(eeprom, entries))
      ensures old(cached) != Unread ==> entries == old(entries) && cbi[..] == old(cbi[..])
    {
      hide Serialize, Image, ImageCrc;
      if cached == Unread {
        var rv := DoReadBoardInfo(ok.0, ok.1);
        if rv != Success {
          rv := DoReadBoardInfo(ok.2, ok.3);
        }
        if rv == Success && ReadsAsList(eeprom) {
          ghost var es :| Image(eeprom, es) && Good(es);
          entries := es;
          ImageOfPrefix(eeprom, cbi[..], entries);
        }
        cached := if rv == Success then Loaded else Failed;
      }
      return cached == Loaded;
    }

    /** The CBI_SET_INIT branch: an empty list under a fresh header. */
    method Init()
      requires cbi.Length == EEPROM_SIZE == |eeprom|
      modifies this, cbi
      ensures Inv() && Valid() && cached == Loaded && entries == [] && eeprom == old(eeprom)
    {
      forall i | 0 <= i < EEPROM_SIZE { cbi[i] := 0; }
      cbi[0], cbi[1], cbi[2] := 0x43, 0x42, 0x49;
      SetTotal(HEADER);
      entries := [];
      cached := Loaded;
    }

    /** hc_cbi_set: image is what the value is set in, and base its list. */
    method HcCbiSet(tag: uint8, v: seq<uint8>, init: bool, noSync: bool, locked: bool,
                    writeProtected: bool, ok: (bool, bool, bool, bool), pageOk: nat -> bool)
      returns (res: Response, ghost image: seq<uint8>, ghost base: seq<Entry>)
      requires Inv() && |v| < 0x100
      modifies this, cbi
      ensures res != LeavesBuffer ==> Inv()
      ensures res == AccessRefused <==> Refuses(tag, noSync, locked, writeProtected)
      ensures res == AccessRefused <==> (writeProtected && !noSync) || (locked && tag in {0, 1})
      ensures res == AccessRefused ==> cbi[..] == old(cbi[..]) && entries == old(entries) && cached == old(cached)
      ensures res == Unreadable <==> !Refuses(tag, noSync, locked, writeProtected) && !init && !old(Loads(ok))
      ensures res == Unreadable ==> cached == Failed
      // Otherwise there is an image; and whether it is left, filled or changed depends on it alone.
      ensures !(res in {AccessRefused, Unreadable}) ==>
                && cached == Loaded && Sized(image)
                && (init ==> Image(image, []))
                && (!init && old(cached) == Loaded ==> image == old(cbi[..]))
                && (!init && old(cached) == Unread ==>
                      Total(image) == Total(old(eeprom)) && image[..Total(image)] == old(eeprom)[..Total(image)])
                && (res == LeavesBuffer <==> SetLeaves(image, tag, |v|))
                && (res == InvalidParam <==> Store1(image, tag, v).1 == Full)
      // What it means for a list of distinct tags with non-empty values.
      ensures !(res in {AccessRefused, Unreadable}) && (init || old(Listed())) && 0 < |v| ==>
                && res != LeavesBuffer && Good(base) && Image(image, base)
                && Valid() && (entries, res != InvalidParam) == Set(base, tag, v, ROOM)
                && (init ==> base == []) && (!init && old(cached) == Loaded ==> base == old(entries))
                && (!init && old(cached) == Unread ==> Image(old(eeprom), base))
      ensures res in {Done, WriteFailed} ==>
                (res == WriteFailed <==> !noSync && exists n :: 0 <= n < Pages(Total(cbi[..])) && !pageOk(n))
      ensures res == Done && !noSync ==> Acceptable(eeprom) && (Valid() ==> Image(eeprom, entries))
      ensures res == WriteFailed ==> StopsAt(cbi[..], old(eeprom), eeprom, pageOk)
      ensures !(res in {Done, WriteFailed}) || noSync ==> eeprom == old(eeprom)
    {
      hide Serialize, Acceptable, Image, ImageCrc, Set, Good, StopsAt, ReadsAsList, Store1, SetLeaves;
      base, image := [], [];
      EmptyIsGood();
      if writeProtected && !noSync {
        return AccessRefused, image, base;
      }
      if locked && (tag == TAG_BOARD_VERSION || tag == TAG_OEM_ID) {
        return AccessRefused, image, base;
      }
      if init {
        Init();
      } else {
        var success := ReadBoardInfo(ok);
        if !success {
          return Unreadable, image, base;
        }
      }
      base, image := entries, cbi[..];
      res := SetAndSync(tag, v, noSync, writeProtected, pageOk);
    }

    /** The rest of hc_cbi_set, on a loaded image. */
    method SetAndSync(tag: uint8, v: seq<uint8>, noSync: bool, writeProtected: bool, pageOk: nat -> bool)
      returns (res: Response)
      requires Inv() && cached == Loaded && |v| < 0x100 && (writeProtected ==> noSync)
      modifies this, cbi
      ensures Inv() && cached == Loaded && res in {Done, InvalidParam, WriteFailed, LeavesBuffer}
      ensures res == LeavesBuffer <==> SetLeaves(old(cbi[..]), tag, |v|)
      ensures res == InvalidParam <==> Store1(old(cbi[..]), tag, v).1 == Full
      ensures old(Valid()) && 0 < |v| ==>
                && res != LeavesBuffer && Valid()
                && (entries, res != InvalidParam) == Set(old(entries), tag, v, ROOM)
      ensures res in {Done, WriteFailed} ==>
                (res == WriteFailed <==> !noSync && exists n :: 0 <= n < Pages(Total(cbi[..])) && !pageOk(n))
      ensures res == Done && !noSync ==> Acceptable(eeprom) && (Valid() ==> Image(eeprom, entries))
      ensures res == WriteFailed ==> StopsAt(cbi[..], old(eeprom), eeprom, pageOk)
      ensures !(res in {Done, WriteFailed}) || noSync ==> eeprom == old(eeprom)
    {
      hide Serialize, Acceptable, Image, ImageCrc, Set, Good, StopsAt, Store1, SetLeaves, ReadsAsList;
      ghost var start := cbi[..];
      var stored := SetBoardInfo(tag, v);
      MagicKept(start, cbi[..], 6);
      if stored == Outside {
        return LeavesBuffer;
      }
      if stored == Full {
        return InvalidParam;
      }
      ghost var unsealed := cbi[..];
      Seal();
      MagicKept(unsealed, cbi[..], 3);
      if noSync {
        return Done;
      }
      ghost var before := eeprom;
      var rv := WriteBoardInfo(writeProtected, pageOk);
      if rv != Success {
        return WriteFailed;
      }
      WrittenAcceptable(cbi[..], before, eeprom);
      if Image(cbi[..], entries) {
        WrittenImage(cbi[..], before, eeprom, entries);
      }
      return Done;
    }

    /** A reload after a synchronised set gives back the list that was set. */
    method Reload(ok: (bool, bool, bool, bool), ghost es: seq<Entry>) returns (success: bool)
      requires Inv() && Acceptable(eeprom) && Image(eeprom, es) && Good(es)
      modifies this, cbi
      ensures Inv() && eeprom == old(eeprom)
      ensures success <==> Readable(ok)
      ensures success ==> cached == Loaded && Valid() && entries == es
    {
      cached := Unread;
      success := ReadBoardInfo(ok);
      if success {
        ImageIsUnique(eeprom, es, entries);
      }
    }
  }

  /** SetData writes what Appended has before the total changes. */
  lemma AppendedTotal(buf: seq<uint8>, after: seq<uint8>, tag: uint8, v: seq<uint8>)
    requires |buf| == EEPROM_SIZE && HEADER <= Total(buf) && |v| < 0x100 && Total(buf) + 2 + |v| <= EEPROM_SIZE
    requires after == buf[..Total(buf)] + Bytes(Entry(tag, v)) + buf[Total(buf) + 2 + |v|..]
    ensures |after| == EEPROM_SIZE && Appended(buf, tag, v) == WithTotal(after, Total(buf) + 2 + |v|)
  {
  }

  lemma OverwrittenIs(buf: seq<uint8>, d: nat, v: seq<uint8>)
    requires d + 2 + |v| <= |buf|
    ensures Overwritten(buf, d, v) == buf[..d + 2] + v + buf[d + 2 + |v|..]
  {
  }

  lemma PageWritten(ram: seq<uint8>, before: seq<uint8>, now: seq<uint8>, p: nat, size: nat)
    requires |ram| == |before| && p + size <= |ram| && now == ram[..p] + before[p..]
    ensures now[..p] + ram[p..p + size] + now[p + size..] == ram[..p + size] + before[p + size..]
  {
  }

  /** A value copied over cleared room. */
  lemma CopiedInto(before: seq<uint8>, cleared: seq<uint8>, after: seq<uint8>, value: seq<uint8>, size: nat)
    requires |value| <= size <= |before| == |cleared|
    requires forall i :: 0 <= i < |before| ==> cleared[i] == if i < size then 0 else before[i]
    requires after == cleared[..0] + value + cleared[0 + |value|..]
    ensures |after| == |before| && after[..|value|] == value
    ensures (forall i :: |value| <= i < size ==> after[i] == 0) && after[size..] == before[size..]
  {
  }
}
