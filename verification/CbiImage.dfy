/** CBI images: their bytes, what the operations do to any image, and what that means for its list. */
module CbiImage {
  import opened MachineInts
  import opened Options
  import opened CbiList
  import Crc
  import ByteNumbers

  const EEPROM_SIZE: nat := 256
  const HEADER: nat := 8
  const PAGE: nat := 16

  const ROOM: nat := EEPROM_SIZE - HEADER

  // Header layout: magic 0-2, crc 3, minor 4, major 5, total size 6-7.

  function Total(buf: seq<uint8>): nat
    requires |buf| >= HEADER
  {
    buf[6] as nat + 0x100 * buf[7] as nat
  }

  function Pages(total: nat): nat
  {
    (total + PAGE - 1) / PAGE
  }

  /** As many pages of 16 bytes as the size fills, the last perhaps in part. */
  lemma PagesCover(total: nat)
    ensures total <= 16 * Pages(total) < total + 16
  {
  }

  predicate Magic(buf: seq<uint8>)
    requires |buf| >= HEADER
  {
    buf[0] == 0x43 && buf[1] == 0x42 && buf[2] == 0x49
  }

  function ToBits8(s: seq<uint8>): seq<bv8>
  {
    seq(|s|, i requires 0 <= i < |s| => s[i] as bv8)
  }

  /** cbi_crc8: over everything after the CRC byte. */
  ghost function ImageCrc(buf: seq<uint8>): uint8
    requires HEADER <= |buf| && HEADER <= Total(buf) <= |buf|
  {
    Crc.Crc8(0, ToBits8(buf[4..Total(buf)])) as uint8
  }

  /** The image holds exactly the list es. */
  ghost predicate Image(buf: seq<uint8>, es: seq<Entry>)
  {
    && |buf| == EEPROM_SIZE && Sizes(es)
    && Total(buf) == HEADER + |Serialize(es)| <= EEPROM_SIZE
    && buf[HEADER..Total(buf)] == Serialize(es)
  }

  /** What do_read_board_info accepts. */
  ghost predicate Acceptable(buf: seq<uint8>)
  {
    && |buf| == EEPROM_SIZE && Magic(buf) && buf[5] == 0
    && HEADER <= Total(buf) <= EEPROM_SIZE
    && ImageCrc(buf) == buf[3]
  }

  /** The pages before the first one that fails have been written, and nothing else. */
  ghost predicate StopsAt(ram: seq<uint8>, before: seq<uint8>, after: seq<uint8>, pageOk: nat -> bool)
    requires |ram| == |before| == EEPROM_SIZE && Total(ram) <= EEPROM_SIZE
  {
    exists n: nat ::
      && n < Pages(Total(ram)) && PAGE * n <= EEPROM_SIZE
      && !pageOk(n) && (forall m :: 0 <= m < n ==> pageOk(m))
      && after == ram[..PAGE * n] + before[PAGE * n..]
  }

  /** What is accepted from the EEPROM holds distinct tags with non-empty values. */
  ghost predicate ReadsAsList(eeprom: seq<uint8>)
  {
    Acceptable(eeprom) ==> exists es :: Image(eeprom, es) && Good(es)
  }

  // ---------------------------------------------------------------------------
  // What the operations do to the bytes of any image.

  ghost predicate Sized(buf: seq<uint8>)
  {
    |buf| == EEPROM_SIZE && HEADER <= Total(buf) <= EEPROM_SIZE
  }

  function WithTotal(buf: seq<uint8>, n: nat): seq<uint8>
    requires |buf| == EEPROM_SIZE && n <= EEPROM_SIZE
  {
    buf[6 := (n % 0x100) as uint8][7 := (n / 0x100) as uint8]
  }

  /** The entry found at d ends within the list. */
  predicate EndsInside(buf: seq<uint8>, d: nat)
    requires |buf| >= HEADER && d + 1 < |buf|
  {
    d + 2 + buf[d + 1] as nat <= Total(buf)
  }

  /** cbi_remove_tag, on an entry that ends within the list. */
  function Removed(buf: seq<uint8>, d: nat): seq<uint8>
    requires |buf| == EEPROM_SIZE && HEADER <= d && d + 2 <= Total(buf) <= EEPROM_SIZE && EndsInside(buf, d)
  {
    var next, total := d + 2 + buf[d + 1] as nat, Total(buf);
    WithTotal(buf[..d] + buf[next..total] + buf[d + (total - next)..], total - (next - d))
  }

  function Appended(buf: seq<uint8>, tag: uint8, v: seq<uint8>): seq<uint8>
    requires |buf| == EEPROM_SIZE && |v| < 0x100 && Total(buf) + 2 + |v| <= EEPROM_SIZE
  {
    var total := Total(buf);
    WithTotal(buf[..total] + Bytes(Entry(tag, v)) + buf[total + 2 + |v|..], total + 2 + |v|)
  }

  function Overwritten(buf: seq<uint8>, d: nat, v: seq<uint8>): seq<uint8>
    requires d + 2 + |v| <= |buf|
  {
    buf[..d + 2] + v + buf[d + 2 + |v|..]
  }

  /** What comes of cbi_set_board_info. Outside is an access behind the buffer. */
  datatype Stored = Stored | Full | Outside

  function Add(buf: seq<uint8>, tag: uint8, v: seq<uint8>): (seq<uint8>, Stored)
    requires |buf| == EEPROM_SIZE && |v| < 0x100
  {
    if EEPROM_SIZE < Total(buf) + 2 + |v| then (buf, Full) else (Appended(buf, tag, v), Stored)
  }

  /** cbi_set_board_info on any image. */
  function Store1(buf: seq<uint8>, tag: uint8, v: seq<uint8>): (seq<uint8>, Stored)
    requires |buf| == EEPROM_SIZE && HEADER <= Total(buf) <= EEPROM_SIZE && |v| < 0x100
  {
    match Find(buf, Total(buf), HEADER, tag)
    case None => Add(buf, tag, v)
    case Some(d) =>
      if buf[d + 1] as nat == |v| then
        if EEPROM_SIZE < d + 2 + |v| then (buf, Outside) else (Overwritten(buf, d, v), Stored)
      else if !EndsInside(buf, d) then (buf, Outside)
      else Add(Removed(buf, d), tag, v)
  }

  /** Exactly when setting a value of n bytes leaves the buffer: an entry of another size that does
      not end within the list is to be removed, or one of that size that does not end within the
      buffer is to be overwritten. */
  predicate SetLeaves(buf: seq<uint8>, tag: uint8, n: nat)
    requires |buf| == EEPROM_SIZE && HEADER <= Total(buf) <= EEPROM_SIZE
  {
    match Find(buf, Total(buf), HEADER, tag)
    case None => false
    case Some(d) =>
      if buf[d + 1] as nat == n then EEPROM_SIZE < d + 2 + n else Total(buf) < d + 2 + buf[d + 1] as nat
  }

  /** Exactly when getting a value into a room of n bytes does. */
  predicate GetLeaves(buf: seq<uint8>, tag: uint8, n: nat)
    requires |buf| == EEPROM_SIZE && HEADER <= Total(buf) <= EEPROM_SIZE
  {
    match Find(buf, Total(buf), HEADER, tag)
    case None => false
    case Some(d) => buf[d + 1] as nat <= n && EEPROM_SIZE < d + 2 + buf[d + 1] as nat
  }

  lemma TotalOf(buf: seq<uint8>, n: nat)
    requires |buf| == EEPROM_SIZE && n <= EEPROM_SIZE
    ensures Total(WithTotal(buf, n)) == n && |WithTotal(buf, n)| == |buf|
    ensures forall i :: 0 <= i < |buf| && i != 6 && i != 7 ==> WithTotal(buf, n)[i] == buf[i]
  {
  }

  lemma RemovedBytes(buf: seq<uint8>, d: nat)
    requires |buf| == EEPROM_SIZE && HEADER <= d && d + 2 <= Total(buf) <= EEPROM_SIZE && EndsInside(buf, d)
    ensures (var after, size := Removed(buf, d), 2 + buf[d + 1] as nat;
             && Sized(after) && Total(after) == Total(buf) - size && after[..6] == buf[..6]
             && after[HEADER..d] == buf[HEADER..d] && after[d..Total(after)] == buf[d + size..Total(buf)])
  {
    var next, total := d + 2 + buf[d + 1] as nat, Total(buf);
    var moved := buf[..d] + buf[next..total] + buf[d + (total - next)..];
    TotalOf(moved, total - (next - d));
    hide Total, WithTotal;
    MovedBytes(buf, moved, Removed(buf, d), d, next, total);
  }

  lemma AppendedBytes(buf: seq<uint8>, tag: uint8, v: seq<uint8>)
    requires |buf| == EEPROM_SIZE && HEADER <= Total(buf) && |v| < 0x100 && Total(buf) + 2 + |v| <= EEPROM_SIZE
    ensures (var after := Appended(buf, tag, v);
             && Sized(after) && Total(after) == Total(buf) + 2 + |v| && after[..6] == buf[..6]
             && after[HEADER..Total(after)] == buf[HEADER..Total(buf)] + Bytes(Entry(tag, v)))
  {
    var total, b := Total(buf), Bytes(Entry(tag, v));
    var put := buf[..total] + b + buf[total + 2 + |v|..];
    TotalOf(put, total + 2 + |v|);
    hide Total, WithTotal, Bytes;
    var after := Appended(buf, tag, v);
    assert after[HEADER..total + |b|] == put[HEADER..total + |b|] == buf[HEADER..total] + b;
  }

  lemma OverwrittenSize(buf: seq<uint8>, d: nat, v: seq<uint8>)
    requires Sized(buf) && HEADER <= d && d + 2 + |v| <= EEPROM_SIZE
    ensures Sized(Overwritten(buf, d, v)) && Overwritten(buf, d, v)[..6] == buf[..6]
  {
  }

  /** Setting keeps the size in bounds and the rest of the header, whatever the image is. */
  lemma Store1Sized(buf: seq<uint8>, tag: uint8, v: seq<uint8>)
    requires Sized(buf) && |v| < 0x100
    ensures (var (after, r) := Store1(buf, tag, v);
             && Sized(after) && after[..6] == buf[..6]
             && (r == Outside <==> SetLeaves(buf, tag, |v|)) && (r == Outside ==> after == buf))
    ensures match Find(buf, Total(buf), HEADER, tag)
            case None =>
              && (Store1(buf, tag, v).1 == Outside <==> false)
              && (Store1(buf, tag, v).1 == Full <==> Total(buf) + 2 + |v| > 256)
            case Some(d) =>
              var size := buf[d + 1] as nat;
              && (Store1(buf, tag, v).1 == Outside <==>
                  if size == |v| then d + 2 + size > 256 else d + 2 + size > Total(buf))
              && (Store1(buf, tag, v).1 == Full <==>
                  size != |v| && d + 2 + size <= Total(buf) && Total(buf) - size + |v| > 256)
  {
    hide Removed, Appended, Overwritten;
    match Find(buf, Total(buf), HEADER, tag) {
      case None =>
        AddSized(buf, tag, v);
      case Some(d) =>
        if buf[d + 1] as nat == |v| {
          if d + 2 + |v| <= EEPROM_SIZE {
            OverwrittenSize(buf, d, v);
          }
        } else if EndsInside(buf, d) {
          RemovedBytes(buf, d);
          AddSized(Removed(buf, d), tag, v);
        }
    }
  }

  lemma AddSized(buf: seq<uint8>, tag: uint8, v: seq<uint8>)
    requires Sized(buf) && |v| < 0x100
    ensures (var (after, r) := Add(buf, tag, v); Sized(after) && after[..6] == buf[..6] && r != Outside)
    ensures Add(buf, tag, v).1 == Full <==> Total(buf) + 2 + |v| > 256
  {
    hide Appended;
    if Total(buf) + 2 + |v| <= EEPROM_SIZE {
      AppendedBytes(buf, tag, v);
    }
  }

  // ---------------------------------------------------------------------------
  // On images that are lists.

  lemma AppendedImage(buf: seq<uint8>, es: seq<Entry>, tag: uint8, v: seq<uint8>)
    requires Image(buf, es) && |v| < 0x100 && Total(buf) + 2 + |v| <= EEPROM_SIZE
    ensures Image(Appended(buf, tag, v), es + [Entry(tag, v)])
  {
    AppendedBytes(buf, tag, v);
    SerializeConcat(es, [Entry(tag, v)]);
    SerializeOne(Entry(tag, v));
    hide Serialize, Appended, Bytes;
    assert Sizes(es + [Entry(tag, v)]);
  }

  /** Where the scan finds a tag of a list of non-empty values, and the entry there. */
  lemma FindInImage(buf: seq<uint8>, es: seq<Entry>, tag: uint8)
    requires Image(buf, es) && Good(es)
    ensures match Position(es, tag)
            case None => Find(buf, Total(buf), HEADER, tag) == None
            case Some(k) =>
              var d := HEADER + |Serialize(es[..k])|;
              && Find(buf, Total(buf), HEADER, tag) == Some(d) && EndsInside(buf, d)
              && buf[d + 1] as nat == |es[k].value|
              && buf[d + 2..d + 2 + buf[d + 1] as nat] == es[k].value
  {
    hide Serialize;
    FindIsPosition(buf, Total(buf), HEADER, es, tag);
    EntryBytes(buf, es, tag);
  }

  ghost predicate Refines(buf: seq<uint8>, es: seq<Entry>, tag: uint8, v: seq<uint8>)
    requires Sized(buf) && |v| < 0x100 && Sizes(es)
  {
    var (after, r) := Store1(buf, tag, v);
    var (fs, ok) := Set(es, tag, v, ROOM);
    Image(after, fs) && r == if ok then Stored else Full
  }

  /** On a list of distinct tags with non-empty values, setting a non-empty value does to the image
      what it does to the list, and never leaves the buffer. */
  lemma Store1RefinesSet(buf: seq<uint8>, es: seq<Entry>, tag: uint8, v: seq<uint8>)
    requires Image(buf, es) && Good(es) && 0 < |v| < 0x100
    ensures (var (after, r) := Store1(buf, tag, v); var (fs, ok) := Set(es, tag, v, ROOM);
             Image(after, fs) && Good(fs) && r == if ok then Stored else Full)
  {
    SetIsMapUpdate(es, tag, v, ROOM);
    hide Serialize, Find, Image, Good, Store1, Set;
    match Position(es, tag) {
      case None => AbsentRefines(buf, es, tag, v);
      case Some(k) =>
        if |es[k].value| == |v| { SameSizeRefines(buf, es, tag, v, k); } else { OtherSizeRefines(buf, es, tag, v, k); }
    }
  }

  lemma AbsentRefines(buf: seq<uint8>, es: seq<Entry>, tag: uint8, v: seq<uint8>)
    requires Image(buf, es) && Good(es) && 0 < |v| < 0x100 && Position(es, tag) == None
    ensures Refines(buf, es, tag, v)
  {
    FindInImage(buf, es, tag);
    hide Serialize, Find, Good, Add;
    AddRefines(buf, es, tag, v);
  }

  lemma SameSizeRefines(buf: seq<uint8>, es: seq<Entry>, tag: uint8, v: seq<uint8>, k: nat)
    requires Image(buf, es) && Good(es) && 0 < |v| < 0x100 && Position(es, tag) == Some(k) && |es[k].value| == |v|
    ensures Refines(buf, es, tag, v)
  {
    FindInImage(buf, es, tag);
    OverwriteRefines(buf, es, k, v);
    hide Serialize, Find, Good, Overwritten, Add, Removed, Image, Bytes;
    assert Store1(buf, tag, v) == (Overwritten(buf, HEADER + |Serialize(es[..k])|, v), Stored);
    hide Store1;
    assert Set(es, tag, v, ROOM) == (es[k := Entry(tag, v)], true);
  }

  lemma OtherSizeRefines(buf: seq<uint8>, es: seq<Entry>, tag: uint8, v: seq<uint8>, k: nat)
    requires Image(buf, es) && Good(es) && 0 < |v| < 0x100 && Position(es, tag) == Some(k) && |es[k].value| != |v|
    ensures Refines(buf, es, tag, v)
  {
    FindInImage(buf, es, tag);
    hide Serialize, Find, Good, Removed, Add;
    RemoveRefines(buf, es, k);
    AddRefines(Removed(buf, HEADER + |Serialize(es[..k])|), Without(es, k), tag, v);
  }

  lemma OverwriteRefines(buf: seq<uint8>, es: seq<Entry>, k: nat, v: seq<uint8>)
    requires Image(buf, es) && Good(es) && k < |es| && Position(es, es[k].tag) == Some(k) && |v| == |es[k].value|
    ensures (var d := HEADER + |Serialize(es[..k])|;
             d + 2 + |v| <= EEPROM_SIZE && Image(Overwritten(buf, d, v), es[k := Entry(es[k].tag, v)]))
  {
    EntryBytes(buf, es, es[k].tag);
    hide Serialize, Bytes;
    OverwrittenImage(buf, Overwritten(buf, HEADER + |Serialize(es[..k])|, v), es, k, v);
  }

  lemma RemoveRefines(buf: seq<uint8>, es: seq<Entry>, k: nat)
    requires Image(buf, es) && Good(es) && k < |es| && Position(es, es[k].tag) == Some(k)
    ensures (var d := HEADER + |Serialize(es[..k])|;
             d + 2 <= Total(buf) && EndsInside(buf, d) && Image(Removed(buf, d), Without(es, k)))
  {
    EntryBytes(buf, es, es[k].tag);
    hide Serialize, Bytes, Removed;
    var d := HEADER + |Serialize(es[..k])|;
    RemovedBytes(buf, d);
    RemovedImage(buf, Removed(buf, d), es, k);
  }

  lemma AddRefines(buf: seq<uint8>, es: seq<Entry>, tag: uint8, v: seq<uint8>)
    requires Image(buf, es) && |v| < 0x100
    ensures (var (after, r) := Add(buf, tag, v);
             && Sizes(es)
             && if ROOM < |Serialize(es)| + 2 + |v| then after == buf && r == Full
                else r == Stored && Image(after, es + [Entry(tag, v)]))
  {
    hide Serialize, Appended;
    if Total(buf) + 2 + |v| <= EEPROM_SIZE {
      AppendedImage(buf, es, tag, v);
    }
  }

  /** On such a list, getting a value finds what the lookup does, and never leaves the buffer. */
  lemma ValueInImage(buf: seq<uint8>, es: seq<Entry>, tag: uint8, n: nat)
    requires Image(buf, es) && Good(es)
    ensures !GetLeaves(buf, tag, n)
    ensures match Find(buf, Total(buf), HEADER, tag)
            case None => Lookup(es, tag) == None
            case Some(d) => EndsInside(buf, d) && Lookup(es, tag) == Some(buf[d + 2..d + 2 + buf[d + 1] as nat])
  {
    hide Serialize, Find;
    FindInImage(buf, es, tag);
    hide Image, Good;
  }

  // ---------------------------------------------------------------------------
  // An image that is no list.

  /** One entry up to offset 250, and behind it the head of one of 200 bytes. */
  ghost function BrokenBody(crc: uint8): (buf: seq<uint8>)
    ensures |buf| == EEPROM_SIZE
  {
    seq(EEPROM_SIZE, i requires 0 <= i < EEPROM_SIZE =>
      if i == 0 then 0x43 else if i == 1 then 0x42 else if i == 2 then 0x49 else if i == 3 then crc
      else if i == 7 then 1 else if i == HEADER then 3 else if i == HEADER + 1 then 240
      else if i == 250 then 4 else if i == 251 then 200 else 0)
  }

  /** With its CRC right, it is accepted; its second entry is found; and to get it, or to set it to a
      value of 4 bytes, leaves the buffer. */
  lemma BrokenImage() returns (buf: seq<uint8>)
    ensures Acceptable(buf) && Find(buf, Total(buf), HEADER, 4) == Some(250)
    ensures GetLeaves(buf, 4, 255) && SetLeaves(buf, 4, 4)
  {
    hide BrokenBody, Find, ImageCrc;
    var blank := BrokenBody(0);
    BrokenBytes(0);
    buf := BrokenBody(ImageCrc(blank));
    BrokenBytes(ImageCrc(blank));
    BrokenAlike(0, ImageCrc(blank));
    CrcIgnoresItself(blank, buf);
    FindStep(buf, EEPROM_SIZE, HEADER, 4);
    FindStep(buf, EEPROM_SIZE, 250, 4);
  }

  lemma BrokenBytes(crc: uint8)
    ensures (var buf := BrokenBody(crc);
             && Magic(buf) && buf[3] == crc && buf[5] == 0 && Total(buf) == EEPROM_SIZE
             && buf[HEADER] == 3 && buf[HEADER + 1] == 240 && buf[250] == 4 && buf[251] == 200)
  {
  }

  lemma BrokenAlike(a: uint8, b: uint8)
    ensures forall i :: 0 <= i < EEPROM_SIZE && i != 3 ==> BrokenBody(a)[i] == BrokenBody(b)[i]
  {
  }

  lemma FindStep(buf: seq<uint8>, total: nat, p: nat, tag: uint8)
    requires p + 2 < total <= |buf|
    ensures Find(buf, total, p, tag)
         == if buf[p] == tag then Some(p) else Find(buf, total, p + 2 + buf[p + 1] as nat, tag)
  {
  }

  // ---------------------------------------------------------------------------
  // What is accepted.

  /** An image is accepted exactly if it begins with "CBI", has major version 0 and a size from 8 to
      256, and if the bytes from offset 4 to that size, with the byte at 3 behind them, have CRC 0. */
  lemma AcceptableExactly(buf: seq<uint8>)
    requires |buf| == 256
    ensures (var t := buf[6] as nat + 0x100 * buf[7] as nat;
             Acceptable(buf) <==>
             && buf[0] == 0x43 && buf[1] == 0x42 && buf[2] == 0x49 && buf[5] == 0 && 8 <= t <= 256
             && Crc.Crc8(0, ToBits8(buf[4..t] + [buf[3]])) == 0)
  {
    if 8 <= Total(buf) <= 256 {
      CrcCloses(buf);
    }
    hide ImageCrc, ToBits8;
  }

  lemma CrcCloses(buf: seq<uint8>)
    requires |buf| == 256 && 8 <= Total(buf) <= 256
    ensures ImageCrc(buf) == buf[3] <==> Crc.Crc8(0, ToBits8(buf[4..Total(buf)] + [buf[3]])) == 0
  {
    var s := buf[4..Total(buf)];
    BytesAppend(s, buf[3]);
    hide ToBits8;
    SameByte(Crc.Crc8(0, ToBits8(s)), buf[3]);
    Crc.ZeroMeansCrc(0, ToBits8(s), buf[3] as bv8);
  }

  lemma BytesAppend(s: seq<uint8>, x: uint8)
    ensures ToBits8(s + [x]) == ToBits8(s) + [x as bv8]
  {
  }

  lemma SameByte(c: bv8, x: uint8)
    ensures c as uint8 == x <==> x as bv8 == c
  {
    ByteThere(c);
    ByteBack(x);
  }

  lemma ByteThere(c: bv8)
    ensures (c as uint8) as bv8 == c
  {
  }

  lemma ByteBack(x: uint8)
    ensures (x as bv8) as uint8 == x
  {
    ByteNumbers.NumberBack(x as nat);
  }

  lemma BytesUpdate(s: seq<uint8>, k: nat, x: uint8)
    requires k < |s|
    ensures ToBits8(s[k := x]) == ToBits8(s)[k := x as bv8]
  {
  }

  /** An accepted image with any one byte changed, up to its size and other than in its size, is not
      accepted: neither its list nor its header may be damaged. */
  lemma OneByteIsRefused(buf: seq<uint8>, k: nat, x: uint8)
    requires Acceptable(buf) && k < Total(buf) && k != 6 && k != 7 && x != buf[k]
    ensures !Acceptable(buf[k := x])
  {
    hide ToBits8;
    var t := Total(buf);
    var bad := buf[k := x];
    assert Total(bad) == t;
    if k >= 4 && k != 5 {
      assert bad[4..t] == buf[4..t][k - 4 := x];
      BytesUpdate(buf[4..t], k - 4, x);
      ByteBack(x);
      ByteBack(buf[k]);
      BytesAt(buf[4..t], k - 4);
      Crc.OneByteIsCaught(0, ToBits8(buf[4..t]), k - 4, x as bv8);
      ByteThere(Crc.Crc8(0, ToBits8(buf[4..t])));
      ByteThere(Crc.Crc8(0, ToBits8(bad[4..t])));
    } else {
      assert bad[4..t] == buf[4..t] || k == 5;
    }
  }

  lemma BytesAt(s: seq<uint8>, k: nat)
    requires k < |s|
    ensures |ToBits8(s)| == |s| && ToBits8(s)[k] == s[k] as bv8
  {
  }

  /** A whole image, byte by byte: tag 0 with the one byte 1. */
  lemma SmallImageIsAcceptable(buf: seq<uint8>)
    requires |buf| == 256 && buf[..11] == [0x43, 0x42, 0x49, 0xAD, 0, 0, 11, 0, 0, 1, 1]
    ensures Acceptable(buf) && Image(buf, [Entry(0, [1])])
  {
    assert forall i :: 0 <= i < 11 ==> buf[i] == buf[..11][i];
    var s := buf[4..11];
    assert s == [0, 0, 11, 0, 0, 1, 1];
    SerializeOne(Entry(0, [1]));
    assert buf[8..11] == [0, 1, 1];
    hide ImageCrc;
    assert ImageCrc(buf) == 0xAD by { SmallCrc(buf); }
  }

  lemma SmallCrc(buf: seq<uint8>)
    requires |buf| == 256 && Total(buf) == 11 && buf[4..11] == [0, 0, 11, 0, 0, 1, 1]
    ensures ImageCrc(buf) == 0xAD
  {
    SmallBits();
    Crc.SevenBytes(ToBits8(buf[4..11]));
  }

  lemma SmallBits()
    ensures ToBits8([0, 0, 11, 0, 0, 1, 1]) == [0, 0, 11, 0, 0, 1, 1]
  {
  }

  // ---------------------------------------------------------------------------
  // Lemmas about images.

  /** The CRC byte is not part of what the CRC covers. */
  lemma CrcIgnoresItself(a: seq<uint8>, b: seq<uint8>)
    requires |a| == |b| >= HEADER && HEADER <= Total(a) <= |a|
    requires forall i :: 0 <= i < |a| && i != 3 ==> a[i] == b[i]
    ensures Total(a) == Total(b) && ImageCrc(a) == ImageCrc(b)
  {
    assert a[4..Total(a)] == b[4..Total(b)];
  }

  lemma CrcOfPrefix(a: seq<uint8>, b: seq<uint8>)
    requires |a| == |b| >= HEADER && HEADER <= Total(a) <= |a|
    requires a[..Total(a)] == b[..Total(a)]
    ensures Total(a) == Total(b) && ImageCrc(a) == ImageCrc(b)
  {
    var t := Total(a);
    assert a[6] == a[..t][6] && a[7] == a[..t][7] && b[6] == b[..t][6] && b[7] == b[..t][7];
    assert a[4..t] == a[..t][4..] && b[4..t] == b[..t][4..];
  }

  /** Where the bytes of the entry with a tag lie. */
  lemma EntryBytes(buf: seq<uint8>, es: seq<Entry>, tag: uint8)
    requires Image(buf, es)
    ensures match Position(es, tag)
            case None => true
            case Some(k) =>
              var d := HEADER + |Serialize(es[..k])|;
              && d + 2 + |es[k].value| <= Total(buf)
              && buf[d..d + 2 + |es[k].value|] == Bytes(es[k])
              && buf[d + 1] as nat == |es[k].value| && buf[d + 2..d + 2 + |es[k].value|] == es[k].value
              && buf[d + 2 + |es[k].value|..Total(buf)] == Serialize(es[k + 1..])
              && buf[HEADER..d] == Serialize(es[..k])
  {
    match Position(es, tag) {
      case None =>
      case Some(k) =>
        SerializeAt(es, k);
        var a, b, c := Serialize(es[..k]), Bytes(es[k]), Serialize(es[k + 1..]);
        var d := HEADER + |a|;
        hide Serialize;
        Cut(buf, HEADER, Total(buf), a, b, c);
        assert buf[d..d + |b|][1] == buf[d + 1] && buf[d..d + |b|][2..] == buf[d + 2..d + |b|];
    }
  }

  lemma MovedBytes(before: seq<uint8>, moved: seq<uint8>, after: seq<uint8>, d: nat, next: nat, total: nat)
    requires HEADER <= d <= next <= total <= |before|
    requires moved == before[..d] + before[next..total] + before[d + total - next..]
    requires |after| == |moved| && forall i :: 0 <= i < |after| && i != 6 && i != 7 ==> after[i] == moved[i]
    ensures after[..6] == before[..6] && after[HEADER..d] == before[HEADER..d]
    ensures after[d..d + total - next] == before[next..total]
  {
  }

  lemma RemovedImage(before: seq<uint8>, after: seq<uint8>, es: seq<Entry>, k: nat)
    requires Image(before, es) && k < |es| && Position(es, es[k].tag) == Some(k) && |after| == EEPROM_SIZE
    requires (var d, size := HEADER + |Serialize(es[..k])|, 2 + |es[k].value|;
              && d + size <= Total(before) && Total(after) == Total(before) - size
              && after[HEADER..d] == before[HEADER..d] && after[d..Total(after)] == before[d + size..Total(before)])
    ensures Image(after, Without(es, k))
  {
    EntryBytes(before, es, es[k].tag);
    SerializeConcat(es[..k], es[k + 1..]);
    hide Serialize, Bytes, Position;
    var d, size := HEADER + |Serialize(es[..k])|, 2 + |es[k].value|;
    Joined(after, HEADER, d, Total(after));
    assert |before[d + size..Total(before)]| == Total(before) - (d + size);
    hide Total;
  }

  lemma Joined(s: seq<uint8>, lo: nat, mid: nat, hi: nat)
    requires lo <= mid <= hi <= |s|
    ensures s[lo..hi] == s[lo..mid] + s[mid..hi]
  {
  }

  lemma OverwrittenBytes(before: seq<uint8>, after: seq<uint8>, d: nat, e: nat, total: nat, v: seq<uint8>)
    requires HEADER <= d && d + 2 + |v| == e <= total <= |before| == |after|
    requires after == before[..d + 2] + v + before[e..]
    ensures Total(after) == Total(before) && after[..6] == before[..6]
    ensures after[HEADER..total] == before[HEADER..d] + (before[d..d + 2] + v) + before[e..total]
  {
  }

  lemma SameHead(e: Entry, v: seq<uint8>)
    requires |v| == |e.value| < 0x100
    ensures Bytes(Entry(e.tag, v)) == Bytes(e)[..2] + v
  {
  }

  lemma OverwrittenImage(before: seq<uint8>, after: seq<uint8>, es: seq<Entry>, k: nat, v: seq<uint8>)
    requires Image(before, es) && k < |es| && Position(es, es[k].tag) == Some(k)
    requires |v| == |es[k].value|
    requires (var d := HEADER + |Serialize(es[..k])|; var e := d + 2 + |v|;
              e <= Total(before) && after == before[..d + 2] + v + before[e..])
    ensures Image(after, es[k := Entry(es[k].tag, v)]) && after[..6] == before[..6]
  {
    EntryBytes(before, es, es[k].tag);
    var a, b, c := Serialize(es[..k]), Bytes(es[k]), Serialize(es[k + 1..]);
    var d := HEADER + |a|;
    var e, total := d + 2 + |v|, Total(before);
    assert b == before[d..e] && a == before[HEADER..d] && c == before[e..total] && total <= |before|;
    UpdatedSerialize(es, k, v);
    hide Serialize, Bytes, Position, Good;
    OverwrittenBytes(before, after, d, e, total, v);
    FirstTwo(before, d, e);
    assert after[HEADER..total] == a + (b[..2] + v) + c;
    hide Total;
  }

  lemma FirstTwo(s: seq<uint8>, d: nat, e: nat)
    requires d + 2 <= e <= |s|
    ensures s[d..d + 2] == s[d..e][..2]
  {
  }

  lemma UpdatedSerialize(es: seq<Entry>, k: nat, v: seq<uint8>)
    requires Sizes(es) && k < |es| && |v| == |es[k].value|
    ensures (var fs := es[k := Entry(es[k].tag, v)];
             && Sizes(fs) && |Serialize(fs)| == |Serialize(es)|
             && Serialize(fs) == Serialize(es[..k]) + (Bytes(es[k])[..2] + v) + Serialize(es[k + 1..]))
  {
    var fs := es[k := Entry(es[k].tag, v)];
    SerializeAt(es, k);
    SerializeAt(fs, k);
    SameHead(es[k], v);
    hide Serialize, Bytes;
    assert fs[..k] == es[..k] && fs[k + 1..] == es[k + 1..];
  }

  lemma Cut(buf: seq<uint8>, lo: nat, hi: nat, a: seq<uint8>, b: seq<uint8>, c: seq<uint8>)
    requires lo <= hi <= |buf| && buf[lo..hi] == a + b + c
    ensures lo + |a| + |b| <= hi && buf[lo..lo + |a|] == a
    ensures buf[lo + |a|..lo + |a| + |b|] == b && buf[lo + |a| + |b|..hi] == c
  {
    var s := buf[lo..hi];
    var m, n := |a|, |a| + |b|;
    assert |s| == n + |c|;
    assert s[..m] == a && s[m..n] == b && s[n..] == c;
    assert buf[lo..lo + m] == s[..m];
    var mid := buf[lo + m..lo + n];
    forall i | 0 <= i < |mid| ensures mid[i] == b[i] {
      assert mid[i] == buf[lo + m + i] == s[m + i];
    }
    assert buf[lo + n..hi] == s[n..];
  }

  lemma MagicKept(a: seq<uint8>, b: seq<uint8>, n: nat)
    requires 3 <= n <= HEADER <= |a| && HEADER <= |b| && a[..n] == b[..n] && Magic(a)
    ensures Magic(b)
  {
    assert forall i :: 0 <= i < 3 ==> a[i] == a[..n][i] && b[i] == b[..n][i];
  }

  lemma EmptyIsGood()
    ensures Good([])
  {
  }

  lemma ImageOfPrefix(a: seq<uint8>, b: seq<uint8>, es: seq<Entry>)
    requires Image(a, es) && |b| == EEPROM_SIZE && Total(b) == Total(a) && b[..Total(a)] == a[..Total(a)]
    ensures Image(b, es)
  {
    hide Serialize;
    var t := Total(a);
    assert a[HEADER..t] == a[..t][HEADER..] && b[HEADER..t] == b[..t][HEADER..];
  }

  /** What the page writes leave in the EEPROM is accepted, whatever the image is. */
  lemma WrittenAcceptable(ram: seq<uint8>, before: seq<uint8>, after: seq<uint8>)
    requires Sized(ram) && Magic(ram) && ram[5] == 0 && ram[3] == ImageCrc(ram)
    requires |before| == EEPROM_SIZE && after == ram[..Total(ram)] + before[Total(ram)..]
    ensures Acceptable(after) && Total(after) == Total(ram) && after[..Total(ram)] == ram[..Total(ram)]
  {
    hide ImageCrc;
    var t := Total(ram);
    assert forall i :: 0 <= i < HEADER ==> after[i] == ram[i];
    assert after[..t] == ram[..t];
    CrcOfPrefix(ram, after);
  }

  /** And it holds the same list. */
  lemma WrittenImage(ram: seq<uint8>, before: seq<uint8>, after: seq<uint8>, es: seq<Entry>)
    requires Image(ram, es) && Magic(ram) && ram[5] == 0 && ram[3] == ImageCrc(ram)
    requires |before| == EEPROM_SIZE && after == ram[..Total(ram)] + before[Total(ram)..]
    ensures Acceptable(after) && Image(after, es)
  {
    WrittenAcceptable(ram, before, after);
    ImageOfPrefix(ram, after, es);
  }

  lemma ImageIsUnique(buf: seq<uint8>, es: seq<Entry>, fs: seq<Entry>)
    requires Image(buf, es) && Image(buf, fs)
    ensures es == fs
  {
    SerializeInjective(es, fs);
  }
}
