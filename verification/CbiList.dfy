/** The tag/size/value list inside a CBI image, as a sequence of entries and as a lookup table. */
module CbiList {
  import opened MachineInts
  import opened Options

  datatype Entry = Entry(tag: uint8, value: seq<uint8>)

  function Bytes(e: Entry): (b: seq<uint8>)
    requires |e.value| < 0x100
    ensures |b| == 2 + |e.value|
  {
    [e.tag, |e.value| as uint8] + e.value
  }

  ghost predicate Sizes(es: seq<Entry>)
  {
    forall i :: 0 <= i < |es| ==> |es[i].value| < 0x100
  }

  ghost predicate NonEmpty(es: seq<Entry>)
  {
    forall i :: 0 <= i < |es| ==> 0 < |es[i].value|
  }

  ghost predicate Distinct(es: seq<Entry>)
  {
    forall i, j :: 0 <= i < j < |es| ==> es[i].tag != es[j].tag
  }

  ghost function Serialize(es: seq<Entry>): seq<uint8>
    requires Sizes(es)
  {
    if es == [] then [] else Bytes(es[0]) + Serialize(es[1..])
  }

  lemma {:induction false} SerializeConcat(a: seq<Entry>, b: seq<Entry>)
    requires Sizes(a) && Sizes(b)
    ensures Sizes(a + b) && Serialize(a + b) == Serialize(a) + Serialize(b)
  {
    hide Bytes;
    if a == [] {
      assert a + b == b;
    } else {
      SerializeConcat(a[1..], b);
      assert (a + b)[1..] == a[1..] + b && (a + b)[0] == a[0];
    }
  }

  lemma SerializeOne(e: Entry)
    requires |e.value| < 0x100
    ensures Serialize([e]) == Bytes(e)
  {
    assert [e][1..] == [];
  }

  /** The list cut at entry k. */
  lemma {:induction false} SerializeAt(es: seq<Entry>, k: nat)
    requires Sizes(es) && k < |es|
    ensures Serialize(es) == Serialize(es[..k]) + Bytes(es[k]) + Serialize(es[k + 1..])
  {
    hide Bytes;
    if k == 0 {
      assert es[..0] == [];
    } else {
      var t := es[1..];
      SerializeAt(t, k - 1);
      assert es[..k][1..] == t[..k - 1] && es[k + 1..] == t[k..] && es[..k][0] == es[0];
    }
  }

  lemma SerializeEmpty(es: seq<Entry>)
    requires Sizes(es)
    ensures Serialize(es) == [] <==> es == []
  {
  }

  /** The bytes determine the list. */
  lemma {:induction false} SerializeInjective(es: seq<Entry>, fs: seq<Entry>)
    requires Sizes(es) && Sizes(fs) && Serialize(es) == Serialize(fs)
    ensures es == fs
  {
    if es != [] && fs != [] {
      var s := Serialize(es);
      assert s[0] == es[0].tag == fs[0].tag && s[1] as nat == |es[0].value| == |fs[0].value|;
      var n := |es[0].value|;
      assert s[2..2 + n] == es[0].value && s[2..2 + n] == fs[0].value;
      assert s[2 + n..] == Serialize(es[1..]) && s[2 + n..] == Serialize(fs[1..]);
      SerializeInjective(es[1..], fs[1..]);
    }
  }

  /** The first entry with the tag. */
  ghost function Position(es: seq<Entry>, tag: uint8): (r: Option<nat>)
    ensures r.Some? ==> r.value < |es| && es[r.value].tag == tag
    ensures r.Some? ==> forall i :: 0 <= i < r.value ==> es[i].tag != tag
    ensures r.None? ==> forall i :: 0 <= i < |es| ==> es[i].tag != tag
  {
    if es == [] then None
    else if es[0].tag == tag then Some(0)
    else match Position(es[1..], tag) case None => None case Some(k) => Some(k + 1)
  }

  ghost function Lookup(es: seq<Entry>, tag: uint8): Option<seq<uint8>>
  {
    match Position(es, tag) case None => None case Some(k) => Some(es[k].value)
  }

  /** cbi_find_tag: the scan from offset p; it stops at `total` and needs more than a bare
      tag and size before it. */
  function Find(buf: seq<uint8>, total: nat, p: nat, tag: uint8): (d: Option<nat>)
    requires total <= |buf|
    ensures d.Some? ==> p <= d.value && d.value + 2 < total && buf[d.value] == tag
    decreases total - p
  {
    if p + 2 < total then
      if buf[p] == tag then Some(p) else Find(buf, total, p + 2 + buf[p + 1] as nat, tag)
    else None
  }

  /** The scan finds the first entry with the tag, unless that is the last entry and empty. */
  lemma {:induction false} FindIsPosition(buf: seq<uint8>, total: nat, p: nat, es: seq<Entry>, tag: uint8)
    requires p <= total <= |buf| && Sizes(es) && buf[p..total] == Serialize(es)
    ensures match Position(es, tag)
            case None => Find(buf, total, p, tag) == None
            case Some(k) =>
              if k == |es| - 1 && es[k].value == [] then Find(buf, total, p, tag) == None
              else Find(buf, total, p, tag) == Some(p + |Serialize(es[..k])|)
    decreases |es|
  {
    if es != [] {
      var rest := es[1..];
      var q := p + 2 + |es[0].value|;
      assert buf[p..total][0] == es[0].tag && buf[p..total][1] as nat == |es[0].value|;
      assert buf[p..total] == Bytes(es[0]) + Serialize(rest);
      assert buf[q..total] == buf[p..total][q - p..] == Serialize(rest);
      if es[0].tag != tag {
        FindIsPosition(buf, total, q, rest, tag);
        if p + 2 < total {
          match Position(rest, tag) {
            case None =>
            case Some(k) => assert es[..k + 1][1..] == rest[..k];
          }
        } else {
          SerializeEmpty(rest);
        }
      } else {
        assert es[..0] == [];
        if p + 2 == total {
          SerializeEmpty(rest);
        }
      }
    }
  }

  /** An empty value stored last is not found again: the scan's strict bound skips it. */
  lemma EmptyLastEntryIsLost(tag: uint8)
    ensures Find(Serialize([Entry(tag, [])]), 2, 0, tag) == None && Lookup([Entry(tag, [])], tag) == Some([])
  {
    SerializeOne(Entry(tag, []));
  }

  // ---------------------------------------------------------------------------
  // Setting a tag.

  function Without(es: seq<Entry>, k: nat): seq<Entry>
    requires k < |es|
  {
    es[..k] + es[k + 1..]
  }

  /** cbi_set_board_info on entries: a value of the old size is overwritten in place; otherwise
      the old entry goes away and the new one is appended if the room lasts. */
  ghost function Set(es: seq<Entry>, tag: uint8, v: seq<uint8>, room: nat): (seq<Entry>, bool)
    requires Sizes(es)
  {
    var pos := Position(es, tag);
    if pos.Some? && |es[pos.value].value| == |v| then (es[pos.value := Entry(tag, v)], true)
    else
      var rest := if pos.Some? then Without(es, pos.value) else es;
      if room < |Serialize(rest)| + 2 + |v| then (rest, false) else (rest + [Entry(tag, v)], true)
  }

  ghost predicate Good(es: seq<Entry>)
  {
    Sizes(es) && NonEmpty(es) && Distinct(es)
  }

  /** In a list of distinct tags, the lookup of an entry is its value. */
  lemma LookupOf(es: seq<Entry>, k: nat)
    requires Distinct(es) && k < |es|
    ensures Lookup(es, es[k].tag) == Some(es[k].value)
  {
    var p := Position(es, es[k].tag);
    assert p.Some?;
  }

  lemma LookupNone(es: seq<Entry>, tag: uint8)
    requires forall i :: 0 <= i < |es| ==> es[i].tag != tag
    ensures Lookup(es, tag) == None
  {
  }

  /** Two lists that agree on which values go with a tag look it up alike. */
  lemma LookupSame(es: seq<Entry>, fs: seq<Entry>, tag: uint8)
    requires Distinct(es) && Distinct(fs)
    requires forall i :: 0 <= i < |es| && es[i].tag == tag ==> es[i] in fs
    requires forall i :: 0 <= i < |fs| && fs[i].tag == tag ==> fs[i] in es
    ensures Lookup(es, tag) == Lookup(fs, tag)
  {
    match Position(es, tag) {
      case Some(k) =>
        var j :| 0 <= j < |fs| && fs[j] == es[k];
        LookupOf(fs, j);
      case None =>
        if Position(fs, tag).Some? {
          assert false;
        }
    }
  }

  /** Overwriting entry k. */
  lemma Replacing(es: seq<Entry>, k: nat, v: seq<uint8>)
    requires Good(es) && k < |es| && 0 < |v| < 0x100
    ensures (var fs := es[k := Entry(es[k].tag, v)];
             && Good(fs) && Lookup(fs, es[k].tag) == Some(v)
             && forall t :: t != es[k].tag ==> Lookup(fs, t) == Lookup(es, t))
  {
    var fs := es[k := Entry(es[k].tag, v)];
    assert Distinct(fs);
    LookupOf(fs, k);
    forall t | t != es[k].tag ensures Lookup(fs, t) == Lookup(es, t) {
      assert forall i :: 0 <= i < |es| && i != k ==> fs[i] == es[i];
      LookupSame(es, fs, t);
    }
  }

  /** Removing entry k. */
  lemma Removing(es: seq<Entry>, k: nat)
    requires Good(es) && k < |es|
    ensures (var fs := Without(es, k);
             && Good(fs) && Lookup(fs, es[k].tag) == None
             && forall t :: t != es[k].tag ==> Lookup(fs, t) == Lookup(es, t))
  {
    var fs := Without(es, k);
    assert forall i :: 0 <= i < |fs| ==> fs[i] == es[if i < k then i else i + 1];
    LookupNone(fs, es[k].tag);
    forall t | t != es[k].tag ensures Lookup(fs, t) == Lookup(es, t) {
      forall i | 0 <= i < |es| && es[i].tag == t ensures es[i] in fs {
        assert fs[if i < k then i else i - 1] == es[i];
      }
      LookupSame(es, fs, t);
    }
  }

  /** Appending an entry with a new tag. */
  lemma Appending(es: seq<Entry>, e: Entry)
    requires Good(es) && 0 < |e.value| < 0x100 && Lookup(es, e.tag) == None
    ensures (var fs := es + [e];
             && Good(fs) && Lookup(fs, e.tag) == Some(e.value)
             && forall t :: t != e.tag ==> Lookup(fs, t) == Lookup(es, t))
  {
    var fs := es + [e];
    assert Distinct(fs);
    LookupOf(fs, |es|);
    forall t | t != e.tag ensures Lookup(fs, t) == Lookup(es, t) {
      forall i | 0 <= i < |es| && es[i].tag == t ensures es[i] in fs {
        assert fs[i] == es[i];
      }
      LookupSame(es, fs, t);
    }
  }

  /** Set then get returns the value, or nothing if the room did not last; no other tag changes,
      even then; and the list stays good. */
  lemma SetIsMapUpdate(es: seq<Entry>, tag: uint8, v: seq<uint8>, room: nat)
    requires Good(es) && 0 < |v| < 0x100
    ensures (var (fs, ok) := Set(es, tag, v, room);
             && Good(fs)
             && Lookup(fs, tag) == (if ok then Some(v) else None)
             && (forall t :: t != tag ==> Lookup(fs, t) == Lookup(es, t)))
  {
    hide Serialize, Bytes, NonEmpty, Distinct;
    var pos := Position(es, tag);
    var rest := if pos.Some? then Without(es, pos.value) else es;
    if pos.Some? {
      Replacing(es, pos.value, v);
      Removing(es, pos.value);
    }
    Appending(rest, Entry(tag, v));
  }
}
