/** Base 32: decode undoes encode, separators do not matter, one wrong symbol is always caught. */
module Base32Laws {
  import opened BitOps
  import opened BitStrings
  import opened Extrema
  import opened Options
  import opened Base32Spec

  // ---------------------------------------------------------------------------
  // The symbol alphabet.

  /** The position of a character in MAP, in closed form. */
  function ClosedForm(c: char): int
  {
    var n := c as int;
    if n < 'A' as int then n - '2' as int + 24
    else if n < 'I' as int then n - 'A' as int
    else if n < 'O' as int then n - 'A' as int - 1
    else n - 'A' as int - 2
  }

  lemma ClosedFormInverts(k: nat)
    requires k < 32
    ensures ClosedForm(Letter(k)) == k && !Skipped(Letter(k)) && Letter(k) != '\0'
  {
  }

  lemma MapIsInjective(j: nat, k: nat)
    requires j < 32 && k < 32 && Letter(j) == Letter(k)
    ensures j == k
  {
    ClosedFormInverts(j);
    ClosedFormInverts(k);
  }

  lemma DecodeSymInverts(k: nat)
    requires k < 32
    ensures DecodeSym(Letter(k)) == k && !Skipped(Letter(k))
  {
    ClosedFormInverts(k);
    var r := DecodeSym(Letter(k));
    assert r != -1;
    MapIsInjective(r, k);
  }

  // ---------------------------------------------------------------------------
  // Separators.

  /** A string without its spaces and dashes. */
  function Strip(s: string): string
  {
    if s == [] then [] else if Skipped(s[0]) then Strip(s[1..]) else [s[0]] + Strip(s[1..])
  }

  /** Only the symbols matter: strings that differ in spaces and dashes decode alike. */
  lemma {:induction false} SeparatorsDoNotMatter(s: string, every: nat, limit: nat, crc: nat, count: nat,
                                             out: seq<bool>)
    requires |out| <= limit
    ensures Decode(s, every, limit, crc, count, out) == Decode(Strip(s), every, limit, crc, count, out)
    decreases |s|
  {
    if s != [] {
      if Skipped(s[0]) {
        SeparatorsDoNotMatter(s[1..], every, limit, crc, count, out);
      } else {
        assert Strip(s)[0] == s[0] && Strip(s)[1..] == Strip(s[1..]);
        var sym := DecodeSym(s[0]);
        if sym < 0 {
        } else if every != 0 && count == every {
          SeparatorsDoNotMatter(s[1..], every, limit, 0, 0, out);
        } else if |out| < limit {
          var crc', count' := if every != 0 then Crc5Sym(sym, crc) else crc, if every != 0 then count + 1 else count;
          SeparatorsDoNotMatter(s[1..], every, limit, crc', count', out + ToBits(sym, 5)[..Min(5, limit - |out|)]);
        }
      }
    }
  }

  // ---------------------------------------------------------------------------
  // Round trip.

  /** The bits padded with zeros to a whole number of symbols. */
  function Padded(bits: seq<bool>): (p: seq<bool>)
    ensures |p| == 5 * SymbolCount(|bits|)
    decreases |bits|
  {
    if bits == [] then [] else Group(bits) + Padded(Rest(bits))
  }

  lemma {:induction false} PaddedExtends(bits: seq<bool>)
    ensures |bits| <= |Padded(bits)| && Padded(bits)[..|bits|] == bits
    decreases |bits|
  {
    if bits != [] {
      PaddedExtends(Rest(bits));
      if |bits| >= 5 {
        assert bits == bits[..5] + bits[5..];
      }
    }
  }

  /** What decoding an encoded string yields from a given state on: all the padded bits up to
      the limit; but with CRCs on, a limit that falls before the last symbol gives nothing. */
  function Expected(bits: seq<bool>, every: nat, limit: nat, out: seq<bool>): Option<seq<bool>>
    requires |out| <= limit
  {
    if every != 0 && bits != [] && limit <= |out| + 5 * (SymbolCount(|bits|) - 1) then None
    else
      var all := out + Padded(bits);
      Some(all[..Min(limit, |all|)])
  }

  /** Whether the symbols complete their CRC group. */
  ghost predicate WholeGroups(n: nat, every: nat, count: nat)
  {
    every == 0 || (count < every && (count + SymbolCount(n)) % every == 0)
  }

  /** How decode takes a data symbol. */
  lemma DecodeSymbol(sym: nat, rest: string, every: nat, limit: nat, crc: nat, count: nat, out: seq<bool>)
    requires sym < 32 && |out| <= limit && (every == 0 || count < every)
    ensures (var crc', count' := if every != 0 then Crc5Sym(sym, crc) else crc, if every != 0 then count + 1 else count;
             Decode([Letter(sym)] + rest, every, limit, crc, count, out)
             == if |out| == limit then Finish(every, count', out)
                else Decode(rest, every, limit, crc', count', out + ToBits(sym, 5)[..Min(5, limit - |out|)]))
  {
    hide Crc5Sym, DecodeSym, ToBits;
    DecodeSymInverts(sym);
    assert ([Letter(sym)] + rest)[1..] == rest;
  }

  /** How decode takes a matching check symbol. */
  lemma DecodeCheck(rest: string, every: nat, limit: nat, crc: nat, out: seq<bool>)
    requires crc < 32 && |out| <= limit && every != 0
    ensures Decode([Letter(crc)] + rest, every, limit, crc, every, out) == Decode(rest, every, limit, 0, 0, out)
  {
    hide Crc5Sym, DecodeSym, ToBits;
    DecodeSymInverts(crc);
    assert ([Letter(crc)] + rest)[1..] == rest;
  }

  lemma SymbolBits(bits: seq<bool>)
    ensures ToBits(Symbol(bits), 5) == Group(bits)
  {
    ToFromBits(Group(bits));
  }

  /** Taking one group leaves the expectation as it was. */
  lemma ExpectedStep(bits: seq<bool>, every: nat, limit: nat, out: seq<bool>)
    requires |out| < limit && bits != []
    ensures (var out' := out + Group(bits)[..Min(5, limit - |out|)];
             |out'| <= limit && Expected(bits, every, limit, out) == Expected(Rest(bits), every, limit, out'))
  {
    var k := Min(5, limit - |out|);
    var out' := out + Group(bits)[..k];
    var rest := Rest(bits);
    assert SymbolCount(|rest|) == SymbolCount(|bits|) - 1;
    assert out + Padded(bits) == out + Group(bits) + Padded(rest);
    if k == 5 {
      assert Group(bits)[..5] == Group(bits);
    } else {
      assert (out + Padded(bits))[..limit] == out';
      assert (out' + Padded(rest))[..limit] == out';
    }
  }

  /** The CRC state after a symbol and, at the end of a group, its check symbol. */
  function NextCrc(sym: nat, every: nat, crc: nat, count: nat): (c: nat)
    requires sym < 32 && crc < 32
    ensures c < 32
  {
    CrcBound(sym, crc);
    if every == 0 then crc else if count + 1 == every then 0 else Crc5Sym(sym, crc)
  }

  function NextCount(every: nat, count: nat): nat
  {
    if every == 0 then count else if count + 1 == every then 0 else count + 1
  }

  lemma WholeGroupsStep(bits: seq<bool>, every: nat, count: nat)
    requires bits != [] && WholeGroups(|bits|, every, count)
    ensures every != 0 ==> count < every
    ensures WholeGroups(|Rest(bits)|, every, NextCount(every, count))
  {
    var n := SymbolCount(|Rest(bits)|);
    assert n == SymbolCount(|bits|) - 1;
    if every != 0 && count + 1 == every {
      var q := (every + n) / every;
      assert n == every * (q - 1);
      ModUnique(n, every, q - 1, 0);
    }
  }

  /** What encode emits after the first symbol. */
  function Tail(bits: seq<bool>, every: nat, crc: nat, count: nat): string
    requires bits != [] && crc < 32
  {
    CrcBound(Symbol(bits), crc);
    (if every != 0 && count + 1 == every then [Letter(Crc5Sym(Symbol(bits), crc))] else [])
    + Encode(Rest(bits), every, NextCrc(Symbol(bits), every, crc, count), NextCount(every, count))
  }

  lemma EncodeUnfolds(bits: seq<bool>, every: nat, crc: nat, count: nat)
    requires bits != [] && crc < 32
    ensures Encode(bits, every, crc, count) == [Letter(Symbol(bits))] + Tail(bits, every, crc, count)
  {
    hide Crc5Sym, Symbol, Letter;
  }

  lemma ExpectedAtLimit(bits: seq<bool>, every: nat, limit: nat, out: seq<bool>)
    requires |out| == limit && (every != 0 ==> bits != [])
    ensures Expected(bits, every, limit, out) == if every == 0 then Some(out) else None
  {
    assert (out + Padded(bits))[..limit] == out;
  }

  /** Decode takes the first symbol of an encoded string, and its check symbol if one follows. */
  lemma DecodeGroupStep(bits: seq<bool>, every: nat, limit: nat, crc: nat, count: nat, out: seq<bool>)
    requires bits != [] && |out| < limit && crc < 32 && (every != 0 ==> count < every)
    ensures (var out' := out + Group(bits)[..Min(5, limit - |out|)];
             var c, n := NextCrc(Symbol(bits), every, crc, count), NextCount(every, count);
             Decode(Encode(bits, every, crc, count), every, limit, crc, count, out)
             == Decode(Encode(Rest(bits), every, c, n), every, limit, c, n, out'))
  {
    hide Crc5Sym, ToBits, Symbol, Decode, Encode, Group;
    EncodeUnfolds(bits, every, crc, count);
    DecodeSymbol(Symbol(bits), Tail(bits, every, crc, count), every, limit, crc, count, out);
    SymbolBits(bits);
    if every != 0 && count + 1 == every {
      CrcBound(Symbol(bits), crc);
      DecodeCheck(Encode(Rest(bits), every, 0, 0), every, limit, Crc5Sym(Symbol(bits), crc),
                  out + Group(bits)[..Min(5, limit - |out|)]);
    } else {
      var next := Encode(Rest(bits), every, NextCrc(Symbol(bits), every, crc, count), NextCount(every, count));
      assert Tail(bits, every, crc, count) == [] + next == next;
    }
  }

  /** From any state between symbols, decoding what encode emits gives what is expected. */
  lemma {:induction false} DecodeEncode(bits: seq<bool>, every: nat, limit: nat, crc: nat, count: nat, out: seq<bool>)
    requires |out| <= limit && crc < 32 && WholeGroups(|bits|, every, count)
    ensures Decode(Encode(bits, every, crc, count), every, limit, crc, count, out) == Expected(bits, every, limit, out)
    decreases |bits|
  {
    if bits == [] {
      DecodeEmpty(every, limit, crc, count, out);
      assert out + [] == out;
    } else {
      hide Crc5Sym, ToBits, Symbol, Decode, Expected, Encode, Group, WholeGroups, NextCrc;
      WholeGroupsStep(bits, every, count);
      if |out| == limit {
        EncodeUnfolds(bits, every, crc, count);
        DecodeSymbol(Symbol(bits), Tail(bits, every, crc, count), every, limit, crc, count, out);
        ExpectedAtLimit(bits, every, limit, out);
      } else {
        DecodeGroupStep(bits, every, limit, crc, count, out);
        ExpectedStep(bits, every, limit, out);
        DecodeEncode(Rest(bits), every, limit, NextCrc(Symbol(bits), every, crc, count), NextCount(every, count),
                     out + Group(bits)[..Min(5, limit - |out|)]);
      }
    }
  }

  lemma DecodeEmpty(every: nat, limit: nat, crc: nat, count: nat, out: seq<bool>)
    requires |out| <= limit && WholeGroups(0, every, count)
    ensures Decode([], every, limit, crc, count, out) == Some(out)
  {
    if every != 0 {
      ModUnique(count, every, 0, count);
    }
  }

  /** An encoded string is made of letters only: no separator, no NUL. */
  lemma {:induction false} EncodedIsClean(bits: seq<bool>, every: nat, crc: nat, count: nat)
    requires crc < 32
    ensures Strip(Encode(bits, every, crc, count)) == Encode(bits, every, crc, count)
    ensures '\0' !in Encode(bits, every, crc, count)
    decreases |bits|
  {
    hide Letter, Crc5Sym, Symbol, Skipped, Encode, Strip;
    if bits == [] {
      EncodeNothing(every, crc, count);
    } else {
      EncodeUnfolds(bits, every, crc, count);
      CrcBound(Symbol(bits), crc);
      var next := Encode(Rest(bits), every, NextCrc(Symbol(bits), every, crc, count), NextCount(every, count));
      EncodedIsClean(Rest(bits), every, NextCrc(Symbol(bits), every, crc, count), NextCount(every, count));
      if every != 0 && count + 1 == every {
        StripLetter(Crc5Sym(Symbol(bits), crc), next);
      } else {
        assert Tail(bits, every, crc, count) == [] + next == next;
      }
      StripLetter(Symbol(bits), Tail(bits, every, crc, count));
    }
  }

  lemma EncodeNothing(every: nat, crc: nat, count: nat)
    requires crc < 32
    ensures Encode([], every, crc, count) == [] && Strip([]) == []
  {
  }

  lemma StripLetter(sym: nat, s: string)
    requires sym < 32
    ensures Strip([Letter(sym)] + s) == [Letter(sym)] + Strip(s) && Letter(sym) != '\0'
  {
    ClosedFormInverts(sym);
    hide Letter, Skipped;
    assert ([Letter(sym)] + s)[1..] == s;
  }

  /** Decode undoes encode: with room for exactly the encoded bits, any string that encode
      produced, with separators put in anywhere, gives back the bits. */
  lemma RoundTrip(bits: seq<bool>, every: nat, s: string)
    requires every == 0 || SymbolCount(|bits|) % every == 0
    requires Strip(s) == Encode(bits, every, 0, 0)
    ensures Decode(s, every, |bits|, 0, 0, []) == Some(bits)
  {
    SeparatorsDoNotMatter(s, every, |bits|, 0, 0, []);
    DecodeEncode(bits, every, |bits|, 0, 0, []);
    PaddedExtends(bits);
    assert [] + Padded(bits) == Padded(bits);
  }

  /** The same for every room: what exactly comes back. */
  lemma RoundTripAnyLimit(bits: seq<bool>, every: nat, limit: nat, s: string)
    requires every == 0 || SymbolCount(|bits|) % every == 0
    requires Strip(s) == Encode(bits, every, 0, 0)
    ensures Decode(s, every, limit, 0, 0, []) == Expected(bits, every, limit, [])
  {
    SeparatorsDoNotMatter(s, every, limit, 0, 0, []);
    DecodeEncode(bits, every, limit, 0, 0, []);
  }

  // ---------------------------------------------------------------------------
  // Error detection.

  /** Inside a group, two different CRCs so far cannot both lead to success. */
  lemma {:induction false} DifferentCrcsDiverge(s: string, every: nat, limit: nat, c: nat, d: nat, count: nat,
                                             out: seq<bool>, out': seq<bool>)
    requires every != 0 && 0 < count <= every && c < 32 && d < 32 && c != d && |out| <= limit && |out'| <= limit
    requires Decode(s, every, limit, c, count, out).Some?
    ensures Decode(s, every, limit, d, count, out') == None
    decreases |s|
  {
    hide Crc5Sym, DecodeSym, ToBits;
    if s == [] {
    } else if Skipped(s[0]) {
      DifferentCrcsDiverge(s[1..], every, limit, c, d, count, out, out');
    } else {
      var sym := DecodeSym(s[0]);
      SymRange(s[0]);
      if 0 <= sym && count < every && |out| < limit && |out'| < limit {
        CrcSeparates(sym, c, sym, d);
        CrcBound(sym, c);
        CrcBound(sym, d);
        DifferentCrcsDiverge(s[1..], every, limit, Crc5Sym(sym, c), Crc5Sym(sym, d), count + 1,
                             out + ToBits(sym, 5)[..Min(5, limit - |out|)],
                                   out' + ToBits(sym, 5)[..Min(5, limit - |out'|)]);
      }
    }
  }

  lemma SymRange(c: char)
    ensures -1 <= DecodeSym(c) < 32
  {
  }

  lemma SymsDiffer(c: char, d: char)
    requires c != d && DecodeSym(c) >= 0
    ensures DecodeSym(d) != DecodeSym(c)
  {
  }

  /** With CRCs on, changing one symbol of a string that decodes makes it not decode. (A NUL would
      end the string instead.) */
  lemma {:induction false} OneWrongSymbolIsCaught(s: string, i: nat, c: char, every: nat, limit: nat, crc: nat,
        count: nat, out: seq<bool>)
    requires every != 0 && count <= every && crc < 32 && |out| <= limit
    requires i < |s| && !Skipped(s[i]) && !Skipped(c) && c != s[i] && c != '\0'
    requires Decode(s, every, limit, crc, count, out).Some?
    ensures Decode(s[i := c], every, limit, crc, count, out) == None
    decreases |s|
  {
    hide Crc5Sym, DecodeSym, ToBits;
    var t := s[i := c];
    SymRange(s[0]);
    var sym := DecodeSym(s[0]);
    if i > 0 {
      assert t[0] == s[0] && t[1..] == s[1..][i - 1 := c];
      if Skipped(s[0]) {
        OneWrongSymbolIsCaught(s[1..], i - 1, c, every, limit, crc, count, out);
      } else if count == every {
        OneWrongSymbolIsCaught(s[1..], i - 1, c, every, limit, 0, 0, out);
      } else if |out| < limit {
        CrcBound(sym, crc);
        OneWrongSymbolIsCaught(s[1..], i - 1, c, every, limit, Crc5Sym(sym, crc), count + 1,
                               out + ToBits(sym, 5)[..Min(5, limit - |out|)]);
      }
    } else {
      assert t[0] == c && t[1..] == s[1..];
      SymsDiffer(s[0], c);
      SymRange(c);
      var bad := DecodeSym(c);
      if 0 <= bad && count < every && |out| < limit {
        CrcSeparates(sym, crc, bad, crc);
        CrcBound(sym, crc);
        CrcBound(bad, crc);
        DifferentCrcsDiverge(s[1..], every, limit, Crc5Sym(sym, crc), Crc5Sym(bad, crc), count + 1,
                             out + ToBits(sym, 5)[..Min(5, limit - |out|)],
                                   out + ToBits(bad, 5)[..Min(5, limit - |out|)]);
      }
    }
  }

  // ---------------------------------------------------------------------------
  // What an encoded string consists of.

  /** The alphabet: A to Z without I and O, then 2 to 9, in this order. */
  lemma AlphabetIs(k: nat)
    requires k < 32
    ensures Letter(k) as int == if k < 8 then 65 + k else if k < 13 then 66 + k else if k < 24 then 67 + k else 26 + k
  {
    if k < 16 { AlphabetLow(k); } else { AlphabetHigh(k); }
  }

  lemma AlphabetLow(k: nat)
    requires k < 16
    ensures Letter(k) as int == if k < 8 then 65 + k else if k < 13 then 66 + k else 67 + k
  {
  }

  lemma AlphabetHigh(k: nat)
    requires 16 <= k < 32
    ensures Letter(k) as int == if k < 24 then 67 + k else 26 + k
  {
  }

  /** Blanks, tabs, line ends and dashes are passed over. */
  lemma SeparatorsAre(c: char)
    ensures Skipped(c) <==> c as int in {9, 10, 13, 32, 45}
  {
  }

  /** The number that five bits are. */
  function FiveValue(bits: seq<bool>): (x: nat)
    requires |bits| == 5
    ensures x < 32
  {
    ToFromBits(bits);
    Pow2Of5();
    FromBits(bits)
  }

  function CrcAfter(sym: nat, crc: nat): (c: nat)
    requires sym < 32 && crc < 32
    ensures c < 32
  {
    CrcBound(sym, crc);
    Crc5Sym(sym, crc)
  }

  /** The letters of whole groups of five bits, first bit highest. */
  function Letters(bits: seq<bool>): (s: string)
    requires |bits| % 5 == 0
    decreases |bits|
  {
    if bits == [] then [] else [Letter(FiveValue(bits[..5]))] + Letters(bits[5..])
  }

  lemma {:induction false} LettersAt(bits: seq<bool>, k: nat)
    requires |bits| % 5 == 0 && 5 * k < |bits|
    ensures |Letters(bits)| == |bits| / 5 && FromBits(bits[5 * k..5 * k + 5]) < 32
    ensures Letters(bits)[k] == Letter(FromBits(bits[5 * k..5 * k + 5]))
    decreases |bits|
  {
    hide Letter, FromBits;
    ToFromBits(bits[5 * k..5 * k + 5]);
    Pow2Of5();
    if |bits| == 5 {
      assert bits[5..] == [];
      assert bits[..5] == bits[0..5];
    } else if k == 0 {
      LettersAt(bits[5..], 0);
      assert bits[..5] == bits[0..5];
    } else {
      LettersAt(bits[5..], k - 1);
      assert bits[5..][5 * (k - 1)..5 * (k - 1) + 5] == bits[5 * k..5 * k + 5];
    }
  }

  /** The CRC after whole groups of five bits. */
  function CrcOver(bits: seq<bool>, crc: nat): (c: nat)
    requires |bits| % 5 == 0 && crc < 32
    ensures c < 32
    decreases |bits|
  {
    if bits == [] then crc else CrcOver(bits[5..], CrcAfter(FiveValue(bits[..5]), crc))
  }

  /** What follows n symbols of a group whose CRC is c. */
  function Following(rest: seq<bool>, every: nat, c: nat, n: nat): string
    requires c < 32
  {
    if every != 0 && n == every then [Letter(c)] + Encode(rest, every, 0, 0) else Encode(rest, every, c, n)
  }

  lemma OneGroup(all: seq<bool>, tail: seq<bool>, sym: nat, every: nat, crc: nat, count: nat)
    requires all != [] && Symbol(all) == sym && Rest(all) == tail && crc < 32
    ensures sym < 32
    ensures Encode(all, every, crc, count)
         == [Letter(sym)] + if every == 0 then Following(tail, 0, crc, count)
                            else Following(tail, every, CrcAfter(sym, crc), count + 1)
  {
    CrcBound(sym, crc);
    hide Letter, Crc5Sym, Symbol, Rest;
  }

  lemma FirstOfGroup(bits: seq<bool>, rest: seq<bool>)
    requires |bits| >= 5
    ensures Symbol(bits + rest) == FiveValue(bits[..5]) && Rest(bits + rest) == bits[5..] + rest
  {
    hide FromBits;
    var all := bits + rest;
    assert all[..5] == bits[..5] && all[5..] == bits[5..] + rest;
  }

  lemma LettersStep(bits: seq<bool>, crc: nat)
    requires |bits| % 5 == 0 && bits != [] && crc < 32
    ensures Letters(bits) == [Letter(FiveValue(bits[..5]))] + Letters(bits[5..])
    ensures CrcOver(bits, crc) == CrcOver(bits[5..], CrcAfter(FiveValue(bits[..5]), crc))
    ensures Letters([]) == [] && CrcOver([], crc) == crc
  {
  }

  lemma {:induction false} EncodeFollows(bits: seq<bool>, rest: seq<bool>, every: nat, crc: nat, count: nat)
    requires |bits| % 5 == 0 && bits != [] && crc < 32 && (every != 0 ==> count + |bits| / 5 <= every)
    ensures Encode(bits + rest, every, crc, count)
         == Letters(bits) + if every == 0 then Following(rest, 0, crc, count)
                            else Following(rest, every, CrcOver(bits, crc), count + |bits| / 5)
    decreases |bits|
  {
    hide Letter, Letters, CrcOver, CrcAfter, FiveValue, Encode, Following, Symbol, Rest;
    var sym, tail := FiveValue(bits[..5]), bits[5..];
    FirstOfGroup(bits, rest);
    OneGroup(bits + rest, tail + rest, sym, every, crc, count);
    LettersStep(bits, crc);
    LettersStep(bits, CrcAfter(sym, crc));
    if |bits| == 5 {
      assert tail == [] && tail + rest == rest;
    } else {
      var c, n := if every == 0 then crc else CrcAfter(sym, crc), if every == 0 then count else count + 1;
      EncodeFollows(tail, rest, every, c, n);
      NotYet(tail + rest, every, c, n);
      var end := if every == 0 then Following(rest, 0, crc, count)
                 else Following(rest, every, CrcOver(bits, crc), count + |bits| / 5);
      assert [Letter(sym)] + (Letters(tail) + end) == Letters(bits) + end;
    }
  }

  lemma NotYet(rest: seq<bool>, every: nat, c: nat, n: nat)
    requires c < 32 && (every != 0 ==> n < every)
    ensures Following(rest, every, c, n) == Encode(rest, every, c, n)
  {
  }

  /** The first symbols of an encoding, up to the end of their CRC group: their letters; then, at the
      end of the group, the letter of the CRC over all of it; and a new group begins with CRC 0. */
  lemma EncodeGroup(bits: seq<bool>, rest: seq<bool>, every: nat, crc: nat, count: nat)
    requires |bits| % 5 == 0 && bits != [] && crc < 32 && (every != 0 ==> count + |bits| / 5 <= every)
    ensures Encode(bits + rest, every, crc, count)
         == Letters(bits) + if every == 0 then Encode(rest, every, crc, count)
                            else if count + |bits| / 5 == every then
                              [Letter(CrcOver(bits, crc))] + Encode(rest, every, 0, 0)
                            else Encode(rest, every, CrcOver(bits, crc), count + |bits| / 5)
  {
    hide Letter, Letters, CrcOver, Encode;
    EncodeFollows(bits, rest, every, crc, count);
  }

  /** The bits 00001, in groups of one symbol. */
  lemma OneIsBQ()
    ensures Encode([false, false, false, false, true], 1, 0, 0) == "BQ"
  {
    hide Letters, CrcOver;
    var bits := [false, false, false, false, true];
    assert FromBits(bits) == 1 by { OneBitValue(); }
    assert bits[..5] == bits && bits + [] == bits && bits[5..] == [];
    assert FiveValue(bits) == 1;
    hide FromBits, FiveValue, Encode;
    LettersStep(bits, 0);
    LettersStep(bits, 14);
    EncodeGroup(bits, [], 1, 0, 0);
    EncodeNothing(1, 0, 0);
    CrcOfOne();
    assert CrcAfter(1, 0) == 14;
    hide CrcAfter, Letter;
    AlphabetIs(1);
    AlphabetIs(14);
  }

  lemma OneBitValue()
    ensures FromBits([false, false, false, false, true]) == 1
  {
    assert ToBits(1, 5) == [false, false, false, false, true];
    Pow2Of5();
    FromToBits(1, 5);
  }

  lemma CrcOfOne()
    ensures Crc5Sym(1, 0) == 14
  {
    hide Xor, Divide5x8, Crc5Sym;
    XorZero(1);
    XorSwaps();
    Crc5IsDivision(1, 0);
    Divide5x8From0();
  }

  lemma XorSwaps()
    ensures Xor(1, 0) == 1
  {
    assert Xor(0, 0) == 0;
  }

  // ---------------------------------------------------------------------------
  // Only encodings decode.

  lemma DecodeSymIs(c: char)
    requires DecodeSym(c) >= 0
    ensures DecodeSym(c) < 32 && Letter(DecodeSym(c)) == c
  {
  }

  /** A string that decodes with room for all its bits is the encoding of these bits, but for
      separators; in the state behind a full group, of the check symbol and the rest. */
  lemma {:induction false} DecodedIsEncoded(s: string, every: nat, limit: nat, crc: nat, count: nat, out: seq<bool>)
    returns (more: seq<bool>)
    requires crc < 32 && (every != 0 ==> count <= every) && |out| + 5 * |s| <= limit
    requires Decode(s, every, limit, crc, count, out).Some?
    ensures Decode(s, every, limit, crc, count, out) == Some(out + more) && |more| % 5 == 0
    ensures Strip(s) == if every != 0 && count == every then [Letter(crc)] + Encode(more, every, 0, 0)
                        else Encode(more, every, crc, count)
    decreases |s|
  {
    hide Letter, DecodeSym, Crc5Sym, ToBits, Encode, Skipped, Symbol, Rest;
    if s == [] {
      more := [];
      assert out + more == out;
      EncodeNothing(every, crc, count);
    } else if Skipped(s[0]) {
      more := DecodedIsEncoded(s[1..], every, limit, crc, count, out);
    } else {
      var sym := DecodeSym(s[0]);
      DecodeSymIs(s[0]);
      if every != 0 && count == every {
        more := DecodedIsEncoded(s[1..], every, limit, 0, 0, out);
      } else {
        CrcBound(sym, crc);
        var c, n := if every == 0 then crc else CrcAfter(sym, crc), if every == 0 then count else count + 1;
        var bits := ToBits(sym, 5);
        assert bits[..5] == bits;
        var tail := DecodedIsEncoded(s[1..], every, limit, c, n, out + bits);
        more := bits + tail;
        assert out + bits + tail == out + more;
        GroupOf(sym, tail);
        OneGroup(more, tail, sym, every, crc, count);
      }
    }
  }

  lemma GroupOf(sym: nat, tail: seq<bool>)
    requires sym < 32
    ensures Symbol(ToBits(sym, 5) + tail) == sym && Rest(ToBits(sym, 5) + tail) == tail
  {
    hide ToBits, FromBits;
    Pow2Of5();
    FromToBits(sym, 5);
    var bits := ToBits(sym, 5);
    assert (bits + tail)[..5] == bits && (bits + tail)[5..] == tail;
  }

  /** Encode undoes decode: a string that decodes is, but for separators, what its bits encode to. */
  lemma EncodeUndoesDecode(s: string, every: nat, limit: nat, bits: seq<bool>)
    requires 5 * |s| <= limit && Decode(s, every, limit, 0, 0, []) == Some(bits)
    ensures Encode(bits, every, 0, 0) == Strip(s)
  {
    hide Encode, Decode, Strip;
    var more := DecodedIsEncoded(s, every, limit, 0, 0, []);
    assert [] + more == more;
  }
}
