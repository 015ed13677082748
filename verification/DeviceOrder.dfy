/**
 The order of the libpcap device list, from pcap/inet.c: figures of merit, stable
 insertion, and what the head of the list says.
 */
module DeviceOrder {
  datatype Flags = Flags(loopback: bool, up: bool, running: bool)

  datatype Entry = Entry(name: string, flags: Flags)

  // ------------------------------------------------------------ figure of merit

  predicate IsDigit(c: char) { '0' <= c <= '9' }

  // atoi: the value of the leading digits.
  function Atoi(s: string, value: nat): nat
    decreases |s|
  {
    if s == "" || !IsDigit(s[0]) then value else Atoi(s[1..], 10 * value + (s[0] - '0') as nat)
  }

  const NUMERALS := "0123456789"

  // The ten numerals, and no other character, are read as their values.
  lemma Numerals(d: nat, c: char, value: nat)
    ensures d < 10 ==> Atoi([NUMERALS[d]], value) == 10 * value + d
    ensures c !in NUMERALS ==> Atoi([c], value) == value
  {
    if d < 10 {
      var s := [NUMERALS[d]];
      assert Atoi(s, value) == Atoi(s[1..], 10 * value + d);
    }
    if '0' <= c <= '9' {
      assert c in {'0', '1', '2', '3', '4', '5', '6', '7', '8', '9'};
      assert c == NUMERALS[(c - '0') as int];
    }
  }

  // Where the run of digits in front of position i starts.
  function RunStart(name: string, i: nat): (r: nat)
    requires i <= |name|
    ensures r <= i && (forall j :: r <= j < i ==> IsDigit(name[j])) && (r > 0 ==> !IsDigit(name[r - 1]))
  {
    if i > 0 && IsDigit(name[i - 1]) then RunStart(name, i - 1) else i
  }

  const ANY_UNIT := 0x1FFF_FFFF

  // The unit number that get_figure_of_merit takes from a name.
  function Unit(name: string): nat
    requires name != ""
  {
    if name == "any" then ANY_UNIT
    else
      var cp := RunStart(name, |name| - 1);
      if IsDigit(name[cp]) then Atoi(name[cp..], 0) else 0
  }

  // n |= bit, for a power of two.
  function OrBit(n: nat, bit: nat): nat
    requires bit > 0
  {
    if n / bit % 2 == 1 then n else n + bit
  }

  function Pack(unit: nat, f: Flags): nat {
    var a := if !f.running then OrBit(unit, 0x8000_0000) else unit;
    var b := if !f.up then OrBit(a, 0x4000_0000) else a;
    if f.loopback then OrBit(b, 0x2000_0000) else b
  }

  function Merit(e: Entry): nat
    requires e.name != ""
  {
    Pack(Unit(e.name), e.flags)
  }

  // static u_int get_figure_of_merit(pcap_if_t *dev)
  method GetFigureOfMerit(e: Entry) returns (n: nat)
    requires e.name != ""
    ensures n == Merit(e)
  {
    if e.name == "any" {
      n := 0x1FFF_FFFF;
    } else {
      var cp := |e.name| - 1;
      while cp - 1 >= 0 && IsDigit(e.name[cp - 1])
        invariant 0 <= cp < |e.name| && RunStart(e.name, cp) == RunStart(e.name, |e.name| - 1)
      {
        cp := cp - 1;
      }
      if IsDigit(e.name[cp]) {
        n := Atoi(e.name[cp..], 0);
      } else {
        n := 0;
      }
    }
    if !e.flags.running {
      n := OrBit(n, 0x8000_0000);
    }
    if !e.flags.up {
      n := OrBit(n, 0x4000_0000);
    }
    if e.flags.loopback {
      n := OrBit(n, 0x2000_0000);
    }
  }

  // The documented unit: the number at the end of the name.
  function DocumentedUnit(name: string): nat
    requires name != ""
  {
    if name == "any" then ANY_UNIT else Atoi(name[RunStart(name, |name|)..], 0)
  }

  // The code also takes a number that is followed by one more character. So it
  // agrees with the documentation exactly for "any", for names that end in a
  // digit, and for those where the number before the last character is zero.
  lemma UnitAsDocumented(name: string)
    requires name != ""
    ensures var last := |name| - 1; var cp := RunStart(name, last);
      Unit(name) == DocumentedUnit(name) <==>
        name == "any" || IsDigit(name[last]) || Atoi(name[cp..last], 0) == 0
  {
    if name != "any" {
      PlainUnit(name);
    }
  }

  // A name for which it does not: the number in front of the last letter is taken.
  lemma NumberBeforeLetter()
    ensures Unit("eth1a") == 1 && DocumentedUnit("eth1a") == 0
  {
    var name := "eth1a";
    assert RunStart(name, 3) == 3;
    assert RunStart(name, 4) == 3;
    assert !IsDigit(name[4]);
    PlainUnit(name);
    assert name[3..4] == "1";
    assert Atoi("1", 0) == Atoi("1"[1..], 1) == 1;
  }

  lemma PlainUnit(name: string)
    requires name != "" && name != "any"
    ensures var last := |name| - 1; var cp := RunStart(name, last);
      if IsDigit(name[last]) then
        Unit(name) == DocumentedUnit(name)
      else
        Unit(name) == Atoi(name[cp..last], 0) && DocumentedUnit(name) == 0
  {
    var last := |name| - 1;
    var cp := RunStart(name, last);
    assert Unit(name) == if IsDigit(name[cp]) then Atoi(name[cp..], 0) else 0;
    assert DocumentedUnit(name) == Atoi(name[RunStart(name, |name|)..], 0);
    hide Unit, DocumentedUnit, Atoi;
    if IsDigit(name[last]) {
      assert RunStart(name, |name|) == cp;
    } else {
      assert RunStart(name, |name|) == |name| && name[|name|..] == "";
      AtoiOfNothing();
      hide RunStart;
      AtoiBefore(name, cp, last);
    }
  }

  lemma AtoiOfNothing()
    ensures Atoi("", 0) == 0
  {
  }

  lemma AtoiBefore(name: string, i: nat, last: nat)
    requires i <= last < |name| && !IsDigit(name[last])
    ensures Atoi(name[i..], 0) == Atoi(name[i..last], 0)
    ensures !IsDigit(name[i]) ==> Atoi(name[i..last], 0) == 0
  {
    AtoiStops(name[i..], last - i, 0);
    assert name[i..][..last - i] == name[i..last];
    if !IsDigit(name[i]) {
      assert i == last || name[i..last][0] == name[i];
    }
  }

  lemma {:induction false} AtoiStops(s: string, k: nat, value: nat)
    requires k < |s| && !IsDigit(s[k])
    ensures Atoi(s, value) == Atoi(s[..k], value)
    decreases |s|
  {
    if k > 0 && IsDigit(s[0]) {
      AtoiStops(s[1..], k - 1, 10 * value + (s[0] - '0') as nat);
      assert s[1..][..k - 1] == s[..k][1..];
    }
  }

  function Rank(b: bool): nat { if b then 1 else 0 }

  // Not running, then not up, then loopback, then the unit number.
  predicate Better(u: nat, f: Flags, v: nat, g: Flags) {
    if f.running != g.running then f.running
    else if f.up != g.up then f.up
    else if f.loopback != g.loopback then g.loopback
    else u < v
  }

  lemma PackIs(u: nat, f: Flags)
    requires u < 0x2000_0000
    ensures Pack(u, f) == u + 0x8000_0000 * Rank(!f.running) + 0x4000_0000 * Rank(!f.up) + 0x2000_0000 * Rank(f.loopback)
  {
  }

  // The packed integers are ordered as the tuples are.
  lemma PackedOrder(u: nat, f: Flags, v: nat, g: Flags)
    requires u < 0x2000_0000 && v < 0x2000_0000
    ensures Pack(u, f) < Pack(v, g) <==> Better(u, f, v, g)
    ensures Pack(u, f) == Pack(v, g) <==> u == v && f == g
  {
    PackIs(u, f);
    PackIs(v, g);
  }

  // The device "any" comes behind every other one with the same flags, and a unit
  // below 2^29 - 1.
  lemma AnyIsLast(e: Entry, f: Flags)
    requires e.name != "" && e.flags == f && Unit(e.name) < 0x1FFF_FFFF
    ensures Merit(e) < Merit(Entry("any", f))
  {
    PackedOrder(Unit(e.name), f, Unit("any"), f);
  }

  // From 2^29 on a unit cannot be told from the loopback flag.
  lemma UnitRunsOver(u: nat, f: Flags)
    requires u < 0x2000_0000
    ensures Pack(u + 0x2000_0000, f) == Pack(u, f.(loopback := true))
  {
    PackIs(u, f.(loopback := true));
  }

  // ------------------------------------------------------------------ the list

  predicate Named(es: seq<Entry>) {
    forall i :: 0 <= i < |es| ==> es[i].name != ""
  }

  predicate Sorted(es: seq<Entry>)
    requires Named(es)
  {
    forall i, j :: 0 <= i < j < |es| ==> Merit(es[i]) <= Merit(es[j])
  }

  predicate Unique(es: seq<Entry>) {
    forall i, j :: 0 <= i < j < |es| ==> es[i].name != es[j].name
  }

  predicate Has(es: seq<Entry>, name: string) {
    exists i :: 0 <= i < |es| && es[i].name == name
  }

  // Before the first entry that is worse.
  function Place(es: seq<Entry>, m: nat): (k: nat)
    requires Named(es)
    ensures k <= |es| && (k < |es| ==> m < Merit(es[k])) && forall i :: 0 <= i < k ==> Merit(es[i]) <= m
    decreases |es|
  {
    if es == [] then 0
    else if m < Merit(es[0]) then 0
    else
      var k := Place(es[1..], m);
      assert forall i :: 0 < i < k + 1 ==> es[i] == es[1..][i - 1];
      k + 1
  }

  lemma PlaceIs(es: seq<Entry>, m: nat, k: nat)
    requires Named(es) && k <= |es|
    requires (forall i :: 0 <= i < k ==> Merit(es[i]) <= m) && (k < |es| ==> m < Merit(es[k]))
    ensures Place(es, m) == k
  {
    hide Merit;
  }

  function Insert(es: seq<Entry>, e: Entry): (r: seq<Entry>)
    requires Named(es) && e.name != ""
    ensures |r| == |es| + 1 && Named(r)
  {
    var k := Place(es, Merit(e));
    es[..k] + [e] + es[k..]
  }

  lemma InsertSorted(es: seq<Entry>, e: Entry)
    requires Named(es) && Sorted(es) && e.name != ""
    ensures Sorted(Insert(es, e))
  {
    hide Merit, Place;
    var k, r := Place(es, Merit(e)), Insert(es, e);
    forall i, j | 0 <= i < j < |r|
      ensures Merit(r[i]) <= Merit(r[j])
    {
      if i < k <= j {
        if j > k {
          assert r[j] == es[j - 1];
        }
      } else if i == k {
        assert r[j] == es[j - 1];
        assert Merit(es[k]) <= Merit(es[j - 1]);
      }
    }
  }

  lemma InsertUnique(es: seq<Entry>, e: Entry)
    requires Named(es) && Unique(es) && e.name != "" && !Has(es, e.name)
    ensures Unique(Insert(es, e))
    ensures forall name :: Has(Insert(es, e), name) <==> Has(es, name) || name == e.name
  {
    hide Merit, Place;
    var k, r := Place(es, Merit(e)), Insert(es, e);
    assert r[k] == e && forall i :: 0 <= i < |es| ==> es[i] == r[if i < k then i else i + 1];
    forall name ensures Has(r, name) <==> Has(es, name) || name == e.name {
      if Has(es, name) {
        var i :| 0 <= i < |es| && es[i].name == name;
        assert r[if i < k then i else i + 1].name == name;
      }
    }
  }

  // The entries of one figure of merit, in their order.
  function OfMerit(es: seq<Entry>, m: nat): seq<Entry>
    requires Named(es)
  {
    if es == [] then []
    else OfMerit(es[..|es| - 1], m) + if Merit(es[|es| - 1]) == m then [es[|es| - 1]] else []
  }

  lemma {:induction false} OfMeritConcat(a: seq<Entry>, b: seq<Entry>, m: nat)
    requires Named(a) && Named(b)
    ensures OfMerit(a + b, m) == OfMerit(a, m) + OfMerit(b, m)
  {
    hide Merit;
    if b == [] {
      assert a + b == a;
    } else {
      OfMeritConcat(a, b[..|b| - 1], m);
      assert (a + b)[..|a + b| - 1] == a + b[..|b| - 1];
    }
  }

  lemma {:induction false} NoneOfMerit(es: seq<Entry>, m: nat)
    requires Named(es) && forall i :: 0 <= i < |es| ==> Merit(es[i]) != m
    ensures OfMerit(es, m) == []
  {
    if es != [] {
      NoneOfMerit(es[..|es| - 1], m);
    }
  }

  // Insertion is stable: a new entry comes last among its equals and changes
  // the order of no others.
  lemma InsertStable(es: seq<Entry>, e: Entry, m: nat)
    requires Named(es) && Sorted(es) && e.name != ""
    ensures OfMerit(Insert(es, e), m) == OfMerit(es, m) + if Merit(e) == m then [e] else []
  {
    hide *;
    var k := InsertParts(es, e);
    if Merit(e) == m {
      WorseBehind(es, k, m);
    }
    StableParts(es[..k], e, es[k..], m);
  }

  lemma InsertParts(es: seq<Entry>, e: Entry) returns (k: nat)
    requires Named(es) && e.name != ""
    ensures k <= |es| && (k < |es| ==> es[k].name != "" && Merit(e) < Merit(es[k]))
    ensures es == es[..k] + es[k..] && Named(es[..k]) && Named(es[k..])
    ensures Insert(es, e) == es[..k] + [e] + es[k..]
  {
    hide Merit;
    k := Place(es, Merit(e));
  }

  lemma StableParts(a: seq<Entry>, e: Entry, b: seq<Entry>, m: nat)
    requires Named(a) && Named(b) && e.name != ""
    requires Merit(e) == m ==> forall i :: 0 <= i < |b| ==> Merit(b[i]) != m
    ensures Named(a + [e] + b) && Named(a + b)
    ensures OfMerit(a + [e] + b, m) == OfMerit(a + b, m) + if Merit(e) == m then [e] else []
  {
    hide OfMerit, Merit;
    OfMeritConcat(a, b, m);
    OfMeritConcat(a + [e], b, m);
    OfMeritConcat(a, [e], m);
    OfMeritOne(e, m);
    if Merit(e) == m {
      NoneOfMerit(b, m);
    }
  }

  lemma OfMeritOne(e: Entry, m: nat)
    requires e.name != ""
    ensures OfMerit([e], m) == if Merit(e) == m then [e] else []
  {
    assert [e][..0] == [];
  }

  lemma WorseBehind(es: seq<Entry>, k: nat, m: nat)
    requires Named(es) && Sorted(es) && k <= |es| && (k < |es| ==> m < Merit(es[k]))
    ensures Named(es[k..]) && forall i :: 0 <= i < |es[k..]| ==> Merit(es[k..][i]) != m
  {
    hide Merit;
    var b := es[k..];
    forall i | 0 <= i < |b| ensures Merit(b[i]) != m {
      assert b[i] == es[k + i] && Merit(es[k]) <= Merit(es[k + i]);
    }
  }

  // ------------------------------------------------------------------- all runs

  // One device found by the enumeration: its name and flags, and whether it may
  // be offered for capture.
  datatype Found = Found(entry: Entry, offered: bool)

  // add_or_find_if on the list.
  function Add(es: seq<Entry>, d: Found): (r: seq<Entry>)
    requires Named(es) && d.entry.name != ""
    ensures Named(r)
  {
    if Has(es, d.entry.name) || !d.offered then es else Insert(es, d.entry)
  }

  predicate AllNamed(ds: seq<Found>) {
    forall d :: d in ds ==> d.entry.name != ""
  }

  function AddAll(ds: seq<Found>): (r: seq<Entry>)
    requires AllNamed(ds)
    ensures Named(r)
  {
    if ds == [] then [] else
      assert ds[|ds| - 1] in ds;
      Add(AddAll(ds[..|ds| - 1]), ds[|ds| - 1])
  }

  // The offered devices in the order of their first discovery.
  function Discovered(ds: seq<Found>): (r: seq<Entry>)
    requires AllNamed(ds)
    ensures Named(r)
  {
    if ds == [] then [] else
      assert ds[|ds| - 1] in ds;
      var r, d := Discovered(ds[..|ds| - 1]), ds[|ds| - 1];
      if d.offered && !Has(r, d.entry.name) then r + [d.entry] else r
  }

  lemma HasSnoc(es: seq<Entry>, e: Entry, name: string)
    ensures Has(es + [e], name) <==> Has(es, name) || name == e.name
  {
    var r := es + [e];
    assert r[|es|] == e;
    if Has(es, name) {
      var i :| 0 <= i < |es| && es[i].name == name;
      assert r[i].name == name;
    }
  }

  // After any sequence of additions the list has unique names, is sorted, holds
  // exactly the devices that were offered, and keeps equals as discovered.
  lemma {:induction false} ListOverRuns(ds: seq<Found>)
    requires AllNamed(ds)
    ensures Sorted(AddAll(ds)) && Unique(AddAll(ds))
    ensures forall m: nat :: OfMerit(AddAll(ds), m) == OfMerit(Discovered(ds), m)
    ensures forall name :: Has(AddAll(ds), name) <==> Has(Discovered(ds), name)
  {
    if ds != [] {
      var front, d := ds[..|ds| - 1], ds[|ds| - 1];
      assert d in ds;
      ListOverRuns(front);
      var es, r := AddAll(front), Discovered(front);
      hide Merit, Insert, Sorted, Unique, Has;
      if d.offered && !Has(es, d.entry.name) {
        InsertSorted(es, d.entry);
        InsertUnique(es, d.entry);
        forall m: nat ensures OfMerit(AddAll(ds), m) == OfMerit(Discovered(ds), m) {
          InsertStable(es, d.entry, m);
          assert (r + [d.entry])[..|r|] == r;
        }
        forall name ensures Has(AddAll(ds), name) <==> Has(Discovered(ds), name) {
          HasSnoc(r, d.entry, name);
        }
      }
    }
  }

  // -------------------------------------------------------------- the head test

  predicate SmallUnits(es: seq<Entry>)
    requires Named(es)
  {
    forall i :: 0 <= i < |es| ==> Unit(es[i].name) < 0x2000_0000
  }

  // pcap_lookupdev finds no device.
  predicate LookupFails(es: seq<Entry>) { es == [] || es[0].flags.loopback }

  // No better class: the state flags of f are at least as good as those of g.
  predicate StateAsGood(f: Flags, g: Flags) {
    if f.running != g.running then f.running else f.up || !g.up
  }

  // It finds one exactly when some device is not loopback and no loopback device
  // is in a better state.
  lemma LookupFindsExactly(es: seq<Entry>)
    requires Named(es) && Sorted(es) && SmallUnits(es)
    ensures !LookupFails(es) <==> exists i :: (
      0 <= i < |es| && !es[i].flags.loopback
      && forall j :: 0 <= j < |es| && es[j].flags.loopback ==> StateAsGood(es[i].flags, es[j].flags))
  {
    if es != [] {
      forall j | 0 <= j < |es|
        ensures es[0].flags.loopback && !es[j].flags.loopback ==> !StateAsGood(es[j].flags, es[0].flags)
        ensures !es[0].flags.loopback && es[j].flags.loopback ==> StateAsGood(es[0].flags, es[j].flags)
      {
        if j > 0 {
          assert Merit(es[0]) <= Merit(es[j]);
          PackedOrder(Unit(es[j].name), es[j].flags, Unit(es[0].name), es[0].flags);
        }
      }
    }
  }

  // So a loopback head does mean that no other device is up and running.
  lemma LoopbackHead(es: seq<Entry>, i: nat)
    requires Named(es) && Sorted(es) && SmallUnits(es) && es != [] && es[0].flags.loopback && i < |es|
    ensures !es[i].flags.loopback ==> !(es[i].flags.up && es[i].flags.running)
  {
    if i > 0 {
      assert Merit(es[0]) <= Merit(es[i]);
      PackedOrder(Unit(es[i].name), es[i].flags, Unit(es[0].name), es[0].flags);
    }
  }

  // It does not mean, as the comment in pcap_lookupdev says, that there is no
  // other device on the list.
  lemma LoopbackHeadWithOthers()
    ensures var lo, eth := Entry("lo", Flags(true, true, true)), Entry("e", Flags(false, false, false));
      var es := AddAll([Found(eth, true), Found(lo, true)]);
      es == [lo, eth] && LookupFails(es) && !es[1].flags.loopback
  {
    var lo, eth := Entry("lo", Flags(true, true, true)), Entry("e", Flags(false, false, false));
    var a, b := Found(eth, true), Found(lo, true);
    assert Unit("lo") == 0 && Unit("e") == 0;
    PackIs(0, lo.flags);
    PackIs(0, eth.flags);
    assert [a, b][..1] == [a] && [a][..0] == [];
    assert AddAll([a]) == [eth];
    assert !Has([eth], "lo");
    assert Place([eth], Merit(lo)) == 0;
  }
}
