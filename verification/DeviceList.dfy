/**
 The libpcap device list in memory: pcap_if_t nodes linked by next, and
 add_or_find_if of pcap/inet.c, which searches and inserts through pointers.
 */
module DeviceList {
  import opened DeviceOrder

  // pcap_if_t
  class Device {
    const entry: Entry
    const description: string
    var next: Device?

    constructor (entry: Entry, description: string)
      ensures this.entry == entry && this.description == description && next == null
    {
      this.entry, this.description, next := entry, description, null;
    }
  }

  // What the attempt to open the device gives. One that can be opened is offered,
  // and one that cannot for some other reason than that it is none or is down.
  datatype Opening = CannotCreate | NoSuchDevice | NotUp | Opened | OtherError

  predicate Offered(o: Opening) { o.Opened? || o.OtherError? }

  // The node behind position i.
  function Behind(nodes: seq<Device>, i: nat): Device?
    requires i < |nodes|
  {
    if i + 1 < |nodes| then nodes[i + 1] else null
  }

  predicate Distinct(nodes: seq<Device>) {
    forall i, j :: 0 <= i < j < |nodes| ==> nodes[i] != nodes[j]
  }

  // Where everything is after an insertion at k.
  lemma InsertAt(was: seq<Device>, dev: Device, k: nat)
    requires Distinct(was) && dev !in was && k <= |was|
    ensures var nodes := was[..k] + [dev] + was[k..];
      && |nodes| == |was| + 1 && Distinct(nodes) && nodes[k] == dev
      && (forall i :: 0 <= i < k ==> nodes[i] == was[i])
      && (forall i :: k < i < |nodes| ==> nodes[i] == was[i - 1])
      && (forall i :: 0 <= i < k - 1 ==> Behind(nodes, i) == Behind(was, i))
      && (k > 0 ==> Behind(nodes, k - 1) == dev)
      && Behind(nodes, k) == (if k < |was| then was[k] else null)
      && (forall i :: k < i < |nodes| ==> Behind(nodes, i) == Behind(was, i - 1))
  {
    var nodes := was[..k] + [dev] + was[k..];
    assert forall i :: k < i < |nodes| ==> nodes[i] == was[i - 1];
  }

  function EntriesOf(nodes: seq<Device>): (r: seq<Entry>)
    ensures |r| == |nodes| && forall i :: 0 <= i < |r| ==> r[i] == nodes[i].entry
  {
    seq(|nodes|, i requires 0 <= i < |nodes| => nodes[i].entry)
  }

  lemma EntriesInsert(was: seq<Device>, dev: Device, k: nat)
    requires k <= |was|
    ensures var nodes := was[..k] + [dev] + was[k..];
      && EntriesOf(nodes) == EntriesOf(was)[..k] + [dev.entry] + EntriesOf(was)[k..]
      && forall d :: d in nodes <==> d in was || d == dev
  {
    assert was == was[..k] + was[k..];
  }

  // The list: alldevs and, for the proof, its nodes in order.
  class List {
    var head: Device?
    ghost var nodes: seq<Device>

    ghost predicate Linked()
      reads this, nodes
    {
      && head == (if nodes == [] then null else nodes[0])
      && (forall i :: 0 <= i < |nodes| ==> nodes[i].next == Behind(nodes, i))
      && Distinct(nodes)
    }

    ghost function Entries(): (r: seq<Entry>)
      reads this
      ensures |r| == |nodes| && forall i :: 0 <= i < |r| ==> r[i] == nodes[i].entry
    {
      EntriesOf(nodes)
    }

    ghost predicate Valid()
      reads this, nodes
    {
      Linked() && Named(Entries()) && Sorted(Entries()) && Unique(Entries())
    }

    constructor ()
      ensures Valid() && nodes == []
    {
      head, nodes := null, [];
    }

    // The first loop: is there an entry of this name?
    method Find(name: string) returns (curdev: Device?)
      requires Linked()
      ensures curdev == null <==> !Has(Entries(), name)
      ensures curdev != null ==> curdev in nodes && curdev.entry.name == name
    {
      ghost var i := 0;
      curdev := head;
      while curdev != null
        invariant 0 <= i <= |nodes| && curdev == if i < |nodes| then nodes[i] else null
        invariant forall j :: 0 <= j < i ==> nodes[j].entry.name != name
        decreases |nodes| - i
      {
        if curdev.entry.name == name {
          assert Entries()[i].name == name;
          return;
        }
        curdev := curdev.next;
        i := i + 1;
      }
    }

    // The second loop: the nodes before and after the place of a new entry.
    method FindPlace(merit: nat) returns (prevdev: Device?, nextdev: Device?)
      requires Linked() && Named(Entries()) && Sorted(Entries())
      ensures var k := Place(Entries(), merit);
        && prevdev == (if k == 0 then null else nodes[k - 1])
        && nextdev == if k < |nodes| then nodes[k] else null
    {
      hide Merit, Place, Sorted, Distinct;
      ghost var i, es := 0, Entries();
      hide EntriesOf;
      prevdev := null;
      nextdev := head;
      while nextdev != null
        invariant 0 <= i <= |nodes| && nextdev == (if i < |nodes| then nodes[i] else null)
        invariant prevdev == if i == 0 then null else nodes[i - 1]
        invariant forall j :: 0 <= j < i ==> Merit(es[j]) <= merit
        decreases |nodes| - i
      {
        assert nextdev.entry == es[i];
        var nextMerit := GetFigureOfMerit(nextdev.entry);
        if merit < nextMerit {
          break;
        }
        prevdev := nextdev;
        nextdev := prevdev.next;
        i := i + 1;
      }
      PlaceIs(es, merit, i);
    }

    // The pointer updates, around the place k.
    method Link(curdev: Device, prevdev: Device?, nextdev: Device?, ghost k: nat)
      requires Linked() && curdev !in nodes && k <= |nodes|
      requires prevdev == (if k == 0 then null else nodes[k - 1])
      requires nextdev == if k < |nodes| then nodes[k] else null
      modifies this, {curdev} + (if prevdev == null then {} else {prevdev})
      ensures nodes == old(nodes)[..k] + [curdev] + old(nodes)[k..] && Linked()
    {
      ghost var was := nodes;
      InsertAt(was, curdev, k);
      hide Behind;
      curdev.next := nextdev;
      if prevdev == null {
        head := curdev;
      } else {
        prevdev.next := curdev;
      }
      nodes := was[..k] + [curdev] + was[k..];
      forall i | 0 <= i < |nodes|
        ensures nodes[i].next == Behind(nodes, i)
      {
        if i < k - 1 {
          assert nodes[i] == was[i] && was[i] != prevdev && was[i] != curdev;
        } else if i > k {
          assert nodes[i] == was[i - 1] && was[i - 1] != curdev && was[i - 1] != prevdev;
        }
      }
    }

    // A new entry goes to its place.
    method InsertNew(dev: Device)
      requires Valid() && dev.entry.name != "" && dev !in nodes && !Has(Entries(), dev.entry.name)
      modifies this, nodes, dev
      ensures Valid() && Entries() == Insert(old(Entries()), dev.entry)
      ensures forall d :: d in nodes <==> d in old(nodes) || d == dev
    {
      hide Merit, Sorted, Unique, Has, Named, Linked, Place;
      var merit := GetFigureOfMerit(dev.entry);
      ghost var was, es, k := nodes, Entries(), Place(Entries(), merit);
      var prevdev, nextdev := FindPlace(merit);
      InsertSorted(es, dev.entry);
      InsertUnique(es, dev.entry);
      EntriesInsert(was, dev, k);
      hide EntriesOf;
      Link(dev, prevdev, nextdev, k);
    }

    // int add_or_find_if(...): -1 when memory runs out, else 0 with the entry,
    // found or new, or null for a device that cannot be opened.
    method AddOrFindIf(entry: Entry, description: string, opening: Opening, outOfMemory: bool)
      returns (rc: int, dev: Device?)
      requires Valid() && entry.name != ""
      modifies this, nodes
      ensures Valid()
      ensures var known := Has(old(Entries()), entry.name);
        var hidden := opening in {CannotCreate, NoSuchDevice, NotUp};
        && (rc == -1 <==> !known && !hidden && outOfMemory)
        && (rc == -1 || rc == 0)
        && Entries() == (if rc == -1 then old(Entries()) else Add(old(Entries()), Found(entry, !hidden)))
        && (rc == 0 ==> (dev == null <==> !known && hidden))
        && (dev != null ==> dev in nodes && dev.entry.name == entry.name)
        && (known ==> dev in old(nodes))
        && (dev != null && !known ==> dev.entry == entry && dev.description == description)
      ensures rc == -1 ==> dev == null
      ensures forall d :: d in old(nodes) ==> d in nodes
    {
      hide Insert, Sorted, Unique, Has, Named;
      dev := Find(entry.name);
      if dev != null {
        return 0, dev;
      }
      if !Offered(opening) {
        return 0, null;
      }
      if outOfMemory {
        return -1, null;
      }
      dev := new Device(entry, description);
      InsertNew(dev);
      rc := 0;
    }

    // The head test of pcap_lookupdev: the device whose name it returns.
    method Lookup() returns (dev: Device?)
      requires Valid()
      ensures dev == null <==> LookupFails(Entries())
      ensures dev != null ==> dev == head
    {
      if head == null {
        return null;
      }
      assert head == nodes[0] && Entries()[0] == head.entry;
      if head.entry.flags.loopback {
        return null;
      }
      return head;
    }
  }
}
