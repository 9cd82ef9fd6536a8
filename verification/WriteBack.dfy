/** What a write-back cache promises: blocks written, flushed to a device, and the order they are kept in. */
module WriteBack {

  type Byte = n: nat | n < 256

  type Data = seq<Byte>

  datatype Id = Id(device: nat, block: nat)

  datatype Item = Item(id: Id, data: Data)

  type Disk = map<Id, Data>

  ghost predicate Distinct(items: seq<Item>) {
    forall i, j :: 0 <= i < j < |items| ==> items[i].id != items[j].id
  }

  predicate Holds(items: seq<Item>, id: Id) {
    exists i :: 0 <= i < |items| && items[i].id == id
  }

  /** `items`, least recently written first, without block `id`. */
  function Without(items: seq<Item>, id: Id): seq<Item> {
    if items == [] then []
    else if items[0].id == id then Without(items[1..], id)
    else [items[0]] + Without(items[1..], id)
  }

  function Put(items: seq<Item>, id: Id, data: Data): seq<Item> { Without(items, id) + [Item(id, data)] }

  /** The device as it reads through the cache. */
  function Overlay(disk: Disk, items: seq<Item>): Disk
    decreases |items|
  {
    if items == [] then disk else Overlay(disk[items[0].id := items[0].data], items[1..])
  }

  datatype Flushed = Flushed(disk: Disk, items: seq<Item>, ok: bool)

  /** The blocks of `dev` written out in order; the first one in `bad`, which the device refuses, ends it. */
  function Flush(disk: Disk, items: seq<Item>, dev: nat, bad: set<Id>): Flushed
    decreases |items|
  {
    if items == [] then Flushed(disk, [], true)
    else if items[0].id.device != dev then
      var f := Flush(disk, items[1..], dev, bad);
      f.(items := [items[0]] + f.items)
    else if items[0].id in bad then Flushed(disk, items, false)
    else Flush(disk[items[0].id := items[0].data], items[1..], dev, bad)
  }

  // ---- taking out one block ----

  lemma {:induction false} WithoutAbsent(items: seq<Item>, id: Id)
    requires !Holds(items, id)
    ensures Without(items, id) == items
  {
    if items != [] {
      assert forall i :: 0 <= i < |items| - 1 ==> items[1..][i] == items[i + 1];
      WithoutAbsent(items[1..], id);
    }
  }

  lemma {:induction false} WithoutAt(items: seq<Item>, k: nat)
    requires Distinct(items) && k < |items|
    ensures Without(items, items[k].id) == items[..k] + items[k + 1..]
  {
    var id := items[k].id;
    if k == 0 {
      assert !Holds(items[1..], id);
      WithoutAbsent(items[1..], id);
    } else {
      assert items[0].id != id;
      assert items[1..][k - 1] == items[k];
      WithoutAt(items[1..], k - 1);
      assert items[..k] == [items[0]] + items[1..][..k - 1];
      assert items[k + 1..] == items[1..][k..];
    }
  }

  lemma {:induction false} WithoutIs(items: seq<Item>, id: Id)
    requires Distinct(items)
    ensures Distinct(Without(items, id))
    ensures forall x :: x in Without(items, id) <==> x in items && x.id != id
  {
    if items != [] {
      var rest := items[1..];
      assert items == [items[0]] + rest;
      assert forall i :: 0 <= i < |rest| ==> rest[i] == items[i + 1];
      WithoutIs(rest, id);
      var w := Without(rest, id);
      assert forall i :: 0 <= i < |w| ==> w[i] in rest;
    }
  }

  lemma HoldsIff(items: seq<Item>, id: Id)
    ensures Holds(items, id) <==> exists x :: x in items && x.id == id
  {
    if Holds(items, id) {
      var i :| 0 <= i < |items| && items[i].id == id;
      assert items[i] in items;
    }
  }

  /** `Put` has the block once, last, and each other block as it was. */
  lemma PutIs(items: seq<Item>, id: Id, data: Data)
    requires Distinct(items)
    ensures Distinct(Put(items, id, data))
    ensures forall x :: x in Put(items, id, data) <==> x == Item(id, data) || (x in items && x.id != id)
  {
    WithoutIs(items, id);
    var w := Without(items, id);
    assert forall i :: 0 <= i < |w| ==> w[i] in w;
  }

  lemma PutHolds(items: seq<Item>, id: Id, data: Data, x: Id)
    requires Distinct(items)
    ensures Holds(Put(items, id, data), x) <==> x == id || Holds(items, x)
  {
    hide Put, Holds;
    PutIs(items, id, data);
    HoldsIff(items, x);
    HoldsIff(Put(items, id, data), x);
    assert Item(id, data) in Put(items, id, data);
  }

  // ---- transparency ----

  lemma {:induction false} OverlayAppends(disk: Disk, a: seq<Item>, b: seq<Item>)
    ensures Overlay(disk, a + b) == Overlay(Overlay(disk, a), b)
    decreases |a|
  {
    if a == [] {
      assert a + b == b;
    } else {
      assert (a + b)[1..] == a[1..] + b;
      OverlayAppends(disk[a[0].id := a[0].data], a[1..], b);
    }
  }

  /** A block the cache holds hides what the device has for it. */
  lemma {:induction false} OverlayCommutes(disk: Disk, items: seq<Item>, id: Id, data: Data)
    requires !Holds(items, id)
    ensures Overlay(disk[id := data], items) == Overlay(disk, items)[id := data]
    decreases |items|
  {
    if items != [] {
      var x := items[0];
      assert x.id != id;
      assert disk[id := data][x.id := x.data] == disk[x.id := x.data][id := data];
      assert forall i :: 0 <= i < |items| - 1 ==> items[1..][i] == items[i + 1];
      OverlayCommutes(disk[x.id := x.data], items[1..], id, data);
    }
  }

  lemma {:induction false} OverlayWithout(disk: Disk, items: seq<Item>, id: Id, data: Data)
    requires Distinct(items)
    ensures Overlay(disk, Without(items, id))[id := data] == Overlay(disk, items)[id := data]
    decreases |items|
  {
    if items != [] {
      var x, rest := items[0], items[1..];
      assert forall i :: 0 <= i < |rest| ==> rest[i] == items[i + 1];
      if x.id == id {
        assert !Holds(rest, id);
        WithoutAbsent(rest, id);
        OverlayCommutes(disk, rest, id, x.data);
      } else {
        OverlayWithout(disk[x.id := x.data], rest, id, data);
        assert ([x] + Without(rest, id))[1..] == Without(rest, id);
      }
    }
  }

  /** Writing through the cache is writing to the device seen through it. */
  lemma PutIsTransparent(disk: Disk, items: seq<Item>, id: Id, data: Data)
    requires Distinct(items)
    ensures Overlay(disk, Put(items, id, data)) == Overlay(disk, items)[id := data]
  {
    hide Without, Distinct;
    OverlayAppends(disk, Without(items, id), [Item(id, data)]);
    OverlayOne(Overlay(disk, Without(items, id)), Item(id, data));
    OverlayWithout(disk, items, id, data);
  }

  lemma OverlayOne(disk: Disk, x: Item)
    ensures Overlay(disk, [x]) == disk[x.id := x.data]
  {
    assert [x][1..] == [];
  }

  /** A flush, whether or not the device refuses a block, changes nothing that reads through the cache can see. */
  lemma {:induction false} FlushIsTransparent(disk: Disk, items: seq<Item>, dev: nat, bad: set<Id>)
    requires Distinct(items)
    ensures var f := Flush(disk, items, dev, bad); Overlay(f.disk, f.items) == Overlay(disk, items)
    decreases |items|
  {
    if items != [] {
      var x, rest := items[0], items[1..];
      if x.id.device != dev {
        FlushIsTransparent(disk, rest, dev, bad);
        var f := Flush(disk, rest, dev, bad);
        assert ([x] + f.items)[1..] == f.items;
        FlushKeeps(disk, rest, dev, bad);
        assert !Holds(rest, x.id);
        HoldsIff(f.items, x.id);
        HoldsIff(rest, x.id);
        OverlayCommutes(f.disk, f.items, x.id, x.data);
        OverlayCommutes(disk, rest, x.id, x.data);
      } else if x.id !in bad {
        FlushIsTransparent(disk[x.id := x.data], rest, dev, bad);
      }
    }
  }

  /** What a flush leaves in the cache and on the device. */
  lemma {:induction false} FlushKeeps(disk: Disk, items: seq<Item>, dev: nat, bad: set<Id>)
    requires Distinct(items)
    ensures var f := Flush(disk, items, dev, bad);
      && Distinct(f.items)
      && (forall x <- f.items :: x in items)
      && (forall x <- items :: x.id.device != dev ==> x in f.items)
      && (forall id: Id :: id.device != dev ==> (id in f.disk <==> id in disk) && (id in disk ==> f.disk[id] == disk[id]))
    decreases |items|
  {
    if items != [] {
      var x, rest := items[0], items[1..];
      assert forall i :: 0 <= i < |rest| ==> rest[i] == items[i + 1];
      if x.id.device != dev {
        FlushKeeps(disk, rest, dev, bad);
        var f := Flush(disk, rest, dev, bad);
        forall i | 0 <= i < |f.items| ensures f.items[i].id != x.id {
          assert f.items[i] in rest;
        }
      } else if x.id !in bad {
        FlushKeeps(disk[x.id := x.data], rest, dev, bad);
      }
    }
  }

  /** The blocks of the other devices, in the order they had. */
  function Others(items: seq<Item>, dev: nat): seq<Item> {
    if items == [] then []
    else if items[0].id.device == dev then Others(items[1..], dev)
    else [items[0]] + Others(items[1..], dev)
  }

  /** A flush succeeds exactly when no block waiting for the device is refused, and then only the others wait. */
  lemma {:induction false} FlushSucceedsIff(disk: Disk, items: seq<Item>, dev: nat, bad: set<Id>)
    ensures Flush(disk, items, dev, bad).ok <==> forall x <- items :: x.id.device == dev ==> x.id !in bad
    ensures Flush(disk, items, dev, bad).ok ==> Flush(disk, items, dev, bad).items == Others(items, dev)
    decreases |items|
  {
    if items != [] {
      var x, rest := items[0], items[1..];
      assert items == [x] + rest;
      if x.id.device != dev {
        FlushSucceedsIff(disk, rest, dev, bad);
      } else if x.id !in bad {
        FlushSucceedsIff(disk[x.id := x.data], rest, dev, bad);
      }
    }
  }

  lemma {:induction false} OthersAre(items: seq<Item>, dev: nat)
    ensures forall x :: x in Others(items, dev) <==> x in items && x.id.device != dev
  {
    if items != [] {
      assert items == [items[0]] + items[1..];
      OthersAre(items[1..], dev);
    }
  }

  lemma {:induction false} OverlayOutside(disk: Disk, items: seq<Item>, id: Id)
    requires !Holds(items, id)
    ensures id in Overlay(disk, items) <==> id in disk
    ensures id in disk ==> Overlay(disk, items)[id] == disk[id]
    decreases |items|
  {
    if items != [] {
      assert items[0].id != id;
      assert forall i :: 0 <= i < |items| - 1 ==> items[1..][i] == items[i + 1];
      OverlayOutside(disk[items[0].id := items[0].data], items[1..], id);
    }
  }

  /** After a flush that succeeds the device alone holds, for every block of `dev`, what the cache showed. */
  lemma FlushIsDurable(disk: Disk, items: seq<Item>, dev: nat, bad: set<Id>, id: Id)
    requires Distinct(items) && Flush(disk, items, dev, bad).ok && id.device == dev
    ensures var f := Flush(disk, items, dev, bad); var seen := Overlay(disk, items);
      !Holds(f.items, id) && (id in f.disk <==> id in seen) && (id in seen ==> f.disk[id] == seen[id])
  {
    var f := Flush(disk, items, dev, bad);
    FlushSucceedsIff(disk, items, dev, bad);
    OthersAre(items, dev);
    FlushIsTransparent(disk, items, dev, bad);
    assert forall i :: 0 <= i < |f.items| ==> f.items[i] in Others(items, dev);
    OverlayOutside(f.disk, f.items, id);
  }

  // ---- whole runs ----

  datatype Op = Write(id: Id, data: Data) | FlushDevice(device: nat, bad: set<Id>)

  /**
   * `keys` are the ids the cache's map has an entry for, flushed ones included. A run is stuck when a write
   * finds no block to use: the search for one never ends, and a cache of no blocks throws.
   */
  datatype State = Cached(disk: Disk, items: seq<Item>, keys: set<Id>) | Stuck

  function Step(s: State, op: Op, max: nat): State {
    if s.Stuck? then s else
    match op
    case Write(id, data) =>
      if Holds(s.items, id) || |s.keys| < max then Cached(s.disk, Put(s.items, id, data), s.keys + {id})
      else Stuck
    case FlushDevice(dev, bad) =>
      var f := Flush(s.disk, s.items, dev, bad);
      Cached(f.disk, f.items, s.keys)
  }

  function Run(disk: Disk, ops: seq<Op>, max: nat): State {
    if ops == [] then Cached(disk, [], {}) else Step(Run(disk, ops[..|ops| - 1], max), ops[|ops| - 1], max)
  }

  function Steps(s: State, ops: seq<Op>, max: nat): State {
    if ops == [] then s else Step(Steps(s, ops[..|ops| - 1], max), ops[|ops| - 1], max)
  }

  lemma {:induction false} RunGoesOn(disk: Disk, ops: seq<Op>, more: seq<Op>, max: nat)
    ensures Steps(Run(disk, ops, max), more, max) == Run(disk, ops + more, max)
  {
    if more == [] {
      assert ops + more == ops;
    } else {
      RunGoesOn(disk, ops, more[..|more| - 1], max);
      assert (ops + more)[..|ops + more| - 1] == ops + more[..|more| - 1];
    }
  }

  lemma StepsNone(s: State, max: nat)
    ensures Steps(s, [], max) == s
  {
  }

  lemma StepsOne(s: State, op: Op, max: nat)
    ensures Steps(s, [op], max) == Step(s, op, max)
  {
    assert [op][..0] == [];
  }

  lemma StepsOneMore(s: State, ops: seq<Op>, i: nat, max: nat)
    requires i < |ops|
    ensures Steps(s, ops[..i + 1], max) == Step(Steps(s, ops[..i], max), ops[i], max)
  {
    assert ops[..i + 1][..i] == ops[..i];
  }

  lemma {:induction false} StuckStays(s: State, ops: seq<Op>, i: nat, max: nat)
    requires i <= |ops| && Steps(s, ops[..i], max).Stuck?
    ensures Steps(s, ops, max).Stuck?
    decreases |ops| - i
  {
    if i == |ops| {
      assert ops[..i] == ops;
    } else {
      StepsOneMore(s, ops, i, max);
      StuckStays(s, ops, i + 1, max);
    }
  }

  /** The blocks one call of `cached_write` writes, in order. */
  function BlockWrites(dev: nat, block: nat, buffer: Data, n: nat, size: nat): (ops: seq<Op>)
    requires |buffer| == n * size
    ensures |ops| == n
  {
    seq(n, i requires 0 <= i < n =>
      assert i * size + size == (i + 1) * size && (i + 1) * size <= n * size;
      Write(Id(dev, block + i), buffer[i * size..i * size + size]))
  }

  lemma BlockWriteAt(dev: nat, block: nat, buffer: Data, n: nat, size: nat, i: nat)
    requires |buffer| == n * size && i < n
    ensures 0 <= i * size <= i * size + size <= |buffer|
    ensures BlockWrites(dev, block, buffer, n, size)[i] == Write(Id(dev, block + i), buffer[i * size..i * size + size])
  {
    assert i * size + size == (i + 1) * size && (i + 1) * size <= n * size;
  }

  /** The writes of a run made on the device itself. */
  function Direct(disk: Disk, ops: seq<Op>): Disk {
    if ops == [] then disk else
    var d := Direct(disk, ops[..|ops| - 1]);
    var op := ops[|ops| - 1];
    if op.Write? then d[op.id := op.data] else d
  }

  /** The last write of `id` in a run, or -1. */
  function LastWrite(ops: seq<Op>, id: Id): (i: int)
    ensures -1 <= i < |ops|
    ensures i >= 0 ==> ops[i].Write? && ops[i].id == id
    ensures forall j :: i < j < |ops| ==> !(ops[j].Write? && ops[j].id == id)
  {
    if ops == [] then -1
    else if ops[|ops| - 1].Write? && ops[|ops| - 1].id == id then |ops| - 1
    else LastWrite(ops[..|ops| - 1], id)
  }

  /** The last flush of `dev` in a run, or -1. */
  function LastFlush(ops: seq<Op>, dev: nat): (i: int)
    ensures -1 <= i < |ops|
    ensures i >= 0 ==> ops[i].FlushDevice? && ops[i].device == dev
    ensures forall j :: i < j < |ops| ==> !(ops[j].FlushDevice? && ops[j].device == dev)
  {
    if ops == [] then -1
    else if ops[|ops| - 1].FlushDevice? && ops[|ops| - 1].device == dev then |ops| - 1
    else LastFlush(ops[..|ops| - 1], dev)
  }

  /** Every item is the last write of its block, and they are in the order of those writes. */
  ghost predicate InWriteOrder(ops: seq<Op>, items: seq<Item>) {
    && (forall i :: 0 <= i < |items| ==> FromLastWrite(ops, items[i]))
    && (forall i, j :: 0 <= i < j < |items| ==> LastWrite(ops, items[i].id) < LastWrite(ops, items[j].id))
  }

  ghost predicate FromLastWrite(ops: seq<Op>, x: Item) {
    var w := LastWrite(ops, x.id);
    w >= 0 && ops[w].data == x.data
  }

  // ---- what every run keeps ----

  ghost predicate Consistent(s: State, disk: Disk, ops: seq<Op>) {
    s.Cached? ==>
      && Distinct(s.items)
      && Overlay(s.disk, s.items) == Direct(disk, ops)
      && InWriteOrder(ops, s.items)
      && s.keys == Written(ops)
      && forall x <- s.items :: x.id in s.keys
  }

  /** The blocks a run writes. */
  function Written(ops: seq<Op>): set<Id> {
    if ops == [] then {} else
    var w := Written(ops[..|ops| - 1]);
    var op := ops[|ops| - 1];
    if op.Write? then w + {op.id} else w
  }

  lemma {:induction false} WrittenIs(ops: seq<Op>, id: Id)
    ensures id in Written(ops) <==> LastWrite(ops, id) >= 0
  {
    if ops != [] {
      WrittenIs(ops[..|ops| - 1], id);
    }
  }

  lemma OrderTail(ops: seq<Op>, items: seq<Item>)
    requires items != [] && InWriteOrder(ops, items)
    ensures InWriteOrder(ops, items[1..]) && FromLastWrite(ops, items[0])
    ensures forall x <- items[1..] :: LastWrite(ops, items[0].id) < LastWrite(ops, x.id)
  {
    hide LastWrite, FromLastWrite;
    var rest := items[1..];
    assert forall i :: 0 <= i < |rest| ==> rest[i] == items[i + 1];
  }

  lemma OrderCons(ops: seq<Op>, x: Item, rest: seq<Item>)
    requires InWriteOrder(ops, rest) && FromLastWrite(ops, x)
    requires forall y <- rest :: LastWrite(ops, x.id) < LastWrite(ops, y.id)
    ensures InWriteOrder(ops, [x] + rest)
  {
    hide LastWrite, FromLastWrite;
  }

  lemma {:induction false} WithoutKeepsOrder(ops: seq<Op>, items: seq<Item>, id: Id)
    requires Distinct(items) && InWriteOrder(ops, items)
    ensures InWriteOrder(ops, Without(items, id))
  {
    hide LastWrite, FromLastWrite, InWriteOrder;
    if items == [] {
    } else {
      var x, rest := items[0], items[1..];
      OrderTail(ops, items);
      assert forall i :: 0 <= i < |rest| ==> rest[i] == items[i + 1];
      WithoutKeepsOrder(ops, rest, id);
      if x.id != id {
        WithoutIs(rest, id);
        OrderCons(ops, x, Without(rest, id));
      }
    }
  }

  /** The order of the last writes does not change for blocks a further step does not write. */
  lemma OrderAfter(ops: seq<Op>, op: Op, items: seq<Item>)
    requires InWriteOrder(ops, items)
    requires op.Write? ==> forall x <- items :: x.id != op.id
    ensures InWriteOrder(ops + [op], items)
  {
    var all := ops + [op];
    assert all[..|ops|] == ops;
    assert forall i :: 0 <= i < |items| ==> items[i] in items;
    assert forall i :: 0 <= i < |items| ==> LastWrite(all, items[i].id) == LastWrite(ops, items[i].id);
    forall i | 0 <= i < |items| ensures FromLastWrite(all, items[i]) {
      assert FromLastWrite(ops, items[i]);
    }
  }

  lemma WriteStays(ops: seq<Op>, items: seq<Item>, id: Id, data: Data)
    requires Distinct(items) && InWriteOrder(ops, items)
    ensures InWriteOrder(ops + [Write(id, data)], Put(items, id, data))
  {
    hide Without;
    var all, w := ops + [Write(id, data)], Without(items, id);
    WithoutIs(items, id);
    WithoutKeepsOrder(ops, items, id);
    OrderAfter(ops, Write(id, data), w);
    assert LastWrite(all, id) == |ops|;
    assert FromLastWrite(all, Item(id, data));
    forall i | 0 <= i < |w| ensures LastWrite(all, w[i].id) < |ops| {
      assert w[i] in w;
    }
  }

  /** The blocks a flush leaves are some of the blocks there were, in the same order. */
  lemma {:induction false} FlushKeepsOrder(ops: seq<Op>, disk: Disk, items: seq<Item>, dev: nat, bad: set<Id>)
    requires Distinct(items) && InWriteOrder(ops, items)
    ensures InWriteOrder(ops, Flush(disk, items, dev, bad).items)
    decreases |items|
  {
    hide LastWrite, FromLastWrite, InWriteOrder;
    if items == [] {
      NoneInOrder(ops);
    } else {
      var x, rest := items[0], items[1..];
      OrderTail(ops, items);
      assert forall i :: 0 <= i < |rest| ==> rest[i] == items[i + 1];
      if x.id.device != dev {
        FlushKeepsOrder(ops, disk, rest, dev, bad);
        FlushKeeps(disk, rest, dev, bad);
        OrderCons(ops, x, Flush(disk, rest, dev, bad).items);
      } else if x.id !in bad {
        FlushKeepsOrder(ops, disk[x.id := x.data], rest, dev, bad);
      }
    }
  }

  lemma NoneInOrder(ops: seq<Op>)
    ensures InWriteOrder(ops, [])
  {
  }

  lemma StepKeeps(s: State, disk: Disk, ops: seq<Op>, op: Op, max: nat)
    requires Consistent(s, disk, ops)
    ensures Consistent(Step(s, op, max), disk, ops + [op])
  {
    hide Flush, Overlay, Put, Without, LastWrite, InWriteOrder;
    assert (ops + [op])[..|ops|] == ops;
    if s.Cached? {
      match op {
        case Write(id, data) =>
          PutIs(s.items, id, data);
          PutIsTransparent(s.disk, s.items, id, data);
          WriteStays(ops, s.items, id, data);
        case FlushDevice(dev, bad) =>
          FlushIsTransparent(s.disk, s.items, dev, bad);
          FlushKeeps(s.disk, s.items, dev, bad);
          FlushKeepsOrder(ops, s.disk, s.items, dev, bad);
          OrderAfter(ops, op, Flush(s.disk, s.items, dev, bad).items);
      }
    }
  }

  /**
   * After any run that did not get stuck: the device seen through the cache is the device with every write made
   * directly, and the list holds blocks' last writes, oldest first, each block once.
   */
  lemma {:induction false} RunKeeps(disk: Disk, ops: seq<Op>, max: nat)
    ensures Consistent(Run(disk, ops, max), disk, ops)
  {
    if ops != [] {
      var before, op := ops[..|ops| - 1], ops[|ops| - 1];
      RunKeeps(disk, before, max);
      StepKeeps(Run(disk, before, max), disk, before, op, max);
      assert before + [op] == ops;
    }
  }

  // ---- which blocks wait ----

  /**
   * The flush that ends the run gets past block `id`: the device refuses neither that block nor any of its
   * own that were waiting longer.
   */
  ghost predicate GetsPast(ops: seq<Op>, id: Id)
    requires ops != []
    decreases |ops|, 0
  {
    var before, op := ops[..|ops| - 1], ops[|ops| - 1];
    && op.FlushDevice? && op.device == id.device
    && forall x: Id :: x.device == id.device && Waiting(before, x) && LastWrite(before, x) <= LastWrite(before, id) ==> x !in op.bad
  }

  /** The last flush of a run that got past `id`, or -1. */
  ghost function LastPast(ops: seq<Op>, id: Id): int
    decreases |ops|, 1
  {
    if ops == [] then -1 else if GetsPast(ops, id) then |ops| - 1 else LastPast(ops[..|ops| - 1], id)
  }

  /** Written after the last flush that got past it. */
  ghost predicate Waiting(ops: seq<Op>, id: Id)
    decreases |ops|, 2
  {
    LastWrite(ops, id) > LastPast(ops, id)
  }

  lemma {:induction false} LastPastBelow(ops: seq<Op>, id: Id)
    ensures -1 <= LastPast(ops, id) < |ops|
    decreases |ops|
  {
    if ops != [] { LastPastBelow(ops[..|ops| - 1], id); }
  }

  /** The device refuses the block at position `p` or one of its own before it. */
  ghost predicate Refused(items: seq<Item>, dev: nat, bad: set<Id>, p: nat) {
    exists j :: 0 <= j <= p && j < |items| && items[j].id.device == dev && items[j].id in bad
  }

  lemma RefusedTail(items: seq<Item>, dev: nat, bad: set<Id>, p: nat)
    requires 0 < p < |items| && !(items[0].id.device == dev && items[0].id in bad)
    ensures Refused(items, dev, bad, p) <==> Refused(items[1..], dev, bad, p - 1)
  {
    if Refused(items, dev, bad, p) {
      var j :| 0 <= j <= p && j < |items| && items[j].id.device == dev && items[j].id in bad;
      assert items[1..][j - 1] == items[j];
    }
  }

  /** A block outlasts a flush unless it is the device's and the flush gets past it. */
  lemma {:induction false} FlushLeavesIff(disk: Disk, items: seq<Item>, dev: nat, bad: set<Id>, p: nat)
    requires Distinct(items) && p < |items|
    ensures Holds(Flush(disk, items, dev, bad).items, items[p].id) <==>
            items[p].id.device != dev || Refused(items, dev, bad, p)
    decreases |items|
  {
    hide Holds, Refused;
    var x, rest, id := items[0], items[1..], items[p].id;
    assert items == [x] + rest && forall i :: 0 <= i < |rest| ==> rest[i] == items[i + 1];
    if x.id.device == dev && x.id in bad {
      assert items[p] in items;
      HoldsIff(items, id);
      FirstRefused(items, dev, bad, p);
    } else {
      var next := if x.id.device != dev then disk else disk[x.id := x.data];
      var f := Flush(next, rest, dev, bad);
      FlushKeeps(next, rest, dev, bad);
      HoldsIff(f.items, id);
      HoldsIff([x] + f.items, id);
      if p > 0 {
        FlushLeavesIff(next, rest, dev, bad, p - 1);
        RefusedTail(items, dev, bad, p);
      } else {
        FirstRefused(items, dev, bad, p);
      }
    }
  }

  lemma FirstRefused(items: seq<Item>, dev: nat, bad: set<Id>, p: nat)
    requires p < |items|
    ensures items[0].id.device == dev && items[0].id in bad ==> Refused(items, dev, bad, p)
    ensures p == 0 && Refused(items, dev, bad, p) ==> items[0].id.device == dev && items[0].id in bad
  {
  }

  lemma PositionOf(items: seq<Item>, id: Id) returns (p: nat)
    requires Holds(items, id)
    ensures p < |items| && items[p].id == id
  {
    p :| 0 <= p < |items| && items[p].id == id;
  }

  /** A block waits exactly when it was written after the last flush that got past it, whatever devices refuse. */
  lemma {:induction false} WaitsIff(disk: Disk, ops: seq<Op>, max: nat, id: Id)
    requires Run(disk, ops, max).Cached?
    ensures Holds(Run(disk, ops, max).items, id) <==> Waiting(ops, id)
    decreases |ops|
  {
    if ops != [] {
      var before, op := ops[..|ops| - 1], ops[|ops| - 1];
      var s := Run(disk, before, max);
      forall x: Id ensures Holds(s.items, x) <==> Waiting(before, x) { WaitsIff(disk, before, max, x); }
      RunKeeps(disk, before, max);
      LastPastBelow(before, id);
      match op {
        case Write(x, data) =>
          PutHolds(s.items, x, data, id);
          assert !GetsPast(ops, id);
        case FlushDevice(dev, bad) =>
          if Holds(s.items, id) {
            assert ops == before + [op];
            FlushPasses(s.disk, s.items, before, op, id);
          } else {
            FlushKeeps(s.disk, s.items, dev, bad);
            HoldsIff(s.items, id);
            HoldsIff(Flush(s.disk, s.items, dev, bad).items, id);
          }
      }
    }
  }

  lemma FlushPasses(disk: Disk, items: seq<Item>, before: seq<Op>, op: Op, id: Id)
    requires op.FlushDevice? && Distinct(items) && InWriteOrder(before, items) && Holds(items, id)
    requires forall x: Id :: Holds(items, x) <==> Waiting(before, x)
    ensures Holds(Flush(disk, items, op.device, op.bad).items, id) <==> !GetsPast(before + [op], id)
  {
    var p := PositionOf(items, id);
    FlushLeavesIff(disk, items, op.device, op.bad, p);
    assert (before + [op])[..|before + [op]| - 1] == before;
    hide Waiting, LastWrite, Flush;
    if Refused(items, op.device, op.bad, p) {
      var j :| 0 <= j <= p && j < |items| && items[j].id.device == op.device && items[j].id in op.bad;
      assert Holds(items, items[j].id);
    }
    forall x: Id | x.device == id.device && Waiting(before, x) && LastWrite(before, x) <= LastWrite(before, id)
      ensures exists j :: 0 <= j <= p && items[j].id == x
    {
      var j := PositionOf(items, x);
    }
  }

  ghost predicate Accepting(ops: seq<Op>) {
    forall i :: 0 <= i < |ops| && ops[i].FlushDevice? ==> ops[i].bad == {}
  }

  /** When no device refuses a block, every flush of a device gets past all its blocks. */
  lemma {:induction false} AcceptingPast(ops: seq<Op>, id: Id)
    requires Accepting(ops)
    ensures LastPast(ops, id) == LastFlush(ops, id.device)
    decreases |ops|
  {
    if ops != [] { AcceptingPast(ops[..|ops| - 1], id); }
  }

  /** The blocks of a flushed device read back from the device alone as every write of the run left them. */
  lemma RunThenFlush(disk: Disk, ops: seq<Op>, max: nat, dev: nat, bad: set<Id>, id: Id)
    requires Run(disk, ops, max).Cached? && id.device == dev
    requires var s := Run(disk, ops, max); Flush(s.disk, s.items, dev, bad).ok
    ensures var s := Run(disk, ops + [FlushDevice(dev, bad)], max); var d := Direct(disk, ops);
      && s.Cached? && !Holds(s.items, id)
      && (id in s.disk <==> id in d) && (id in d ==> s.disk[id] == d[id])
      && s.items == Others(Run(disk, ops, max).items, dev)
  {
    var s := Run(disk, ops, max);
    RunKeeps(disk, ops, max);
    FlushIsDurable(s.disk, s.items, dev, bad, id);
    FlushSucceedsIff(s.disk, s.items, dev, bad);
    var all := ops + [FlushDevice(dev, bad)];
    assert all[..|ops|] == ops;
  }

  // ---- capacity ----

  /** A write is the first of a run not to return: its block does not wait and `max` blocks were written before. */
  ghost predicate NoRoom(ops: seq<Op>, k: nat, max: nat)
    requires k < |ops|
  {
    && ops[k].Write?
    && !Waiting(ops[..k], ops[k].id)
    && |Written(ops[..k])| >= max
  }

  lemma LastStepStuckIff(disk: Disk, ops: seq<Op>, max: nat)
    requires ops != [] && Run(disk, ops[..|ops| - 1], max).Cached?
    ensures Run(disk, ops, max).Stuck? <==> NoRoom(ops, |ops| - 1, max)
  {
    hide Overlay, Flush, Put, Waiting, InWriteOrder;
    var before, op := ops[..|ops| - 1], ops[|ops| - 1];
    RunKeeps(disk, before, max);
    if op.Write? {
      WaitsIff(disk, before, max, op.id);
    }
  }

  /** Flushed blocks keep their place in the map: exactly the runs with such a write do not return. */
  lemma {:induction false} StuckIff(disk: Disk, ops: seq<Op>, max: nat)
    ensures Run(disk, ops, max).Stuck? <==> exists k :: 0 <= k < |ops| && NoRoom(ops, k, max)
  {
    hide NoRoom;
    if ops != [] {
      var n := |ops| - 1;
      var before := ops[..n];
      StuckIff(disk, before, max);
      forall k | 0 <= k < n ensures NoRoom(ops, k, max) <==> NoRoom(before, k, max) {
        NoRoomBefore(ops, k, max);
      }
      if Run(disk, before, max).Cached? {
        LastStepStuckIff(disk, ops, max);
      } else {
        var k :| 0 <= k < n && NoRoom(before, k, max);
        assert NoRoom(ops, k, max);
      }
    }
  }

  lemma NoRoomBefore(ops: seq<Op>, k: nat, max: nat)
    requires k < |ops| - 1
    ensures NoRoom(ops, k, max) <==> NoRoom(ops[..|ops| - 1], k, max)
  {
    assert ops[..|ops| - 1][..k] == ops[..k];
  }

  lemma {:induction false} WrittenGrows(ops: seq<Op>, k: nat)
    requires k <= |ops|
    ensures Written(ops[..k]) <= Written(ops)
  {
    if k < |ops| {
      assert ops[..|ops| - 1][..k] == ops[..k];
      WrittenGrows(ops[..|ops| - 1], k);
    } else {
      assert ops[..k] == ops;
    }
  }

  /** A run that writes fewer distinct blocks than the cache can hold always returns, whatever devices refuse. */
  lemma {:induction false} FewBlocksNeverStick(disk: Disk, ops: seq<Op>, max: nat)
    requires |Written(ops)| < max
    ensures Run(disk, ops, max).Cached?
  {
    if ops != [] {
      var before := ops[..|ops| - 1];
      WrittenGrows(ops, |ops| - 1);
      Smaller(Written(before), Written(ops));
      FewBlocksNeverStick(disk, before, max);
      RunKeeps(disk, before, max);
    }
  }

  lemma {:induction false} Smaller(a: set<Id>, b: set<Id>)
    requires a <= b
    ensures |a| <= |b|
  {
    if a != {} {
      var x :| x in a;
      Smaller(a - {x}, b - {x});
    }
  }

  /** Written, flushed and written again, one block is one too many for a cache of one. */
  lemma RewriteAfterFlushSticks(disk: Disk, id: Id, data: Data)
    ensures Run(disk, [Write(id, data), FlushDevice(id.device, {}), Write(id, data)], 1).Stuck?
  {
    var ops := [Write(id, data), FlushDevice(id.device, {}), Write(id, data)];
    var w := [Write(id, data)];
    assert ops[..2][..1] == w && w[..0] == [] && ops[..2][1] == ops[1];
    assert Written(ops[..2]) == {id} by { assert Written(w) == {id}; }
    assert LastWrite(ops[..2], id) == 0 by { assert LastWrite(w, id) == 0; }
    assert LastFlush(ops[..2], id.device) == 1;
    AcceptingPast(ops[..2], id);
    assert NoRoom(ops, 2, 1);
    StuckIff(disk, ops, 1);
  }
}
