/** The block cache: linked blocks in an LRU list, a map to find them, and write-back to devices. */
module BlockCache {
  import opened WriteBack

  const NONE := 0xffff_ffff

  /** `cache_block_t` */
  class Block {
    var device: nat
    var blockNum: nat
    const size: nat
    var data: Data
    var dirty: bool
    var busy: bool
    var nextMru: Block?
    var prevLru: Block?

    constructor (dev: nat, blockN: nat, size: nat)
      ensures device == dev && blockNum == blockN && this.size == size && |data| == size
      ensures !dirty && !busy && nextMru == null && prevLru == null
    {
      device, blockNum := dev, blockN;
      this.size := size;
      data := seq(size, _ => 0);
      dirty, busy := false, false;
      nextMru, prevLru := null, null;
    }

    function Key(): Id
      reads this`device, this`blockNum
    {
      Id(device, blockNum)
    }

    ghost function Snap(): Rec
      reads this`device, this`blockNum, this`data, this`dirty, this`busy
    {
      Rec(Key(), data, size, dirty && !busy)
    }

    /** As `new` leaves it: unlinked, clean, and of the size asked for. */
    predicate IsNew(n: nat)
      reads this
    {
      size == n && nextMru == null && prevLru == null && !busy
    }

    predicate IsUsable()
      reads this`dirty, this`busy
    {
      !dirty && !busy
    }

    /** `link_at_mru` */
    method LinkAtMru(parent: BlockList)
      requires parent.Linked() && this !in parent.order && prevLru == null && nextMru == null
      modifies parent, this`prevLru, parent.order`nextMru
      ensures parent.order == old(parent.order) + [this] && parent.Linked()
      ensures Snaps(parent.order) == old(Snaps(parent.order)) + [Snap()]
    {
      hide Snaps, Snap;
      ghost var was, n := parent.order, |parent.order|;
      assert n > 0 ==> parent.LinkedAt(n - 1);
      if parent.mru != null {
        prevLru := parent.mru;
        parent.mru.nextMru := this;
      }
      parent.mru := this;
      if parent.lru == null {
        parent.lru := this;
      }
      parent.order := was + [this];
      SnapsOfTwo(was, [this]);
      forall i | 0 <= i <= n ensures parent.LinkedAt(i) {
        if i < n {
          assert old(parent.LinkedAt(i));
        }
      }
    }

    /** `unlink_from` */
    method UnlinkFrom(parent: BlockList, ghost k: nat)
      requires parent.Linked() && k < |parent.order| && parent.order[k] == this
      modifies parent, parent.order`nextMru, parent.order`prevLru
      ensures parent.order == Drop(old(parent.order), k) && parent.Linked()
      ensures prevLru == null && nextMru == null && this !in parent.order
    {
      ghost var was, n := parent.order, |parent.order|;
      assert parent.LinkedAt(k);
      assert k > 0 ==> parent.LinkedAt(k - 1);
      assert k + 1 < n ==> parent.LinkedAt(k + 1);
      if prevLru != null {
        prevLru.nextMru := nextMru;
      }
      if nextMru != null {
        nextMru.prevLru := prevLru;
      }
      if parent.lru == this {
        parent.lru := parent.lru.nextMru;
      }
      if parent.mru == this {
        parent.mru := parent.mru.prevLru;
      }
      prevLru, nextMru := null, null;
      parent.order := Drop(was, k);
      forall i | 0 <= i < n - 1 ensures parent.LinkedAt(i) {
        assert old(parent.LinkedAt(if i < k then i else i + 1));
      }
    }
  }

  /** `cache_block_list_t`; `order` lists its blocks from the LRU end. */
  class BlockList {
    var mru: Block?
    var lru: Block?
    ghost var order: seq<Block>

    constructor ()
      ensures Linked() && order == []
    {
      mru, lru, order := null, null, [];
    }

    ghost predicate Linked()
      reads this, order`nextMru, order`prevLru
    {
      && Once(order)
      && lru == Nth(order, 0)
      && mru == Nth(order, |order| - 1)
      && forall i {:trigger LinkedAt(i)} :: 0 <= i < |order| ==> LinkedAt(i)
    }

    ghost predicate LinkedAt(i: int)
      requires 0 <= i < |order|
      reads this, order`nextMru, order`prevLru
    {
      order[i].prevLru == Nth(order, i - 1) && order[i].nextMru == Nth(order, i + 1)
    }
  }

  ghost predicate Once(order: seq<Block>) {
    forall i, j :: 0 <= i < j < |order| ==> order[i] != order[j]
  }

  ghost function Nth(order: seq<Block>, i: int): Block? {
    if 0 <= i < |order| then order[i] else null
  }

  /** What a block holds; `pending` blocks are dirty and not busy. */
  datatype Rec = Rec(id: Id, data: Data, size: nat, pending: bool)

  ghost function Snaps(order: seq<Block>): (recs: seq<Rec>)
    reads order`device, order`blockNum, order`data, order`dirty, order`busy
    ensures |recs| == |order|
    ensures forall i :: 0 <= i < |order| ==> recs[i] == order[i].Snap()
  {
    if order == [] then [] else Snaps(order[..|order| - 1]) + [order[|order| - 1].Snap()]
  }

  lemma SnapsOfTwo(a: seq<Block>, b: seq<Block>)
    ensures Snaps(a + b) == Snaps(a) + Snaps(b)
  {
  }

  lemma SnapsOfDrop(order: seq<Block>, k: nat)
    requires k < |order|
    ensures Snaps(Drop(order, k)) == Drop(Snaps(order), k)
  {
    hide Snaps, Drop;
    assert forall i :: 0 <= i < |order| - 1 ==> Snaps(Drop(order, k))[i] == Drop(order, k)[i].Snap();
  }

  function ItemsOf(recs: seq<Rec>): (items: seq<Item>)
    ensures |items| == |recs|
  {
    seq(|recs|, i requires 0 <= i < |recs| => Item(recs[i].id, recs[i].data))
  }

  // ---- the list and the map agree ----

  ghost predicate Agrees(order: seq<Block>, recs: seq<Rec>, cache: map<Id, Block?>)
    requires |order| == |recs|
  {
    && (forall i {:trigger Sits(order, recs, cache, i)} :: 0 <= i < |order| ==> Sits(order, recs, cache, i))
    && (forall id {:trigger Found(order, recs, cache, id)} :: id in cache ==> Found(order, recs, cache, id))
  }

  /** A listed block is dirty and is what the map has for it. */
  ghost predicate Sits(order: seq<Block>, recs: seq<Rec>, cache: map<Id, Block?>, i: int)
    requires 0 <= i < |order| == |recs|
  {
    var r := recs[i];
    r.pending && |r.data| == r.size && r.id in cache && cache[r.id] == order[i]
  }

  /** An entry of the map is empty or a listed block. */
  ghost predicate Found(order: seq<Block>, recs: seq<Rec>, cache: map<Id, Block?>, id: Id)
    requires |order| == |recs| && id in cache
  {
    cache[id] != null ==> exists i :: 0 <= i < |order| && order[i] == cache[id] && recs[i].id == id
  }

  lemma AgreesDistinct(order: seq<Block>, recs: seq<Rec>, cache: map<Id, Block?>)
    requires |order| == |recs| && Agrees(order, recs, cache)
    requires Once(order)
    ensures Distinct(ItemsOf(recs))
  {
    forall i, j | 0 <= i < j < |order| ensures recs[i].id != recs[j].id {
      assert Sits(order, recs, cache, i) && Sits(order, recs, cache, j);
    }
  }

  lemma LookupIs(order: seq<Block>, recs: seq<Rec>, cache: map<Id, Block?>, id: Id)
    requires |order| == |recs| && Agrees(order, recs, cache)
    ensures Holds(ItemsOf(recs), id) <==> id in cache && cache[id] != null
    ensures id in cache && cache[id] != null ==> exists i :: 0 <= i < |order| && order[i] == cache[id] && recs[i].id == id
  {
    var items := ItemsOf(recs);
    if Holds(items, id) {
      var i :| 0 <= i < |items| && items[i].id == id;
      assert Sits(order, recs, cache, i);
    }
    if id in cache && cache[id] != null {
      assert Found(order, recs, cache, id);
      var i :| 0 <= i < |order| && order[i] == cache[id] && recs[i].id == id;
      assert items[i].id == id;
    }
  }

  function Drop<T>(s: seq<T>, k: nat): (r: seq<T>)
    requires k < |s|
    ensures |r| == |s| - 1
    ensures forall i :: 0 <= i < |r| ==> r[i] == s[if i < k then i else i + 1]
  {
    s[..k] + s[k + 1..]
  }

  /** Without one of its blocks the list agrees with the map that has no block for it. */
  lemma DropAgrees(order: seq<Block>, recs: seq<Rec>, cache: map<Id, Block?>, k: nat)
    requires k < |order| == |recs| && Agrees(order, recs, cache)
    requires Once(order)
    ensures Agrees(Drop(order, k), Drop(recs, k), cache[recs[k].id := null])
  {
    var (o, r, c) := (Drop(order, k), Drop(recs, k), cache[recs[k].id := null]);
    AgreesDistinct(order, recs, cache);
    var items := ItemsOf(recs);
    forall i | 0 <= i < |o| ensures Sits(o, r, c, i) {
      var j := if i < k then i else i + 1;
      assert Sits(order, recs, cache, j);
      assert items[j].id != items[k].id;
    }
    forall id | id in c ensures Found(o, r, c, id) {
      if id != recs[k].id && cache[id] != null {
        assert Found(order, recs, cache, id);
        var i :| 0 <= i < |order| && order[i] == cache[id] && recs[i].id == id;
        var j := if i < k then i else i - 1;
        assert o[j] == cache[id] && r[j].id == id;
      }
    }
  }

  /** A new block at the end, for a key that has none, agrees with the map that has it. */
  lemma AppendAgrees(order: seq<Block>, recs: seq<Rec>, cache: map<Id, Block?>, b: Block, x: Rec)
    requires |order| == |recs| && Agrees(order, recs, cache)
    requires x.id in cache ==> cache[x.id] == null
    requires x.pending && |x.data| == x.size
    ensures Agrees(order + [b], recs + [x], cache[x.id := b])
  {
    var (o, r, c) := (order + [b], recs + [x], cache[x.id := b]);
    var n := |order|;
    forall i | 0 <= i <= n ensures Sits(o, r, c, i) {
      if i < n {
        assert Sits(order, recs, cache, i);
      }
    }
    forall id | id in c ensures Found(o, r, c, id) {
      if id == x.id {
        assert o[n] == b && r[n].id == id;
      } else if cache[id] != null {
        assert Found(order, recs, cache, id);
        var i :| 0 <= i < n && order[i] == cache[id] && recs[i].id == id;
        assert o[i] == cache[id] && r[i].id == id;
      }
    }
  }

  /** The source asserts that a block it finds has the size it writes. */
  ghost predicate SizesFit(items: seq<Item>, first: Id, n: nat, size: nat) {
    forall x <- items :: x.id.device == first.device && first.block <= x.id.block < first.block + n ==> |x.data| == size
  }

  lemma SizeIs(order: seq<Block>, recs: seq<Rec>, cache: map<Id, Block?>, k: nat, size: nat)
    requires k < |order| == |recs| && Agrees(order, recs, cache) && SizesFit(ItemsOf(recs), recs[k].id, 1, size)
    ensures recs[k].size == size
  {
    assert Sits(order, recs, cache, k);
    assert ItemsOf(recs)[k] in ItemsOf(recs);
  }

  lemma SizesStay(items: seq<Item>, first: Id, n: nat, size: nat, data: Data)
    requires n > 0 && Distinct(items) && SizesFit(items, first, n, size)
    ensures SizesFit(Put(items, first, data), Id(first.device, first.block + 1), n - 1, size)
  {
    hide Put;
    PutIs(items, first, data);
  }

  lemma FirstFits(items: seq<Item>, first: Id, n: nat, size: nat)
    requires n > 0 && SizesFit(items, first, n, size)
    ensures SizesFit(items, first, 1, size)
  {
  }

  lemma SitsAt(order: seq<Block>, recs: seq<Rec>, cache: map<Id, Block?>, k: nat)
    requires k < |order| == |recs| && Agrees(order, recs, cache)
    ensures Sits(order, recs, cache, k)
  {
  }

  // ---- the walk of a flush ----

  /** A flush that has come to place `k` of the list still does what it was to do from the start. */
  ghost predicate Leads(disk0: Disk, items0: seq<Item>, disk: Disk, items: seq<Item>, k: nat, dev: nat, bad: set<Id>) {
    && k <= |items|
    && var f := Flush(disk, items[k..], dev, bad);
       Flush(disk0, items0, dev, bad) == f.(items := items[..k] + f.items)
  }

  lemma LeadsStart(disk: Disk, items: seq<Item>, dev: nat, bad: set<Id>)
    ensures Leads(disk, items, disk, items, 0, dev, bad)
  {
    assert items[0..] == items;
    var f := Flush(disk, items, dev, bad);
    assert items[..0] + f.items == f.items;
  }

  lemma LeadsSkip(disk0: Disk, items0: seq<Item>, disk: Disk, items: seq<Item>, k: nat, dev: nat, bad: set<Id>)
    requires k < |items| && items[k].id.device != dev && Leads(disk0, items0, disk, items, k, dev, bad)
    ensures Leads(disk0, items0, disk, items, k + 1, dev, bad)
  {
    assert items[k..][1..] == items[k + 1..];
    var f := Flush(disk, items[k + 1..], dev, bad);
    assert items[..k] + ([items[k]] + f.items) == items[..k + 1] + f.items;
  }

  lemma LeadsOut(disk0: Disk, items0: seq<Item>, disk: Disk, items: seq<Item>, k: nat, dev: nat, bad: set<Id>)
    requires k < |items| && items[k].id.device == dev && Leads(disk0, items0, disk, items, k, dev, bad)
    ensures items[k].id in bad ==> Flush(disk0, items0, dev, bad) == Flushed(disk, items, false)
    ensures items[k].id !in bad ==> Leads(disk0, items0, disk[items[k].id := items[k].data], Drop(items, k), k, dev, bad)
  {
    if items[k].id in bad {
      assert items[..k] + items[k..] == items;
    } else {
      assert items[k..][1..] == items[k + 1..] == Drop(items, k)[k..];
      assert Drop(items, k)[..k] == items[..k];
    }
  }

  lemma LeadsEnd(disk0: Disk, items0: seq<Item>, disk: Disk, items: seq<Item>, dev: nat, bad: set<Id>)
    requires Leads(disk0, items0, disk, items, |items|, dev, bad)
    ensures Flush(disk0, items0, dev, bad) == Flushed(disk, items, true)
  {
    assert items[|items|..] == [] && items[..|items|] + [] == items;
  }

  lemma MovedIsPut(recs: seq<Rec>, k: nat, x: Rec)
    requires k < |recs| && Distinct(ItemsOf(recs)) && x.id == recs[k].id
    ensures ItemsOf(Drop(recs, k) + [x]) == Put(ItemsOf(recs), x.id, x.data)
  {
    WithoutAt(ItemsOf(recs), k);
  }

  lemma AddedIsPut(recs: seq<Rec>, x: Rec)
    requires !Holds(ItemsOf(recs), x.id)
    ensures ItemsOf(recs + [x]) == Put(ItemsOf(recs), x.id, x.data)
  {
    WithoutAbsent(ItemsOf(recs), x.id);
  }

  /** The devices behind the cache; a block in `bad` is refused. */
  class Devices {
    var disk: Disk
    var bad: set<Id>

    constructor ()
    {
      disk, bad := map[], {};
    }

    /** `write_blocks` of one block: the bytes written. */
    method WriteBlock(id: Id, data: Data) returns (n: int)
      modifies this`disk
      ensures n == |data| <==> id !in bad
      ensures disk == if id in bad then old(disk) else old(disk)[id := data]
    {
      if id in bad {
        n := -1;
      } else {
        disk := disk[id := data];
        n := |data|;
      }
    }
  }

  datatype Outcome = Done(bytes: nat) | Throws | NeverReturns

  /** `block_cache_t` */
  class Cache {
    var cache: map<Id, Block?>
    const maxBlocks: nat
    const blocks: BlockList
    const devices: Devices
    ghost var owned: set<Block>

    ghost predicate Valid()
      reads this, blocks, blocks.order
    {
      && (forall b <- blocks.order :: b in owned)
      && blocks.Linked() && |cache| <= maxBlocks && Agrees(blocks.order, Snaps(blocks.order), cache)
    }

    /** The blocks that wait, least recently written first. */
    ghost function Waiting(): seq<Item>
      reads this, blocks, blocks.order
    {
      ItemsOf(Snaps(blocks.order))
    }

    ghost function Now(): (s: State)
      reads this, blocks, blocks.order, devices
      ensures s.Cached?
    {
      Cached(devices.disk, Waiting(), cache.Keys)
    }

    constructor (nBlocks: nat, devices: Devices)
      ensures Valid() && fresh(blocks) && owned == {} && this.devices == devices && maxBlocks == nBlocks
      ensures Now() == Run(devices.disk, [], nBlocks)
    {
      cache, maxBlocks, this.devices := map[], nBlocks, devices;
      blocks := new BlockList();
      owned := {};
    }

    /** `block_lookup` */
    method BlockLookup(id: Id) returns (b: Block?)
      requires Valid()
      ensures b != null <==> Holds(Waiting(), id)
      ensures b != null ==> id in cache
      ensures b != null ==> exists k :: 0 <= k < |blocks.order| && blocks.order[k] == b && b.Key() == id
    {
      LookupIs(blocks.order, Snaps(blocks.order), cache, id);
      b := if id in cache then cache[id] else null;
    }

    /** A block found in the cache is overwritten and becomes the most recently used. */
    method WriteHit(blk: Block, id: Id, data: Data, ghost k: nat)
      requires Valid() && k < |blocks.order| && blocks.order[k] == blk && blk.Key() == id && |data| == blk.size
      modifies this`cache, blocks, owned
      ensures Valid() && cache.Keys == old(cache.Keys)
      ensures Waiting() == Put(old(Waiting()), id, data)
    {
      hide Snaps, BlockList.Linked, Agrees, Nth, Put, Drop;
      ghost var was, recs, map0 := blocks.order, Snaps(blocks.order), cache;
      OnceListed();
      SitsAt(was, recs, cache, k);
      AgreesDistinct(was, recs, cache);
      Rewrite(blk, id, data, k);
      cache := cache[id := blk];
      ghost var x := Rec(id, data, blk.size, true);
      DropAgrees(was, recs, map0, k);
      AppendAgrees(Drop(was, k), Drop(recs, k), map0[id := null], blk, x);
      assert map0[id := null][id := blk] == cache;
      MovedIsPut(recs, k, x);
      assert cache.Keys == map0.Keys;
    }

    method Rewrite(blk: Block, id: Id, data: Data, ghost k: nat)
      requires blocks.Linked() && k < |blocks.order| && blocks.order[k] == blk && !blk.busy
      modifies blocks, blocks.order
      ensures blocks.Linked() && blocks.order == Drop(old(blocks.order), k) + [blk]
      ensures Snaps(blocks.order) == Drop(old(Snaps(blocks.order)), k) + [Rec(id, data, blk.size, true)]
    {
      hide Snaps, BlockList.Linked, Nth, Drop;
      ghost var was, recs := blocks.order, Snaps(blocks.order);
      blk.UnlinkFrom(blocks, k);
      assert Snaps(was) == recs;
      SnapsOfDrop(was, k);
      blk.data := data;
      blk.dirty := true;
      blk.device := id.device;
      blk.blockNum := id.block;
      assert Snaps(blocks.order) == Drop(recs, k);
      blk.LinkAtMru(blocks);
    }

    /** `get_blocks`: new blocks while the map has room; after that no listed block is usable, for all are dirty. */
    method GetBlocks(nblocks: nat, size: nat) returns (r: Got)
      requires Valid()
      ensures r.TooMany? <==> nblocks > maxBlocks
      ensures r.Blocks? <==> nblocks <= maxBlocks - |cache|
      ensures r.Blocks? ==> |r.blocks| == nblocks && forall b <- r.blocks :: fresh(b) && b.IsNew(size)
    {
      hide Snaps;
      if nblocks > maxBlocks {
        return TooMany;
      }
      var ret: seq<Block>, free, left := [], maxBlocks - |cache|, nblocks;
      while free > 0 && left > 0
        invariant 0 <= left <= nblocks && left + |ret| == nblocks
        invariant 0 <= free && free + |ret| == maxBlocks - |cache|
        invariant forall b <- ret :: fresh(b) && b.IsNew(size)
      {
        var blk := new Block(NONE, NONE, size);
        ret := ret + [blk];
        left, free := left - 1, free - 1;
      }
      if left > 0 {
        var blk := blocks.lru;
        ghost var k := 0;
        while blk != null
          invariant 0 <= k <= |blocks.order| && blk == Nth(blocks.order, k)
          decreases |blocks.order| - k
        {
          assert Sits(blocks.order, Snaps(blocks.order), cache, k) && blocks.LinkedAt(k);
          assert !blk.IsUsable();
          blk := blk.nextMru;
          k := k + 1;
        }
        return NeverFound;
      }
      return Blocks(ret);
    }

    method Fill(blk: Block, id: Id, data: Data)
      requires blocks.Linked() && blk !in blocks.order && blk.IsNew(|data|)
      modifies blk, blocks, blocks.order
      ensures blocks.Linked() && blocks.order == old(blocks.order) + [blk]
      ensures Snaps(blocks.order) == old(Snaps(blocks.order)) + [Rec(id, data, blk.size, true)]
    {
      hide Snaps, BlockList.Linked, Nth;
      ghost var recs := Snaps(blocks.order);
      blk.data := data;
      blk.dirty := true;
      blk.device := id.device;
      blk.blockNum := id.block;
      assert Snaps(blocks.order) == recs;
      blk.LinkAtMru(blocks);
    }

    /** A block not found gets a new entry, most recently used, if the map has room for one more. */
    method WriteMiss(id: Id, data: Data) returns (r: Outcome)
      requires Valid() && !Holds(Waiting(), id)
      modifies this`cache, this`owned, blocks, owned
      ensures Valid()
      ensures r.Throws? <==> maxBlocks == 0
      ensures r.Done? <==> |old(cache)| < maxBlocks
      ensures r.Done? ==> cache.Keys == old(cache.Keys) + {id} && Waiting() == Put(old(Waiting()), id, data)
      ensures fresh(owned - old(owned))
      ensures !r.Done? ==> unchanged(this) && unchanged(blocks) && Waiting() == old(Waiting())
    {
      hide Snaps, BlockList.Linked, Agrees, Nth, Put, ItemsOf;
      var ents := GetBlocks(1, |data|);
      if ents.TooMany? {
        return Throws;
      }
      if ents.NeverFound? {
        return NeverReturns;
      }
      ghost var was, recs, map0 := blocks.order, Snaps(blocks.order), cache;
      LookupIs(was, recs, map0, id);
      var entry := ents.blocks[0];
      assert entry in ents.blocks;
      Fill(entry, id, data);
      owned := owned + {entry};
      cache := cache[id := entry];
      ghost var x := Rec(id, data, entry.size, true);
      AppendAgrees(was, recs, map0, entry, x);
      AddedIsPut(recs, x);
      assert cache.Keys == map0.Keys + {id};
      return Done(|data|);
    }

    /** One turn of the loop of `cached_write`. */
    method WriteOne(id: Id, data: Data) returns (r: Outcome)
      requires Valid() && SizesFit(Waiting(), id, 1, |data|)
      modifies this`cache, this`owned, blocks, owned
      ensures Valid()
      ensures r.Done? ==> Now() == Step(old(Now()), Write(id, data), maxBlocks)
      ensures r.Done? ==> Waiting() == Put(old(Waiting()), id, data)
      ensures !r.Done? ==> Step(old(Now()), Write(id, data), maxBlocks).Stuck?
      ensures !r.Done? ==> (r.Throws? <==> maxBlocks == 0)
      ensures fresh(owned - old(owned))
    {
      hide Snaps, BlockList.Linked, Agrees, ItemsOf, Put, SizesFit;
      var entry := BlockLookup(id);
      if entry != null {
        ghost var k :| 0 <= k < |blocks.order| && blocks.order[k] == entry;
        SizeIs(blocks.order, Snaps(blocks.order), cache, k, |data|);
        WriteHit(entry, id, data, k);
        r := Done(|data|);
      } else {
        r := WriteMiss(id, data);
      }
    }

    lemma OnceListed()
      requires Valid()
      ensures Once(blocks.order)
    {
    }

    lemma WaitingDistinct()
      requires Valid()
      ensures Distinct(Waiting())
    {
      AgreesDistinct(blocks.order, Snaps(blocks.order), cache);
    }

    /** `cached_write`: its blocks are written one by one, unless one of them finds no room. */
    method CachedWrite(dev: nat, block: nat, buffer: Data, n: nat, size: nat) returns (r: Outcome)
      requires Valid() && |buffer| == n * size && SizesFit(Waiting(), Id(dev, block), n, size)
      modifies this`cache, this`owned, blocks, owned
      ensures Valid() && fresh(owned - old(owned))
      ensures var s := Steps(old(Now()), BlockWrites(dev, block, buffer, n, size), maxBlocks);
        && (r.Done? <==> s.Cached?)
        && (r.Done? ==> Now() == s && r.bytes == n * size)
        && (!r.Done? ==> (r.Throws? <==> maxBlocks == 0))
    {
      hide Agrees, Snaps, BlockList.Linked, Put, SizesFit, ItemsOf, Steps, Step, BlockWrites, Valid, Now, Waiting;
      StepsNone(Now(), maxBlocks);
      ghost var ops, s := BlockWrites(dev, block, buffer, n, size), Now();
      var blockN, at, left := block, 0, n;
      while left > 0
        invariant 0 <= left <= n && blockN == block + (n - left) && at == (n - left) * size
        invariant Valid() && SizesFit(Waiting(), Id(dev, blockN), left, size)
        invariant Now() == Steps(s, ops[..n - left], maxBlocks)
        invariant fresh(owned - old(owned))
      {
        ghost var i := n - left;
        ChunkFits(i, n, size);
        assert ops[i] == Write(Id(dev, blockN), buffer[at..at + size]) by {
          BlockWriteAt(dev, block, buffer, n, size, i);
        }
        FirstFits(Waiting(), Id(dev, blockN), left, size);
        WaitingDistinct();
        SizesStay(Waiting(), Id(dev, blockN), left, size, buffer[at..at + size]);
        StepsOneMore(s, ops, i, maxBlocks);
        r := WriteOne(Id(dev, blockN), buffer[at..at + size]);
        if !r.Done? {
          StuckStays(s, ops, i + 1, maxBlocks);
          return;
        }
        blockN, left, at := blockN + 1, left - 1, at + size;
      }
      assert ops[..n] == ops;
      return Done(at);
    }

    static lemma ChunkFits(i: nat, n: nat, size: nat)
      requires i < n
      ensures i * size + size == (i + 1) * size <= n * size
    {
    }

    /** A block written out leaves the list; its key stays, with no block. */
    method TakeOut(blk: Block, ghost k: nat)
      requires Valid() && k < |blocks.order| && blocks.order[k] == blk
      modifies this`cache, blocks, owned
      ensures Valid() && cache.Keys == old(cache.Keys) && blocks.order == Drop(old(blocks.order), k)
      ensures Waiting() == Drop(old(Waiting()), k)
    {
      hide Snaps, Agrees, Drop, BlockList.Linked, Nth;
      ghost var was, recs, map0 := blocks.order, Snaps(blocks.order), cache;
      OnceListed();
      DropAgrees(was, recs, map0, k);
      SitsAt(was, recs, map0, k);
      blk.UnlinkFrom(blocks, k);
      assert Snaps(was) == recs;
      SnapsOfDrop(was, k);
      cache := cache[blk.Key() := null];
      assert cache.Keys == map0.Keys;
    }

    /** `flush` */
    method FlushDevice(dev: nat) returns (ok: bool)
      requires Valid()
      modifies this`cache, blocks, owned, devices`disk
      ensures Valid() && cache.Keys == old(cache.Keys)
      ensures Flushed(devices.disk, Waiting(), ok) == Flush(old(devices.disk), old(Waiting()), dev, devices.bad)
    {
      hide Snaps, Agrees, Drop, Flush, ItemsOf, Leads, Valid, Waiting, BlockList.Linked, Block.Key;
      ghost var disk0, items0 := devices.disk, Waiting();
      FirstEntry();
      var blk := blocks.lru;
      ghost var k := 0;
      LeadsStart(disk0, items0, dev, devices.bad);
      while blk != null
        invariant Valid() && cache.Keys == old(cache.Keys)
        invariant 0 <= k <= |blocks.order| && blk == Nth(blocks.order, k)
        invariant Leads(disk0, items0, devices.disk, Waiting(), k, dev, devices.bad)
        decreases |blocks.order| - k
      {
        ghost var items := Waiting();
        Entry(k);
        if blk.busy || blk.device != dev {
          LeadsSkip(disk0, items0, devices.disk, items, k, dev, devices.bad);
          blk, k := blk.nextMru, k + 1;
        } else {
          LeadsOut(disk0, items0, devices.disk, items, k, dev, devices.bad);
          var n := devices.WriteBlock(Id(dev, blk.blockNum), blk.data);
          if n != blk.size {
            return false;
          }
          var prevBlk := blk;
          blk := blk.nextMru;
          TakeOut(prevBlk, k);
        }
      }
      FirstEntry();
      LeadsEnd(disk0, items0, devices.disk, Waiting(), dev, devices.bad);
      return true;
    }

    lemma FirstEntry()
      requires Valid()
      ensures blocks.lru == Nth(blocks.order, 0) && |Waiting()| == |blocks.order|
    {
    }

    lemma Entry(k: nat)
      requires Valid() && k < |blocks.order|
      ensures var b := blocks.order[k];
        && b in owned && |Waiting()| == |blocks.order|
        && Waiting()[k] == Item(Id(b.device, b.blockNum), b.data)
        && !b.busy && |b.data| == b.size && b.nextMru == Nth(blocks.order, k + 1)
    {
      hide Agrees;
      SitsAt(blocks.order, Snaps(blocks.order), cache, k);
      assert blocks.LinkedAt(k);
    }
  }

  datatype Got = Blocks(blocks: seq<Block>) | TooMany | NeverFound

  datatype Call = WriteCall(dev: nat, block: nat, buffer: Data, n: nat, size: nat) | FlushCall(dev: nat)

  ghost predicate CanServe(c: Cache, call: Call)
    reads c, c.blocks, c.blocks.order
  {
    call.WriteCall? ==>
      |call.buffer| == call.n * call.size && SizesFit(c.Waiting(), Id(call.dev, call.block), call.n, call.size)
  }

  function OpsOf(call: Call, bad: set<Id>): seq<Op>
    requires call.WriteCall? ==> |call.buffer| == call.n * call.size
  {
    match call
    case WriteCall(dev, block, buffer, n, size) => BlockWrites(dev, block, buffer, n, size)
    case FlushCall(dev) => [FlushDevice(dev, bad)]
  }

  /**
   * The next call of a run. Unless it finds no room, the cache is in the state the run so far leads to, and its
   * devices read through it are what they would be had every write gone to them directly.
   */
  method Perform(c: Cache, call: Call, ghost disk: Disk, ghost ops: seq<Op>) returns (returned: bool)
    requires c.Valid() && CanServe(c, call) && c.Now() == Run(disk, ops, c.maxBlocks)
    modifies c`cache, c`owned, c.blocks, c.owned, c.devices`disk
    ensures c.Valid() && fresh(c.owned - old(c.owned))
    ensures var all := ops + OpsOf(call, c.devices.bad);
      && (returned <==> Run(disk, all, c.maxBlocks).Cached?)
      && (returned ==> c.Now() == Run(disk, all, c.maxBlocks))
      && (returned ==> Overlay(c.devices.disk, c.Waiting()) == Direct(disk, all))
  {
    hide Run, Steps, BlockWrites, Overlay, Direct, Cache.Valid, Cache.Waiting, Flush;
    ghost var more := OpsOf(call, c.devices.bad);
    RunGoesOn(disk, ops, more, c.maxBlocks);
    RunKeeps(disk, ops + more, c.maxBlocks);
    match call {
      case WriteCall(dev, block, buffer, n, size) =>
        var r := c.CachedWrite(dev, block, buffer, n, size);
        returned := r.Done?;
      case FlushCall(dev) =>
        StepsOne(c.Now(), more[0], c.maxBlocks);
        var ok := c.FlushDevice(dev);
        returned := true;
    }
  }
}
