/** MemPoolT: slots of one size, carved out of blocks and threaded on a free list. */
module MemPool {
  import opened Sequences

  /** A slot: while it is free, its first bytes are the link of the free list. */
  class Item {
    var next: Item?

    constructor ()
      ensures next == null
    {
      next := null;
    }
  }

  /** A block is its items: where they are never changes. */
  datatype Block = Block(items: seq<Item>)

  /** The largest number so far. */
  ghost function Peak(history: seq<int>): (r: int)
    ensures 0 <= r
    ensures forall n | n in history :: n <= r
    ensures r == 0 || r in history
  {
    if history == [] then 0
    else
      var before, last := Peak(history[..|history| - 1]), history[|history| - 1];
      assert forall n | n in history :: n in history[..|history| - 1] || n == last;
      if last > before then last else before
  }

  ghost function After(list: seq<Item>, i: nat): Item?
    requires i < |list|
  {
    if i + 1 == |list| then null else list[i + 1]
  }

  /** The links of the items run through the list. */
  ghost predicate Chained(list: seq<Item>)
    reads list
  {
    forall i | 0 <= i < |list| :: list[i].next == After(list, i)
  }

  ghost function Elements(list: seq<Item>): set<Item> {
    set x | x in list
  }

  lemma HeadIn(list: seq<Item>)
    requires list != []
    ensures list[0] in Elements(list)
  {
  }

  lemma NoneIn(list: seq<Item>)
    requires list == []
    ensures Elements(list) == {}
  {
  }

  lemma NewApart(items: set<Item>, added: seq<Item>)
    requires forall x | x in added :: x !in items
    ensures items !! Elements(added)
  {
  }

  lemma TailOf(list: seq<Item>)
    requires Chained(list) && NoRepeats(list) && list != []
    ensures Chained(list[1..]) && NoRepeats(list[1..]) && list[0] !in list[1..]
    ensures list[0].next == (if |list| == 1 then null else list[1])
    ensures Elements(list[1..]) == Elements(list) - {list[0]}
  {
    var rest := list[1..];
    forall i | 0 <= i < |rest| ensures rest[i].next == After(rest, i) {
      assert rest[i] == list[i + 1] && list[i + 1].next == After(list, i + 1);
    }
    assert list[0].next == After(list, 0);
    assert forall x | x in list :: x == list[0] || x in rest;
  }

  lemma HeadOn(x: Item, list: seq<Item>)
    requires Chained(list) && NoRepeats(list) && x !in list && x.next == (if list == [] then null else list[0])
    ensures Chained([x] + list) && NoRepeats([x] + list) && Elements([x] + list) == Elements(list) + {x}
  {
    var all := [x] + list;
    forall i | 0 <= i < |all| ensures all[i].next == After(all, i) {
      if i > 0 { assert all[i] == list[i - 1] && list[i - 1].next == After(list, i - 1); }
    }
  }

  /** The items of the blocks, in order. */
  ghost function Slots(blocks: seq<Block>): seq<Item> {
    if blocks == [] then [] else Slots(blocks[..|blocks| - 1]) + blocks[|blocks| - 1].items
  }

  lemma SlotsGrow(blocks: seq<Block>, block: Block)
    requires NoRepeats(Slots(blocks)) && NoRepeats(block.items) && Elements(Slots(blocks)) !! Elements(block.items)
    ensures NoRepeats(Slots(blocks + [block]))
    ensures Elements(Slots(blocks + [block])) == Elements(Slots(blocks)) + Elements(block.items)
  {
    var s, b := Slots(blocks), block.items;
    assert (blocks + [block])[..|blocks|] == blocks;
    var all := Slots(blocks + [block]);
    assert all == s + b;
    forall i, j | 0 <= i < j < |all| ensures all[i] != all[j] {
      if i < |s| <= j {
        assert all[i] in Elements(s) && all[j] in Elements(b);
      }
    }
  }

  /** A slot that goes from one of two parts to the other. */
  lemma Moved(a: set<Item>, b: set<Item>, x: Item)
    requires a !! b && x in a
    ensures a - {x} !! b + {x} && a - {x} + (b + {x}) == a + b && |b + {x}| == |b| + 1
  {
  }

  lemma HistoryGrows(history: seq<int>, n: int)
    ensures Peak(history + [n]) == if n > Peak(history) then n else Peak(history)
  {
    assert (history + [n])[..|history|] == history;
  }

  class MemPoolT {
    const itemsPerBlock: nat
    var blockPtrs: seq<Block>
    var root: Item?
    var currentAllocs: int
    var nAllocs: int
    var maxAllocs: int
    var nUntracked: int
    /** The free list, the slots handed out, and the values _currentAllocs has had. */
    ghost var free: seq<Item>
    ghost var live: set<Item>
    ghost var history: seq<int>

    constructor (itemsPerBlock: nat)
      requires itemsPerBlock > 0
      ensures Valid() && this.itemsPerBlock == itemsPerBlock && live == {} && free == [] && blockPtrs == []
      ensures history == []
      ensures nAllocs == nUntracked == 0
    {
      this.itemsPerBlock := itemsPerBlock;
      blockPtrs, root, currentAllocs, nAllocs, maxAllocs, nUntracked := [], null, 0, 0, 0, 0;
      free, live, history := [], {}, [];
    }

    ghost predicate Valid()
      reads this, free
    {
      && itemsPerBlock > 0
      && root == (if free == [] then null else free[0]) && Chained(free) && NoRepeats(free)
      && Partition(Elements(free)) && Separate()
      && currentAllocs == |live| <= maxAllocs == Peak(history)
    }

    /** Every slot of every block is either on the free list, whose items are given, or handed out. */
    ghost predicate Partition(unused: set<Item>)
      reads this`live, this`blockPtrs
    {
      unused !! live && unused + live == Elements(Slots(blockPtrs))
    }

    /** The blocks are full, and share no slot. */
    ghost predicate Separate()
      reads this`blockPtrs
    {
      NoRepeats(Slots(blockPtrs)) && forall b | b in blockPtrs :: |b.items| == itemsPerBlock
    }

    /** A new block, its items chained in order. */
    method NewBlock() returns (block: Block)
      requires itemsPerBlock > 0
      ensures |block.items| == itemsPerBlock && Chained(block.items) && NoRepeats(block.items)
      ensures forall x | x in block.items :: fresh(x)
    {
      var items := NewItems();
      ThreadItems(items);
      block := Block(items);
    }

    method ThreadItems(items: seq<Item>)
      requires items != [] && NoRepeats(items)
      modifies items
      ensures Chained(items)
    {
      for i := 0 to |items| - 1
        invariant forall k | 0 <= k < i :: items[k].next == items[k + 1]
      {
        items[i].next := items[i + 1];
      }
      items[|items| - 1].next := null;
    }

    method NewItems() returns (items: seq<Item>)
      ensures |items| == itemsPerBlock && NoRepeats(items) && forall i | 0 <= i < |items| :: fresh(items[i])
    {
      items := [];
      for i := 0 to itemsPerBlock
        invariant |items| == i && NoRepeats(items) && forall k | 0 <= k < i :: fresh(items[k])
      {
        var item := new Item();
        assert item !in items;
        items := items + [item];
      }
    }

    /** The block Alloc adds to a pool without a free slot. */
    method Refill()
      requires Valid() && root == null
      modifies this`blockPtrs, this`root, this`free
      ensures Valid() && free != [] && (forall x | x in free :: fresh(x)) && |blockPtrs| == |old(blockPtrs)| + 1
    {
      hide Peak, Chained, NoRepeats, Slots, Elements;
      NoneIn(free);
      var block := NewBlock();
      NewApart(live, block.items);
      SlotsGrow(blockPtrs, block);
      blockPtrs := blockPtrs + [block];
      root := block.items[0];
      free := block.items;
    }

    /** A slot that was not handed out: the head of the free list, or of a new block's. */
    method Alloc() returns (result: Item)
      requires Valid()
      modifies this
      ensures Valid() && result !in old(live) && live == old(live) + {result}
      ensures old(free) != [] ==> result == old(free)[0] && free == old(free)[1..] && blockPtrs == old(blockPtrs)
      ensures old(free) == [] ==>
        fresh(result) && (forall x | x in free :: fresh(x)) && |blockPtrs| == |old(blockPtrs)| + 1
      ensures currentAllocs == old(currentAllocs) + 1 && history == old(history) + [currentAllocs]
      ensures nAllocs == old(nAllocs) + 1 && nUntracked == old(nUntracked) + 1
    {
      hide Valid, Peak, Chained, NoRepeats;
      FirstFree();
      if root == null {
        Refill();
      }
      ghost var all := free;
      result := AllocFirst();
      assert result in all && forall x | x in free :: x in all;
    }

    lemma FirstFree()
      requires Valid()
      ensures root == null <==> free == []
    {
    }

    /** Alloc with a free slot at hand. */
    method AllocFirst() returns (result: Item)
      requires Valid() && free != []
      modifies this`root, this`currentAllocs, this`maxAllocs, this`nAllocs, this`nUntracked
      modifies this`free, this`live, this`history
      ensures Valid() && result !in old(live) && live == old(live) + {result}
      ensures result == old(free)[0] && free == old(free)[1..]
      ensures currentAllocs == old(currentAllocs) + 1 && history == old(history) + [currentAllocs]
      ensures nAllocs == old(nAllocs) + 1 && nUntracked == old(nUntracked) + 1
    {
      hide Peak, Chained, NoRepeats, Partition, Elements, Separate;
      result := root;
      TakeFirst();
      HistoryGrows(history, currentAllocs + 1);
      currentAllocs := currentAllocs + 1;
      if currentAllocs > maxAllocs {
        maxAllocs := currentAllocs;
      }
      nAllocs := nAllocs + 1;
      nUntracked := nUntracked + 1;
      history := history + [currentAllocs];
    }

    /** _root = _root->next, the old head going live. */
    method TakeFirst()
      requires Valid() && root != null
      modifies this`root, this`free, this`live
      ensures old(free) != [] && free == old(free)[1..] && live == old(live) + {old(free)[0]}
      ensures old(free)[0] !in old(live)
      ensures root == (if free == [] then null else free[0]) && Chained(free) && NoRepeats(free)
      ensures Partition(Elements(free))
      ensures |live| == |old(live)| + 1
    {
      hide Peak, Chained, NoRepeats, Slots, Elements;
      TailOf(free);
      HeadIn(free);
      Moved(Elements(free), live, free[0]);
      root := root.next;
      live, free := live + {free[0]}, free[1..];
    }

    /** Back on the free list; only slots that were handed out are freed. */
    method Free(mem: Item?)
      requires Valid() && (mem != null ==> mem in live)
      modifies this`root, this`currentAllocs, this`free, this`live, this`history, mem
      ensures Valid() && blockPtrs == old(blockPtrs) && nAllocs == old(nAllocs) && nUntracked == old(nUntracked)
      ensures mem == null ==> free == old(free) && live == old(live) && history == old(history)
      ensures mem != null ==> free == [mem] + old(free) && live == old(live) - {mem}
      ensures mem != null ==> currentAllocs == old(currentAllocs) - 1 && history == old(history) + [currentAllocs]
      ensures maxAllocs == old(maxAllocs)
    {
      hide Valid;
      if mem == null {
        return;
      }
      FreeItem(mem);
    }

    method FreeItem(mem: Item)
      requires Valid() && mem in live
      modifies this`root, this`currentAllocs, this`free, this`live, this`history, mem
      ensures Valid() && free == [mem] + old(free) && live == old(live) - {mem}
      ensures currentAllocs == old(currentAllocs) - 1 && history == old(history) + [currentAllocs]
    {
      hide Peak, Chained, NoRepeats, Partition, Elements, Separate, Slots;
      NotFree(mem);
      HistoryGrows(history, currentAllocs - 1);
      PutFirst(mem);
      currentAllocs := currentAllocs - 1;
      history := history + [currentAllocs];
      assert |free| == |old(free)| + 1;
    }

    lemma NotFree(x: Item)
      requires Valid() && x in live
      ensures x !in free && x !in Elements(free)
    {
    }

    /** item->next = _root; _root = item. */
    method PutFirst(item: Item)
      requires item in live && item !in free && Partition(Elements(free))
      requires root == (if free == [] then null else free[0]) && Chained(free) && NoRepeats(free)
      modifies item, this`root, this`free, this`live
      ensures free == [item] + old(free) && live == old(live) - {item} && root == item && |live| == |old(live)| - 1
      ensures Chained(free) && NoRepeats(free) && Partition(Elements(free))
    {
      hide NoRepeats, Slots, Elements, Chained;
      item.next := root;
      root := item;
      HeadOn(item, free);
      Moved(live, Elements(free), item);
      live, free := live - {item}, [item] + free;
    }

    method SetTracked()
      modifies this`nUntracked
      ensures nUntracked == old(nUntracked) - 1
    {
      nUntracked := nUntracked - 1;
    }

    /** The blocks are deleted, and with them every slot. */
    method Clear()
      requires Valid()
      modifies this
      ensures Valid() && blockPtrs == [] && live == {} && free == []
      ensures currentAllocs == nAllocs == maxAllocs == nUntracked == 0
    {
      hide Peak, Chained, NoRepeats, Elements, Slots;
      while |blockPtrs| != 0
        modifies this`blockPtrs
        decreases |blockPtrs|
      {
        blockPtrs := blockPtrs[..|blockPtrs| - 1];
      }
      root, currentAllocs, nAllocs, maxAllocs, nUntracked := null, 0, 0, 0, 0;
      free, live, history := [], {}, [];
      NothingThere();
    }
  }

  lemma NothingThere()
    ensures Chained([]) && NoRepeats<Item>([]) && Elements([]) == {} && Slots([]) == [] && Peak([]) == 0
  {
  }
}
