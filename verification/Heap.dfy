/** kmalloc and kfree of mem/alloc.c for objects that fit a box, over the list of boxes and
    the index of them by identifier.  What pmm_alloc_page answers is a parameter: 0, or a page
    that no box lives on. */
module Heap {
  import opened Bitmap
  import opened Boxes
  import opened Common
  import opened HeapSpec
  import BoxHash

  class KernelHeap {
    const list: BoxList
    const hash: BoxHash.Index<Box>
    var nextBoxId: nat
    var initialized: bool
    /** The headers in memory, by object address; those of freed objects are stale. */
    var headers: map<nat, Object>
    /** The objects handed out and not yet freed, by object address. */
    ghost var live: map<nat, Live>
    /** The boxes there are, and what is known of each. */
    ghost var table: Table
    ghost var arrays: set<array<bv8>>

    /** Mentioning Shelved(table) lets the verifier look into Shelf. */
    ghost predicate Shelved(t: Table) {
      true
    }

    /** The list is well formed and holds boxes of the table, which describes all its boxes as
        they are. */
    ghost predicate Shelf()
      reads this`table, this`arrays, list, list.at.Keys`next, table.Keys`id, table.Keys`runs, arrays
    {
      forall t {:trigger Shelved(t)} | Shelved(t) :: t == table ==>
        && list.Valid() && list.at.Keys <= table.Keys
        && forall b {:trigger b in table} | b in table :: b.bits in arrays && Shown(b, table[b])
    }

    /** Mentioning Kept(table) lets the verifier look into Valid. */
    ghost predicate Kept(t: Table) {
      true
    }

    /** No bitmap is the slots of the index. */
    ghost predicate Apart()
      reads this`arrays
    {
      forall m {:trigger m in arrays} | m in arrays :: m as object != hash.slots
    }

    lemma Keep()
      requires Shelf() && hash.Valid() && Sound(table, nextBoxId, hash.contents, live, headers) && Apart()
      ensures Valid()
    {
    }

    /** List, index, objects and headers agree with the table. */
    ghost predicate Valid()
      reads this`table, this`nextBoxId, this`headers, this`live, this`arrays
      reads list, list.at.Keys`next, hash, hash.slots, table.Keys`id, table.Keys`runs, arrays
    {
      forall t {:trigger Kept(t)} | Kept(t) :: t == table ==>
        && Shelf() && hash.Valid()
        && Sound(table, nextBoxId, hash.contents, live, headers) && Apart()
    }

    /** The boxes that are indexed but on no list: no search finds room in them any more. */
    ghost function Lost(): set<Box>
      reads this`table, list`at
    {
      table.Keys - list.at.Keys
    }

    /** No box is lost exactly when every box in the index is on the list. */
    lemma NoneLost()
      requires Valid()
      ensures Lost() == {} <==> forall k | k in hash.contents :: hash.contents[k] in list.at
    {
      assert Kept(table) && HeapSpec.Opened(table);
      if Lost() == {} {
        forall k | k in hash.contents ensures hash.contents[k] in list.at {
          assert hash.contents[k] !in Lost();
        }
      } else {
        var b :| b in Lost();
        assert hash.contents[table[b].id] == b;
      }
    }

    /** The used blocks of a box are exactly those of its live objects. */
    lemma UsedByLive(box: Box, i: nat)
      requires Valid() && box in table && i < 8 * MAP_BYTES
      ensures box.bits.Length == MAP_BYTES
      ensures Used(box.bits[..], i) <==>
              exists a :: a in live && live[a].box == box && live[a].start <= i < live[a].start + Needed(live[a].size)
    {
      assert Kept(table) && HeapSpec.Opened(table) && Shelved(table) && Boxes.Opened(box.bits[..]);
      if InRun(box.runs, i) {
        var s :| s in box.runs && s <= i < s + box.runs[s];
        assert IsLive(table, live, box, s);
        var a := AddressOf(box.page, s);
        assert IsRun(table, a, live[a]);
      }
      if a :| a in live && live[a].box == box && live[a].start <= i < live[a].start + Needed(live[a].size) {
        assert IsRun(table, a, live[a]);
        assert InRun(box.runs, i);
      }
    }

    constructor ()
      ensures Valid() && !initialized && list.items == [] && live == map[] && table == map[] && hash.contents == map[]
      ensures fresh(list) && fresh(hash) && fresh(hash.slots) && arrays == {}
    {
      list := new BoxList();
      hash := new BoxHash.Index<Box>();
      nextBoxId, initialized, headers := 0, false, map[];
      live, table, arrays := map[], map[], {};
    }

    /** Note a box that has come to the list. */
    ghost method Shelve(box: Box)
      requires list.Valid() && list.at.Keys <= table.Keys + {box} && box.Valid() && box.runs == map[]
      requires forall b {:trigger b in table} | b in table :: b.bits in arrays && Shown(b, table[b])
      modifies this`table, this`arrays
      ensures Shelf() && arrays == old(arrays) + {box.bits}
      ensures table == old(table)[box := Info(box.id, box.page, box.bits, map[])]
    {
      arrays := arrays + {box.bits};
      table := table[box := Info(box.id, box.page, box.bits, map[])];
    }

    /** The list part of heap_box_register: number the box and put it in front. */
    method Enter(box: Box)
      requires Shelf() && box !in table && box.Valid() && box.runs == map[]
      modifies this`nextBoxId, this`table, this`arrays, list, box`id, box`next
      ensures Shelf() && list.items == [box] + old(list.items) && list.at.Keys == old(list.at.Keys) + {box}
      ensures nextBoxId == old(nextBoxId) + 1 && box.id == old(nextBoxId)
      ensures table == old(table)[box := Info(old(nextBoxId), box.page, box.bits, map[])]
      ensures arrays == old(arrays) + {box.bits}
    {
      assert Shelved(table);
      box.id := nextBoxId;
      nextBoxId := nextBoxId + 1;
      list.PushFront(box);
      assert forall b {:trigger b in table} | b in table :: b.bits in arrays && Shown(b, table[b]);
      Shelve(box);
    }

    /** The index part of heap_box_register. */
    method IndexBox(box: Box)
      requires Shelf() && hash.Valid() && Apart() && box.id !in hash.contents
      requires Sound(table, nextBoxId, hash.contents[box.id := box], live, headers)
      requires |hash.contents| < BoxHash.BOX_HASH_SIZE - 1
      modifies hash`contents, hash.slots
      ensures Valid() && hash.contents == old(hash.contents)[box.id := box]
    {
      hash.Insert(box.id, box);
      Keep();
    }

    /** heap_box_register: the new box goes to the front of the list and into the index. */
    method Register(box: Box)
      requires Valid() && box !in table && box.Valid() && box.runs == map[]
      requires box.page > 0 && box.page % PAGE_SIZE == 0 && box.bits as object != hash.slots
      requires forall c | c in table :: table[c].page != box.page && table[c].bits != box.bits
      requires |hash.contents| < BoxHash.BOX_HASH_SIZE - 1
      modifies this`nextBoxId, this`table, this`arrays, list, hash`contents, hash.slots, box`id, box`next
      ensures Valid() && list.items == [box] + old(list.items) && list.at.Keys == old(list.at.Keys) + {box}
      ensures table == old(table)[box := Info(old(nextBoxId), box.page, box.bits, map[])]
      ensures arrays == old(arrays) + {box.bits} && hash.contents == old(hash.contents)[old(nextBoxId) := box]
    {
      assert Kept(table);
      BoxAdded(table, nextBoxId, hash.contents, live, headers, box, box.page, box.bits);
      Enter(box);
      IndexBox(box);
    }

    /** The next identifier is not in the index. */
    lemma NextIsNew()
      requires Valid()
      ensures nextBoxId !in hash.contents
    {
      assert Kept(table) && HeapSpec.Opened(table);
    }

    /** Boxes and bitmaps that have come since are new in memory. */
    twostate predicate Grew()
      reads this`table, this`arrays
    {
      && (forall b {:trigger b in table} | b in table :: b in old(table) || fresh(b))
      && (forall m {:trigger m in arrays} | m in arrays :: m in old(arrays) || fresh(m))
    }

    /** heap_create_box on the page the page allocator returned, 0 for none. */
    method CreateBox(page: nat) returns (box: Box?)
      requires Valid() && page % PAGE_SIZE == 0 && (forall c | c in table :: table[c].page != page)
      requires |hash.contents| < BoxHash.BOX_HASH_SIZE - 1
      modifies this`nextBoxId, this`table, this`arrays, list, hash`contents, hash.slots
      ensures Valid() && (page == 0 <==> box == null) && Lost() == old(Lost())
      ensures box == null ==>
                && table == old(table) && list.items == old(list.items) && list.at == old(list.at)
                && arrays == old(arrays) && hash.contents == old(hash.contents)
      ensures box != null ==> Created(old(table), old(arrays), old(list.items), old(list.at.Keys), old(nextBoxId), page, box)
      ensures box != null ==> fresh(box) && fresh(box.bits) && |hash.contents| == |old(hash.contents)| + 1
      ensures Grew()
    {
      if page == 0 {
        return null;
      }
      NextIsNew();
      var b := new Box(page);
      SameLost(table.Keys, list.at.Keys, b);
      Register(b);
      assert table.Keys == old(table.Keys) + {b};
      return b;
    }

    /** A new, empty box is in the table and in front of the list. */
    ghost predicate Created(table0: Table, arrays0: set<array<bv8>>, items0: seq<Box>, boxes0: set<Box>, id: nat, page: nat, box: Box)
      reads this`table, this`arrays, list`items, list`at
    {
      && box !in table0 && table == table0[box := Info(id, page, box.bits, map[])] && arrays == arrays0 + {box.bits}
      && list.items == [box] + items0 && list.at.Keys == boxes0 + {box}
    }

    /** Note the new runs of a box. */
    ghost method Note(box: Box)
      requires list.Valid() && list.at.Keys <= table.Keys
      requires box in table && table[box] == Info(box.id, box.page, box.bits, table[box].runs) && box.bits in arrays && box.Valid()
      requires forall b {:trigger b in table} | b in table && b != box :: b.bits in arrays && Shown(b, table[b])
      modifies this`table
      ensures Shelf() && table == WithRuns(old(table), box, box.runs)
    {
      table := WithRuns(table, box, box.runs);
    }

    /** The bitmap part of heap_box_alloc. */
    method TakeRun(box: Box, size: nat) returns (start: int)
      requires Shelf() && box in table
      requires forall c {:trigger c in table} | c in table && c != box :: table[c].bits != table[box].bits
      modifies this`table, box`runs, box.bits
      ensures Shelf() && table == WithRuns(old(table), box, box.runs) && old(table)[box].page == box.page
      ensures start < 0 ==> Full(old(table)[box].runs, Needed(size)) && table == old(table)
      ensures start >= 0 ==> Leftmost(old(table)[box].runs, Needed(size), start) && start !in old(table)[box].runs
      ensures start >= 0 ==> RunsOk(box.runs) && box.runs == old(table)[box].runs[start as nat := Needed(size)]
    {
      assert Shelved(table) && box.bits in arrays && Shown(box, table[box]);
      start := box.Alloc(size);
      Note(box);
    }

    /** heap_box_alloc: an object in the leftmost stretch of `box` that is large enough, or 0. */
    method BoxAlloc(box: Box, size: nat) returns (r: nat)
      requires Valid() && box in table && box.bits in arrays && size > 0
      modifies this`headers, this`live, this`table, box`runs, box.bits
      ensures Valid() && table.Keys == old(table.Keys)
      ensures r == 0 ==> Full(old(table)[box].runs, Needed(size)) && table == old(table) && live == old(live)
      ensures r > 0 ==> PlacedIn(old(table), old(live), box, size, r, table, live)
    {
      assert Kept(table);
      BitsDiffer(table, nextBoxId, hash.contents, live, headers, box);
      ghost var was := table;
      var start := TakeRun(box, size);
      if start < 0 {
        Keep();
        return 0;
      }
      r := PutHeader(box, size, start, was);
    }

    /** The header part of heap_box_alloc: the run taken out of the boxes `was` becomes an object. */
    method PutHeader(box: Box, size: nat, start: nat, ghost was: Table) returns (r: nat)
      requires Shelf() && hash.Valid() && Apart() && Sound(was, nextBoxId, hash.contents, live, headers)
      requires box in was && was[box].page == box.page && size > 0 && start !in was[box].runs
      requires Leftmost(was[box].runs, Needed(size), start) && RunsOk(was[box].runs[start := Needed(size)])
      requires table == WithRuns(was, box, was[box].runs[start := Needed(size)])
      modifies this`headers, this`live
      ensures Valid() && r > 0 && PlacedIn(was, old(live), box, size, r, table, live)
    {
      ObjectAdded(was, nextBoxId, hash.contents, live, headers, box, size, start);
      var mem := box.Data() + start * BLOCK_SIZE;
      assert mem == AddressOf(was[box].page, start);
      headers := headers[mem := Object(box, size)];
      live := live[mem := Live(box, size, start)];
      Keep();
      return mem + OBJECT_ALIGN;
    }

    /** What a walk along the list relies on. */
    lemma OnList(k: nat)
      requires Valid() && k < |list.items|
      ensures var b := list.items[k];
              && b in list.at && b in table && b.bits in arrays
              && b.next == if k + 1 < |list.items| then list.items[k + 1] else null
    {
      assert Kept(table) && Shelved(table) && list.Linked(list.items) && list.items[k] in list.at;
    }

    /** heap_box_iterate: the first box in list order that has room. */
    method Iterate(size: nat) returns (r: nat, ghost k: nat)
      requires Valid() && size > 0
      modifies this`headers, this`live, this`table, table.Keys`runs, arrays
      ensures Valid() && table.Keys == old(table.Keys) && FullBefore(old(table), list.items, Needed(size), k)
      ensures r == 0 ==> k == |list.items| && table == old(table) && live == old(live)
      ensures r > 0 ==> k < |list.items| && PlacedIn(old(table), old(live), list.items[k], size, r, table, live)
    {
      HeadOfList();
      var b := list.head;
      k := 0;
      while b != null
        invariant Valid() && k <= |list.items| && FullBefore(table, list.items, Needed(size), k)
        invariant b == if k < |list.items| then list.items[k] else null
        invariant table == old(table) && live == old(live) && arrays == old(arrays)
        decreases |list.items| - k
      {
        OnList(k);
        r := BoxAlloc(b, size);
        if r > 0 {
          return;
        }
        b := b.next;
        k := k + 1;
      }
      r := 0;
    }

    lemma HeadOfList()
      requires Valid()
      ensures list.head == if list.items == [] then null else list.items[0]
      ensures list.items == [] <==> list.at.Keys == {}
      ensures list.at.Keys <= table.Keys
    {
      assert Kept(table) && Shelved(table) && list.Linked(list.items);
      if list.items != [] {
        assert list.items[0] in list.at;
      }
      if b :| b in list.at {
        assert list.items[list.at[b]] == b;
      }
    }

    /** Set `boxes` to null. */
    method Forget()
      requires Valid()
      modifies list
      ensures Valid() && list.items == [] && list.at == map[] && Lost() == old(Lost()) + old(list.at.Keys)
    {
      assert Kept(table) && Shelved(table);
      list.Clear();
      Keep();
    }

    /** heap_init behind its test of `heap_initialized`. */
    method Start(page: nat) returns (box: Box?)
      requires Valid() && page % PAGE_SIZE == 0 && (forall c | c in table :: table[c].page != page)
      requires |hash.contents| < BoxHash.BOX_HASH_SIZE - 1
      modifies this`nextBoxId, this`table, this`arrays, list, hash`contents, hash.slots
      ensures Valid() && (page == 0 <==> box == null) && Lost() == old(Lost()) + old(list.at.Keys)
      ensures box == null ==>
                table == old(table) && list.items == [] && arrays == old(arrays) && hash.contents == old(hash.contents)
      ensures box != null ==> Created(old(table), old(arrays), [], {}, old(nextBoxId), page, box)
      ensures box != null ==> fresh(box) && fresh(box.bits) && |hash.contents| == |old(hash.contents)| + 1
      ensures Grew()
    {
      Forget();
      box := CreateBox(page);
    }

    /** heap_init: forget the list and create a first box.  Whatever was on the list is lost,
        whether or not a page is available. */
    method Init(page: nat)
      requires Valid() && page % PAGE_SIZE == 0 && (forall c | c in table :: table[c].page != page)
      requires |hash.contents| < BoxHash.BOX_HASH_SIZE - 1
      modifies this`nextBoxId, this`table, this`arrays, this`initialized, list, hash`contents, hash.slots
      ensures Valid() && (initialized <==> old(initialized) || page > 0)
      ensures Lost() == if old(initialized) then old(Lost()) else old(Lost()) + old(list.at.Keys)
      ensures Begun(old(initialized), page, old(list.items), old(table), old(nextBoxId), list.items, table)
      ensures |hash.contents| <= |old(hash.contents)| + if old(initialized) then 0 else 1
      ensures Grew()
    {
      if !initialized {
        var b := Start(page);
        initialized := b != null;
      }
    }

    /** kmalloc up to a page once no box has room: a new box in front of the list, in which
        everything up to 123 blocks fits. */
    method Extend(size: nat, page: nat) returns (r: nat)
      requires Valid() && size > 0 && page % PAGE_SIZE == 0 && (forall c | c in table :: table[c].page != page)
      requires |hash.contents| < BoxHash.BOX_HASH_SIZE - 1
      modifies this`nextBoxId, this`table, this`arrays, this`headers, this`live, list, hash`contents, hash.slots
      ensures Valid() && Lost() == old(Lost()) && |hash.contents| <= |old(hash.contents)| + 1
      ensures page == 0 ==> r == 0 && list.items == old(list.items) && table == old(table) && live == old(live)
      ensures page > 0 ==> list.items != [] && NewBox(list.items[0], old(list.items), old(table), old(live), size, page, r)
      ensures Grew()
    {
      var b := CreateBox(page);
      if b == null {
        return 0;
      }
      EmptyHasRoom(Needed(size));
      r := BoxAlloc(b, size);
    }

    /** The two attempts of kmalloc. */
    method FindOrExtend(size: nat, page: nat) returns (r: nat)
      requires Valid() && size > 0 && page % PAGE_SIZE == 0 && (forall c | c in table :: table[c].page != page)
      requires |hash.contents| < BoxHash.BOX_HASH_SIZE - 1
      modifies this`nextBoxId, this`table, this`arrays, this`headers, this`live, list, hash`contents, hash.slots
      modifies table.Keys`runs, arrays
      ensures Valid() && Lost() == old(Lost()) && |hash.contents| <= |old(hash.contents)| + 1
      ensures exists k: nat :: Outcome(old(list.items), old(table), old(live), size, page, r, k)
      ensures r > 0 ==> Out(r, size)
      ensures Grew()
    {
      ghost var k;
      r, k := Iterate(size);
      if r == 0 {
        r := Extend(size, page);
      }
      assert Outcome(old(list.items), old(table), old(live), size, page, r, k);
      if r > 0 {
        GrantedIsOut(old(list.items), old(table), old(live), size, page, r, k);
      }
    }

    /** kmalloc up to a page, once the heap is initialised; `page` is what the page allocator
        returns if another box is needed. */
    method Obtain(size: nat, page: nat) returns (r: nat)
      requires Valid() && size > 0 && page % PAGE_SIZE == 0 && (forall c | c in table :: table[c].page != page)
      requires |hash.contents| < BoxHash.BOX_HASH_SIZE - 1
      modifies this`nextBoxId, this`table, this`arrays, this`headers, this`live, list, hash`contents, hash.slots
      modifies table.Keys`runs, arrays
      ensures Valid() && Lost() == old(Lost()) && |hash.contents| <= |old(hash.contents)| + 1
      ensures exists k: nat :: Outcome(old(list.items), old(table), old(live), size, page, r, k)
      ensures r > 0 ==> Stands(r, size)
      ensures Grew()
    {
      r := FindOrExtend(size, page);
      if r > 0 {
        ObjectsApart(r - OBJECT_ALIGN);
      }
    }

    /** kmalloc up to a page; `page0` is what the page allocator returns to heap_init, `page1`
        what it returns for a further box.  `order` and `before` are the list and the boxes
        once heap_init has run, if it does; the boxes it takes off the list are lost. */
    method Kmalloc(size: nat, page0: nat, page1: nat) returns (r: nat, ghost order: seq<Box>, ghost before: Table)
      requires Valid() && size <= PAGE_SIZE && page0 % PAGE_SIZE == 0 && page1 % PAGE_SIZE == 0
      requires forall c | c in table :: table[c].page != page0 && table[c].page != page1
      requires page1 > 0 ==> page0 != page1
      requires |hash.contents| < BoxHash.BOX_HASH_SIZE - if initialized then 1 else 2
      modifies this, list, hash`contents, hash.slots, table.Keys`runs, arrays
      ensures Valid() && (initialized <==> old(initialized) || (size > 0 && page0 > 0))
      ensures Lost() == if old(initialized) || size == 0 then old(Lost()) else old(Lost()) + old(list.at.Keys)
      ensures size > 0 ==> Begun(old(initialized), page0, old(list.items), old(table), old(nextBoxId), order, before)
      ensures size == 0 ==> r == 0 && live == old(live) && table == old(table) && list.items == old(list.items)
      ensures size > 0 ==> exists k: nat :: Outcome(order, before, old(live), size, page1, r, k)
      ensures r > 0 ==> Stands(r, size)
      ensures Grew()
      ensures |hash.contents| <= |old(hash.contents)| + if old(initialized) then 1 else 2
    {
      order, before := list.items, table;
      if size == 0 {
        return 0, order, before;
      }
      if !initialized {
        Init(page0);
        order, before := list.items, table;
      }
      r := Obtain(size, page1);
    }

    /** What kmalloc does: take the first box with room, the `k`-th; or, if there is none, a
        new box in front of the list, in which everything up to 123 blocks fits. */
    ghost predicate Outcome(order: seq<Box>, before: Table, live0: map<nat, Live>, size: nat, page: nat, r: nat, k: nat)
      reads this`table, this`live, list`items
    {
      && FullBefore(before, order, Needed(size), k)
      && if k < |order| then
           list.items == order && r > 0 && PlacedIn(before, live0, order[k], size, r, table, live)
         else if page == 0 then
           list.items == order && table == before && r == 0 && live == live0
         else
           list.items != [] && NewBox(list.items[0], order, before, live0, size, page, r)
    }

    /** When kmalloc grants an object of up to a page: there was a box with room, or a page and the
        object fits a box.  One that does not fit an empty box is never granted. */
    lemma GrantedIff(order: seq<Box>, before: Table, live0: map<nat, Live>, size: nat, page: nat, r: nat, k: nat)
      requires Outcome(order, before, live0, size, page, r, k)
      ensures r > 0 <==> k < |order| || (page > 0 && InABox(size))
      ensures r > 0 ==> InABox(size)
    {
      if k < |order| {
        var start: nat :| Leftmost(before[order[k]].runs, Needed(size), start);
      }
    }

    /** In every state of the heap a live object lies in its box's page, behind the structure and
        the bitmap, and has no byte in common with another. */
    lemma ObjectsApart(a: nat)
      requires Valid() && a in live
      ensures Stands(a + OBJECT_ALIGN, live[a].size)
    {
      assert Kept(table) && HeapSpec.Opened(table);
      LiveLiesIn(table, nextBoxId, live, headers, a);
      forall b {:trigger b in live} | b in live && b != a ensures BytesApart(a, live[a].size, b, live[b].size) {
        LiveApart(table, nextBoxId, live, headers, a, b);
      }
    }

    /** A live object of `size` bytes has its first byte at `r`. */
    ghost predicate Stands(r: nat, size: nat)
      reads this`live, this`table
    {
      && r >= 4 && r - 4 in live && live[r - 4].size == size && live[r - 4].box in table
      && LiesIn(table[live[r - 4].box].page, live[r - 4].start, r - 4, size)
      && forall b {:trigger b in live} | b in live && b != r - 4 :: BytesApart(r - 4, size, b, live[b].size)
    }

    /** An object of `size` bytes is out at `r`. */
    ghost predicate Out(r: nat, size: nat)
      reads this`live
    {
      r >= OBJECT_ALIGN && r - OBJECT_ALIGN in live && live[r - OBJECT_ALIGN].size == size
    }

    lemma GrantedIsOut(order: seq<Box>, before: Table, live0: map<nat, Live>, size: nat, page: nat, r: nat, k: nat)
      requires Outcome(order, before, live0, size, page, r, k) && r > 0
      ensures Out(r, size)
    {
    }

    /** The first box of a heap is all there is. */
    lemma FirstBox(live0: map<nat, Live>, size: nat, page: nat, r: nat, k: nat)
      requires Outcome([], map[], live0, size, page, r, k) && page > 0
      ensures list.items != [] && forall c | c in table :: table[c].page == page
    {
    }

    ghost predicate NewBox(b: Box, order: seq<Box>, before: Table, live0: map<nat, Live>, size: nat, page: nat, r: nat)
      reads this`table, this`live, list`items
    {
      && b !in before && b in table && list.items == [b] + order
      && var t := before[b := Info(table[b].id, page, b.bits, map[])];
         if Needed(size) <= BLOCKS_PER_BOX then
           r > 0 && PlacedIn(t, live0, b, size, r, table, live)
         else
           r == 0 && table == t && live == live0
    }

    /** The bitmap part of kfree. */
    method DropRun(box: Box, start: nat, count: nat)
      requires Shelf() && box in table && start in table[box].runs && table[box].runs[start] == count
      requires forall c {:trigger c in table} | c in table && c != box :: table[c].bits != table[box].bits
      modifies this`table, box`runs, box.bits
      ensures Shelf() && table == WithRuns(old(table), box, old(table)[box].runs - {start}) && box.Valid()
      ensures table[box].runs == box.runs
    {
      assert Shelved(table) && box.bits in arrays && Shown(box, table[box]);
      box.Release(start, count);
      Note(box);
    }

    /** kfree up to its test for an empty box: the live object at address `a` goes. */
    method Release(box: Box, ghost a: nat, start: nat, count: nat)
      requires Valid() && a in live && live[a].box == box && live[a].start == start && box in table && box.bits in arrays
      requires start in table[box].runs && table[box].runs[start] == count
      modifies this`live, this`table, box`runs, box.bits
      ensures Valid() && live == old(live) - {a} && box.Valid()
      ensures table == WithRuns(old(table), box, old(table)[box].runs - {start}) && table[box].runs == box.runs
    {
      assert Kept(table);
      BitsDiffer(table, nextBoxId, hash.contents, live, headers, box);
      ObjectRemoved(table, nextBoxId, hash.contents, live, headers, a);
      DropRun(box, start, count);
      live := live - {a};
      Keep();
    }

    /** Forget a box that has left the list. */
    ghost method Unshelve(box: Box)
      requires list.Valid() && list.at.Keys <= table.Keys - {box}
      requires forall b {:trigger b in table} | b in table :: b.bits in arrays && Shown(b, table[b])
      modifies this`table
      ensures Shelf() && table == old(table) - {box}
    {
      table := table - {box};
    }

    /** The list part of heap_box_free. */
    method Leave(box: Box)
      requires Shelf() && box in table
      modifies this`table, list, list.at.Keys`next
      ensures Shelf() && table == old(table) - {box} && list.at.Keys == old(list.at.Keys) - {box}
      ensures if box in old(list.at) then exists k: nat :: TakenOut(old(list.items), list.items, box, k)
              else list.items == old(list.items)
    {
      assert Shelved(table);
      list.Unlink(box);
      assert forall b {:trigger b in table} | b in table :: b.bits in arrays && Shown(b, table[b]);
      Unshelve(box);
    }

    /** heap_box_free: an empty box leaves the list and the index, and its page goes back. */
    method BoxFree(box: Box) returns (page: nat)
      requires Valid() && box in table && box.Valid() && table[box] == Info(box.id, box.page, box.bits, box.runs)
      modifies this`table, list, list.at.Keys`next, hash`contents, hash.slots
      ensures Valid()
      ensures if old(table)[box].runs == map[] then
                Dropped(old(table), old(list.items), old(list.at.Keys), box, page)
              else page == 0 && table == old(table) && list.items == old(list.items) && list.at == old(list.at)
    {
      var empty := box.IsEmpty();
      if !empty {
        return 0;
      }
      assert Kept(table);
      BitsDiffer(table, nextBoxId, hash.contents, live, headers, box);
      BoxDropped(table, nextBoxId, hash.contents, live, headers, box);
      Leave(box);
      UnindexBox(box);
      return box.page;
    }

    /** The index part of heap_box_free. */
    method UnindexBox(box: Box)
      requires Shelf() && hash.Valid() && Apart()
      requires Sound(table, nextBoxId, hash.contents - {box.id}, live, headers)
      modifies hash`contents, hash.slots
      ensures Valid() && hash.contents == old(hash.contents) - {box.id}
    {
      hash.Remove(box.id);
      Keep();
    }

    /** `box` is gone from the boxes and from their list if it was on it, the others are as they
        were; its page is returned. */
    ghost predicate Dropped(table0: Table, items0: seq<Box>, boxes0: set<Box>, box: Box, page: nat)
      reads this`table, list`items, list`at
    {
      && table == table0 - {box} && page == box.page && page > 0 && list.at.Keys == boxes0 - {box}
      && if box in boxes0 then exists k: nat :: TakenOut(items0, list.items, box, k) else list.items == items0
    }

    /** What kfree finds behind a live object's header. */
    lemma BehindHeader(a: nat)
      requires Valid() && a in live
      ensures a in headers && headers[a] == Object(live[a].box, live[a].size)
      ensures var b := live[a].box;
              && b in table && b.bits in arrays && b.Valid() && table[b] == Info(b.id, b.page, b.bits, b.runs)
              && live[a].start < BLOCKS_PER_BOX && a == b.Data() + live[a].start * BLOCK_SIZE
              && live[a].start in table[b].runs && table[b].runs[live[a].start] == Needed(live[a].size)
    {
      assert Kept(table);
      LiveMeans(table, nextBoxId, hash.contents, live, headers, a);
      assert Shelved(table) && live[a].box in table;
      assert Shown(live[a].box, table[live[a].box]);
    }

    /** A box is empty when no live object is in it. */
    lemma LastOne(b: Box)
      requires Valid() && b in table
      ensures table[b].runs == map[] <==> forall a | a in live :: live[a].box != b
    {
      assert Kept(table) && HeapSpec.Opened(table);
      if a :| a in live && live[a].box == b {
        assert IsRun(table, a, live[a]);
      }
      if s :| s in table[b].runs {
        assert IsLive(table, live, b, s);
      }
    }

    /** kfree of a null pointer or a live object: that object is gone, and its box with it when
        it was the last one there; then the box's page is returned, 0 otherwise. */
    method Kfree(ptr: nat) returns (page: nat)
      requires Valid() && (ptr == 0 || (ptr >= OBJECT_ALIGN && ptr - OBJECT_ALIGN in live))
      modifies this`live, this`table, list, table.Keys, hash`contents, hash.slots, arrays
      ensures Valid()
      ensures ptr == 0 ==> page == 0 && live == old(live) && table == old(table) && list.items == old(list.items)
      ensures ptr > 0 ==> live == old(live) - {ptr - OBJECT_ALIGN} && old(live)[ptr - OBJECT_ALIGN].box in old(table)
      ensures ptr > 0 ==> Freed(old(table), old(list.items), old(list.at.Keys), old(live)[ptr - OBJECT_ALIGN], page)
    {
      if ptr == 0 {
        return 0;
      }
      var a := ptr - OBJECT_ALIGN;
      HeadOfList();
      BehindHeader(a);
      var obj := headers[a];
      var b := obj.box;
      var needed := (obj.size + OBJECT_ALIGN + BLOCK_SIZE - 1) / BLOCK_SIZE;
      var idx := b.BlockIndex(a);
      assert idx == live[a].start;
      page := 0;
      if idx >= 0 {
        Release(b, a, idx, needed);
        LastOne(b);
        var empty := b.IsEmpty();
        if empty {
          page := BoxFree(b);
        }
      }
    }

    /** Object `o` has been freed out of the boxes `table0`. */
    ghost predicate Freed(table0: Table, items0: seq<Box>, boxes0: set<Box>, o: Live, page: nat)
      reads this`table, this`live, list`items, list`at
    {
      && o.box in table0
      && var t := WithRuns(table0, o.box, table0[o.box].runs - {o.start});
         && (t[o.box].runs == map[] <==> forall a | a in live :: live[a].box != o.box)
         && if t[o.box].runs == map[] then Dropped(t, items0, boxes0, o.box, page)
            else page == 0 && table == t && list.items == items0
    }
  }

  /** heap_init on a heap that is not initialised, and yet holds a box, loses it.  Two calls
      lead there: one for which heap_init gets no page and the next request gets one, and any
      other; the page allocator's answers to the second make no difference. */
  method LoseBox(size: nat, page: nat, size': nat, page0: nat, page1: nat) returns (heap: KernelHeap, r: nat)
    requires 0 < size <= PAGE_SIZE && 0 < size' <= PAGE_SIZE
    requires page > 0 && page % PAGE_SIZE == 0 && page0 % PAGE_SIZE == 0 && page1 % PAGE_SIZE == 0
    requires page0 != page && page1 != page && (page1 > 0 ==> page0 != page1)
    ensures heap.Valid() && heap.Lost() != {}
  {
    heap := new KernelHeap();
    ghost var order, before;
    r, order, before := heap.Kmalloc(size, 0, page);
    ghost var k: nat :| heap.Outcome([], map[], map[], size, page, r, k);
    heap.FirstBox(map[], size, page, r, k);
    heap.HeadOfList();
    var again, order', before' := heap.Kmalloc(size', page0, page1);
  }

  /** The first object of a heap: behind 28 bytes of structure, 16 of bitmap and 4 of header. */
  method FirstObject(size: nat) returns (heap: KernelHeap, r: nat)
    requires 0 < size <= 3932
    ensures heap.Valid() && r == 0x5030
  {
    heap := new KernelHeap();
    ghost var order, before;
    r, order, before := heap.Kmalloc(size, 0x5000, 0);
    ghost var k: nat :| heap.Outcome(order, before, map[], size, 0, r, k);
    FirstIsLeftmost(size);
  }

  lemma FirstIsLeftmost(size: nat)
    requires size <= 3932
    ensures !Full(map[], Needed(size))
    ensures forall start: nat :: Leftmost(map[], Needed(size), start) ==> start == 0
  {
    EmptyHasRoom(Needed(size));
    assert FreeAt(map[], 0, Needed(size));
  }

  /** List and boxes once heap_init has run: as they were if it had before; otherwise the list
      is empty, or has one box on a new page. */
  ghost predicate Begun(before: bool, page: nat, items: seq<Box>, table: Table, id: nat, items': seq<Box>, table': Table) {
    if before then
      items' == items && table' == table
    else if page == 0 then
      items' == [] && table' == table
    else
      && |items'| == 1 && items'[0] !in table
      && table' == table[items'[0] := Info(id, page, items'[0].bits, map[])]
  }

  /** An object of `size` bytes, returned as `r`, came into the leftmost stretch of `box`
      that is large enough; nothing else is different. */
  ghost predicate PlacedIn(table: Table, live: map<nat, Live>, box: Box, size: nat, r: nat, table': Table, live': map<nat, Live>)
  {
    exists start: nat {:trigger AddressOf(table[box].page, start)} ::
      && box in table && Leftmost(table[box].runs, Needed(size), start)
      && r == AddressOf(table[box].page, start) + OBJECT_ALIGN && r - OBJECT_ALIGN !in live
      && live' == live[r - OBJECT_ALIGN := Live(box, size, start)]
      && table' == WithRuns(table, box, table[box].runs[start := Needed(size)])
  }

  ghost predicate FullBefore(table: Table, items: seq<Box>, count: nat, k: nat) {
    k <= |items| && forall i {:trigger items[i]} | 0 <= i < k :: items[i] in table && Full(table[items[i]].runs, count)
  }

  /** A box that comes both to the table and to the list does not count as lost. */
  lemma SameLost(boxes: set<Box>, listed: set<Box>, b: Box)
    requires b !in boxes
    ensures (boxes + {b}) - (listed + {b}) == boxes - listed
  {
  }

  lemma EmptyHasRoom(count: nat)
    ensures Full(map[], count) <==> count > BLOCKS_PER_BOX
  {
    assert FreeAt(map[], 0, count);
  }

  ghost predicate Shown(b: Box, info: Info)
    reads b`id, b`runs, b.bits
  {
    info == Info(b.id, b.page, b.bits, b.runs) && b.Valid()
  }
}
