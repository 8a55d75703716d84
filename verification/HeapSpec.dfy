/** What the box heap of mem/alloc.c keeps, over values: which boxes there are, which runs
    each holds, which objects are live, what the headers in memory say. */
module HeapSpec {
  import opened Boxes
  import opened Common

  /** object_t. */
  datatype Object = Object(box: Box, size: nat)

  /** A live object: its box, the size asked for, its first block. */
  datatype Live = Live(box: Box, size: nat, start: nat)

  /** What is known of a box: its identifier and page, its bitmap, its runs. */
  datatype Info = Info(id: nat, page: nat, bits: array<bv8>, runs: map<nat, nat>)

  type Table = map<Box, Info>

  function AddressOf(page: nat, start: nat): nat {
    page + BOX_BYTES + MAP_BYTES + start * BLOCK_SIZE
  }

  ghost predicate TableOk(table: Table, nextId: nat) {
    && (forall b | b in table ::
         && table[b].page > 0 && table[b].page % PAGE_SIZE == 0 && table[b].id < nextId && RunsOk(table[b].runs))
    && (forall b, c | b in table && c in table && b != c ::
         table[b].page != table[c].page && table[b].bits != table[c].bits)
  }

  /** The index holds exactly the boxes, each under its identifier. */
  ghost predicate IndexOk(table: Table, contents: map<nat, Box>) {
    && (forall b | b in table :: table[b].id in contents && contents[table[b].id] == b)
    && (forall k | k in contents :: contents[k] in table && table[contents[k]].id == k)
  }

  ghost predicate IsRun(table: Table, a: nat, o: Live) {
    && o.box in table && o.size > 0 && a == AddressOf(table[o.box].page, o.start)
    && o.start in table[o.box].runs && table[o.box].runs[o.start] == Needed(o.size)
  }

  ghost predicate IsLive(table: Table, live: map<nat, Live>, b: Box, s: nat)
    requires b in table
  {
    var a := AddressOf(table[b].page, s);
    a in live && live[a].box == b && live[a].start == s
  }

  /** The live objects are exactly the runs of the boxes, and their headers are intact. */
  ghost predicate LiveOk(table: Table, live: map<nat, Live>, headers: map<nat, Object>) {
    && (forall a {:trigger a in headers} | a in live :: a in headers && headers[a] == Object(live[a].box, live[a].size))
    && (forall a {:trigger IsRun(table, a, live[a])} | a in live :: IsRun(table, a, live[a]))
    && (forall b, s {:trigger IsLive(table, live, b, s)} | b in table && s in table[b].runs :: IsLive(table, live, b, s))
  }

  ghost predicate Opened(table: Table) {
    true
  }

  /** All of the above, looked into only where Opened is mentioned. */
  ghost predicate Sound(table: Table, nextId: nat, contents: map<nat, Box>, live: map<nat, Live>, headers: map<nat, Object>) {
    forall t {:trigger Opened(t)} | Opened(t) ::
      t == table ==> TableOk(table, nextId) && IndexOk(table, contents) && LiveOk(table, live, headers)
  }

  /** Page-aligned pages: an object address determines page and block. */
  lemma AddressDetermines(p: nat, s: nat, q: nat, t: nat)
    requires p % PAGE_SIZE == 0 && q % PAGE_SIZE == 0 && s < BLOCKS_PER_BOX && t < BLOCKS_PER_BOX
    requires AddressOf(p, s) == AddressOf(q, t)
    ensures p == q && s == t
  {
    assert AddressOf(p, s) / PAGE_SIZE == p / PAGE_SIZE;
    assert AddressOf(q, t) / PAGE_SIZE == q / PAGE_SIZE;
  }

  lemma IndexAdded(table: Table, nextId: nat, contents: map<nat, Box>, b: Box, info: Info)
    requires TableOk(table, nextId) && IndexOk(table, contents) && b !in table && info.id == nextId
    ensures nextId !in contents && IndexOk(table[b := info], contents[nextId := b])
  {
  }

  lemma IndexDropped(table: Table, contents: map<nat, Box>, b: Box)
    requires IndexOk(table, contents) && b in table
    ensures IndexOk(table - {b}, contents - {table[b].id})
  {
  }

  /** Boxes without runs can come and go. */
  lemma SameLive(table: Table, t: Table, live: map<nat, Live>, headers: map<nat, Object>)
    requires LiveOk(table, live, headers)
    requires forall b | b in table && b !in t :: table[b].runs == map[]
    requires forall b | b in t && b !in table :: t[b].runs == map[]
    requires forall b | b in table && b in t :: t[b] == table[b]
    ensures LiveOk(t, live, headers)
  {
    forall a | a in live ensures IsRun(t, a, live[a]) {
      assert IsRun(table, a, live[a]);
    }
    forall c, s | c in t && s in t[c].runs ensures IsLive(t, live, c, s) {
      assert IsLive(table, live, c, s);
    }
  }

  /** A new, empty box changes nothing else. */
  lemma BoxAdded(table: Table, nextId: nat, contents: map<nat, Box>, live: map<nat, Live>, headers: map<nat, Object>,
                 b: Box, page: nat, bits: array<bv8>)
    requires Sound(table, nextId, contents, live, headers)
    requires b !in table && page > 0 && page % PAGE_SIZE == 0
    requires forall c | c in table :: table[c].page != page && table[c].bits != bits
    ensures nextId !in contents
    ensures Sound(table[b := Info(nextId, page, bits, map[])], nextId + 1, contents[nextId := b], live, headers)
  {
    assert Opened(table);
    var info := Info(nextId, page, bits, map[]);
    TableAdded(table, nextId, b, info);
    IndexAdded(table, nextId, contents, b, info);
    SameLive(table, table[b := info], live, headers);
  }

  lemma TableAdded(table: Table, nextId: nat, b: Box, info: Info)
    requires TableOk(table, nextId) && info.id == nextId && info.page > 0 && info.page % PAGE_SIZE == 0 && info.runs == map[]
    requires forall c | c in table :: table[c].page != info.page && table[c].bits != info.bits
    ensures TableOk(table[b := info], nextId + 1)
  {
  }

  /** A box without runs holds no live object, so it can go. */
  lemma BoxDropped(table: Table, nextId: nat, contents: map<nat, Box>, live: map<nat, Live>, headers: map<nat, Object>, b: Box)
    requires Sound(table, nextId, contents, live, headers) && b in table && table[b].runs == map[]
    ensures Sound(table - {b}, nextId, contents - {table[b].id}, live, headers)
  {
    assert Opened(table);
    var t := table - {b};
    assert TableOk(t, nextId);
    IndexDropped(table, contents, b);
    SameLive(table, t, live, headers);
  }

  ghost function WithRuns(table: Table, b: Box, runs: map<nat, nat>): (t: Table)
    requires b in table
    ensures t.Keys == table.Keys
  {
    table[b := table[b].(runs := runs)]
  }

  /** Two runs at the same address are the same run of the same box. */
  lemma SameRun(table: Table, nextId: nat, b: Box, s: nat, c: Box, t: nat)
    requires TableOk(table, nextId) && b in table && c in table
    requires s < BLOCKS_PER_BOX && t < BLOCKS_PER_BOX
    requires AddressOf(table[b].page, s) == AddressOf(table[c].page, t)
    ensures b == c && s == t
  {
    AddressDetermines(table[b].page, s, table[c].page, t);
  }

  lemma RunsOkBelow(runs: map<nat, nat>, s: nat)
    requires RunsOk(runs) && s in runs
    ensures s < BLOCKS_PER_BOX
  {
  }

  lemma RunsOkWithout(runs: map<nat, nat>, s: nat)
    requires RunsOk(runs)
    ensures RunsOk(runs - {s})
  {
  }

  lemma TableOkWithRuns(table: Table, nextId: nat, b: Box, runs: map<nat, nat>)
    requires TableOk(table, nextId) && b in table && RunsOk(runs)
    ensures TableOk(WithRuns(table, b, runs), nextId)
  {
  }

  lemma NewAddress(table: Table, nextId: nat, a: nat, o: Live, b: Box, start: nat)
    requires TableOk(table, nextId) && IsRun(table, a, o) && b in table
    requires start !in table[b].runs && start < BLOCKS_PER_BOX
    ensures a != AddressOf(table[b].page, start)
  {
    RunsOkBelow(table[o.box].runs, o.start);
    if a == AddressOf(table[b].page, start) {
      SameRun(table, nextId, o.box, o.start, b, start);
    }
  }

  lemma WithRunsIndexed(table: Table, contents: map<nat, Box>, b: Box, runs: map<nat, nat>)
    requires IndexOk(table, contents) && b in table
    ensures IndexOk(WithRuns(table, b, runs), contents)
  {
  }

  /** A new run gives a new object at an address no live object has; only stale headers are
      written over. */
  lemma ObjectAdded(table: Table, nextId: nat, contents: map<nat, Box>, live: map<nat, Live>, headers: map<nat, Object>,
                    b: Box, size: nat, start: nat)
    requires Sound(table, nextId, contents, live, headers) && b in table && size > 0
    requires start !in table[b].runs && RunsOk(table[b].runs[start := Needed(size)])
    ensures AddressOf(table[b].page, start) !in live
    ensures var a := AddressOf(table[b].page, start);
            Sound(WithRuns(table, b, table[b].runs[start := Needed(size)]), nextId, contents,
                  live[a := Live(b, size, start)], headers[a := Object(b, size)])
  {
    assert Opened(table);
    var runs := table[b].runs[start := Needed(size)];
    TableOkWithRuns(table, nextId, b, runs);
    WithRunsIndexed(table, contents, b, runs);
    LiveAdded(table, nextId, live, headers, b, size, start);
  }

  /** The objects there are keep their runs, and none is where a new run starts. */
  lemma OthersStay(table: Table, nextId: nat, live: map<nat, Live>, headers: map<nat, Object>, b: Box, start: nat, count: nat)
    requires TableOk(table, nextId) && LiveOk(table, live, headers) && b in table
    requires start !in table[b].runs && start < BLOCKS_PER_BOX
    ensures forall o {:trigger o in live} | o in live ::
              o != AddressOf(table[b].page, start) && IsRun(WithRuns(table, b, table[b].runs[start := count]), o, live[o])
  {
    forall o | o in live
      ensures o != AddressOf(table[b].page, start) && IsRun(WithRuns(table, b, table[b].runs[start := count]), o, live[o])
    {
      assert IsRun(table, o, live[o]);
      NewAddress(table, nextId, o, live[o], b, start);
    }
  }

  lemma LiveAdded(table: Table, nextId: nat, live: map<nat, Live>, headers: map<nat, Object>, b: Box, size: nat, start: nat)
    requires TableOk(table, nextId) && LiveOk(table, live, headers) && b in table && size > 0
    requires start !in table[b].runs && RunsOk(table[b].runs[start := Needed(size)])
    ensures var a := AddressOf(table[b].page, start);
            && a !in live
            && LiveOk(WithRuns(table, b, table[b].runs[start := Needed(size)]),
                      live[a := Live(b, size, start)], headers[a := Object(b, size)])
  {
    var runs := table[b].runs[start := Needed(size)];
    var t := WithRuns(table, b, runs);
    var a := AddressOf(table[b].page, start);
    RunsOkBelow(runs, start);
    OthersStay(table, nextId, live, headers, b, start, Needed(size));
    var live' := live[a := Live(b, size, start)];
    assert IsRun(t, a, live'[a]);
    RunsShown(table, live, headers, b, size, start);
  }

  /** Every run is an object's once the new one has its object. */
  lemma RunsShown(table: Table, live: map<nat, Live>, headers: map<nat, Object>, b: Box, size: nat, start: nat)
    requires LiveOk(table, live, headers) && b in table && AddressOf(table[b].page, start) !in live
    ensures var t := WithRuns(table, b, table[b].runs[start := Needed(size)]);
            forall c, s {:trigger IsLive(t, live[AddressOf(table[b].page, start) := Live(b, size, start)], c, s)} |
              c in t && s in t[c].runs :: IsLive(t, live[AddressOf(table[b].page, start) := Live(b, size, start)], c, s)
  {
    var t := WithRuns(table, b, table[b].runs[start := Needed(size)]);
    forall c, s | c in t && s in t[c].runs
      ensures IsLive(t, live[AddressOf(table[b].page, start) := Live(b, size, start)], c, s)
    {
      if c != b || s != start {
        assert IsLive(table, live, c, s);
      }
    }
  }

  /** Removing an object's run removes that object and no other. */
  lemma ObjectRemoved(table: Table, nextId: nat, contents: map<nat, Box>, live: map<nat, Live>, headers: map<nat, Object>, a: nat)
    requires Sound(table, nextId, contents, live, headers) && a in live && live[a].box in table
    ensures var b, start := live[a].box, live[a].start;
            Sound(WithRuns(table, b, table[b].runs - {start}), nextId, contents, live - {a}, headers)
  {
    assert Opened(table);
    var b, start: nat := live[a].box, live[a].start;
    var runs := table[b].runs - {start};
    RunsOkWithout(table[b].runs, start);
    TableOkWithRuns(table, nextId, b, runs);
    WithRunsIndexed(table, contents, b, runs);
    LiveRemoved(table, nextId, live, headers, a);
  }

  lemma LiveRemoved(table: Table, nextId: nat, live: map<nat, Live>, headers: map<nat, Object>, a: nat)
    requires TableOk(table, nextId) && LiveOk(table, live, headers) && a in live && live[a].box in table
    ensures var b, start := live[a].box, live[a].start;
            LiveOk(WithRuns(table, b, table[b].runs - {start}), live - {a}, headers)
  {
    var b, start: nat := live[a].box, live[a].start;
    var t := WithRuns(table, b, table[b].runs - {start});
    var live' := live - {a};
    assert IsRun(table, a, live[a]);
    forall o | o in live' ensures IsRun(t, o, live'[o]) {
      assert IsRun(table, o, live[o]);
    }
    RunsOkBelow(table[b].runs, start);
    forall c, s | c in t && s in t[c].runs ensures IsLive(t, live', c, s) {
      assert IsLive(table, live, c, s);
      RunsOkBelow(table[c].runs, s);
      if AddressOf(table[c].page, s) == a {
        SameRun(table, nextId, c, s, b, start);
      }
    }
  }

  /** What a live object's address says, and that its header can be trusted. */
  lemma LiveMeans(table: Table, nextId: nat, contents: map<nat, Box>, live: map<nat, Live>, headers: map<nat, Object>, a: nat)
    requires Sound(table, nextId, contents, live, headers) && a in live
    ensures IsRun(table, a, live[a]) && a in headers && headers[a] == Object(live[a].box, live[a].size)
    ensures RunsOk(table[live[a].box].runs) && live[a].start < BLOCKS_PER_BOX
  {
    assert Opened(table);
    assert IsRun(table, a, live[a]);
    RunsOkBelow(table[live[a].box].runs, live[a].start);
  }

  lemma BitsDiffer(table: Table, nextId: nat, contents: map<nat, Box>, live: map<nat, Live>, headers: map<nat, Object>, b: Box)
    requires Sound(table, nextId, contents, live, headers) && b in table
    ensures forall c {:trigger c in table} | c in table && c != b :: table[c].bits != table[b].bits
    ensures table[b].id in contents && contents[table[b].id] == b && table[b].page > 0
  {
    assert Opened(table);
  }

  /** An object of `size` bytes with its header at `a`, in the blocks from `start` on, lies in the
      page behind the box structure of 28 bytes and its bitmap of 16. */
  ghost predicate LiesIn(page: nat, start: nat, a: nat, size: nat) {
    a == page + 28 + 16 + 32 * start && a + 32 * Needed(size) <= page + 4096
  }

  /** The blocks of two objects, headers included, have no byte in common. */
  ghost predicate BytesApart(a: nat, size: nat, b: nat, size': nat) {
    a + 32 * Needed(size) <= b || b + 32 * Needed(size') <= a
  }

  lemma LiveLiesIn(table: Table, nextId: nat, live: map<nat, Live>, headers: map<nat, Object>, a: nat)
    requires TableOk(table, nextId) && LiveOk(table, live, headers) && a in live
    ensures live[a].box in table && LiesIn(table[live[a].box].page, live[a].start, a, live[a].size)
  {
    assert IsRun(table, a, live[a]);
    var runs, start := table[live[a].box].runs, live[a].start;
    assert start in runs && start + runs[start] <= BLOCKS_PER_BOX;
    BlocksInPage(table[live[a].box].page, start, Needed(live[a].size));
  }

  lemma BlocksInPage(page: nat, start: nat, count: nat)
    requires start + count <= BLOCKS_PER_BOX
    ensures AddressOf(page, start) == page + 28 + 16 + 32 * start
    ensures AddressOf(page, start) + 32 * count <= page + 4096
  {
  }

  lemma LiveApart(table: Table, nextId: nat, live: map<nat, Live>, headers: map<nat, Object>, a: nat, b: nat)
    requires TableOk(table, nextId) && LiveOk(table, live, headers) && a in live && b in live && a != b
    ensures BytesApart(a, live[a].size, b, live[b].size)
  {
    LiveLiesIn(table, nextId, live, headers, a);
    LiveLiesIn(table, nextId, live, headers, b);
    assert IsRun(table, a, live[a]) && IsRun(table, b, live[b]);
    if live[a].box == live[b].box {
      var runs := table[live[a].box].runs;
      assert live[a].start in runs && live[b].start in runs && live[a].start != live[b].start;
    } else {
      PagesApart(table[live[a].box].page, table[live[b].box].page);
    }
  }

  lemma PagesApart(p: nat, q: nat)
    requires p % PAGE_SIZE == 0 && q % PAGE_SIZE == 0 && p != q
    ensures p + PAGE_SIZE <= q || q + PAGE_SIZE <= p
  {
  }
}
