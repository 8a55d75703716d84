/** The open-addressed index of boxes in mem/alloc.c: linear probing, and a removal that
    rehashes the rest of the cluster. */
module BoxHash {
  import opened Common

  const BOX_HASH_SIZE: nat := 256

  /** A slot is empty when its value is null; its key may then be stale. */
  datatype Slot<V> = Slot(key: nat, value: Option<V>)

  /** box_hash_resolve_index. */
  function Home(id: nat): (h: nat)
    ensures h < BOX_HASH_SIZE
  {
    ((id * 2654435761) % 0x1_0000_0000) % BOX_HASH_SIZE
  }

  lemma Residue(x: nat, k: nat, r: nat)
    requires x == 256 * k + r && r < 256
    ensures x % 256 == r
  {
  }

  /** The multiplier's low byte is 177, whose inverse modulo 256 is 81. */
  lemma HomeIs(id: nat)
    ensures Home(id) == id % 256 * 177 % 256 && Home(id) * 81 % 256 == id % 256
  {
    var a, r := id / 256, id % 256;
    var product := id * 2654435761;
    var q, h := product / 0x1_0000_0000, r * 177 % 256;
    var k := r * 177 / 256;
    Residue(product % 0x1_0000_0000, a * 2654435761 + r * 10368889 + k - q * 16777216, h);
    Residue(h * 81, 56 * r - 81 * k, r);
  }

  /** Of any 256 identifiers in a row each has a home of its own. */
  lemma HomesSpread(i: nat, j: nat)
    ensures Home(i) == Home(j) <==> i % 256 == j % 256
  {
    HomeIs(i);
    HomeIs(j);
  }

  /** The next slot in probe order. */
  function Next(i: nat): (r: nat)
    requires i < BOX_HASH_SIZE
    ensures r < BOX_HASH_SIZE
  {
    if i == BOX_HASH_SIZE - 1 then 0 else i + 1
  }

  /** Steps from slot `a` forward to slot `b`. */
  function Dist(a: nat, b: nat): (r: nat)
    requires a < BOX_HASH_SIZE && b < BOX_HASH_SIZE
    ensures r < BOX_HASH_SIZE
  {
    if a <= b then b - a else b + BOX_HASH_SIZE - a
  }

  /** Slot `x` is probed on the way from `h` to `i`, both ends included. */
  predicate OnPath(h: nat, x: nat, i: nat)
    requires h < BOX_HASH_SIZE && x < BOX_HASH_SIZE && i < BOX_HASH_SIZE
  {
    Dist(h, x) <= Dist(h, i)
  }

  predicate IsTable<V>(t: seq<Slot<V>>) {
    |t| == BOX_HASH_SIZE
  }

  predicate Occ<V>(t: seq<Slot<V>>, i: nat)
    requires IsTable(t) && i < BOX_HASH_SIZE
  {
    t[i].value.Some?
  }

  /** No key is in two slots. */
  ghost predicate Distinct<V>(t: seq<Slot<V>>) {
    IsTable(t) && forall i, j | 0 <= i < j < BOX_HASH_SIZE && Occ(t, i) && Occ(t, j) :: t[i].key != t[j].key
  }

  /** Every slot on the way from its key's home to slot `i` is occupied. */
  ghost predicate Reachable<V>(t: seq<Slot<V>>, i: nat)
    requires IsTable(t) && i < BOX_HASH_SIZE
  {
    forall x: nat | x < BOX_HASH_SIZE && OnPath(Home(t[i].key), x, i) :: Occ(t, x)
  }

  ghost predicate ValidTable<V>(t: seq<Slot<V>>) {
    && Distinct(t)
    && (forall i: nat | i < BOX_HASH_SIZE && Occ(t, i) :: Reachable(t, i))
    && exists e: nat | e < BOX_HASH_SIZE :: !Occ(t, e)
  }

  /** Slot `i` holds key `k`. */
  ghost predicate Holds<V>(t: seq<Slot<V>>, k: nat, i: nat)
    requires IsTable(t)
  {
    i < BOX_HASH_SIZE && Occ(t, i) && t[i].key == k
  }

  ghost function Keys<V>(t: seq<Slot<V>>): (s: set<nat>)
    requires IsTable(t)
    ensures forall k :: k in s <==> exists i: nat :: Holds(t, k, i)
  {
    var s := set i: nat | i < BOX_HASH_SIZE && Occ(t, i) :: t[i].key;
    assert forall k, i: nat | Holds(t, k, i) :: k in s;
    assert forall k | k in s :: exists i: nat :: Holds(t, k, i) by {
      forall k | k in s ensures exists i: nat :: Holds(t, k, i) {
        var i: nat :| i < BOX_HASH_SIZE && Occ(t, i) && t[i].key == k;
        assert Holds(t, k, i);
      }
    }
    s
  }

  ghost function SlotOf<V>(t: seq<Slot<V>>, k: nat): (i: nat)
    requires IsTable(t) && k in Keys(t)
    ensures Holds(t, k, i)
  {
    var i: nat :| Holds(t, k, i); i
  }

  /** The finite map a table stands for. */
  ghost function Contents<V>(t: seq<Slot<V>>): map<nat, V>
    requires IsTable(t)
  {
    map k | k in Keys(t) :: t[SlotOf(t, k)].value.value
  }

  lemma ContentsAt<V>(t: seq<Slot<V>>, k: nat, i: nat)
    requires Distinct(t) && Holds(t, k, i)
    ensures k in Contents(t) && Contents(t)[k] == t[i].value.value
  {
    var j := SlotOf(t, k);
    assert i == j || i < j || j < i;
  }

  lemma EmptyTable<V>(t: seq<Slot<V>>)
    requires IsTable(t) && forall i: nat | i < BOX_HASH_SIZE :: !Occ(t, i)
    ensures ValidTable(t) && Contents(t) == map[]
  {
    assert !Occ(t, 0);
    assert forall k, i: nat :: !Holds(t, k, i);
  }

  lemma FillContents<V>(t: seq<Slot<V>>, j: nat, k: nat, v: V)
    requires Distinct(t) && j < BOX_HASH_SIZE && !Occ(t, j) && k !in Contents(t)
    ensures Distinct(t[j := Slot(k, Some(v))])
    ensures Contents(t[j := Slot(k, Some(v))]) == Contents(t)[k := v]
  {
    var u := t[j := Slot(k, Some(v))];
    assert forall i: nat | i < BOX_HASH_SIZE && i != j :: Occ(u, i) == Occ(t, i) && u[i] == t[i];
    assert forall i: nat :: !Holds(t, k, i);
    assert forall key, i: nat | key != k :: Holds(u, key, i) <==> Holds(t, key, i);
    assert Holds(u, k, j);
    forall i: nat | i < BOX_HASH_SIZE && i != j && Occ(u, i) ensures u[i].key != k {
      assert Holds(t, u[i].key, i);
    }
    assert Distinct(u);
    assert Keys(u) == Keys(t) + {k};
    forall key | key in Keys(u) ensures Contents(u)[key] == Contents(t)[k := v][key] {
      var i := SlotOf(u, key);
      ContentsAt(u, key, i);
      if key != k {
        ContentsAt(t, key, i);
      }
    }
  }

  /** Slot `i` emptied; its key stays behind. */
  function Cleared<V>(t: seq<Slot<V>>, i: nat): (u: seq<Slot<V>>)
    requires IsTable(t) && i < BOX_HASH_SIZE
    ensures IsTable(u) && !Occ(u, i)
    ensures forall x: nat | x < BOX_HASH_SIZE && x != i :: Occ(u, x) == Occ(t, x) && u[x] == t[x]
  {
    t[i := t[i].(value := None)]
  }

  lemma ClearHolds<V>(t: seq<Slot<V>>, i: nat)
    requires Distinct(t) && i < BOX_HASH_SIZE && Occ(t, i)
    ensures Distinct(Cleared(t, i))
    ensures forall key, j: nat {:trigger Holds(Cleared(t, i), key, j)} ::
              Holds(Cleared(t, i), key, j) <==> key != t[i].key && Holds(t, key, j)
  {
    var u := Cleared(t, i);
    assert Holds(t, t[i].key, i);
    assert forall j: nat | j < BOX_HASH_SIZE && j != i :: Occ(u, j) == Occ(t, j) && u[j] == t[j];
  }

  lemma ClearContents<V>(t: seq<Slot<V>>, i: nat)
    requires Distinct(t) && i < BOX_HASH_SIZE && Occ(t, i)
    ensures Distinct(Cleared(t, i))
    ensures Contents(Cleared(t, i)) == Contents(t) - {t[i].key}
    ensures t[i].key in Contents(t) && Contents(t)[t[i].key] == t[i].value.value
  {
    var u := Cleared(t, i);
    var k := t[i].key;
    ClearHolds(t, i);
    assert Holds(t, k, i);
    ContentsAt(t, k, i);
    assert Keys(u) == Keys(t) - {k};
    forall key | key in Keys(u) ensures Contents(u)[key] == Contents(t)[key] {
      var j := SlotOf(u, key);
      ContentsAt(u, key, j);
      ContentsAt(t, key, j);
    }
  }

  /** A stored key is met before the first empty slot on the way from its home. */
  lemma StoredBeforeEmpty<V>(t: seq<Slot<V>>, id: nat, e: nat)
    requires ValidTable(t) && e < BOX_HASH_SIZE && !Occ(t, e)
    requires forall x: nat | x < BOX_HASH_SIZE && OnPath(Home(id), x, e) && Occ(t, x) :: t[x].key != id
    ensures id !in Contents(t)
  {
    forall i: nat | i < BOX_HASH_SIZE && Occ(t, i) ensures t[i].key != id {
      assert Reachable(t, i);
    }
    assert forall i: nat :: !Holds(t, id, i);
  }

  // ------------------------------------------------------- removal's rehash

  /** While the cluster behind the cleared slot `d` is rehashed up to slot `idx`: from `idx` to
      the empty slot `e` nothing has moved, and a path is broken only at a slot already
      passed, and only for an entry still to be moved. */
  ghost predicate Rehashing<V>(t: seq<Slot<V>>, d: nat, idx: nat, e: nat) {
    && Distinct(t) && d < BOX_HASH_SIZE && idx < BOX_HASH_SIZE && e < BOX_HASH_SIZE
    && !Occ(t, e) && 0 < Dist(d, idx) <= Dist(d, e)
    && (forall y: nat | y < BOX_HASH_SIZE && Dist(d, idx) <= Dist(d, y) < Dist(d, e) :: Occ(t, y))
    && (forall i: nat, x: nat | i < BOX_HASH_SIZE && x < BOX_HASH_SIZE && Occ(t, i) ::
         PathOk(t, d, idx, e, i, x))
  }

  ghost predicate PathOk<V>(t: seq<Slot<V>>, d: nat, idx: nat, e: nat, i: nat, x: nat)
    requires IsTable(t) && d < BOX_HASH_SIZE && idx < BOX_HASH_SIZE && e < BOX_HASH_SIZE
    requires i < BOX_HASH_SIZE && x < BOX_HASH_SIZE
  {
    OnPath(Home(t[i].key), x, i) ==> Occ(t, x) || Dist(d, x) < Dist(d, idx) <= Dist(d, i) < Dist(d, e)
  }

  /** The first empty slot behind an occupied one. */
  lemma FirstEmptyBehind<V>(t: seq<Slot<V>>, d: nat) returns (e: nat)
    requires ValidTable(t) && d < BOX_HASH_SIZE && Occ(t, d)
    ensures e < BOX_HASH_SIZE && !Occ(t, e)
    ensures forall y: nat | y < BOX_HASH_SIZE && Dist(d, y) < Dist(d, e) :: Occ(t, y)
  {
    var f: nat :| f < BOX_HASH_SIZE && !Occ(t, f);
    e := d;
    while Occ(t, e)
      invariant e < BOX_HASH_SIZE && Dist(d, e) <= Dist(d, f)
      invariant forall y: nat | y < BOX_HASH_SIZE && Dist(d, y) < Dist(d, e) :: Occ(t, y)
      decreases Dist(d, f) - Dist(d, e)
    {
      e := Next(e);
    }
  }

  /** Clearing the key's slot starts the rehash. */
  lemma RehashStarts<V>(t: seq<Slot<V>>, d: nat, e: nat)
    requires ValidTable(t) && d < BOX_HASH_SIZE && Occ(t, d)
    requires e < BOX_HASH_SIZE && !Occ(t, e)
    requires forall y: nat | y < BOX_HASH_SIZE && Dist(d, y) < Dist(d, e) :: Occ(t, y)
    ensures Rehashing(Cleared(t, d), d, Next(d), e)
  {
    var u := Cleared(t, d);
    ClearContents(t, d);
    forall i: nat, x: nat | i < BOX_HASH_SIZE && x < BOX_HASH_SIZE && Occ(u, i)
      ensures PathOk(u, d, Next(d), e, i, x)
    {
      assert Reachable(t, i);
      if OnPath(Home(u[i].key), x, i) && !Occ(u, x) {
        assert Occ(t, x) && x == d;
        assert !OnPath(Home(u[i].key), e, i);
      }
    }
  }

  /** Clearing the slot at hand breaks paths only where that is allowed one step further on. */
  lemma ClearedPath<V>(t: seq<Slot<V>>, d: nat, idx: nat, e: nat, i: nat)
    requires Rehashing(t, d, idx, e) && Occ(t, idx)
    requires i < BOX_HASH_SIZE && Occ(t, i) && i != idx && OnPath(Home(t[i].key), idx, i)
    ensures Dist(d, idx) < Dist(d, i) < Dist(d, e)
  {
    assert PathOk(t, d, idx, e, i, e);
  }

  /** Where the moved entry lands: in a hole already passed, or back in its own slot. */
  lemma LandsBehind<V>(t: seq<Slot<V>>, d: nat, idx: nat, e: nat, j: nat)
    requires Rehashing(t, d, idx, e) && Occ(t, idx) && Lands(t, idx, j)
    ensures Dist(d, j) <= Dist(d, idx)
  {
    assert !Occ(Cleared(t, idx), idx);
    assert OnPath(Home(t[idx].key), idx, j) ==> idx == j;
    assert PathOk(t, d, idx, e, idx, j);
  }

  function Moved<V>(t: seq<Slot<V>>, idx: nat, j: nat): (u: seq<Slot<V>>)
    requires IsTable(t) && idx < BOX_HASH_SIZE && j < BOX_HASH_SIZE && Occ(t, idx)
    ensures IsTable(u) && Occ(u, j) && u[j] == t[idx]
    ensures forall x: nat | x < BOX_HASH_SIZE && x != j && x != idx :: Occ(u, x) == Occ(t, x) && u[x] == t[x]
    ensures j != idx ==> !Occ(u, idx)
  {
    Cleared(t, idx)[j := t[idx]]
  }

  /** `j` is where box_hash_insert puts the entry taken from `idx`. */
  ghost predicate Lands<V>(t: seq<Slot<V>>, idx: nat, j: nat)
    requires IsTable(t) && idx < BOX_HASH_SIZE
  {
    && j < BOX_HASH_SIZE && !Occ(Cleared(t, idx), j)
    && forall x: nat | x < BOX_HASH_SIZE && OnPath(Home(t[idx].key), x, j) && x != j :: Occ(Cleared(t, idx), x)
  }

  lemma MovedPath<V>(t: seq<Slot<V>>, d: nat, idx: nat, e: nat, j: nat, i: nat, x: nat)
    requires Rehashing(t, d, idx, e) && Occ(t, idx) && Lands(t, idx, j)
    requires Dist(d, idx) < Dist(d, e)
    requires i < BOX_HASH_SIZE && x < BOX_HASH_SIZE && Occ(Moved(t, idx, j), i)
    ensures PathOk(Moved(t, idx, j), d, Next(idx), e, i, x)
  {
    if i != j {
      assert i != idx && Occ(t, i) && PathOk(t, d, idx, e, i, x);
      if OnPath(Home(t[i].key), x, i) && x == idx {
        ClearedPath(t, d, idx, e, i);
      }
    }
  }

  /** Moving the entry at `idx` to the first empty slot from its home advances the rehash. */
  lemma RehashStep<V>(t: seq<Slot<V>>, d: nat, idx: nat, e: nat, j: nat)
    requires Rehashing(t, d, idx, e) && Occ(t, idx) && Lands(t, idx, j)
    ensures Rehashing(Moved(t, idx, j), d, Next(idx), e)
    ensures Contents(Moved(t, idx, j)) == Contents(t)
  {
    LandsBehind(t, d, idx, e, j);
    MovedContents(t, idx, j);
    var u := Moved(t, idx, j);
    assert Dist(d, idx) < Dist(d, e);
    forall i: nat, x: nat | i < BOX_HASH_SIZE && x < BOX_HASH_SIZE && Occ(u, i)
      ensures PathOk(u, d, Next(idx), e, i, x)
    {
      MovedPath(t, d, idx, e, j, i, x);
    }
    forall y: nat | y < BOX_HASH_SIZE && Dist(d, Next(idx)) <= Dist(d, y) < Dist(d, e) ensures Occ(u, y) {
      assert Occ(t, y) && y != idx && y != j;
    }
  }

  lemma MovedContents<V>(t: seq<Slot<V>>, idx: nat, j: nat)
    requires Distinct(t) && idx < BOX_HASH_SIZE && Occ(t, idx) && Lands(t, idx, j)
    ensures Distinct(Moved(t, idx, j)) && Contents(Moved(t, idx, j)) == Contents(t)
  {
    var k, v := t[idx].key, t[idx].value.value;
    ClearContents(t, idx);
    assert t[idx] == Slot(k, Some(v));
    FillContents(Cleared(t, idx), j, k, v);
    PutBack(Contents(t), k);
  }

  lemma PutBack<V>(m: map<nat, V>, k: nat)
    requires k in m
    ensures (m - {k})[k := m[k]] == m
  {
  }

  /** When the rehash has met the empty slot, the table is valid again. */
  lemma RehashEnds<V>(t: seq<Slot<V>>, d: nat, idx: nat, e: nat)
    requires Rehashing(t, d, idx, e) && !Occ(t, idx)
    ensures ValidTable(t)
  {
    assert idx == e;
    forall i: nat | i < BOX_HASH_SIZE && Occ(t, i) ensures Reachable(t, i) {
      forall x: nat | x < BOX_HASH_SIZE && OnPath(Home(t[i].key), x, i) ensures Occ(t, x) {
        assert PathOk(t, d, idx, e, i, x);
      }
    }
  }

  ghost function KeysTo<V>(t: seq<Slot<V>>, n: nat): set<nat>
    requires IsTable(t) && n <= BOX_HASH_SIZE
  {
    if n == 0 then {} else KeysTo(t, n - 1) + if Occ(t, n - 1) then {t[n - 1].key} else {}
  }

  lemma {:induction false} KeysToMeans<V>(t: seq<Slot<V>>, n: nat, k: nat)
    requires IsTable(t) && n <= BOX_HASH_SIZE && k in KeysTo(t, n)
    ensures exists i: nat | i < n :: Holds(t, k, i)
    decreases n
  {
    if Occ(t, n - 1) && t[n - 1].key == k {
      assert Holds(t, k, n - 1);
    } else {
      KeysToMeans(t, n - 1, k);
    }
  }

  lemma {:induction false} KeysToMany<V>(t: seq<Slot<V>>, n: nat, j: nat)
    requires Distinct(t) && n <= BOX_HASH_SIZE
    requires forall i: nat | i < n && i != j :: Occ(t, i)
    ensures |KeysTo(t, n)| >= n - if j < n then 1 else 0
    decreases n
  {
    if n > 0 {
      KeysToMany(t, n - 1, j);
      if Occ(t, n - 1) && t[n - 1].key in KeysTo(t, n - 1) {
        KeysToMeans(t, n - 1, t[n - 1].key);
      }
    }
  }

  /** Pigeonhole: with fewer than 255 keys, more than one slot is empty. */
  lemma AnotherEmpty<V>(t: seq<Slot<V>>, j: nat) returns (e: nat)
    requires Distinct(t) && |Contents(t)| < BOX_HASH_SIZE - 1
    ensures e < BOX_HASH_SIZE && e != j && !Occ(t, e)
  {
    if forall i: nat | i < BOX_HASH_SIZE && i != j :: Occ(t, i) {
      KeysToMany(t, BOX_HASH_SIZE, j);
      forall k | k in KeysTo(t, BOX_HASH_SIZE) ensures k in Contents(t) {
        KeysToMeans(t, BOX_HASH_SIZE, k);
      }
      SubsetSize(KeysTo(t, BOX_HASH_SIZE), Contents(t).Keys);
      assert false;
    }
    e :| e < BOX_HASH_SIZE && e != j && !Occ(t, e);
  }

  lemma {:induction false} SubsetSize(a: set<nat>, b: set<nat>)
    requires a <= b
    ensures |a| <= |b|
  {
    if a != {} {
      var x :| x in a;
      SubsetSize(a - {x}, b - {x});
    }
  }

  /** An insertion that fills slot `j`, the first empty one from the key's home, and leaves
      slot `e` empty. */
  lemma InsertValid<V>(t: seq<Slot<V>>, j: nat, k: nat, v: V, e: nat)
    requires ValidTable(t) && k !in Contents(t)
    requires j < BOX_HASH_SIZE && !Occ(t, j) && e < BOX_HASH_SIZE && e != j && !Occ(t, e)
    requires forall x: nat | x < BOX_HASH_SIZE && OnPath(Home(k), x, j) && x != j :: Occ(t, x)
    ensures ValidTable(t[j := Slot(k, Some(v))])
  {
    var u := t[j := Slot(k, Some(v))];
    FillContents(t, j, k, v);
    forall i: nat | i < BOX_HASH_SIZE && Occ(u, i) ensures Reachable(u, i) {
      if i != j {
        assert Occ(t, i) && Reachable(t, i);
        assert forall x: nat | x < BOX_HASH_SIZE && Occ(t, x) :: Occ(u, x);
      }
    }
    assert !Occ(u, e);
  }

  /** Mentioning Opened(t) lets the verifier look into Represents(t, m). */
  ghost predicate Opened<V>(t: seq<Slot<V>>) {
    true
  }

  /** Table `t` is valid and stands for map `m`.  The body is instantiated only where Opened
      is mentioned, so that clients of the index reason about the map alone. */
  ghost predicate Represents<V>(t: seq<Slot<V>>, m: map<nat, V>) {
    forall u {:trigger Opened(u)} | Opened(u) :: u == t ==> ValidTable(u) && Contents(u) == m
  }

  class Index<V> {
    const slots: array<Slot<V>>
    /** What the index maps each key to. */
    ghost var contents: map<nat, V>

    ghost predicate Valid()
      reads this, slots
    {
      slots.Length == BOX_HASH_SIZE && Represents(slots[..], contents)
    }

    constructor ()
      ensures Valid() && contents == map[] && fresh(slots)
    {
      slots := new Slot<V>[BOX_HASH_SIZE](_ => Slot(0, None));
      contents := map[];
      new;
      EmptyTable(slots[..]);
    }

    /** The probe of box_hash_insert: the first empty slot from the key's home. */
    method Probe(id: nat) returns (idx: nat)
      requires slots.Length == BOX_HASH_SIZE && exists e: nat | e < BOX_HASH_SIZE :: !Occ(slots[..], e)
      ensures idx < BOX_HASH_SIZE && !Occ(slots[..], idx)
      ensures forall x: nat | x < BOX_HASH_SIZE && OnPath(Home(id), x, idx) && x != idx :: Occ(slots[..], x)
    {
      ghost var e: nat :| e < BOX_HASH_SIZE && !Occ(slots[..], e);
      ghost var h := Home(id);
      idx := Home(id);
      while slots[idx].value.Some?
        invariant idx < BOX_HASH_SIZE && Dist(h, idx) <= Dist(h, e)
        invariant forall x: nat | x < BOX_HASH_SIZE && OnPath(h, x, idx) && x != idx :: Occ(slots[..], x)
        decreases Dist(h, e) - Dist(h, idx)
      {
        assert Occ(slots[..], idx);
        idx := Next(idx);
      }
    }

    /** box_hash_insert, for a key that is not stored; one slot stays empty, as the probe
        loops have no other exit. */
    method Insert(id: nat, box: V)
      requires Valid() && id !in contents && |contents| < BOX_HASH_SIZE - 1
      modifies this`contents, slots
      ensures Valid() && contents == old(contents)[id := box]
    {
      assert Opened(slots[..]);
      var idx := Probe(id);
      ghost var e := AnotherEmpty(slots[..], idx);
      InsertValid(slots[..], idx, id, box, e);
      FillContents(slots[..], idx, id, box);
      contents := contents[id := box];
      slots[idx] := Slot(id, Some(box));
      assert slots[..] == old(slots[..])[idx := Slot(id, Some(box))];
    }

    /** box_hash_lookup. */
    method Lookup(id: nat) returns (r: Option<V>)
      requires Valid()
      ensures r == if id in contents then Some(contents[id]) else None
    {
      assert Opened(slots[..]);
      var idx, found := Find(id);
      if !found {
        return None;
      }
      assert Holds(slots[..], id, idx);
      ContentsAt(slots[..], id, idx);
      return slots[idx].value;
    }

    /** The probe shared by box_hash_lookup and box_hash_remove. */
    method Find(id: nat) returns (idx: nat, found: bool)
      requires Valid()
      ensures idx < BOX_HASH_SIZE
      ensures found ==> Holds(slots[..], id, idx)
      ensures !found ==> id !in contents
    {
      assert Opened(slots[..]);
      ghost var e: nat :| e < BOX_HASH_SIZE && !Occ(slots[..], e);
      ghost var h := Home(id);
      idx := Home(id);
      while true
        invariant idx < BOX_HASH_SIZE && Dist(h, idx) <= Dist(h, e)
        invariant forall x: nat | x < BOX_HASH_SIZE && OnPath(h, x, idx) && x != idx ::
                    Occ(slots[..], x) && slots[..][x].key != id
        decreases Dist(h, e) - Dist(h, idx)
      {
        if slots[idx].value.None? {
          StoredBeforeEmpty(slots[..], id, idx);
          return idx, false;
        }
        if slots[idx].key == id {
          return idx, true;
        }
        assert Occ(slots[..], idx);
        idx := Next(idx);
      }
    }

    /** box_hash_remove. */
    method Remove(id: nat)
      requires Valid()
      modifies this`contents, slots
      ensures Valid() && contents == old(contents) - {id}
    {
      assert Opened(slots[..]);
      var idx, found := Find(id);
      if !found {
        return;
      }
      ghost var d, t := idx, slots[..];
      ghost var e := FirstEmptyBehind(t, d);
      RehashStarts(t, d, e);
      ClearContents(t, d);
      contents := contents - {id};
      slots[idx] := slots[idx].(value := None);
      assert slots[..] == Cleared(t, d);
      RehashCluster(Next(idx), d, e);
    }

    /** The loop of box_hash_remove: reinsert every entry up to the next empty slot. */
    method RehashCluster(first: nat, ghost d: nat, ghost e: nat)
      requires slots.Length == BOX_HASH_SIZE && first < BOX_HASH_SIZE && Rehashing(slots[..], d, first, e)
      requires Contents(slots[..]) == contents
      modifies slots
      ensures Valid()
    {
      var idx: nat := first;
      while slots[idx].value.Some?
        invariant idx < BOX_HASH_SIZE && Rehashing(slots[..], d, idx, e)
        invariant Contents(slots[..]) == contents
        decreases Dist(d, e) - Dist(d, idx)
      {
        Rehash(idx, d, e);
        idx := Next(idx);
      }
      RehashEnds(slots[..], d, idx, e);
    }

    /** One round of the rehash: clear the slot, insert its entry again. */
    method Rehash(idx: nat, ghost d: nat, ghost e: nat)
      requires slots.Length == BOX_HASH_SIZE && idx < BOX_HASH_SIZE
      requires Rehashing(slots[..], d, idx, e) && Occ(slots[..], idx)
      modifies slots
      ensures Rehashing(slots[..], d, Next(idx), e) && Contents(slots[..]) == old(Contents(slots[..]))
      ensures Dist(d, Next(idx)) == Dist(d, idx) + 1
    {
      ghost var t := slots[..];
      var rekey, rebox := slots[idx].key, slots[idx].value.value;
      slots[idx] := slots[idx].(value := None);
      assert slots[..] == Cleared(t, idx) && !Occ(slots[..], idx);
      var j := Probe(rekey);
      assert Lands(t, idx, j);
      RehashStep(t, d, idx, e, j);
      slots[j] := Slot(rekey, Some(rebox));
      assert slots[..] == Moved(t, idx, j);
    }
  }
}
