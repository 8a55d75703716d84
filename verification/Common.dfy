/** What several modules share. */
module Common {
  const PAGE_SIZE: nat := 4096
  /** The values of a 32-bit word. */
  const WORD: nat := 0x1_0000_0000

  datatype Option<T> = None | Some(value: T)

  function Min(a: int, b: int): int {
    if a < b then a else b
  }

  function Max(a: int, b: int): int {
    if a > b then a else b
  }

  /** `q` without the element at `i`. */
  function RemoveAt<T>(q: seq<T>, i: nat): (r: seq<T>)
    requires i < |q|
    ensures |r| == |q| - 1
    ensures forall j {:trigger r[j]} | 0 <= j < |r| :: r[j] == if j < i then q[j] else q[j + 1]
  {
    q[..i] + q[i + 1..]
  }

  /** `at` gives the one position of every member of `items`. */
  ghost predicate Positions<T>(items: seq<T>, at: map<T, nat>) {
    && (forall i {:trigger items[i] in at} | 0 <= i < |items| :: items[i] in at && at[items[i]] == i)
    && (forall t {:trigger t in at} | t in at :: at[t] < |items| && items[at[t]] == t)
  }

  /** The positions once the member at `k` is gone. */
  ghost function Shifted<T>(at: map<T, nat>, t: T, k: nat): map<T, nat> {
    map u | u in at && u != t :: if at[u] > k then at[u] - 1 else at[u]
  }

  lemma PositionsWithout<T>(items: seq<T>, at: map<T, nat>, k: nat)
    requires Positions(items, at) && k < |items|
    ensures Positions(RemoveAt(items, k), Shifted(at, items[k], k))
    ensures Shifted(at, items[k], k).Keys == at.Keys - {items[k]}
  {
    var rest, at' := RemoveAt(items, k), Shifted(at, items[k], k);
    forall i | 0 <= i < |rest| ensures rest[i] in at' && at'[rest[i]] == i {
      assert items[if i < k then i else i + 1] in at && items[k] in at;
    }
    forall t | t in at' ensures at'[t] < |rest| && rest[at'[t]] == t {
      assert items[at[t]] == t;
    }
  }
}
