/** One per-type component table of the registry: the
    `Dictionary<int, EcsComponent>` that maps entity ids to components.

    Lookups go through `entries`; `order` records the order a `foreach`
    over the dictionary visits the keys, which for a .NET `Dictionary`
    without removals is insertion order. After a removal .NET may reuse the
    freed slot; the model keeps the relative order of the remaining keys. */
module Store {
  import opened Wrappers
  import opened Components

  datatype Store = Store(order: seq<int>, entries: map<int, Component>)

  const Empty: Store := Store([], map[])

  /** No id occurs twice in `s`. */
  predicate Distinct(s: seq<int>) {
    forall i, j | 0 <= i < j < |s| :: s[i] != s[j]
  }

  /** The representation invariant: every key is visited exactly once. */
  predicate Valid(st: Store) {
    && Distinct(st.order)
    && (forall id | id in st.entries :: id in st.order)
    && (forall i | 0 <= i < |st.order| :: st.order[i] in st.entries)
  }

  lemma EmptyValid()
    ensures Valid(Empty)
  {
  }

  /** `Dictionary.Add(id, c)`: fails on a present key, otherwise inserts
      the new key at the end of the iteration order. */
  function Add(st: Store, id: int, c: Component): (r: Result<Store>)
    requires Valid(st)
    ensures r.Err? <==> id in st.entries
    ensures r.Err? ==> r.error == DuplicateKey
    ensures r.Ok? ==> Valid(r.value)
    ensures r.Ok? ==> id in r.value.entries && r.value.entries[id] == c
    ensures r.Ok? ==> forall k :: k != id ==> (k in r.value.entries <==> k in st.entries)
    ensures r.Ok? ==> forall k :: k != id && k in st.entries ==> r.value.entries[k] == st.entries[k]
    ensures r.Ok? ==> r.value.order == st.order + [id]
  {
    if id in st.entries then Err(DuplicateKey)
    else Ok(Store(st.order + [id], st.entries[id := c]))
  }

  /** Replaces the value of a present key, as an in-place update of the
      component object does; the iteration order is untouched. */
  function Set(st: Store, id: int, c: Component): (r: Store)
    requires Valid(st) && id in st.entries
    ensures Valid(r) && r.order == st.order
    ensures r.entries.Keys == st.entries.Keys
    ensures r.entries[id] == c
    ensures forall k :: k in st.entries && k != id ==> r.entries[k] == st.entries[k]
  {
    Store(st.order, st.entries[id := c])
  }

  /** The position of the first occurrence of `k` in `s`, or `|s|` when
      `k` does not occur. */
  function Pos(s: seq<int>, k: int): (n: nat)
    ensures n <= |s|
    ensures k in s <==> n < |s|
    ensures n < |s| ==> s[n] == k
    ensures forall m | 0 <= m < n :: s[m] != k
  {
    if |s| == 0 || s[0] == k then 0 else 1 + Pos(s[1..], k)
  }

  /** In a duplicate-free sequence every element's position is its index. */
  lemma PosOfDistinct(s: seq<int>)
    requires Distinct(s)
    ensures forall m | 0 <= m < |s| :: Pos(s, s[m]) == m
  {
  }

  /** Every occurrence of `x` dropped from `s`, the rest in order. */
  function Without(s: seq<int>, x: int): (r: seq<int>)
    ensures forall y :: y in r <==> y in s && y != x
    ensures |r| <= |s|
  {
    if |s| == 0 then []
    else if s[0] == x then Without(s[1..], x)
    else [s[0]] + Without(s[1..], x)
  }

  lemma DistinctTail(s: seq<int>)
    requires |s| > 0 && Distinct(s)
    ensures Distinct(s[1..]) && s[0] !in s[1..]
  {
    forall i, j | 0 <= i < j < |s[1..]| ensures s[1..][i] != s[1..][j] {
      assert s[1..][i] == s[i + 1] && s[1..][j] == s[j + 1];
    }
  }

  lemma DistinctCons(x: int, t: seq<int>)
    requires Distinct(t) && x !in t
    ensures Distinct([x] + t)
  {
    forall i, j | 0 <= i < j < |[x] + t| ensures ([x] + t)[i] != ([x] + t)[j] {
      assert ([x] + t)[j] == t[j - 1];
      if i > 0 {
        assert ([x] + t)[i] == t[i - 1];
      }
    }
  }

  lemma {:induction false} WithoutDistinct(s: seq<int>, x: int)
    requires Distinct(s)
    ensures Distinct(Without(s, x))
  {
    if |s| > 0 {
      DistinctTail(s);
      WithoutDistinct(s[1..], x);
      if s[0] != x {
        DistinctCons(s[0], Without(s[1..], x));
      }
    }
  }

  /** `Dictionary.Remove(id)`: a missing key leaves the table as it is. */
  function Remove(st: Store, id: int): (r: Store)
    requires Valid(st)
    ensures Valid(r)
    ensures id !in r.entries
    ensures forall k :: k != id ==> (k in r.entries <==> k in st.entries)
    ensures forall k :: k != id && k in st.entries ==> r.entries[k] == st.entries[k]
    ensures id !in st.entries ==> r == st
  {
    WithoutDistinct(st.order, id);
    if id !in st.entries then
      assert id !in st.order;
      WithoutAbsent(st.order, id);
      st
    else
      var order := Without(st.order, id);
      assert forall i | 0 <= i < |order| :: order[i] in st.order && order[i] != id;
      Store(order, st.entries - {id})
  }

  lemma {:induction false} WithoutAbsent(s: seq<int>, x: int)
    requires x !in s
    ensures Without(s, x) == s
  {
    if |s| > 0 {
      WithoutAbsent(s[1..], x);
    }
  }

  /** `dict[id]` (`TryGetValue` in the `Option` form). */
  function Get(st: Store, id: int): Option<Component> {
    if id in st.entries then Some(st.entries[id]) else None
  }
}
