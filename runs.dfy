/** The run-length encoding of one voxel column, as pure functions over its
    list of entries.

    An entry `Entry(pos, value)` closes a run: the cells `prev.pos < z <= pos`
    hold `value`, where `prev` is the entry below it. The lowest run reaches
    down without bound, and every cell above the last entry is empty.

    The column's mutators first copy the entries into a `TreeMap`, edit the
    map, then write it back through `setDataTree`. The map is modelled here
    as an ascending entry list, with `Put`, `ClearRange`, `ClearBelow` and
    `Merge` modelling `put`, `subMap(..).clear()`, `headMap(..).clear()` and
    the merging pass of `setDataTree`. */
module Runs {
  import opened Java

  datatype Entry<V> = Entry(pos: int, value: Option<V>)

  /** Positions strictly increase (a `TreeMap`'s keys, in order). */
  predicate Ascending<V>(s: seq<Entry<V>>) {
    forall i, j :: 0 <= i < j < |s| ==> s[i].pos < s[j].pos
  }

  /** Every position is a Java `int`. */
  predicate AllInt<V>(s: seq<Entry<V>>) {
    forall i :: 0 <= i < |s| ==> IsInt(s[i].pos)
  }

  /** The invariants `setDataTree` establishes: positions strictly increase,
      no entry repeats the value of the entry directly above it, and the
      topmost entry is not empty. */
  predicate Canonical<V(==)>(s: seq<Entry<V>>) {
    && Ascending(s)
    && (forall i :: 0 <= i < |s| - 1 ==> s[i].value != s[i + 1].value)
    && (|s| > 0 ==> s[|s| - 1].value.Some?)
  }

  /** The value of the lowest run, or empty for no entry at all. */
  function HeadValue<V>(s: seq<Entry<V>>): Option<V> {
    if s == [] then None else s[0].value
  }

  /** The first index whose position is at least `z`, or `|s|` when there is
      none: what `findIndexAbove` computes by binary search. */
  function IndexAbove<V>(s: seq<Entry<V>>, z: int): (i: nat)
    ensures i <= |s|
    ensures forall j :: 0 <= j < i ==> s[j].pos < z
    ensures i < |s| ==> z <= s[i].pos
  {
    if s == [] then 0
    else if z <= s[0].pos then 0
    else 1 + IndexAbove(s[1..], z)
  }

  /** The value of cell `z`: the value of the first entry at or above `z`,
      or empty above the last entry. */
  function ValueAt<V>(s: seq<Entry<V>>, z: int): Option<V> {
    var i := IndexAbove(s, z);
    if i == |s| then None else s[i].value
  }

  lemma IndexAboveUnique<V>(s: seq<Entry<V>>, z: int, i: nat)
    requires i <= |s|
    requires forall j :: 0 <= j < i ==> s[j].pos < z
    requires i < |s| ==> z <= s[i].pos
    ensures IndexAbove(s, z) == i
  {
  }

  lemma IndexAboveMonotone<V>(s: seq<Entry<V>>, z1: int, z2: int)
    requires z1 <= z2
    ensures IndexAbove(s, z1) <= IndexAbove(s, z2)
  {
  }

  /** In an ascending list, every cell of the run that entry `i` closes
      holds that entry's value. */
  lemma ValueInRun<V>(s: seq<Entry<V>>, i: nat, z: int)
    requires Ascending(s)
    requires i < |s| && z <= s[i].pos
    requires i == 0 || s[i - 1].pos < z
    ensures IndexAbove(s, z) == i
    ensures ValueAt(s, z) == s[i].value
  {
    IndexAboveUnique(s, z, i);
  }

  /** `TreeMap.put(k, v)`: map `k` to `v`, replacing an existing entry for `k`. */
  function Put<V(==)>(s: seq<Entry<V>>, k: int, v: Option<V>): (r: seq<Entry<V>>)
    requires Ascending(s)
    ensures Ascending(r)
    ensures IndexAbove(s, k) < |r| && r[IndexAbove(s, k)] == Entry(k, v)
    ensures |r| == |s| + 1 - (PutGap(s, k) - IndexAbove(s, k))
    ensures forall m :: 0 <= m < IndexAbove(s, k) ==> r[m] == s[m]
    ensures forall m :: IndexAbove(s, k) < m < |r| ==> r[m] == s[m - 1 + (PutGap(s, k) - IndexAbove(s, k))]
  {
    var i := IndexAbove(s, k);
    var j := PutGap(s, k);
    InsertLayout(s, i, j, Entry(k, v), s[..i] + [Entry(k, v)] + s[j..]);
    s[..i] + [Entry(k, v)] + s[j..]
  }

  /** The index above the entries that `put(k, v)` keeps on top: past the
      entry for `k` when there is one. */
  function PutGap<V>(s: seq<Entry<V>>, k: int): (j: nat)
    requires Ascending(s)
    ensures IndexAbove(s, k) <= j <= |s| && j <= IndexAbove(s, k) + 1
    ensures forall m :: j <= m < |s| ==> k < s[m].pos
    ensures j == IndexAbove(s, k) + 1 <==> IndexAbove(s, k) < |s| && s[IndexAbove(s, k)].pos == k
  {
    var i := IndexAbove(s, k);
    if i < |s| && s[i].pos == k then i + 1 else i
  }

  /** Writing `e` over the slice `[i, j)` of an ascending list, where `e`
      lies above everything below `i` and below everything from `j` on. */
  lemma InsertLayout<V>(s: seq<Entry<V>>, i: nat, j: nat, e: Entry<V>, r: seq<Entry<V>>)
    requires Ascending(s) && i <= j <= |s| && j <= i + 1
    requires forall m :: 0 <= m < i ==> s[m].pos < e.pos
    requires forall m :: j <= m < |s| ==> e.pos < s[m].pos
    requires r == s[..i] + [e] + s[j..]
    ensures && |r| == |s| + 1 - (j - i)
            && r[i] == e
            && (forall m :: 0 <= m < i ==> r[m] == s[m])
            && (forall m :: i < m < |r| ==> r[m] == s[m - 1 + (j - i)])
            && Ascending(r)
  {
    assert forall m :: 0 <= m < i ==> r[m] == s[m];
    assert forall m :: i < m < |r| ==> r[m] == s[m - 1 + (j - i)];
    forall p, q | 0 <= p < q < |r| ensures r[p].pos < r[q].pos {
      if q < i {
        assert r[p] == s[p] && r[q] == s[q];
      } else if q == i {
        assert r[p] == s[p];
      } else if p < i {
        assert r[p] == s[p] && r[q] == s[q - 1 + (j - i)];
      } else if p == i {
        assert r[q] == s[q - 1 + (j - i)];
      } else {
        assert r[p] == s[p - 1 + (j - i)] && r[q] == s[q - 1 + (j - i)];
      }
    }
  }

  /** After `put(k, v)`, exactly the cells that shared the run of `k` and lie
      at or below `k` read `v`; every other cell keeps its value. */
  lemma PutValue<V>(s: seq<Entry<V>>, k: int, v: Option<V>, z: int)
    requires Ascending(s)
    ensures ValueAt(Put(s, k, v), z)
            == if z <= k && IndexAbove(s, z) == IndexAbove(s, k) then v else ValueAt(s, z)
  {
    if z <= k {
      PutValueBelow(s, k, v, z);
    } else {
      PutValueAbove(s, k, v, z);
    }
  }

  lemma PutValueBelow<V>(s: seq<Entry<V>>, k: int, v: Option<V>, z: int)
    requires Ascending(s) && z <= k
    ensures ValueAt(Put(s, k, v), z)
            == if IndexAbove(s, z) == IndexAbove(s, k) then v else ValueAt(s, z)
  {
    var i, r := IndexAbove(s, k), Put(s, k, v);
    var j := IndexAbove(s, z);
    IndexAboveMonotone(s, z, k);
    if j == i {
      IndexAboveUnique(r, z, i);
    } else {
      assert r[j] == s[j];
      IndexAboveUnique(r, z, j);
    }
  }

  lemma PutValueAbove<V>(s: seq<Entry<V>>, k: int, v: Option<V>, z: int)
    requires Ascending(s) && k < z
    ensures ValueAt(Put(s, k, v), z) == ValueAt(s, z)
  {
    var i, j, r := IndexAbove(s, k), PutGap(s, k), Put(s, k, v);
    var n := IndexAbove(s, z);
    IndexAboveMonotone(s, k, z);
    assert j <= n;
    var d := n + 1 - (j - i);
    assert forall m :: 0 <= m < d ==> r[m].pos < z by {
      forall m | 0 <= m < d ensures r[m].pos < z {
        if m > i {
          assert r[m] == s[m - 1 + (j - i)];
        }
      }
    }
    assert d < |r| ==> r[d] == s[n];
    IndexAboveUnique(r, z, d);
  }

  /** `TreeMap.subMap(lo, hi).clear()`: remove every key in `[lo, hi)`. In an
      ascending list those keys form the slice between the two lower bounds. */
  function ClearRange<V(==)>(s: seq<Entry<V>>, lo: int, hi: int): (r: seq<Entry<V>>)
    requires Ascending(s) && lo <= hi
    ensures Ascending(r)
    ensures forall m :: 0 <= m < |r| ==> r[m] in s && !(lo <= r[m].pos < hi)
    ensures forall m :: 0 <= m < |s| && !(lo <= s[m].pos < hi) ==> s[m] in r
  {
    var a, b := IndexAbove(s, lo), IndexAbove(s, hi);
    IndexAboveMonotone(s, lo, hi);
    SpliceMembers(s, a, b);
    SliceBetween(s, lo, hi);
    s[..a] + s[b..]
  }

  /** In an ascending list, the keys in `[lo, hi)` sit between the two lower bounds. */
  lemma SliceBetween<V>(s: seq<Entry<V>>, lo: int, hi: int)
    requires Ascending(s) && lo <= hi
    ensures forall m :: 0 <= m < |s| ==>
              ((IndexAbove(s, lo) <= m < IndexAbove(s, hi)) <==> lo <= s[m].pos < hi)
  {
    var a, b := IndexAbove(s, lo), IndexAbove(s, hi);
    forall m | 0 <= m < |s| ensures (a <= m < b) <==> lo <= s[m].pos < hi {
      if a <= m && a < |s| { assert s[a].pos <= s[m].pos; }
      if b <= m && b < |s| { assert s[b].pos <= s[m].pos; }
    }
  }

  /** Cutting the slice `[a, b)` out of an ascending list keeps it ascending
      and keeps exactly the entries outside the slice. */
  lemma SpliceMembers<V>(s: seq<Entry<V>>, a: nat, b: nat)
    requires Ascending(s) && a <= b <= |s|
    ensures var r := s[..a] + s[b..];
            && |r| == |s| - (b - a)
            && Ascending(r)
            && (forall m :: 0 <= m < |r| ==> r[m] == s[if m < a then m else b + (m - a)])
            && (forall m :: 0 <= m < |s| && (m < a || b <= m) ==> s[m] in r)
  {
    var r := s[..a] + s[b..];
    assert forall m :: 0 <= m < |r| ==> r[m] == s[if m < a then m else b + (m - a)];
    forall m | 0 <= m < |s| && (m < a || b <= m) ensures s[m] in r {
      if m < a { assert r[m] == s[m]; } else { assert r[a + (m - b)] == s[m]; }
    }
  }

  /** Clearing `[lo, hi)` leaves a cell unchanged, except that a cell whose
      run was closed by a removed entry now reads the value of `hi`. */
  lemma ClearRangeValue<V>(s: seq<Entry<V>>, lo: int, hi: int, z: int)
    requires Ascending(s) && lo <= hi
    ensures ValueAt(ClearRange(s, lo, hi), z)
            == if IndexAbove(s, lo) <= IndexAbove(s, z) < IndexAbove(s, hi)
               then ValueAt(s, hi) else ValueAt(s, z)
  {
    var a, b := IndexAbove(s, lo), IndexAbove(s, hi);
    IndexAboveMonotone(s, lo, hi);
    var r := ClearRange(s, lo, hi);
    assert r == s[..a] + s[b..];
    SpliceIndex(s, a, b, z);
    var j := IndexAbove(s, z);
    if j < a {
      assert j < |r| ==> r[j] == s[j];
    } else if j < b {
      assert a < |r| ==> r[a] == s[b];
    } else {
      assert j - (b - a) < |r| ==> r[j - (b - a)] == s[j];
    }
  }

  /** Where a cell's index lands once the slice `[a, b)` is cut out. */
  lemma SpliceIndex<V>(s: seq<Entry<V>>, a: nat, b: nat, z: int)
    requires Ascending(s) && a <= b <= |s|
    ensures var j := IndexAbove(s, z);
            IndexAbove(s[..a] + s[b..], z) == if j <= a then j else if j <= b then a else j - (b - a)
  {
    var r := s[..a] + s[b..];
    var j := IndexAbove(s, z);
    var i := if j <= a then j else if j <= b then a else j - (b - a);
    forall m | 0 <= m < i ensures r[m].pos < z {
      if m < a {
        assert r[m] == s[m];
      } else {
        assert r[m] == s[b + (m - a)];
      }
    }
    if i < |r| {
      if i < a {
        assert r[i] == s[i];
      } else {
        var k := b + (i - a);
        assert r[i] == s[k];
        assert j <= k;
        if j < k {
          assert s[j].pos < s[k].pos;
        }
      }
    }
    IndexAboveUnique(r, z, i);
  }

  /** `TreeMap.headMap(hi).clear()`: remove every key below `hi`. */
  function ClearBelow<V(==)>(s: seq<Entry<V>>, hi: int): (r: seq<Entry<V>>)
    requires Ascending(s)
    ensures Ascending(r)
    ensures forall m :: 0 <= m < |r| ==> r[m] in s && hi <= r[m].pos
    ensures forall m :: 0 <= m < |s| && hi <= s[m].pos ==> s[m] in r
  {
    ClearBelowMembers(s, hi);
    s[IndexAbove(s, hi)..]
  }

  lemma ClearBelowMembers<V>(s: seq<Entry<V>>, hi: int)
    requires Ascending(s)
    ensures var r := s[IndexAbove(s, hi)..];
            && Ascending(r)
            && (forall m :: 0 <= m < |r| ==> r[m] in s && hi <= r[m].pos)
            && (forall m :: 0 <= m < |s| && hi <= s[m].pos ==> s[m] in r)
  {
    var b := IndexAbove(s, hi);
    var r := s[b..];
    forall m | 0 <= m < |s| && hi <= s[m].pos ensures s[m] in r {
      assert r[m - b] == s[m];
    }
    forall m | 0 <= m < |r| ensures r[m] in s && hi <= r[m].pos {
      assert r[m] == s[b + m];
    }
  }

  lemma ClearBelowValue<V>(s: seq<Entry<V>>, hi: int, z: int)
    requires Ascending(s)
    ensures ValueAt(ClearBelow(s, hi), z)
            == if IndexAbove(s, z) < IndexAbove(s, hi) then ValueAt(s, hi) else ValueAt(s, z)
  {
    var b := IndexAbove(s, hi);
    var r := ClearBelow(s, hi);
    assert r == s[b..];
    var j := IndexAbove(s, z);
    if j < b {
      IndexAboveUnique(r, z, 0);
    } else {
      IndexAboveUnique(r, z, j - b);
    }
  }

  /** The merging pass of `setDataTree`: walking down from the top with
      `prev` starting as null, drop every entry whose value equals `prev`,
      the value of the entry directly above it. */
  function Merge<V(==)>(s: seq<Entry<V>>): (r: seq<Entry<V>>)
  {
    if s == [] then []
    else (if s[0].value == HeadValue(s[1..]) then [] else [s[0]]) + Merge(s[1..])
  }

  /** The merging pass only drops entries: a bound on every position of
      `s` bounds every position of `Merge(s)`. */
  lemma {:induction false} MergeAbove<V>(s: seq<Entry<V>>, p: int)
    requires forall m :: 0 <= m < |s| ==> p < s[m].pos
    ensures forall m :: 0 <= m < |Merge(s)| ==> p < Merge(s)[m].pos
  {
    if s != [] {
      MergeAbove(s[1..], p);
      var h := if s[0].value == HeadValue(s[1..]) then [] else [s[0]];
      assert Merge(s) == h + Merge(s[1..]);
    }
  }

  /** The merging pass keeps every position a Java `int`. */
  lemma {:induction false} MergeAllInt<V>(s: seq<Entry<V>>)
    requires AllInt(s)
    ensures AllInt(Merge(s))
  {
    if s != [] {
      MergeAllInt(s[1..]);
      var h := if s[0].value == HeadValue(s[1..]) then [] else [s[0]];
      assert Merge(s) == h + Merge(s[1..]);
    }
  }

  /** One step of the merging pass, seen from position `k`. */
  lemma MergeStep<V>(s: seq<Entry<V>>, k: nat)
    requires k < |s|
    ensures HeadValue(s[k..]) == s[k].value
    ensures Merge(s[k..])
            == (if s[k].value == HeadValue(s[k + 1..]) then [] else [s[k]]) + Merge(s[k + 1..])
  {
    assert s[k..][1..] == s[k + 1..];
  }

  /** The descending scan of `setDataTree` at position `k`: the map holds
      the untouched entries below `k` and the merged ones from `k + 1` up;
      removing entry `k` when it repeats the value above it leaves the map
      merged from `k` up. */
  lemma MergeScanStep<V>(s: seq<Entry<V>>, k: nat)
    requires k < |s|
    ensures var kept := s[..k + 1] + Merge(s[k + 1..]);
            && kept[k] == s[k]
            && (if s[k].value == HeadValue(s[k + 1..])
                then kept[..k] + kept[k + 1..] else kept) == s[..k] + Merge(s[k..])
  {
    MergeStep(s, k);
    var kept := s[..k + 1] + Merge(s[k + 1..]);
    assert s[..k + 1] == s[..k] + [s[k]];
    if s[k].value == HeadValue(s[k + 1..]) {
      assert kept[..k] == s[..k];
      assert kept[k + 1..] == Merge(s[k + 1..]);
    }
  }

  lemma ValueAtCons<V>(s: seq<Entry<V>>, z: int)
    requires s != []
    ensures ValueAt(s, z) == if z <= s[0].pos then s[0].value else ValueAt(s[1..], z)
  {
  }

  lemma {:induction false} MergeHead<V>(s: seq<Entry<V>>)
    ensures HeadValue(Merge(s)) == HeadValue(s)
  {
    if s != [] {
      MergeHead(s[1..]);
    }
  }

  /** The merging pass yields a canonical list. */
  lemma {:induction false} MergeCanonical<V>(s: seq<Entry<V>>)
    requires Ascending(s)
    ensures Canonical(Merge(s))
  {
    if s != [] {
      var t := s[1..];
      MergeCanonical(t);
      MergeHead(t);
      var mt := Merge(t);
      if s[0].value != HeadValue(t) {
        assert Merge(s) == [s[0]] + mt;
        MergeAbove(t, s[0].pos);
        ConsCanonical(s[0], mt);
      } else {
        assert Merge(s) == mt;
      }
    }
  }

  /** Putting an entry below a canonical list keeps it canonical when the
      entry lies below every position and differs from the lowest value,
      and is not empty when it stands alone. */
  lemma ConsCanonical<V>(e: Entry<V>, mt: seq<Entry<V>>)
    requires Canonical(mt)
    requires forall m :: 0 <= m < |mt| ==> e.pos < mt[m].pos
    requires e.value != HeadValue(mt)
    ensures Canonical([e] + mt)
  {
    var r := [e] + mt;
    assert forall m :: 0 < m < |r| ==> r[m] == mt[m - 1];
    assert forall i, j :: 0 <= i < j < |r| ==> r[i].pos < r[j].pos by {
      forall i, j | 0 <= i < j < |r| ensures r[i].pos < r[j].pos {
        if i > 0 {
          assert r[i] == mt[i - 1] && r[j] == mt[j - 1];
        }
      }
    }
  }

  /** The merging pass changes no cell's value. */
  lemma {:induction false} MergeValue<V>(s: seq<Entry<V>>, z: int)
    requires Ascending(s)
    ensures ValueAt(Merge(s), z) == ValueAt(s, z)
  {
    if s != [] {
      var t := s[1..];
      MergeValue(t, z);
      ValueAtCons(s, z);
      if s[0].value != HeadValue(t) {
        var r := [s[0]] + Merge(t);
        assert Merge(s) == r;
        assert r[1..] == Merge(t);
        ValueAtCons(r, z);
      } else {
        assert Merge(s) == Merge(t);
        if z <= s[0].pos && t != [] {
          ValueInRun(t, 0, z);
        }
      }
    }
  }

  /** Merging a list that is already canonical changes nothing. */
  lemma MergeCanonicalIdentity<V>(s: seq<Entry<V>>)
    requires Canonical(s)
    ensures Merge(s) == s
  {
    MergeCanonical(s);
    forall z ensures ValueAt(Merge(s), z) == ValueAt(s, z) {
      MergeValue(s, z);
    }
    CanonicalUnique(Merge(s), s);
  }

  /** A canonical list is determined by the cell values it encodes: two
      canonical lists that agree on every cell are identical. */
  lemma {:induction false} CanonicalUnique<V>(a: seq<Entry<V>>, b: seq<Entry<V>>)
    requires Canonical(a) && Canonical(b)
    requires forall z :: ValueAt(a, z) == ValueAt(b, z)
    ensures a == b
  {
    if a == [] && b != [] {
      TopIsFull(b);
    } else if a != [] && b == [] {
      TopIsFull(a);
    } else if a != [] {
      SameFirstEntry(a, b);
      var a', b' := a[1..], b[1..];
      CanonicalTail(a);
      CanonicalTail(b);
      CanonicalUnique(a', b');
      assert a == [a[0]] + a' && b == [b[0]] + b';
    }
  }

  /** A non-empty canonical list holds a non-empty cell at its top entry. */
  lemma TopIsFull<V>(s: seq<Entry<V>>)
    requires Canonical(s) && s != []
    ensures ValueAt(s, s[|s| - 1].pos).Some?
  {
    ValueInRun(s, |s| - 1, s[|s| - 1].pos);
  }

  lemma CanonicalTail<V>(s: seq<Entry<V>>)
    requires Canonical(s) && s != []
    ensures Canonical(s[1..])
  {
  }

  /** Two non-empty canonical lists that agree on every cell have the same
      first entry, and their tails agree on every cell. */
  lemma SameFirstEntry<V>(a: seq<Entry<V>>, b: seq<Entry<V>>)
    requires Canonical(a) && Canonical(b) && a != [] && b != []
    requires forall z :: ValueAt(a, z) == ValueAt(b, z)
    ensures a[0] == b[0]
    ensures forall z :: ValueAt(a[1..], z) == ValueAt(b[1..], z)
  {
    var p, q := a[0].pos, b[0].pos;
    if p < q {
      NoStepInsideRun(b, a);
    } else if q < p {
      NoStepInsideRun(a, b);
    }
    assert p == q;
    ValueInRun(a, 0, p);
    ValueInRun(b, 0, p);
    forall z ensures ValueAt(a[1..], z) == ValueAt(b[1..], z) {
      TailValue(a, z);
      TailValue(b, z);
    }
  }

  /** The cell just above the first boundary of a canonical list differs
      from the cell at it; a list whose first boundary is higher cannot
      encode the same cells. */
  lemma NoStepInsideRun<V>(lower: seq<Entry<V>>, higher: seq<Entry<V>>)
    requires Canonical(lower) && Canonical(higher)
    requires lower != [] && higher != [] && higher[0].pos < lower[0].pos
    ensures exists z :: ValueAt(lower, z) != ValueAt(higher, z)
  {
    var p := higher[0].pos;
    ValueInRun(lower, 0, p);
    ValueInRun(lower, 0, p + 1);
    ValueInRun(higher, 0, p);
    if |higher| > 1 {
      ValueInRun(higher, 1, p + 1);
    } else {
      assert IndexAbove(higher, p + 1) == 1;
    }
    if ValueAt(lower, p) == ValueAt(higher, p) {
      assert ValueAt(lower, p + 1) != ValueAt(higher, p + 1);
    }
  }

  /** Below the first boundary, the tail of a list reads the value just above it. */
  lemma TailValue<V>(s: seq<Entry<V>>, z: int)
    requires Ascending(s) && s != []
    ensures ValueAt(s[1..], z)
            == if z <= s[0].pos then ValueAt(s, s[0].pos + 1) else ValueAt(s, z)
  {
    var t := s[1..];
    ValueAtCons(s, z);
    ValueAtCons(s, s[0].pos + 1);
    if z <= s[0].pos {
      assert forall m :: 0 <= m < |t| ==> s[0].pos + 1 <= t[m].pos;
      IndexAboveUnique(t, z, 0);
      IndexAboveUnique(t, s[0].pos + 1, 0);
    }
  }

  /** Putting a key's own current value changes no cell: the pinning `put`
      of the mutators only splits a run in two. */
  lemma PinValue<V>(s: seq<Entry<V>>, k: int, z: int)
    requires Ascending(s)
    ensures ValueAt(Put(s, k, ValueAt(s, k)), z) == ValueAt(s, z)
  {
    PutValue(s, k, ValueAt(s, k), z);
  }

  /** Two cells separated by no entry read through the same index. */
  lemma IndexAboveGap<V>(r: seq<Entry<V>>, z: int, hi: int)
    requires Ascending(r) && z <= hi
    requires forall m :: 0 <= m < |r| ==> !(z <= r[m].pos < hi)
    ensures IndexAbove(r, z) == IndexAbove(r, hi)
  {
    IndexAboveMonotone(r, z, hi);
  }

  /** The entry at `k` in `r` separates every cell below it from `hi` above it. */
  lemma IndexAboveSplit<V>(r: seq<Entry<V>>, m: nat, z: int, hi: int)
    requires Ascending(r) && m < |r| && z <= r[m].pos < hi
    ensures IndexAbove(r, z) <= m < IndexAbove(r, hi)
  {
  }

  /** The Java `int` expression `pos - 1`, which wraps to `MAX_INT` at `MIN_INT`. */
  function Below(pos: int): (k: int)
    ensures IsInt(pos) ==> k == Wrap(pos - 1) as int
  {
    if pos == MIN_INT then MAX_INT else pos - 1
  }

  /** `set(pos, t)` on the entry list: pin the value below `pos` at
      `pos - 1` (a Java `int` subtraction, so at `MIN_INT` it wraps to the
      top), put `t` at `pos`, then merge. */
  function SetRuns<V(==)>(s: seq<Entry<V>>, pos: int, t: Option<V>): (r: seq<Entry<V>>)
    requires Ascending(s)
    ensures Canonical(r)
  {
    var k := Below(pos);
    var pinned := Put(s, k, ValueAt(s, k));
    MergeCanonical(Put(pinned, pos, t));
    Merge(Put(pinned, pos, t))
  }

  /** `set(pos, t)` makes cell `pos` read `t` and leaves every other cell of
      the column unchanged. */
  lemma SetRunsValue<V>(s: seq<Entry<V>>, pos: int, t: Option<V>, z: int)
    requires Ascending(s) && IsInt(pos) && IsInt(z)
    ensures ValueAt(SetRuns(s, pos, t), z) == if z == pos then t else ValueAt(s, z)
  {
    var k := Below(pos);
    var s1 := Put(s, k, ValueAt(s, k));
    var s2 := Put(s1, pos, t);
    MergeValue(s2, z);
    PutValue(s1, pos, t, z);
    PinValue(s, k, z);
    if z < pos {
      assert k == pos - 1;
      IndexAboveSplit(s1, IndexAbove(s, k), z, pos);
    }
  }

  /** `setRange(lo, hi, t)` on the entry list: pin the value below `lo` at
      `lo - 1` (wrapping at `MIN_INT`), clear the keys in `[lo, hi)`, put `t`
      at `hi`, then merge. */
  function SetRangeRuns<V(==)>(s: seq<Entry<V>>, lo: int, hi: int, t: Option<V>): (r: seq<Entry<V>>)
    requires Ascending(s) && lo <= hi
    ensures Canonical(r)
  {
    var k := Below(lo);
    var cleared := ClearRange(Put(s, k, ValueAt(s, k)), lo, hi);
    MergeCanonical(Put(cleared, hi, t));
    Merge(Put(cleared, hi, t))
  }

  /** `setRange(lo, hi, t)` makes every cell of `[lo, hi]` read `t` and leaves
      every other cell unchanged. */
  lemma SetRangeRunsValue<V>(s: seq<Entry<V>>, lo: int, hi: int, t: Option<V>, z: int)
    requires Ascending(s) && lo <= hi && IsInt(lo) && IsInt(z)
    ensures ValueAt(SetRangeRuns(s, lo, hi, t), z)
            == if lo <= z <= hi then t else ValueAt(s, z)
  {
    var k := Below(lo);
    var s1 := Put(s, k, ValueAt(s, k));
    var s2 := ClearRange(s1, lo, hi);
    var s3 := Put(s2, hi, t);
    MergeValue(s3, z);
    PutValue(s2, hi, t, z);
    ClearRangeValue(s1, lo, hi, z);
    PinValue(s, k, z);
    if lo <= z <= hi {
      IndexAboveGap(s2, z, hi);
    } else if hi < z {
      IndexAboveMonotone(s1, hi, z);
    } else {
      assert k == lo - 1;
      var i1 := IndexAbove(s, k);
      IndexAboveSplit(s1, i1, z, lo);
      assert s1[i1] in s2;
      var m :| 0 <= m < |s2| && s2[m] == s1[i1];
      IndexAboveSplit(s2, m, z, hi);
    }
  }

  /** `setRangeInfinite(hi, t)` on the entry list: clear the keys below `hi`,
      put `t` at `hi`, then merge. */
  function SetRangeInfiniteRuns<V(==)>(s: seq<Entry<V>>, hi: int, t: Option<V>): (r: seq<Entry<V>>)
    requires Ascending(s)
    ensures Canonical(r)
  {
    var cleared := ClearBelow(s, hi);
    MergeCanonical(Put(cleared, hi, t));
    Merge(Put(cleared, hi, t))
  }

  /** `setRangeInfinite(hi, t)` makes every cell at or below `hi` read `t`
      and leaves every cell above `hi` unchanged. */
  lemma SetRangeInfiniteRunsValue<V>(s: seq<Entry<V>>, hi: int, t: Option<V>, z: int)
    requires Ascending(s)
    ensures ValueAt(SetRangeInfiniteRuns(s, hi, t), z) == if z <= hi then t else ValueAt(s, z)
  {
    var s1 := ClearBelow(s, hi);
    var s2 := Put(s1, hi, t);
    MergeValue(s2, z);
    PutValue(s1, hi, t, z);
    ClearBelowValue(s, hi, z);
    if z <= hi {
      IndexAboveGap(s1, z, hi);
    } else {
      IndexAboveMonotone(s, hi, z);
    }
  }

  lemma PutMembers<V>(s: seq<Entry<V>>, k: int, v: Option<V>)
    requires Ascending(s)
    ensures forall m :: 0 <= m < |Put(s, k, v)| ==> Put(s, k, v)[m] in s || Put(s, k, v)[m].pos == k
  {
  }

  /** A list whose entries all come from a list of `int` positions, or sit at
      the `int` position `k`, has `int` positions. */
  lemma AllIntFrom<V>(r: seq<Entry<V>>, s: seq<Entry<V>>, k: int)
    requires AllInt(s) && IsInt(k)
    requires forall m :: 0 <= m < |r| ==> r[m] in s || r[m].pos == k
    ensures AllInt(r)
  {
    forall m | 0 <= m < |r| ensures IsInt(r[m].pos) {
      if r[m] in s {
        var j :| 0 <= j < |s| && s[j] == r[m];
      }
    }
  }

  lemma PutAllInt<V>(s: seq<Entry<V>>, k: int, v: Option<V>)
    requires Ascending(s) && AllInt(s) && IsInt(k)
    ensures AllInt(Put(s, k, v))
  {
    PutMembers(s, k, v);
    AllIntFrom(Put(s, k, v), s, k);
  }

  /** `set` keeps every position a Java `int`. */
  lemma SetRunsAllInt<V>(s: seq<Entry<V>>, pos: int, t: Option<V>)
    requires Ascending(s) && AllInt(s) && IsInt(pos)
    ensures AllInt(SetRuns(s, pos, t))
  {
    var k := Below(pos);
    var s1 := Put(s, k, ValueAt(s, k));
    PutAllInt(s, k, ValueAt(s, k));
    PutAllInt(s1, pos, t);
    MergeAllInt(Put(s1, pos, t));
  }

  /** `setRange` keeps every position a Java `int`. */
  lemma SetRangeRunsAllInt<V>(s: seq<Entry<V>>, lo: int, hi: int, t: Option<V>)
    requires Ascending(s) && AllInt(s) && IsInt(lo) && IsInt(hi) && lo <= hi
    ensures AllInt(SetRangeRuns(s, lo, hi, t))
  {
    var k := Below(lo);
    var s1 := Put(s, k, ValueAt(s, k));
    PutAllInt(s, k, ValueAt(s, k));
    var s2 := ClearRange(s1, lo, hi);
    AllIntFrom(s2, s1, k);
    PutAllInt(s2, hi, t);
    MergeAllInt(Put(s2, hi, t));
  }

  /** `setRangeInfinite` keeps every position a Java `int`. */
  lemma SetRangeInfiniteRunsAllInt<V>(s: seq<Entry<V>>, hi: int, t: Option<V>)
    requires Ascending(s) && AllInt(s) && IsInt(hi)
    ensures AllInt(SetRangeInfiniteRuns(s, hi, t))
  {
    var s1 := ClearBelow(s, hi);
    AllIntFrom(s1, s, hi);
    PutAllInt(s1, hi, t);
    MergeAllInt(Put(s1, hi, t));
  }

  /** With `int` positions, the cells below `MIN_INT` repeat the cell at
      `MIN_INT`, and the cells above `MAX_INT` are empty. */
  lemma OutsideIntValue<V>(s: seq<Entry<V>>, z: int)
    requires Ascending(s) && AllInt(s)
    ensures z < MIN_INT ==> ValueAt(s, z) == ValueAt(s, MIN_INT)
    ensures MAX_INT < z ==> ValueAt(s, z) == None
  {
    if z < MIN_INT {
      IndexAboveUnique(s, z, 0);
      IndexAboveUnique(s, MIN_INT, 0);
    } else if MAX_INT < z {
      IndexAboveUnique(s, z, |s|);
    }
  }

  /** Two canonical lists with `int` positions that agree on every Java `int`
      cell are identical. */
  lemma CanonicalUniqueInt<V>(a: seq<Entry<V>>, b: seq<Entry<V>>)
    requires Canonical(a) && Canonical(b) && AllInt(a) && AllInt(b)
    requires forall z :: IsInt(z) ==> ValueAt(a, z) == ValueAt(b, z)
    ensures a == b
  {
    forall z ensures ValueAt(a, z) == ValueAt(b, z) {
      OutsideIntValue(a, z);
      OutsideIntValue(b, z);
      assert IsInt(MIN_INT);
    }
    CanonicalUnique(a, b);
  }

  /** Setting a cell to the value it already holds leaves the stored
      entries exactly as they were. */
  lemma SetRunsUnchanged<V>(s: seq<Entry<V>>, pos: int)
    requires Canonical(s) && AllInt(s) && IsInt(pos)
    ensures SetRuns(s, pos, ValueAt(s, pos)) == s
  {
    var r := SetRuns(s, pos, ValueAt(s, pos));
    SetRunsAllInt(s, pos, ValueAt(s, pos));
    forall z | IsInt(z) ensures ValueAt(r, z) == ValueAt(s, z) {
      SetRunsValue(s, pos, ValueAt(s, pos), z);
    }
    CanonicalUniqueInt(r, s);
  }

  /** Of two writes to the same cell, the last one wins. */
  lemma SetRunsOverwrite<V>(s: seq<Entry<V>>, pos: int, t1: Option<V>, t2: Option<V>)
    requires Ascending(s) && AllInt(s) && IsInt(pos)
    ensures SetRuns(SetRuns(s, pos, t1), pos, t2) == SetRuns(s, pos, t2)
  {
    var r1 := SetRuns(s, pos, t1);
    var a, b := SetRuns(r1, pos, t2), SetRuns(s, pos, t2);
    SetRunsAllInt(s, pos, t1);
    SetRunsAllInt(r1, pos, t2);
    SetRunsAllInt(s, pos, t2);
    forall z | IsInt(z) ensures ValueAt(a, z) == ValueAt(b, z) {
      SetRunsValue(s, pos, t1, z);
      SetRunsValue(r1, pos, t2, z);
      SetRunsValue(s, pos, t2, z);
    }
    CanonicalUniqueInt(a, b);
  }

  /** `setRange(pos, pos, t)` stores exactly what `set(pos, t)` stores. */
  lemma SetRangeSingleCell<V>(s: seq<Entry<V>>, pos: int, t: Option<V>)
    requires Ascending(s) && AllInt(s) && IsInt(pos)
    ensures SetRangeRuns(s, pos, pos, t) == SetRuns(s, pos, t)
  {
    var a, b := SetRangeRuns(s, pos, pos, t), SetRuns(s, pos, t);
    SetRangeRunsAllInt(s, pos, pos, t);
    SetRunsAllInt(s, pos, t);
    forall z | IsInt(z) ensures ValueAt(a, z) == ValueAt(b, z) {
      SetRangeRunsValue(s, pos, pos, t, z);
      SetRunsValue(s, pos, t, z);
    }
    CanonicalUniqueInt(a, b);
  }

  /** `setRangeInfinite(hi, t)` stores exactly what `setRange(MIN_INT, hi, t)`
      stores. */
  lemma SetRangeInfiniteFromBottom<V>(s: seq<Entry<V>>, hi: int, t: Option<V>)
    requires Ascending(s) && AllInt(s) && IsInt(hi)
    ensures SetRangeInfiniteRuns(s, hi, t) == SetRangeRuns(s, MIN_INT, hi, t)
  {
    var a, b := SetRangeInfiniteRuns(s, hi, t), SetRangeRuns(s, MIN_INT, hi, t);
    SetRangeInfiniteRunsAllInt(s, hi, t);
    SetRangeRunsAllInt(s, MIN_INT, hi, t);
    forall z | IsInt(z) ensures ValueAt(a, z) == ValueAt(b, z) {
      SetRangeInfiniteRunsValue(s, hi, t, z);
      SetRangeRunsValue(s, MIN_INT, hi, t, z);
    }
    CanonicalUniqueInt(a, b);
  }

  /** In a canonical list, the cells `lo..hi` all read `t` exactly when `lo`
      and `hi` read through the same entry and `hi` reads `t`: the test
      `rangeEquals` makes. */
  lemma UniformRange<V>(s: seq<Entry<V>>, lo: int, hi: int, t: Option<V>)
    requires Canonical(s) && lo <= hi
    ensures (IndexAbove(s, lo) == IndexAbove(s, hi) && ValueAt(s, hi) == t)
            <==> (forall z :: lo <= z <= hi ==> ValueAt(s, z) == t)
  {
    IndexAboveMonotone(s, lo, hi);
    if IndexAbove(s, lo) == IndexAbove(s, hi) {
      SameRunValues(s, lo, hi);
    } else {
      var p := StepInRange(s, lo, hi);
      assert ValueAt(s, p) != ValueAt(s, p + 1);
    }
  }

  lemma SameRunValues<V>(s: seq<Entry<V>>, lo: int, hi: int)
    requires lo <= hi && IndexAbove(s, lo) == IndexAbove(s, hi)
    ensures forall z :: lo <= z <= hi ==> ValueAt(s, z) == ValueAt(s, hi)
  {
    forall z | lo <= z <= hi ensures ValueAt(s, z) == ValueAt(s, hi) {
      IndexAboveMonotone(s, lo, z);
      IndexAboveMonotone(s, z, hi);
    }
  }

  /** When an entry lies in `[lo, hi)`, a canonical list changes value
      between that entry's own cell `p` and the cell `p + 1` above it. */
  lemma StepInRange<V>(s: seq<Entry<V>>, lo: int, hi: int) returns (p: int)
    requires Canonical(s) && lo <= hi && IndexAbove(s, lo) < IndexAbove(s, hi)
    ensures lo <= p < hi
    ensures ValueAt(s, p) != ValueAt(s, p + 1)
  {
    var a, b := IndexAbove(s, lo), IndexAbove(s, hi);
    assert a < b <= |s|;
    p := s[a].pos;
    assert lo <= p < hi;
    ValueInRun(s, a, p);
    if a + 1 < |s| {
      assert s[a].value != s[a + 1].value && p < s[a + 1].pos;
      ValueInRun(s, a + 1, p + 1);
    } else {
      IndexAboveUnique(s, p + 1, |s|);
    }
  }

  /** Setting cell 7 to `B` in the column `A` up to 5 and empty up to 10: the
      merging pass drops the top empty entry, because `prev` starts out null
      and an empty entry on top equals it. */
  lemma SetScenario()
    ensures SetRuns([Entry(5, Some('A')), Entry(10, None)], 7, Some('B'))
            == [Entry(5, Some('A')), Entry(6, None), Entry(7, Some('B'))]
  {
    var s := [Entry(5, Some('A')), Entry(10, None)];
    var s1 := [Entry(5, Some('A')), Entry(6, None), Entry(10, None)];
    var s2 := [Entry(5, Some('A')), Entry(6, None), Entry(7, Some('B')), Entry(10, None)];
    ScenarioPin();
    ScenarioPut();
    ScenarioMerge();
    assert Below(7) == 6;
    assert SetRuns(s, 7, Some('B')) == Merge(s2);
  }

  /** The scenario's pinning `put`: cell 6 is empty, so `(6, null)` goes in. */
  lemma ScenarioPin()
    ensures var s := [Entry(5, Some('A')), Entry(10, None)];
            Put(s, 6, ValueAt(s, 6)) == [Entry(5, Some('A')), Entry(6, None), Entry(10, None)]
  {
    var s := [Entry(5, Some('A')), Entry(10, None)];
    assert IndexAbove(s, 6) == 1 && PutGap(s, 6) == 1;
    assert ValueAt(s, 6) == None;
    assert Put(s, 6, None) == s[..1] + [Entry(6, None)] + s[1..];
  }

  /** The scenario's second `put`: `(7, B)` goes in above `(6, null)`. */
  lemma ScenarioPut()
    ensures Put([Entry(5, Some('A')), Entry(6, None), Entry(10, None)], 7, Some('B'))
            == [Entry(5, Some('A')), Entry(6, None), Entry(7, Some('B')), Entry(10, None)]
  {
    var s1 := [Entry(5, Some('A')), Entry(6, None), Entry(10, None)];
    assert IndexAbove(s1, 7) == 2 && PutGap(s1, 7) == 2;
    assert Put(s1, 7, Some('B')) == s1[..2] + [Entry(7, Some('B'))] + s1[2..];
  }

  /** The scenario's merging pass drops only the top entry `(10, null)`. */
  lemma ScenarioMerge()
    ensures Merge([Entry(5, Some('A')), Entry(6, None), Entry(7, Some('B')), Entry(10, None)])
            == [Entry(5, Some('A')), Entry(6, None), Entry(7, Some('B'))]
  {
    var s2 := [Entry(5, Some('A')), Entry(6, None), Entry(7, Some('B')), Entry(10, None)];
    assert Merge(s2[3..]) == [];
    assert Merge(s2[2..]) == [s2[2]];
    assert Merge(s2[1..]) == [s2[1], s2[2]];
  }

  /** The entries of `s` moved up by `dz`: what `copyTo` reads from a source
      column, `e.getKey() + z` for every entry `e`. */
  function Shift<V>(s: seq<Entry<V>>, dz: int): (r: seq<Entry<V>>)
    ensures |r| == |s|
    ensures forall i :: 0 <= i < |s| ==> r[i].pos == s[i].pos + dz && r[i].value == s[i].value
    ensures Ascending(s) ==> Ascending(r)
  {
    seq(|s|, i requires 0 <= i < |s| => Entry(s[i].pos + dz, s[i].value))
  }

  /** Moving every entry up by `dz` moves every cell up by `dz`. */
  lemma ShiftValue<V>(s: seq<Entry<V>>, dz: int, w: int)
    ensures IndexAbove(Shift(s, dz), w) == IndexAbove(s, w - dz)
    ensures ValueAt(Shift(s, dz), w) == ValueAt(s, w - dz)
  {
    IndexAboveUnique(Shift(s, dz), w, IndexAbove(s, w - dz));
  }

  /** Cell `w` of a target column after `copyTo` has written the first `n`
      of the (already shifted) entries `src` onto it: a cell above the
      `n`-th entry keeps the target's value, so does a cell of the lowest
      run when that run is empty, and every other cell reads the source. */
  function OverlayValue<V>(target: seq<Entry<V>>, src: seq<Entry<V>>, n: nat, w: int): Option<V>
    requires 1 <= n <= |src|
  {
    if src[n - 1].pos < w || (IndexAbove(src, w) == 0 && src[0].value == None)
    then ValueAt(target, w) else ValueAt(src, w)
  }

  /** The first step of `copyTo`: `setRangeInfinite` with the lowest entry,
      only when that entry is not empty. */
  lemma OverlayFirst<V>(target: seq<Entry<V>>, src: seq<Entry<V>>, w: int)
    requires Ascending(target) && Ascending(src) && src != []
    ensures ValueAt(if src[0].value.Some? then SetRangeInfiniteRuns(target, src[0].pos, src[0].value) else target, w)
            == OverlayValue(target, src, 1, w)
  {
    if src[0].value.Some? {
      SetRangeInfiniteRunsValue(target, src[0].pos, src[0].value, w);
    }
    if w <= src[0].pos {
      ValueInRun(src, 0, w);
    }
  }

  /** Every later step of `copyTo`: `setRange` over the run the `n`-th entry
      closes, from just above the entry below it. */
  lemma OverlayNext<V>(cur: seq<Entry<V>>, target: seq<Entry<V>>, src: seq<Entry<V>>, n: nat, w: int,
                       lo: int, hi: int, t: Option<V>)
    requires Ascending(cur) && Ascending(src) && 1 <= n < |src|
    requires lo == src[n - 1].pos + 1 && hi == src[n].pos && t == src[n].value
    requires IsInt(lo) && IsInt(w)
    requires ValueAt(cur, w) == OverlayValue(target, src, n, w)
    ensures ValueAt(SetRangeRuns(cur, lo, hi, t), w) == OverlayValue(target, src, n + 1, w)
  {
    SetRangeRunsValue(cur, lo, hi, t, w);
    if src[n - 1].pos < w <= src[n].pos {
      ValueInRun(src, n, w);
    }
  }

  /** Cell `w` of a target column once `copyTo` has overlaid the source
      column `src` moved up by `dz`: a target cell takes the value of the
      source cell `dz` below it, except that the source's empty cells below
      its first entry or above its last leave the target cell as it was. */
  function Overlaid<V>(target: seq<Entry<V>>, src: seq<Entry<V>>, dz: int, w: int): Option<V> {
    if src == []
       || (ValueAt(src, w - dz) == None && (IndexAbove(src, w - dz) == 0 || IndexAbove(src, w - dz) == |src|))
    then ValueAt(target, w) else ValueAt(src, w - dz)
  }

  /** The whole of `copyTo` for one non-empty source column: after the last
      entry has been written, every cell is as `Overlaid` says. */
  lemma OverlayAll<V>(target: seq<Entry<V>>, src: seq<Entry<V>>, dz: int, w: int)
    requires Ascending(src) && src != []
    ensures OverlayValue(target, Shift(src, dz), |src|, w) == Overlaid(target, src, dz, w)
  {
    var sh := Shift(src, dz);
    ShiftValue(src, dz, w);
    if sh[|src| - 1].pos < w {
      IndexAboveUnique(sh, w, |src|);
    }
  }

  /** The three regions of an overlay of a non-empty source: from just above
      its first entry up to its last, the target reads the source, empty
      cells included; at or below the first entry it reads the lowest run's
      value, but only when that value is not empty; above the last entry it
      is left alone. */
  lemma OverlaidRegions<V>(target: seq<Entry<V>>, src: seq<Entry<V>>, dz: int, w: int)
    requires Ascending(src) && src != []
    ensures src[0].pos < w - dz <= src[|src| - 1].pos ==> Overlaid(target, src, dz, w) == ValueAt(src, w - dz)
    ensures w - dz <= src[0].pos ==>
              Overlaid(target, src, dz, w) == if src[0].value.Some? then src[0].value else ValueAt(target, w)
    ensures src[|src| - 1].pos < w - dz ==> Overlaid(target, src, dz, w) == ValueAt(target, w)
  {
    var z := w - dz;
    if w - dz <= src[0].pos {
      IndexAboveUnique(src, z, 0);
    } else if z <= src[|src| - 1].pos {
      assert IndexAbove(src, z) != 0;
    } else {
      IndexAboveUnique(src, z, |src|);
    }
  }
}
