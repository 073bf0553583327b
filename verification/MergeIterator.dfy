/** K-way merge of ordered sources, raw for compaction and deduplicated for reads. */
module MergeIterator {
  import opened Bytes
  import opened Versions

  datatype Mode = Dedup | Raw

  type Lanes = seq<seq<Version>>

  // ---- What a merge yields -----------------------------------------------------

  /** Heap order: scan order, then the lower source index. */
  predicate Pops(dir: Direction, a: Version, i: nat, b: Version, j: nat) {
    Before(dir, a, b) || (!Before(dir, b, a) && i < j)
  }

  /** Lane `i` holds the entry a merge yields next. */
  ghost predicate IsBest(dir: Direction, lanes: Lanes, i: nat) {
    && i < |lanes| && lanes[i] != []
    && forall j :: 0 <= j < |lanes| && j != i && lanes[j] != [] ==> Pops(dir, lanes[i][0], i, lanes[j][0], j)
  }

  function TotalLength(lanes: Lanes): nat {
    if lanes == [] then 0 else |lanes[0]| + TotalLength(lanes[1..])
  }

  lemma {:induction false} TotalLengthUpdate(lanes: Lanes, i: nat, lane: seq<Version>)
    requires i < |lanes|
    ensures TotalLength(lanes[i := lane]) == TotalLength(lanes) - |lanes[i]| + |lane|
  {
    if i == 0 {
      assert lanes[0 := lane][1..] == lanes[1..];
    } else {
      TotalLengthUpdate(lanes[1..], i - 1, lane);
      assert lanes[i := lane][1..] == lanes[1..][i - 1 := lane];
    }
  }

  /** The sequence a raw merge yields. */
  ghost function Merged(dir: Direction, lanes: Lanes): seq<Version>
    decreases TotalLength(lanes)
  {
    if exists i: nat :: IsBest(dir, lanes, i) then
      var i: nat :| IsBest(dir, lanes, i);
      TotalLengthUpdate(lanes, i, lanes[i][1..]);
      [lanes[i][0]] + Merged(dir, lanes[i := lanes[i][1..]])
    else []
  }

  /** Collapse to the newest version per key and suppress keys deleted there. */
  function Deduped(stream: seq<Version>, last: Option<bytes>): seq<Version> {
    if stream == [] then []
    else if last == Some(stream[0].key) then Deduped(stream[1..], last)
    else
      var rest := Deduped(stream[1..], Some(stream[0].key));
      if stream[0].Tombstone() then rest else [stream[0]] + rest
  }

  ghost function Yield(dir: Direction, mode: Mode, lanes: Lanes, last: Option<bytes>): seq<Version> {
    match mode
    case Raw => Merged(dir, lanes)
    case Dedup => Deduped(Merged(dir, lanes), last)
  }

  // ---- The iterator ------------------------------------------------------------

  datatype HeapEntry = HeapEntry(version: Version, source: nat)

  /** Each heap entry is the head of its own lane, whose rest is still in the source. */
  ghost predicate Stored(heap: seq<HeapEntry>, sources: Lanes, lanes: Lanes) {
    && |lanes| == |sources|
    && (forall h :: 0 <= h < |heap| ==>
          heap[h].source < |lanes| && lanes[heap[h].source] == [heap[h].version] + sources[heap[h].source])
    && (forall g, h :: 0 <= g < h < |heap| ==> heap[g].source != heap[h].source)
  }

  ghost predicate InHeap(heap: seq<HeapEntry>, i: nat) {
    exists h :: 0 <= h < |heap| && heap[h].source == i
  }

  ghost predicate Covered(heap: seq<HeapEntry>, lanes: Lanes) {
    forall i :: 0 <= i < |lanes| && lanes[i] != [] ==> InHeap(heap, i)
  }

  /** Every non-empty lane has exactly its head in the heap and its rest in the sources. */
  ghost predicate Heads(heap: seq<HeapEntry>, sources: Lanes, lanes: Lanes) {
    Stored(heap, sources, lanes) && Covered(heap, lanes)
  }

  function Without(heap: seq<HeapEntry>, best: nat): (r: seq<HeapEntry>)
    requires best < |heap|
    ensures |r| == |heap| - 1
    ensures forall h :: 0 <= h < |r| ==> r[h] == if h < best then heap[h] else heap[h + 1]
  {
    heap[..best] + heap[best + 1..]
  }

  lemma WithoutStored(heap: seq<HeapEntry>, sources: Lanes, lanes: Lanes, best: nat)
    requires Stored(heap, sources, lanes) && best < |heap|
    ensures var i, others := heap[best].source, Without(heap, best);
            !InHeap(others, i) && Stored(others, sources[i := []], lanes[i := []])
  {
    var i, others := heap[best].source, Without(heap, best);
    forall h | 0 <= h < |others| ensures others[h].source != i {
      assert others[h] == heap[if h < best then h else h + 1];
    }
  }

  lemma WithoutCovered(heap: seq<HeapEntry>, lanes: Lanes, best: nat)
    requires Covered(heap, lanes) && best < |heap| && heap[best].source < |lanes|
    ensures Covered(Without(heap, best), lanes[heap[best].source := []])
  {
    var i, others := heap[best].source, Without(heap, best);
    forall j | 0 <= j < |lanes| && lanes[j] != [] && j != i ensures InHeap(others, j) {
      assert InHeap(heap, j);
      var h :| 0 <= h < |heap| && heap[h].source == j;
      assert others[if h < best then h else h - 1].source == j;
    }
  }

  lemma PushHead(heap: seq<HeapEntry>, sources: Lanes, lanes: Lanes, i: nat, lane: seq<Version>)
    requires Heads(heap, sources, lanes) && i < |lanes| && lane != [] && !InHeap(heap, i)
    ensures Heads(heap + [HeapEntry(lane[0], i)], sources[i := lane[1..]], lanes[i := lane])
  {
    var heap', lanes' := heap + [HeapEntry(lane[0], i)], lanes[i := lane];
    assert forall h :: 0 <= h < |heap| ==> heap'[h] == heap[h] && heap[h].source != i;
    forall j | 0 <= j < |lanes'| && lanes'[j] != [] ensures InHeap(heap', j) {
      if j == i {
        assert heap'[|heap|].source == i;
      } else {
        assert InHeap(heap, j);
        var h :| 0 <= h < |heap| && heap[h].source == j;
        assert heap'[h].source == j;
      }
    }
  }

  /** Reading the first entry of each source fills the heap. */
  lemma FillHeads(heap: seq<HeapEntry>, sources: Lanes, input: Lanes, i: nat)
    requires i < |input| && Heads(heap, sources, input[..i])
    ensures if input[i] == [] then Heads(heap, sources + [[]], input[..i + 1])
            else Heads(heap + [HeapEntry(input[i][0], i)], sources + [input[i][1..]], input[..i + 1])
  {
    var lanes, sources' := input[..i] + [[]], sources + [[]];
    assert forall j :: 0 <= j < i ==> lanes[j] == input[..i][j];
    forall j | 0 <= j < |lanes| && lanes[j] != [] ensures InHeap(heap, j) {
      assert input[..i][j] != [];
    }
    assert Heads(heap, sources', lanes);
    if input[i] == [] {
      assert lanes == input[..i + 1];
    } else {
      PushHead(heap, sources', lanes, i, input[i]);
      assert lanes[i := input[i]] == input[..i + 1];
      assert sources'[i := input[i][1..]] == sources + [input[i][1..]];
    }
  }

  /** Popping an entry and refilling from its source keeps the heads in the heap. */
  lemma PopHeads(heap: seq<HeapEntry>, sources: Lanes, lanes: Lanes, best: nat)
    requires Heads(heap, sources, lanes) && best < |heap|
    ensures var i, others := heap[best].source, Without(heap, best);
            var lane := sources[i];
            && lanes[i] == [heap[best].version] + lane
            && if lane != []
               then Heads(others + [HeapEntry(lane[0], i)], sources[i := lane[1..]], lanes[i := lane])
               else Heads(others, sources, lanes[i := lane])
  {
    var i, others := heap[best].source, Without(heap, best);
    var lane := sources[i];
    WithoutStored(heap, sources, lanes, best);
    WithoutCovered(heap, lanes, best);
    if lane != [] {
      PushHead(others, sources[i := []], lanes[i := []], i, lane);
      assert sources[i := []][i := lane[1..]] == sources[i := lane[1..]];
      assert lanes[i := []][i := lane] == lanes[i := lane];
    } else {
      assert sources[i := []] == sources;
    }
  }

  class MergingIterator {
    const mode: Mode
    const direction: Direction
    var sources: Lanes
    var heap: seq<HeapEntry>
    var lastUserKey: Option<bytes>
    /** Each source with its heap entry put back in front. */
    ghost var lanes: Lanes

    ghost predicate Valid()
      reads this
    {
      Heads(heap, sources, lanes)
    }

    /** The entries still to come, in order. */
    ghost function Pending(): seq<Version>
      reads this
    {
      Yield(direction, mode, lanes, lastUserKey)
    }

    constructor (input: Lanes, mode: Mode, direction: Direction)
      ensures Valid() && this.mode == mode && this.direction == direction
      ensures Pending() == Yield(direction, mode, input, None)
    {
      this.mode := mode;
      this.direction := direction;
      var rest: Lanes, entries: seq<HeapEntry> := [], [];
      for i := 0 to |input|
        invariant Heads(entries, rest, input[..i])
      {
        FillHeads(entries, rest, input, i);
        if input[i] == [] {
          rest := rest + [[]];
        } else {
          rest := rest + [input[i][1..]];
          entries := entries + [HeapEntry(input[i][0], i)];
        }
      }
      assert input[..|input|] == input;
      sources := rest;
      heap := entries;
      lastUserKey := None;
      lanes := input;
    }

    /** Position of the heap entry that pops first. */
    method Top() returns (best: nat)
      requires Valid() && heap != []
      ensures best < |heap| && IsBest(direction, lanes, heap[best].source)
    {
      best := 0;
      for h := 1 to |heap|
        invariant best < h
        invariant forall g :: 0 <= g < h && g != best ==>
          Pops(direction, heap[best].version, heap[best].source, heap[g].version, heap[g].source)
      {
        ghost var old' := best;
        if !Pops(direction, heap[best].version, heap[best].source, heap[h].version, heap[h].source) {
          PopsTotal(direction, heap[best], heap[h]);
          best := h;
          forall g | 0 <= g < h && g != old'
            ensures Pops(direction, heap[h].version, heap[h].source, heap[g].version, heap[g].source)
          {
            PopsTransitive(direction, heap[h], heap[old'], heap[g]);
          }
        }
      }
      var i := heap[best].source;
      forall j | 0 <= j < |lanes| && j != i && lanes[j] != []
        ensures Pops(direction, lanes[i][0], i, lanes[j][0], j)
      {
        assert InHeap(heap, j);
        var h :| 0 <= h < |heap| && heap[h].source == j;
      }
    }

    /** Pop the top entry and refill the heap from the source it came from. */
    method Pop() returns (top: Version)
      requires Valid() && heap != []
      modifies this
      ensures Valid() && lastUserKey == old(lastUserKey)
      ensures Merged(direction, old(lanes)) == [top] + Merged(direction, lanes)
      ensures TotalLength(lanes) < TotalLength(old(lanes))
    {
      var best := Top();
      var entry := heap[best];
      top := entry.version;
      var i := entry.source;
      MergedStep(direction, lanes, i);
      TotalLengthUpdate(lanes, i, lanes[i][1..]);
      PopHeads(heap, sources, lanes, best);
      var lane, others := sources[i], Without(heap, best);
      lanes := lanes[i := lane];
      if lane != [] {
        heap := others + [HeapEntry(lane[0], i)];
        sources := sources[i := lane[1..]];
      } else {
        heap := others;
      }
    }

    method Next() returns (r: Option<Version>)
      requires Valid()
      modifies this
      ensures Valid()
      ensures old(Pending()) == [] ==> r == None && Pending() == []
      ensures old(Pending()) != [] ==> r == Some(old(Pending())[0]) && Pending() == old(Pending())[1..]
    {
      while heap != []
        invariant Valid() && Pending() == old(Pending())
        decreases TotalLength(lanes)
      {
        var top := Pop();
        if mode == Raw {
          return Some(top);
        }
        if lastUserKey != Some(top.key) {
          lastUserKey := Some(top.key);
          if !top.Tombstone() {
            return Some(top);
          }
        }
      }
      MergedEmpty(direction, lanes);
      r := None;
    }
  }

  lemma PopsTotal(dir: Direction, a: HeapEntry, b: HeapEntry)
    requires a.source != b.source
    ensures Pops(dir, a.version, a.source, b.version, b.source) || Pops(dir, b.version, b.source, a.version, a.source)
  {
  }

  lemma PopsTransitive(dir: Direction, a: HeapEntry, b: HeapEntry, c: HeapEntry)
    requires Pops(dir, a.version, a.source, b.version, b.source)
    requires Pops(dir, b.version, b.source, c.version, c.source)
    ensures Pops(dir, a.version, a.source, c.version, c.source)
  {
    var x, y, z := a.version, b.version, c.version;
    LessTotal(x.key, y.key);
    LessTotal(y.key, z.key);
    if Less(x.key, y.key) { LessAsymmetric(x.key, y.key); if Less(y.key, z.key) { LessTransitive(x.key, y.key, z.key); } }
    if Less(y.key, x.key) { LessAsymmetric(y.key, x.key); if Less(z.key, y.key) { LessTransitive(z.key, y.key, x.key); } }
    LessIrreflexive(x.key);
    LessIrreflexive(y.key);
    if Less(y.key, z.key) { LessAsymmetric(y.key, z.key); }
    if Less(z.key, y.key) { LessAsymmetric(z.key, y.key); }
    if Less(x.key, z.key) { LessAsymmetric(x.key, z.key); }
    if Less(z.key, x.key) { LessAsymmetric(z.key, x.key); }
  }

  lemma BestUnique(dir: Direction, lanes: Lanes, i: nat, j: nat)
    requires IsBest(dir, lanes, i) && IsBest(dir, lanes, j)
    ensures i == j
  {
    if i != j {
      var a, b := lanes[i][0], lanes[j][0];
      assert Pops(dir, a, i, b, j) && Pops(dir, b, j, a, i);
      if Before(dir, a, b) { BeforeAsymmetric(dir, a, b); }
      if Before(dir, b, a) { BeforeAsymmetric(dir, b, a); }
    }
  }

  lemma MergedStep(dir: Direction, lanes: Lanes, i: nat)
    requires IsBest(dir, lanes, i)
    ensures Merged(dir, lanes) == [lanes[i][0]] + Merged(dir, lanes[i := lanes[i][1..]])
  {
    var j: nat :| IsBest(dir, lanes, j) && Merged(dir, lanes) == [lanes[j][0]] + Merged(dir, lanes[j := lanes[j][1..]]);
    BestUnique(dir, lanes, i, j);
  }

  lemma MergedEmpty(dir: Direction, lanes: Lanes)
    requires forall i :: 0 <= i < |lanes| ==> lanes[i] == []
    ensures Merged(dir, lanes) == []
  {
  }

  // ---- A merge is the sorted permutation of its sources ------------------------

  ghost function Union(lanes: Lanes): multiset<Version> {
    if lanes == [] then multiset{} else multiset(lanes[0]) + Union(lanes[1..])
  }

  lemma {:induction false} UnionUpdate(lanes: Lanes, i: nat)
    requires i < |lanes| && lanes[i] != []
    ensures Union(lanes) == multiset{lanes[i][0]} + Union(lanes[i := lanes[i][1..]])
  {
    var lane := lanes[i];
    assert lane == [lane[0]] + lane[1..];
    if i == 0 {
      assert lanes[0 := lane[1..]][1..] == lanes[1..];
    } else {
      UnionUpdate(lanes[1..], i - 1);
      assert lanes[i := lane[1..]][1..] == lanes[1..][i - 1 := lane[1..]];
    }
  }

  lemma {:induction false} UnionEmpty(lanes: Lanes)
    requires forall i :: 0 <= i < |lanes| ==> lanes[i] == []
    ensures Union(lanes) == multiset{}
  {
    if lanes != [] {
      UnionEmpty(lanes[1..]);
    }
  }

  lemma {:induction false} UnionMember(lanes: Lanes, i: nat, p: nat)
    requires i < |lanes| && p < |lanes[i]|
    ensures lanes[i][p] in Union(lanes)
  {
    if i > 0 {
      UnionMember(lanes[1..], i - 1, p);
    }
  }

  lemma {:induction false} UnionOrigin(lanes: Lanes, v: Version) returns (i: nat, p: nat)
    requires v in Union(lanes)
    ensures i < |lanes| && p < |lanes[i]| && lanes[i][p] == v
  {
    if v in lanes[0] {
      i := 0;
      p :| 0 <= p < |lanes[0]| && lanes[0][p] == v;
    } else {
      i, p := UnionOrigin(lanes[1..], v);
      i := i + 1;
    }
  }

  /** Some lane is best among the first `n` whenever one of them is non-empty. */
  lemma {:induction false} BestExists(dir: Direction, lanes: Lanes, k: nat) returns (best: nat)
    requires k < |lanes| && lanes[k] != []
    ensures IsBest(dir, lanes, best)
  {
    best := k;
    for n := 0 to |lanes|
      invariant best < |lanes| && lanes[best] != []
      invariant forall j :: 0 <= j < n && j != best && lanes[j] != [] ==>
        Pops(dir, lanes[best][0], best, lanes[j][0], j)
    {
      if n != best && lanes[n] != [] && !Pops(dir, lanes[best][0], best, lanes[n][0], n) {
        var a, b := HeapEntry(lanes[best][0], best), HeapEntry(lanes[n][0], n);
        PopsTotal(dir, a, b);
        forall j | 0 <= j < n && j != best && lanes[j] != []
          ensures Pops(dir, lanes[n][0], n, lanes[j][0], j)
        {
          PopsTransitive(dir, b, a, HeapEntry(lanes[j][0], j));
        }
        best := n;
      }
    }
  }

  /** Raw mode yields every entry of every source, once. */
  lemma {:induction false} MergedPermutes(dir: Direction, lanes: Lanes)
    ensures multiset(Merged(dir, lanes)) == Union(lanes)
    decreases TotalLength(lanes)
  {
    if k :| 0 <= k < |lanes| && lanes[k] != [] {
      var i := BestExists(dir, lanes, k);
      MergedStep(dir, lanes, i);
      TotalLengthUpdate(lanes, i, lanes[i][1..]);
      MergedPermutes(dir, lanes[i := lanes[i][1..]]);
      UnionUpdate(lanes, i);
    } else {
      MergedEmpty(dir, lanes);
      UnionEmpty(lanes);
    }
  }

  ghost predicate LanesSorted(dir: Direction, lanes: Lanes) {
    forall i :: 0 <= i < |lanes| ==> Sorted(dir, lanes[i])
  }

  /** No (key, sequence) pair occurs twice across the sources. */
  ghost predicate LanesDistinct(lanes: Lanes) {
    forall i, p, j, q ::
      (0 <= i < |lanes| && 0 <= j < |lanes| && 0 <= p < |lanes[i]| && 0 <= q < |lanes[j]| && (i != j || p != q)) ==>
        !SameSlot(lanes[i][p], lanes[j][q])
  }

  lemma AdvanceKeeps(dir: Direction, lanes: Lanes, i: nat)
    requires LanesSorted(dir, lanes) && LanesDistinct(lanes) && i < |lanes| && lanes[i] != []
    ensures LanesSorted(dir, lanes[i := lanes[i][1..]]) && LanesDistinct(lanes[i := lanes[i][1..]])
  {
    var lanes' := lanes[i := lanes[i][1..]];
    forall a, p, b, q | 0 <= a < |lanes'| && 0 <= b < |lanes'| && 0 <= p < |lanes'[a]| && 0 <= q < |lanes'[b]|
      && (a != b || p != q)
      ensures !SameSlot(lanes'[a][p], lanes'[b][q])
    {
      var p', q' := if a == i then p + 1 else p, if b == i then q + 1 else q;
      assert lanes'[a][p] == lanes[a][p'] && lanes'[b][q] == lanes[b][q'];
    }
  }

  lemma BestPrecedes(dir: Direction, lanes: Lanes, i: nat, j: nat, q: nat)
    requires LanesSorted(dir, lanes) && LanesDistinct(lanes) && IsBest(dir, lanes, i)
    requires j < |lanes| && q < |lanes[j]| && (i != j || q > 0)
    ensures Before(dir, lanes[i][0], lanes[j][q])
  {
    if i != j {
      BeforeTotal(dir, lanes[i][0], lanes[j][0]);
      assert Pops(dir, lanes[i][0], i, lanes[j][0], j);
      if q > 0 {
        BeforeTransitive(dir, lanes[i][0], lanes[j][0], lanes[j][q]);
      }
    }
  }

  lemma SortedCons(dir: Direction, first: Version, rest: seq<Version>)
    requires Sorted(dir, rest) && forall n :: 0 <= n < |rest| ==> Before(dir, first, rest[n])
    ensures Sorted(dir, [first] + rest)
  {
    hide Before;
    var all := [first] + rest;
    forall i, j | 0 <= i < j < |all| ensures Before(dir, all[i], all[j]) {
      assert all[j] == rest[j - 1];
      assert i > 0 ==> all[i] == rest[i - 1];
    }
  }

  /** Raw mode yields entries in scan order. */
  lemma {:induction false} MergedSorted(dir: Direction, lanes: Lanes)
    requires LanesSorted(dir, lanes) && LanesDistinct(lanes)
    ensures Sorted(dir, Merged(dir, lanes))
    decreases TotalLength(lanes)
  {
    if k :| 0 <= k < |lanes| && lanes[k] != [] {
      hide Merged, Before, LanesSorted, LanesDistinct, Union, IsBest, Sorted;
      var i := BestExists(dir, lanes, k);
      var lanes' := lanes[i := lanes[i][1..]];
      MergedStep(dir, lanes, i);
      TotalLengthUpdate(lanes, i, lanes[i][1..]);
      AdvanceKeeps(dir, lanes, i);
      MergedSorted(dir, lanes');
      var rest := Merged(dir, lanes');
      forall n | 0 <= n < |rest| ensures Before(dir, lanes[i][0], rest[n]) {
        BestBeforeRest(dir, lanes, i, n);
      }
      SortedCons(dir, lanes[i][0], rest);
    } else {
      MergedEmpty(dir, lanes);
    }
  }

  /** The best head precedes everything the rest of the merge yields. */
  lemma BestBeforeRest(dir: Direction, lanes: Lanes, i: nat, n: nat)
    requires LanesSorted(dir, lanes) && LanesDistinct(lanes) && IsBest(dir, lanes, i)
    requires var lanes' := lanes[i := lanes[i][1..]];
             LanesSorted(dir, lanes') && LanesDistinct(lanes') && n < |Merged(dir, lanes')|
    ensures Before(dir, lanes[i][0], Merged(dir, lanes[i := lanes[i][1..]])[n])
  {
    hide Before, Merged;
    var lanes' := lanes[i := lanes[i][1..]];
    var rest := Merged(dir, lanes');
    MergedPermutes(dir, lanes');
    assert rest[n] in multiset(rest);
    var j, q := UnionOrigin(lanes', rest[n]);
    BestPrecedes(dir, lanes, i, j, if j == i then q + 1 else q);
  }

  // ---- Deduplication -----------------------------------------------------------

  predicate KeyBefore(dir: Direction, a: bytes, b: bytes) {
    if dir.Forward? then Less(a, b) else Less(b, a)
  }

  ghost predicate KeysSorted(dir: Direction, s: seq<Version>) {
    forall i, j :: 0 <= i < j < |s| ==> KeyBefore(dir, s[i].key, s[j].key)
  }

  /** The newest version of its key, and not a tombstone. */
  ghost predicate Surfaces(s: seq<Version>, v: Version) {
    v in s && !v.Tombstone() && forall w :: w in s && w.key == v.key ==> w.seqno <= v.seqno
  }

  /** Nothing in `stream` sorts before the key already handled. */
  ghost predicate Resumes(dir: Direction, stream: seq<Version>, last: Option<bytes>) {
    last.Some? ==> forall v :: v in stream ==> v.key == last.value || KeyBefore(dir, last.value, v.key)
  }

  lemma SortedTail(dir: Direction, s: seq<Version>)
    requires Sorted(dir, s) && s != []
    ensures Sorted(dir, s[1..]) && Resumes(dir, s[1..], Some(s[0].key))
    ensures forall w :: w in s[1..] && w.key == s[0].key ==> w.seqno <= s[0].seqno
  {
    forall w | w in s[1..] ensures Before(dir, s[0], w) {
      var i :| 0 <= i < |s[1..]| && s[1..][i] == w;
      assert Before(dir, s[0], s[i + 1]);
    }
    LessIrreflexive(s[0].key);
  }

  lemma ResumesTail(dir: Direction, s: seq<Version>, last: Option<bytes>)
    requires Sorted(dir, s) && s != [] && Resumes(dir, s, last) && last.Some? && s[0].key != last.value
    ensures forall w :: w in s ==> w.key != last.value
  {
    SortedTail(dir, s);
    forall w | w in s ensures w.key != last.value {
      assert s[0] in s && KeyBefore(dir, last.value, s[0].key);
      LessIrreflexive(last.value);
      if w.key == last.value {
        assert w in s[1..];
        if dir.Forward? { LessAsymmetric(last.value, s[0].key); } else { LessAsymmetric(s[0].key, last.value); }
      }
    }
  }

  /** Dedup mode yields exactly the newest non-tombstone version of each key not yet handled. */
  lemma {:induction false} DedupedExact(dir: Direction, s: seq<Version>, last: Option<bytes>)
    requires Sorted(dir, s) && Resumes(dir, s, last)
    ensures forall v :: v in Deduped(s, last) <==> Surfaces(s, v) && last != Some(v.key)
  {
    if s != [] {
      SortedTail(dir, s);
      var head, rest := s[0], s[1..];
      assert s == [head] + rest;
      if last == Some(head.key) {
        DedupedExact(dir, rest, last);
        forall v: Version | last != Some(v.key) ensures Surfaces(s, v) <==> Surfaces(rest, v) {
        }
      } else {
        if last.Some? { ResumesTail(dir, s, last); }
        DedupedExact(dir, rest, Some(head.key));
        forall v ensures v in Deduped(s, last) <==> Surfaces(s, v) {
          if v.key == head.key {
            assert head in s;
            assert Surfaces(s, v) ==> v.seqno == head.seqno;
            SlotUnique(dir, s, v);
          } else {
            assert Surfaces(s, v) <==> Surfaces(rest, v);
          }
        }
      }
    }
  }

  /** In a strictly sorted stream the newest version of a key comes first. */
  lemma SlotUnique(dir: Direction, s: seq<Version>, v: Version)
    requires Sorted(dir, s) && s != []
    ensures Surfaces(s, v) && v.key == s[0].key ==> v == s[0]
    ensures !s[0].Tombstone() ==> Surfaces(s, s[0])
  {
    SortedTail(dir, s);
    assert s == [s[0]] + s[1..];
    if Surfaces(s, v) && v.key == s[0].key && v != s[0] {
      var i :| 0 <= i < |s| && s[i] == v;
      assert Before(dir, s[0], s[i]);
      LessIrreflexive(v.key);
    }
  }

  /** Dedup mode yields keys strictly in scan order. */
  lemma {:induction false} DedupedSorted(dir: Direction, s: seq<Version>, last: Option<bytes>)
    requires Sorted(dir, s) && Resumes(dir, s, last)
    ensures KeysSorted(dir, Deduped(s, last))
  {
    if s != [] {
      SortedTail(dir, s);
      var next := if last == Some(s[0].key) then last else Some(s[0].key);
      DedupedSorted(dir, s[1..], next);
      DedupedExact(dir, s[1..], next);
      var rest := Deduped(s[1..], next);
      forall i | 0 <= i < |rest| && next == Some(s[0].key) ensures KeyBefore(dir, s[0].key, rest[i].key) {
        assert rest[i] in rest;
      }
    }
  }

  lemma HeadsAgree(dir: Direction, r: seq<Version>, t: seq<Version>)
    requires KeysSorted(dir, r) && KeysSorted(dir, t) && r != [] && t != []
    requires r[0] in t && t[0] in r
    ensures r[0] == t[0]
  {
    var k :| 0 <= k < |t| && t[k] == r[0];
    var m :| 0 <= m < |r| && r[m] == t[0];
    assert k > 0 ==> KeyBefore(dir, t[0].key, r[0].key);
    assert m > 0 ==> KeyBefore(dir, r[0].key, t[0].key);
    if k > 0 {
      if dir.Forward? { LessAsymmetric(t[0].key, r[0].key); } else { LessAsymmetric(r[0].key, t[0].key); }
    }
  }

  lemma TailMembers(dir: Direction, r: seq<Version>)
    requires KeysSorted(dir, r) && r != []
    ensures KeysSorted(dir, r[1..])
    ensures forall v :: v in r[1..] <==> v in r && v != r[0]
  {
    assert r == [r[0]] + r[1..];
    forall v | v in r[1..] ensures v != r[0] {
      var i :| 0 <= i < |r[1..]| && r[1..][i] == v;
      assert KeyBefore(dir, r[0].key, r[i + 1].key);
      LessIrreflexive(v.key);
    }
  }

  /** A sequence with strictly ordered keys is determined by its members. */
  lemma {:induction false} SortedUnique(dir: Direction, r: seq<Version>, t: seq<Version>)
    requires KeysSorted(dir, r) && KeysSorted(dir, t)
    requires forall v :: v in r <==> v in t
    ensures r == t
  {
    assert r != [] ==> r[0] in r;
    assert t != [] ==> t[0] in t;
    if r != [] && t != [] {
      HeadsAgree(dir, r, t);
      TailMembers(dir, r);
      TailMembers(dir, t);
      SortedUnique(dir, r[1..], t[1..]);
      assert r == [r[0]] + r[1..] && t == [t[0]] + t[1..];
    }
  }

  /** A deduplicated scan of any ordered sources: the live newest versions, in key order. */
  lemma DedupScan(dir: Direction, lanes: Lanes)
    requires LanesSorted(dir, lanes) && LanesDistinct(lanes)
    ensures var out := Yield(dir, Dedup, lanes, None);
            && KeysSorted(dir, out)
            && forall v :: v in out <==>
                 v in Union(lanes) && !v.Tombstone() && forall w :: w in Union(lanes) && w.key == v.key ==> w.seqno <= v.seqno
  {
    var s := Merged(dir, lanes);
    MergedSorted(dir, lanes);
    MergedPermutes(dir, lanes);
    assert forall v :: v in s <==> v in multiset(s);
    DedupedExact(dir, s, None);
    DedupedSorted(dir, s, None);
  }

  /** A reverse deduplicated scan is the mirror image of the forward one, however the same
      versions are spread over sources in either case. */
  lemma ReverseMirrorsForward(forwards: Lanes, backwards: Lanes)
    requires LanesSorted(Forward, forwards) && LanesDistinct(forwards)
    requires LanesSorted(Reverse, backwards) && LanesDistinct(backwards)
    requires Union(forwards) == Union(backwards)
    ensures Yield(Reverse, Dedup, backwards, None) == Reversed(Yield(Forward, Dedup, forwards, None))
  {
    DedupScan(Forward, forwards);
    DedupScan(Reverse, backwards);
    var f, b := Yield(Forward, Dedup, forwards, None), Yield(Reverse, Dedup, backwards, None);
    assert KeysSorted(Reverse, Reversed(f));
    SortedUnique(Reverse, b, Reversed(f));
  }

  /** How a compaction or scan spreads versions over sources does not affect a raw merge. */
  lemma RawIndependentOfSources(dir: Direction, lanes: Lanes, lanes': Lanes)
    requires LanesSorted(dir, lanes) && LanesDistinct(lanes)
    requires LanesSorted(dir, lanes') && LanesDistinct(lanes')
    requires Union(lanes) == Union(lanes')
    ensures Merged(dir, lanes) == Merged(dir, lanes')
  {
    MergedSorted(dir, lanes);
    MergedSorted(dir, lanes');
    MergedPermutes(dir, lanes);
    MergedPermutes(dir, lanes');
    SortedPermutationUnique(dir, Merged(dir, lanes), Merged(dir, lanes'));
  }

  lemma PermutationHeads(dir: Direction, s: seq<Version>, t: seq<Version>)
    requires Sorted(dir, s) && Sorted(dir, t) && s != [] && t != [] && s[0] in t && t[0] in s
    ensures s[0] == t[0]
  {
    var k :| 0 <= k < |t| && t[k] == s[0];
    var m :| 0 <= m < |s| && s[m] == t[0];
    assert k > 0 ==> Before(dir, t[0], s[0]);
    assert m > 0 ==> Before(dir, s[0], t[0]);
    if k > 0 {
      BeforeAsymmetric(dir, t[0], s[0]);
    }
  }

  lemma TailMultiset(s: seq<Version>)
    requires s != []
    ensures multiset(s) == multiset{s[0]} + multiset(s[1..]) && s[0] in multiset(s)
  {
    assert s == [s[0]] + s[1..];
  }

  lemma {:induction false} SortedPermutationUnique(dir: Direction, s: seq<Version>, t: seq<Version>)
    requires Sorted(dir, s) && Sorted(dir, t) && multiset(s) == multiset(t)
    ensures s == t
  {
    assert |multiset(s)| == |s| && |multiset(t)| == |t|;
    if s != [] {
      TailMultiset(s);
      TailMultiset(t);
      PermutationHeads(dir, s, t);
      SortedTail(dir, s);
      SortedTail(dir, t);
      CancelHead(s[0], multiset(s[1..]), multiset(t[1..]));
      SortedPermutationUnique(dir, s[1..], t[1..]);
      assert s == [s[0]] + s[1..] && t == [t[0]] + t[1..];
    }
  }

  lemma CancelHead(v: Version, a: multiset<Version>, b: multiset<Version>)
    requires multiset{v} + a == multiset{v} + b
    ensures a == b
  {
    assert a == (multiset{v} + a) - multiset{v} && b == (multiset{v} + b) - multiset{v};
  }
}
