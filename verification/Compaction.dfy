/** The compaction merge: which versions are garbage-collected, and where output files are cut. */
module Compaction {
  import opened Bytes
  import opened Words
  import opened Versions
  import opened MergeIterator

  datatype Rules = Rules(watermark: nat, dropTombstones: bool, now: nat)

  datatype Fate = Kept | Expired | Tombstone | Superseded

  // ---- What is dropped ---------------------------------------------------------

  /** An expired value; it takes every older version of its key in the merge with it. */
  predicate Reclaims(v: Version, now: nat) {
    v.Expired(now) && !v.Tombstone()
  }

  /** A version whose retention lets older ones at or below the watermark go. */
  predicate Anchors(v: Version, r: Rules) {
    v.seqno <= r.watermark && !(r.dropTombstones && v.Tombstone())
  }

  ghost predicate ExpiredBy(s: seq<Version>, i: nat, now: nat)
    requires i < |s|
  {
    exists j :: 0 <= j <= i && s[j].key == s[i].key && Reclaims(s[j], now)
  }

  ghost predicate Anchored(s: seq<Version>, i: nat, r: Rules)
    requires i < |s|
  {
    exists j :: 0 <= j < i && s[j].key == s[i].key && Anchors(s[j], r)
  }

  /** The fate of entry `i` of a merged stream, stated over the whole stream. */
  ghost function FateOf(s: seq<Version>, i: nat, r: Rules): Fate
    requires i < |s|
  {
    if ExpiredBy(s, i, r.now) then Expired
    else if r.watermark == 0 || s[i].seqno > r.watermark then Kept
    else if r.dropTombstones && s[i].Tombstone() then Tombstone
    else if !Anchored(s, i, r) then Kept
    else if s[i].Tombstone() then Tombstone
    else Superseded
  }

  ghost function Survivors(s: seq<Version>, n: nat, r: Rules): seq<Version>
    requires n <= |s|
  {
    if n == 0 then []
    else if FateOf(s, n - 1, r) == Kept then Survivors(s, n - 1, r) + [s[n - 1]]
    else Survivors(s, n - 1, r)
  }

  ghost function Count(s: seq<Version>, n: nat, r: Rules, fate: Fate): nat
    requires n <= |s|
  {
    if n == 0 then 0
    else Count(s, n - 1, r, fate) + if FateOf(s, n - 1, r) == fate then 1 else 0
  }

  // ---- The streaming decision --------------------------------------------------

  /** Whether to drop, and the updated "kept one at or below the watermark" flag. */
  function ShouldDrop(v: Version, r: Rules, kept: bool): (bool, bool) {
    if r.watermark == 0 then (false, kept)
    else if v.seqno > r.watermark then (false, kept)
    else if r.dropTombstones && v.Tombstone() then (true, kept)
    else if !kept then (false, true)
    else (true, kept)
  }

  /** One step of the merge loop on the flags of the current key. */
  function Decide(v: Version, r: Rules, kept: bool, dropRest: bool): (Fate, bool, bool) {
    if dropRest then (Expired, kept, true)
    else if Reclaims(v, r.now) then (Expired, kept, true)
    else
      var (drop, kept') := ShouldDrop(v, r, kept);
      (if !drop then Kept else if v.Tombstone() then Tombstone else Superseded, kept', false)
  }

  /** The loop's flags after `i` entries, in terms of the stream. */
  ghost predicate Tracks(s: seq<Version>, i: nat, r: Rules, last: Option<bytes>, kept: bool, dropRest: bool)
    requires i <= |s|
  {
    if i == 0 then last == None
    else
      && last == Some(s[i - 1].key)
      && (dropRest <==> ExpiredBy(s, i - 1, r.now))
      && (!dropRest ==> (kept <==> r.watermark != 0 && exists j :: 0 <= j < i && s[j].key == s[i - 1].key && Anchors(s[j], r)))
  }

  lemma SameKeyAdjacent(s: seq<Version>, i: nat, j: nat)
    requires Sorted(Forward, s) && j < i < |s|
    ensures s[j].key == s[i].key ==> s[i - 1].key == s[i].key
    ensures s[j].key == s[i].key || Less(s[j].key, s[i].key)
  {
    assert Before(Forward, s[j], s[i]);
    if j < i - 1 && s[j].key == s[i].key {
      assert Before(Forward, s[j], s[i - 1]) && Before(Forward, s[i - 1], s[i]);
      if Less(s[j].key, s[i - 1].key) {
        LessAsymmetric(s[j].key, s[i - 1].key);
      }
    }
  }

  /** The streaming decision computes the declared fate. */
  lemma DecideIsFate(s: seq<Version>, i: nat, r: Rules, last: Option<bytes>, kept: bool, dropRest: bool)
    requires Sorted(Forward, s) && i < |s| && Tracks(s, i, r, last, kept, dropRest)
    ensures var boundary := last != Some(s[i].key);
            var (fate, kept', dropRest') := Decide(s[i], r, !boundary && kept, !boundary && dropRest);
            fate == FateOf(s, i, r) && Tracks(s, i + 1, r, Some(s[i].key), kept', dropRest')
  {
    if last == Some(s[i].key) {
      FateWithinKey(s, i, r, kept, dropRest);
    } else {
      forall j | 0 <= j < i ensures s[j].key != s[i].key {
        SameKeyAdjacent(s, i, j);
      }
    }
  }

  lemma FateWithinKey(s: seq<Version>, i: nat, r: Rules, kept: bool, dropRest: bool)
    requires 0 < i < |s| && s[i - 1].key == s[i].key && Tracks(s, i, r, Some(s[i].key), kept, dropRest)
    ensures var (fate, kept', dropRest') := Decide(s[i], r, kept, dropRest);
            fate == FateOf(s, i, r) && Tracks(s, i + 1, r, Some(s[i].key), kept', dropRest')
  {
    assert ExpiredBy(s, i, r.now) <==> ExpiredBy(s, i - 1, r.now) || Reclaims(s[i], r.now);
    if !dropRest && !Reclaims(s[i], r.now) {
      assert r.watermark != 0 ==> (kept <==> Anchored(s, i, r));
      assert (exists j :: 0 <= j < i + 1 && s[j].key == s[i].key && Anchors(s[j], r))
        <==> Anchored(s, i, r) || Anchors(s[i], r);
    }
  }

  // ---- Output files ------------------------------------------------------------

  function SatAdd(a: nat, b: nat): nat {
    if a + b < U64 then a + b else U64 - 1
  }

  function EntryBytes(v: Version): nat {
    32 + (if v.Tombstone() then 0 else |v.value.value|) + |v.key|
  }

  /** The running size estimate of a pending output. */
  function Estimate(file: seq<Version>): nat {
    if file == [] then 0
    else
      SatAdd(Estimate(file[..|file| - 1]), EntryBytes(file[|file| - 1]))
  }

  function Flatten(files: seq<seq<Version>>): seq<Version> {
    if files == [] then [] else Flatten(files[..|files| - 1]) + files[|files| - 1]
  }

  lemma FlattenSnoc(files: seq<seq<Version>>, file: seq<Version>)
    ensures Flatten(files + [file]) == Flatten(files) + file
  {
    assert (files + [file])[..|files|] == files;
  }

  /** Every user key of an earlier file sorts before every user key of a later one. */
  ghost predicate KeysSeparated(files: seq<seq<Version>>) {
    forall f, g, x, y :: 0 <= f < g < |files| && x in files[f] && y in files[g] ==> Less(x.key, y.key)
  }

  ghost predicate AllBelow(files: seq<seq<Version>>, key: bytes) {
    forall f, x :: 0 <= f < |files| && x in files[f] ==> Less(x.key, key)
  }

  /** Cut points of an unfinished run: closed files are separated and full, and lie below both
      what is pending and what is still to come. */
  ghost predicate WellCut(files: seq<seq<Version>>, pending: seq<Version>, s: seq<Version>, i: nat, target: nat) {
    && i <= |s|
    && KeysSeparated(files)
    && (forall f :: 0 <= f < |files| ==> files[f] != [] && Estimate(files[f]) >= target)
    && (forall x :: x in pending ==> AllBelow(files, x.key))
    && (forall j :: i <= j < |s| ==> AllBelow(files, s[j].key))
    && (forall f, x :: 0 <= f < |files| && x in files[f] ==> x in s[..i])
    && (forall x :: x in pending ==> x in s[..i])
  }

  lemma SeparatedPush(files: seq<seq<Version>>, pending: seq<Version>)
    requires KeysSeparated(files) && forall x :: x in pending ==> AllBelow(files, x.key)
    ensures KeysSeparated(files + [pending])
  {
    var files' := files + [pending];
    forall f, g, x: Version, y: Version | 0 <= f < g < |files'| && x in files'[f] && y in files'[g]
      ensures Less(x.key, y.key)
    {
      assert files'[f] == files[f];
      if g == |files| { assert y in pending && AllBelow(files, y.key); }
    }
  }

  lemma CutAtBoundary(files: seq<seq<Version>>, pending: seq<Version>, s: seq<Version>, i: nat, target: nat)
    requires Sorted(Forward, s) && WellCut(files, pending, s, i, target)
    requires pending != [] && Estimate(pending) >= target
    requires 0 < i < |s| ==> s[i - 1].key != s[i].key
    ensures WellCut(files + [pending], [], s, i, target)
  {
    hide Estimate;
    var files' := files + [pending];
    SeparatedPush(files, pending);
    forall j | i <= j < |s| ensures AllBelow(files', s[j].key) {
      forall x | x in pending ensures Less(x.key, s[j].key) {
        var k :| 0 <= k < i && s[..i][k] == x;
        BoundaryBelow(s, i, k, j);
      }
      assert AllBelow(files, s[j].key);
    }
  }

  lemma BoundaryBelow(s: seq<Version>, i: nat, k: nat, j: nat)
    requires Sorted(Forward, s) && k < i <= j < |s| && s[i - 1].key != s[i].key
    ensures Less(s[k].key, s[j].key)
  {
    SameKeyAdjacent(s, i, k);
    if i < j {
      SameKeyAdjacent(s, j, i);
      if s[i].key != s[j].key { LessTransitive(s[k].key, s[i].key, s[j].key); }
    }
  }

  lemma CutPush(files: seq<seq<Version>>, pending: seq<Version>, s: seq<Version>, i: nat, target: nat, keep: bool)
    requires i < |s| && WellCut(files, pending, s, i, target)
    ensures WellCut(files, if keep then pending + [s[i]] else pending, s, i + 1, target)
  {
    assert s[..i + 1] == s[..i] + [s[i]];
    assert AllBelow(files, s[i].key);
  }

  // ---- The loop's two invariants -----------------------------------------------

  /** The drop counters a run reports. */
  datatype Dropped = Dropped(superseded: nat, tombstones: nat, expired: nat) {
    function Note(fate: Fate): Dropped {
      match fate
      case Kept => this
      case Superseded => this.(superseded := superseded + 1)
      case Tombstone => this.(tombstones := tombstones + 1)
      case Expired => this.(expired := expired + 1)
    }
  }

  ghost predicate Tallies(d: Dropped, s: seq<Version>, i: nat, r: Rules)
    requires i <= |s|
  {
    && d.superseded == Count(s, i, r, Superseded)
    && d.tombstones == Count(s, i, r, Tombstone)
    && d.expired == Count(s, i, r, Expired)
    && |Survivors(s, i, r)| + d.superseded + d.tombstones + d.expired == i
  }

  /** After `i` entries the flags, the counters and what was kept agree with the fates. */
  ghost predicate Collected(s: seq<Version>, i: nat, r: Rules, last: Option<bytes>, kept: bool, dropRest: bool,
                            out: seq<Version>, d: Dropped)
  {
    i <= |s| && Tracks(s, i, r, last, kept, dropRest) && out == Survivors(s, i, r) && Tallies(d, s, i, r)
  }

  lemma CollectedStep(s: seq<Version>, i: nat, r: Rules, last: Option<bytes>, kept: bool, dropRest: bool,
                      out: seq<Version>, d: Dropped)
    requires Sorted(Forward, s) && i < |s| && Collected(s, i, r, last, kept, dropRest, out, d)
    ensures i > 0 ==> last == Some(s[i - 1].key)
    ensures var boundary := last != Some(s[i].key);
            var (fate, kept', dropRest') := Decide(s[i], r, !boundary && kept, !boundary && dropRest);
            Collected(s, i + 1, r, Some(s[i].key), kept', dropRest', if fate == Kept then out + [s[i]] else out, d.Note(fate))
  {
    DecideIsFate(s, i, r, last, kept, dropRest);
  }

  lemma CollectedFinish(s: seq<Version>, i: nat, r: Rules, last: Option<bytes>, kept: bool, dropRest: bool,
                        out: seq<Version>, d: Dropped)
    requires Collected(s, i, r, last, kept, dropRest, out, d)
    ensures i <= |s| && out == Survivors(s, i, r) && Tallies(d, s, i, r)
  {
  }

  /** What was kept so far is spread over closed files and the pending one. */
  ghost predicate Placed(out: seq<Version>, files: seq<seq<Version>>, pending: seq<Version>, pendingBytes: nat,
                         s: seq<Version>, i: nat, target: nat)
  {
    out == Flatten(files) + pending && pendingBytes == Estimate(pending) && WellCut(files, pending, s, i, target)
  }

  lemma PlacedFlush(out: seq<Version>, files: seq<seq<Version>>, pending: seq<Version>, pendingBytes: nat,
                    s: seq<Version>, i: nat, target: nat)
    requires Sorted(Forward, s) && Placed(out, files, pending, pendingBytes, s, i, target)
    requires pending != [] && pendingBytes >= target
    requires 0 < i < |s| ==> s[i - 1].key != s[i].key
    ensures Placed(out, files + [pending], [], 0, s, i, target)
  {
    hide WellCut, Sorted;
    FlattenSnoc(files, pending);
    CutAtBoundary(files, pending, s, i, target);
    assert Flatten(files + [pending]) + [] == Flatten(files) + pending;
  }

  lemma PlacedStep(out: seq<Version>, files: seq<seq<Version>>, pending: seq<Version>, pendingBytes: nat,
                   s: seq<Version>, i: nat, target: nat)
    requires i < |s| && Placed(out, files, pending, pendingBytes, s, i, target)
    ensures Placed(out, files, pending, pendingBytes, s, i + 1, target)
    ensures Placed(out + [s[i]], files, pending + [s[i]], SatAdd(pendingBytes, EntryBytes(s[i])), s, i + 1, target)
  {
    CutPush(files, pending, s, i, target, true);
    CutPush(files, pending, s, i, target, false);
    assert (pending + [s[i]])[..|pending|] == pending;
    assert Flatten(files) + (pending + [s[i]]) == Flatten(files) + pending + [s[i]];
  }

  /** Outputs cut only at key boundaries, each but the last at least `target` by estimate. */
  ghost predicate SplitWell(outputs: seq<seq<Version>>, target: nat) {
    && KeysSeparated(outputs)
    && (forall f :: 0 <= f < |outputs| ==> outputs[f] != [])
    && (forall f :: 0 <= f < |outputs| - 1 ==> Estimate(outputs[f]) >= target)
  }

  lemma PlacedFinish(out: seq<Version>, files: seq<seq<Version>>, pending: seq<Version>, pendingBytes: nat,
                     s: seq<Version>, i: nat, target: nat)
    requires Placed(out, files, pending, pendingBytes, s, i, target)
    ensures var outputs := if pending != [] then files + [pending] else files;
            Flatten(outputs) == out && SplitWell(outputs, target)
  {
    hide Flatten, Estimate, AllBelow;
    if pending != [] {
      FlattenSnoc(files, pending);
      SeparatedPush(files, pending);
      assert forall f :: 0 <= f < |files| ==> (files + [pending])[f] == files[f];
    } else {
      assert Flatten(files) + [] == Flatten(files);
    }
  }

  lemma NothingCollected(s: seq<Version>, r: Rules)
    ensures Collected(s, 0, r, None, false, false, [], Dropped(0, 0, 0))
  {
    hide FateOf;
  }

  lemma NothingPlaced(s: seq<Version>, target: nat)
    ensures Placed([], [], [], 0, s, 0, target)
  {
    hide Less, AllBelow, Estimate;
    assert Estimate([]) == 0 by { NoEstimate(); }
    var files: seq<seq<Version>> := [];
    NothingBelow(s);
    assert Flatten(files) + [] == [];
    assert WellCut(files, [], s, 0, target);
  }

  lemma NoEstimate()
    ensures Estimate([]) == 0
  {
  }

  lemma NothingBelow(s: seq<Version>)
    ensures forall j :: 0 <= j < |s| ==> AllBelow([], s[j].key)
  {
  }

  /** What the loop carries from one entry to the next. */
  datatype Carry = Carry(files: seq<seq<Version>>, pending: seq<Version>, pendingBytes: nat,
                         lastUserKey: Option<bytes>, kept: bool, dropRest: bool, dropped: Dropped)
  {
    ghost predicate After(s: seq<Version>, i: nat, r: Rules, out: seq<Version>, target: nat) {
      && Collected(s, i, r, lastUserKey, kept, dropRest, out, dropped)
      && Placed(out, files, pending, pendingBytes, s, i, target)
    }
  }

  /** Close the pending output at a key boundary once it is full. */
  method CloseFull(files: seq<seq<Version>>, pending: seq<Version>, pendingBytes: nat, boundary: bool, target: nat,
                   ghost s: seq<Version>, ghost i: nat, ghost out: seq<Version>)
    returns (files': seq<seq<Version>>, pending': seq<Version>, bytes': nat)
    requires Sorted(Forward, s) && Placed(out, files, pending, pendingBytes, s, i, target)
    requires boundary && 0 < i < |s| ==> s[i - 1].key != s[i].key
    ensures Placed(out, files', pending', bytes', s, i, target)
  {
    hide *;
    if boundary && pendingBytes >= target && pending != [] {
      PlacedFlush(out, files, pending, pendingBytes, s, i, target);
      return files + [pending], [], 0;
    }
    return files, pending, pendingBytes;
  }

  /** Take one merged entry: close the pending output at a key boundary once it is full, then write or
      drop the entry. */
  method Absorb(c: Carry, v: Version, r: Rules, target: nat, ghost s: seq<Version>, ghost i: nat, ghost out: seq<Version>)
    returns (next: Carry, ghost grown: seq<Version>)
    requires Sorted(Forward, s) && i < |s| && v == s[i] && c.After(s, i, r, out, target)
    ensures next.After(s, i + 1, r, grown, target)
  {
    hide *;
    hide Carry.After;
    CarryParts(c, s, i, r, out, target);
    CollectedStep(s, i, r, c.lastUserKey, c.kept, c.dropRest, out, c.dropped);
    var boundary := c.lastUserKey != Some(v.key);
    var files, pending, pendingBytes := CloseFull(c.files, c.pending, c.pendingBytes, boundary, target, s, i, out);
    PlacedStep(out, files, pending, pendingBytes, s, i, target);
    var (fate, kept, dropRest) := Decide(v, r, !boundary && c.kept, !boundary && c.dropRest);
    grown := out;
    if fate == Kept {
      pendingBytes := SatAdd(pendingBytes, EntryBytes(v));
      pending := pending + [v];
      grown := out + [v];
    }
    next := Carry(files, pending, pendingBytes, Some(v.key), kept, dropRest, c.dropped.Note(fate));
    CarryParts(next, s, i + 1, r, grown, target);
  }

  lemma CarryParts(c: Carry, s: seq<Version>, i: nat, r: Rules, out: seq<Version>, target: nat)
    ensures c.After(s, i, r, out, target) <==>
            && Collected(s, i, r, c.lastUserKey, c.kept, c.dropRest, out, c.dropped)
            && Placed(out, c.files, c.pending, c.pendingBytes, s, i, target)
  {
    hide Collected, Placed;
  }

  /** What is left of the merge once `i` entries are taken. */
  ghost predicate Left(rest: seq<Version>, s: seq<Version>, i: nat) {
    i <= |s| && rest == s[i..]
  }

  lemma LeftStep(rest: seq<Version>, s: seq<Version>, i: nat)
    requires Left(rest, s, i)
    ensures rest == [] ==> i == |s|
    ensures rest != [] ==> i < |s| && rest[0] == s[i] && Left(rest[1..], s, i + 1)
  {
  }

  lemma Begin(inputs: Lanes, s: seq<Version>, r: Rules, target: nat)
    requires s == Merged(Forward, inputs)
    ensures Left(Yield(Forward, Raw, inputs, None), s, 0)
    ensures Carry([], [], 0, None, false, false, Dropped(0, 0, 0)).After(s, 0, r, [], target)
  {
    hide Collected, Placed, Merged;
    NothingCollected(s, r);
    NothingPlaced(s, target);
    assert s[0..] == s;
  }

  lemma Finish(c: Carry, s: seq<Version>, r: Rules, out: seq<Version>, target: nat)
    requires c.After(s, |s|, r, out, target)
    ensures var outputs := if c.pending != [] then c.files + [c.pending] else c.files;
            Flatten(outputs) == Survivors(s, |s|, r) && SplitWell(outputs, target)
    ensures Tallies(c.dropped, s, |s|, r)
  {
    hide *;
    hide Carry.After;
    CarryParts(c, s, |s|, r, out, target);
    PlacedFinish(out, c.files, c.pending, c.pendingBytes, s, |s|, target);
    CollectedFinish(s, |s|, r, c.lastUserKey, c.kept, c.dropRest, out, c.dropped);
  }

  /** Merge the inputs, drop what the rules drop, and cut outputs at key boundaries. Every input
      entry is either written once or counted in exactly one drop counter. */
  method ExecuteCompaction(inputs: Lanes, r: Rules, target: nat) returns (outputs: seq<seq<Version>>, dropped: Dropped)
    requires LanesSorted(Forward, inputs) && LanesDistinct(inputs)
    ensures var s := Merged(Forward, inputs);
            Flatten(outputs) == Survivors(s, |s|, r) && Tallies(dropped, s, |s|, r)
    ensures SplitWell(outputs, target)
  {
    hide *;
    hide Carry.After;
    ghost var s := Merged(Forward, inputs);
    MergedSorted(Forward, inputs);
    var merger := new MergingIterator(inputs, Raw, Forward);
    var c := Carry([], [], 0, None, false, false, Dropped(0, 0, 0));
    ghost var i, out := 0, [];
    Begin(inputs, s, r, target);
    while true
      invariant fresh(merger) && merger.Valid() && Left(merger.Pending(), s, i)
      invariant c.After(s, i, r, out, target)
      decreases |s| - i
    {
      LeftStep(merger.Pending(), s, i);
      var next := merger.Next();
      if next.None? {
        Finish(c, s, r, out, target);
        outputs := if c.pending != [] then c.files + [c.pending] else c.files;
        dropped := c.dropped;
        break;
      }
      c, out := Absorb(c, next.value, r, target, s, i, out);
      i := i + 1;
    }
  }
}
