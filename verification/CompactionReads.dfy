/** What compaction does to reads: exactly which (key, sequence, clock) reads it preserves.
    `inputs` are the merged versions, `others` every version in files and memtables it leaves
    alone. */
module CompactionReads {
  import opened Bytes
  import opened Versions
  import opened Compaction

  // ---- Fates without positions -------------------------------------------------

  /** Some version of the key at least as new in the inputs is an expired value. */
  ghost predicate Covered(inputs: set<Version>, v: Version, now: nat) {
    exists w :: w in inputs && w.key == v.key && w.seqno >= v.seqno && Reclaims(w, now)
  }

  ghost predicate Shadowed(inputs: set<Version>, v: Version, r: Rules) {
    exists w :: w in inputs && w.key == v.key && w.seqno > v.seqno && Anchors(w, r)
  }

  /** A tombstone the rules discard on sight. */
  predicate DroppedTombstone(v: Version, r: Rules) {
    r.watermark != 0 && v.seqno <= r.watermark && r.dropTombstones && v.Tombstone()
  }

  /** Discarded whatever else the inputs hold: expired with its key, or a dropped tombstone. */
  ghost predicate Discarded(inputs: set<Version>, v: Version, r: Rules) {
    Covered(inputs, v, r.now) || DroppedTombstone(v, r)
  }

  ghost predicate Keeps(inputs: set<Version>, v: Version, r: Rules) {
    && !Discarded(inputs, v, r)
    && (r.watermark == 0 || v.seqno > r.watermark || !Shadowed(inputs, v, r))
  }

  ghost function KeptSet(inputs: set<Version>, r: Rules): set<Version> {
    set v | v in inputs && Keeps(inputs, v, r)
  }

  lemma SortedNewerFirst(s: seq<Version>, i: nat, j: nat)
    requires Sorted(Forward, s) && Distinct(Contents(s)) && i < |s| && j < |s| && s[i].key == s[j].key
    ensures j < i <==> s[j].seqno > s[i].seqno
  {
    LessIrreflexive(s[i].key);
    assert s[i] in Contents(s) && s[j] in Contents(s);
    if j < i {
      assert Before(Forward, s[j], s[i]);
      assert SameSlot(s[i], s[j]) ==> s[i] == s[j];
    } else if i < j {
      assert Before(Forward, s[i], s[j]);
      assert SameSlot(s[i], s[j]) ==> s[i] == s[j];
    }
  }

  lemma CoveredAt(s: seq<Version>, i: nat, now: nat)
    requires Sorted(Forward, s) && Distinct(Contents(s)) && i < |s|
    ensures ExpiredBy(s, i, now) <==> Covered(Contents(s), s[i], now)
  {
    if ExpiredBy(s, i, now) {
      var j :| 0 <= j <= i && s[j].key == s[i].key && Reclaims(s[j], now);
      SortedNewerFirst(s, i, j);
      SortedNewerFirst(s, j, i);
      assert s[j] in Contents(s);
    }
    if Covered(Contents(s), s[i], now) {
      var w :| w in Contents(s) && w.key == s[i].key && w.seqno >= s[i].seqno && Reclaims(w, now);
      var j :| 0 <= j < |s| && s[j] == w;
      SortedNewerFirst(s, i, j);
      SortedNewerFirst(s, j, i);
    }
  }

  lemma ShadowedAt(s: seq<Version>, i: nat, r: Rules)
    requires Sorted(Forward, s) && Distinct(Contents(s)) && i < |s|
    ensures Anchored(s, i, r) <==> Shadowed(Contents(s), s[i], r)
  {
    if Anchored(s, i, r) {
      var j :| 0 <= j < i && s[j].key == s[i].key && Anchors(s[j], r);
      SortedNewerFirst(s, i, j);
      assert s[j] in Contents(s);
    }
    if Shadowed(Contents(s), s[i], r) {
      var w :| w in Contents(s) && w.key == s[i].key && w.seqno > s[i].seqno && Anchors(w, r);
      var j :| 0 <= j < |s| && s[j] == w;
      SortedNewerFirst(s, i, j);
    }
  }

  lemma {:induction false} SurvivorsMembers(s: seq<Version>, n: nat, r: Rules, v: Version)
    requires n <= |s|
    ensures v in Survivors(s, n, r) <==> exists i :: 0 <= i < n && s[i] == v && FateOf(s, i, r) == Kept
  {
    if n > 0 {
      SurvivorsMembers(s, n - 1, r, v);
    }
  }

  /** The files a compaction writes hold exactly the kept versions. */
  lemma SurvivorsAreKept(s: seq<Version>, r: Rules)
    requires Sorted(Forward, s) && Distinct(Contents(s))
    ensures Contents(Survivors(s, |s|, r)) == KeptSet(Contents(s), r)
  {
    forall i | 0 <= i < |s| ensures FateOf(s, i, r) == Kept <==> Keeps(Contents(s), s[i], r) {
      CoveredAt(s, i, r.now);
      ShadowedAt(s, i, r);
    }
    forall v ensures v in Survivors(s, |s|, r) <==> v in KeptSet(Contents(s), r) {
      SurvivorsMembers(s, |s|, r, v);
    }
  }

  // ---- Superseded versions are invisible ---------------------------------------

  ghost function Base(inputs: set<Version>, r: Rules): set<Version> {
    set v | v in inputs && !Discarded(inputs, v, r)
  }

  lemma DistinctSubset(s: set<Version>, t: set<Version>)
    requires s <= t && Distinct(t)
    ensures Distinct(s)
  {
  }

  lemma NewestInSubset(s: set<Version>, t: set<Version>, key: bytes, at: nat)
    requires s <= t && Distinct(t)
    requires Newest(t, key, at).Some? ==> Newest(t, key, at).value in s
    ensures Newest(s, key, at) == Newest(t, key, at)
  {
    NewestSpec(t, key, at);
    NewestSpec(s, key, at);
    DistinctSubset(s, t);
    if Newest(t, key, at).Some? {
      NewestIs(s, key, at, Newest(t, key, at).value);
    }
  }

  /** At or above the watermark, dropping superseded versions changes no newest version: only
      what is discarded outright can. */
  lemma SupersededInvisible(inputs: set<Version>, others: set<Version>, r: Rules, key: bytes, at: nat)
    requires Distinct(inputs + others) && at >= r.watermark
    ensures Newest(KeptSet(inputs, r) + others, key, at) == Newest(Base(inputs, r) + others, key, at)
  {
    var s, t := KeptSet(inputs, r) + others, Base(inputs, r) + others;
    assert s <= t <= inputs + others;
    DistinctSubset(t, inputs + others);
    NewestSpec(t, key, at);
    var n := Newest(t, key, at);
    if n.Some? && n.value !in s {
      var v := n.value;
      assert Shadowed(inputs, v, r);
      var w :| w in inputs && w.key == v.key && w.seqno > v.seqno && Anchors(w, r);
      assert !Covered(inputs, w, r.now) ==> w in t && Visible(w, key, at);
      assert Covered(inputs, w, r.now) ==> Covered(inputs, v, r.now);
    }
    NewestInSubset(s, t, key, at);
  }

  // ---- Exactly when a read is preserved ----------------------------------------

  predicate LiveAt(n: Option<Version>, now: nat) {
    n.Some? && n.value.Live(now)
  }

  /** Compaction does not change what this read returns, now or at any later clock. */
  ghost predicate Preserved(inputs: set<Version>, others: set<Version>, r: Rules, key: bytes, at: nat) {
    forall t: nat :: t >= r.now ==>
      Read(KeptSet(inputs, r) + others, key, at, t) == Read(inputs + others, key, at, t)
  }

  /** The newest visible version is an input that is discarded outright, and either it still
      held a live value or the version it uncovers does. */
  ghost predicate Uncovers(inputs: set<Version>, others: set<Version>, r: Rules, key: bytes, at: nat) {
    var n := Newest(inputs + others, key, at);
    && n.Some? && n.value in inputs && Discarded(inputs, n.value, r)
    && (n.value.Live(r.now) || LiveAt(Newest(Base(inputs, r) + others, key, at), r.now))
  }

  /** The main result: a read at or above the watermark is preserved if and only if the newest
      version it sees is not a discarded input that uncovers a live value. */
  lemma PreservedExactly(inputs: set<Version>, others: set<Version>, r: Rules, key: bytes, at: nat)
    requires Distinct(inputs + others) && inputs !! others && at >= r.watermark
    ensures Preserved(inputs, others, r, key, at) <==> !Uncovers(inputs, others, r, key, at)
  {
    SupersededInvisible(inputs, others, r, key, at);
    var before, base := inputs + others, Base(inputs, r) + others;
    var n, b := Newest(before, key, at), Newest(base, key, at);
    NewestSpec(before, key, at);
    NewestSpec(base, key, at);
    if n.Some? && n.value !in base {
      assert n.value in inputs && Discarded(inputs, n.value, r) && n != b;
      if Uncovers(inputs, others, r, key, at) {
        assert Read(KeptSet(inputs, r) + others, key, at, r.now) != Read(before, key, at, r.now);
      }
    } else {
      NewestInSubset(base, before, key, at);
    }
  }

  /** With tombstone dropping off and nothing expired, every read at or above the watermark finds
      the same version. */
  lemma SupersedingPreserves(inputs: set<Version>, others: set<Version>, r: Rules, key: bytes, at: nat)
    requires Distinct(inputs + others) && at >= r.watermark
    requires !r.dropTombstones && forall v :: v in inputs ==> !Reclaims(v, r.now)
    ensures Newest(KeptSet(inputs, r) + others, key, at) == Newest(inputs + others, key, at)
  {
    SupersededInvisible(inputs, others, r, key, at);
    assert Base(inputs, r) == inputs;
  }

  // ---- Tombstones --------------------------------------------------------------

  /** With nothing expired, a read is lost exactly when its newest version is a dropped input
      tombstone lying over a live value. */
  lemma TombstoneDropExact(inputs: set<Version>, others: set<Version>, r: Rules, key: bytes, at: nat)
    requires Distinct(inputs + others) && inputs !! others && at >= r.watermark
    requires forall v :: v in inputs ==> !Reclaims(v, r.now)
    ensures Preserved(inputs, others, r, key, at) <==>
            var n := Newest(inputs + others, key, at);
            var under := (set v | v in inputs && !DroppedTombstone(v, r)) + others;
            !(n.Some? && n.value in inputs && DroppedTombstone(n.value, r) && LiveAt(Newest(under, key, at), r.now))
  {
    PreservedExactly(inputs, others, r, key, at);
    assert Base(inputs, r) == set v | v in inputs && !DroppedTombstone(v, r);
  }

  /** Dropping is safe when each dropped tombstone is the oldest version of its key anywhere. */
  lemma BottommostTombstonesSafe(inputs: set<Version>, others: set<Version>, r: Rules, key: bytes, at: nat)
    requires Distinct(inputs + others) && inputs !! others && at >= r.watermark
    requires forall v :: v in inputs ==> !Reclaims(v, r.now)
    requires forall v, w :: v in inputs && DroppedTombstone(v, r) && w in inputs + others && w.key == v.key ==> w.seqno >= v.seqno
    ensures Preserved(inputs, others, r, key, at)
  {
    TombstoneDropExact(inputs, others, r, key, at);
    var before, under := inputs + others, (set v | v in inputs && !DroppedTombstone(v, r)) + others;
    NewestSpec(before, key, at);
    NewestSpec(under, key, at);
    var n, u := Newest(before, key, at), Newest(under, key, at);
    if n.Some? && n.value in inputs && DroppedTombstone(n.value, r) && u.Some? {
      assert SameSlot(n.value, u.value);
    }
  }

  /** A put followed by a delete, compacted together into the bottom level, resurfaces: the
      tombstone goes and the value it hid is kept. */
  lemma PutDeleteResurfaces(key: bytes, value: bytes, r: Rules)
    requires r.dropTombstones && r.watermark >= 2
    ensures var put, del := Version(key, 1, Some(value), 0), Version(key, 2, None, 0);
            && Read({put, del}, key, r.watermark, r.now) == None
            && Read(KeptSet({put, del}, r), key, r.watermark, r.now) == Some(put)
  {
    var put, del := Version(key, 1, Some(value), 0), Version(key, 2, None, 0);
    var inputs := {put, del};
    assert IsNewest(inputs, key, r.watermark, del);
    NewestIs(inputs, key, r.watermark, del);
    assert KeptSet(inputs, r) == {put};
    assert IsNewest({put}, key, r.watermark, put);
    NewestIs({put}, key, r.watermark, put);
  }

  // ---- Expiry ------------------------------------------------------------------

  /** With tombstone dropping off, a read is lost exactly when its newest version is an input
      covered by an expired one, and it was itself live or hides a live version elsewhere. */
  lemma ExpiryDropExact(inputs: set<Version>, others: set<Version>, r: Rules, key: bytes, at: nat)
    requires Distinct(inputs + others) && inputs !! others && at >= r.watermark && !r.dropTombstones
    ensures Preserved(inputs, others, r, key, at) <==>
            var n := Newest(inputs + others, key, at);
            !(n.Some? && n.value in inputs && Covered(inputs, n.value, r.now)
              && (n.value.Live(r.now) || LiveAt(Newest(others, key, at), r.now)))
  {
    PreservedExactly(inputs, others, r, key, at);
    var before, base := inputs + others, Base(inputs, r) + others;
    NewestSpec(before, key, at);
    NewestSpec(base, key, at);
    var n, b := Newest(before, key, at), Newest(base, key, at);
    if n.Some? && n.value in inputs && Covered(inputs, n.value, r.now) {
      assert forall v :: v in inputs && Visible(v, key, at) ==> Covered(inputs, v, r.now);
      assert b.Some? ==> b.value in others;
      NewestInSubset(others, base, key, at);
    }
  }

  /** A latest read survives unless an expired input is the newest version and a live one lies
      outside the inputs. */
  lemma LatestReadsAfterExpiry(inputs: set<Version>, others: set<Version>, r: Rules, key: bytes, at: nat)
    requires Distinct(inputs + others) && inputs !! others && at >= r.watermark && !r.dropTombstones
    requires forall v :: v in inputs + others ==> v.seqno <= at
    ensures Preserved(inputs, others, r, key, at) <==>
            var n := Newest(inputs + others, key, at);
            !(n.Some? && n.value in inputs && Reclaims(n.value, r.now) && LiveAt(Newest(others, key, at), r.now))
  {
    ExpiryDropExact(inputs, others, r, key, at);
    NewestSpec(inputs + others, key, at);
    var n := Newest(inputs + others, key, at);
    if n.Some? && n.value in inputs && Covered(inputs, n.value, r.now) {
      var w :| w in inputs && w.key == n.value.key && w.seqno >= n.value.seqno && Reclaims(w, r.now);
      assert Visible(w, key, at);
      assert SameSlot(w, n.value);
    }
  }

  /** Expiry ignores the watermark: a snapshot pinned between two versions loses its value. */
  lemma ExpiryLosesSnapshotRead(key: bytes, value: bytes, r: Rules)
    requires r.watermark <= 1 && r.now > 5 && !r.dropTombstones
    ensures var older, newer := Version(key, 1, Some(value), 0), Version(key, 2, Some(value), 5);
            && Read({older, newer}, key, 1, r.now) == Some(older)
            && Read(KeptSet({older, newer}, r), key, 1, r.now) == None
  {
    var older, newer := Version(key, 1, Some(value), 0), Version(key, 2, Some(value), 5);
    var inputs := {older, newer};
    assert IsNewest(inputs, key, 1, older);
    NewestIs(inputs, key, 1, older);
    assert newer in inputs && Reclaims(newer, r.now);
    assert Covered(inputs, older, r.now) && Covered(inputs, newer, r.now);
    assert KeptSet(inputs, r) == {};
    NewestSpec({}, key, 1);
  }
}
