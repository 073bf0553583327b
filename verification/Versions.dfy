/** Versioned entries of the storage engine and what a read at a sequence number observes. */
module Versions {
  import opened Bytes

  /** One internal key with its entry: user key, sequence number, value (`None` for a
      tombstone) and absolute expiry (`0` for never). */
  datatype Version = Version(key: bytes, seqno: nat, value: Option<bytes>, expiresAt: nat) {
    predicate Tombstone() {
      value.None?
    }

    predicate Expired(now: nat) {
      expiresAt != 0 && now > expiresAt
    }

    /** What a read resolves to a value at clock `now`. */
    predicate Live(now: nat) {
      !Tombstone() && !Expired(now)
    }
  }

  datatype Direction = Forward | Reverse

  /** The order a scan yields versions in: by user key in the scan direction, newest first
      within a key. A forward scan breaks a full tie on the entry kind. */
  predicate Before(dir: Direction, a: Version, b: Version) {
    match dir
    case Forward =>
      || Less(a.key, b.key)
      || (a.key == b.key && (a.seqno > b.seqno || (a.seqno == b.seqno && !a.Tombstone() && b.Tombstone())))
    case Reverse =>
      || Less(b.key, a.key)
      || (a.key == b.key && a.seqno > b.seqno)
  }

  lemma BeforeTransitive(dir: Direction, a: Version, b: Version, c: Version)
    requires Before(dir, a, b) && Before(dir, b, c)
    ensures Before(dir, a, c)
  {
    if Less(a.key, b.key) && Less(b.key, c.key) { LessTransitive(a.key, b.key, c.key); }
    if Less(b.key, a.key) && Less(c.key, b.key) { LessTransitive(c.key, b.key, a.key); }
  }

  lemma BeforeAsymmetric(dir: Direction, a: Version, b: Version)
    requires Before(dir, a, b)
    ensures !Before(dir, b, a)
  {
    if Less(a.key, b.key) { LessAsymmetric(a.key, b.key); }
    if Less(b.key, a.key) { LessAsymmetric(b.key, a.key); }
    LessIrreflexive(a.key);
  }

  /** Two versions are the same logical write when key and sequence number agree. */
  predicate SameSlot(a: Version, b: Version) {
    a.key == b.key && a.seqno == b.seqno
  }

  lemma BeforeTotal(dir: Direction, a: Version, b: Version)
    requires !SameSlot(a, b)
    ensures Before(dir, a, b) || Before(dir, b, a)
  {
    LessTotal(a.key, b.key);
  }

  ghost predicate Sorted(dir: Direction, s: seq<Version>) {
    forall i, j :: 0 <= i < j < |s| ==> Before(dir, s[i], s[j])
  }

  /** No sequence number is used twice for a key. */
  ghost predicate Distinct(s: set<Version>) {
    forall a, b :: a in s && b in s && SameSlot(a, b) ==> a == b
  }

  function Contents(s: seq<Version>): set<Version> {
    set v | v in s
  }

  // ---- Reads -------------------------------------------------------------------

  predicate Visible(v: Version, key: bytes, at: nat) {
    v.key == key && v.seqno <= at
  }

  ghost predicate IsNewest(s: set<Version>, key: bytes, at: nat, v: Version) {
    v in s && Visible(v, key, at) && forall w :: w in s && Visible(w, key, at) ==> w.seqno <= v.seqno
  }

  /** The newest version of `key` with sequence number at most `at`. */
  ghost function Newest(s: set<Version>, key: bytes, at: nat): Option<Version> {
    if exists v :: IsNewest(s, key, at, v) then
      var v :| IsNewest(s, key, at, v);
      Some(v)
    else None
  }

  /** What a read of `key` at sequence `at` and clock `now` returns. The version carries its
      sequence number, which callers see as the revision. */
  ghost function Read(s: set<Version>, key: bytes, at: nat, now: nat): Option<Version> {
    match Newest(s, key, at)
    case Some(v) => if v.Live(now) then Some(v) else None
    case None => None
  }

  lemma {:induction false} NewestExists(s: set<Version>, key: bytes, at: nat, w: Version) returns (v: Version)
    requires w in s && Visible(w, key, at)
    ensures IsNewest(s, key, at, v)
    decreases at - w.seqno
  {
    if u :| u in s && Visible(u, key, at) && u.seqno > w.seqno {
      v := NewestExists(s, key, at, u);
    } else {
      v := w;
    }
  }

  lemma NewestIs(s: set<Version>, key: bytes, at: nat, v: Version)
    requires Distinct(s) && IsNewest(s, key, at, v)
    ensures Newest(s, key, at) == Some(v)
  {
    var u := Newest(s, key, at).value;
    assert IsNewest(s, key, at, u);
    assert SameSlot(u, v);
  }

  /** `Newest` answers `None` exactly when nothing is visible, and otherwise the newest. */
  lemma NewestSpec(s: set<Version>, key: bytes, at: nat)
    ensures match Newest(s, key, at)
            case Some(v) => IsNewest(s, key, at, v)
            case None => forall w :: w in s ==> !Visible(w, key, at)
  {
    if w :| w in s && Visible(w, key, at) {
      var v := NewestExists(s, key, at, w);
    }
  }
}
