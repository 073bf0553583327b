/** Document change streams over archived and active WAL segments. */
module ChangeLog {
  import opened Bytes
  import opened Keys
  import opened Words

  datatype Command = Put | Del | Other

  datatype WalOp = WalOp(command: Command, key: bytes, value: bytes)

  /** One committed record: a single write or an atomic batch under one sequence number. */
  datatype WalEntry = WalEntry(seqno: nat, ops: seq<WalOp>)

  datatype Segment = Segment(id: nat, maxSeq: nat, sealedMs: nat, sizeBytes: nat, entries: seq<WalEntry>)

  datatype Change = Change(seqno: nat, ordinal: nat, docId: bytes, upsert: bool, stored: bytes)

  /** A resume position: strictly after this sequence number and operation ordinal. */
  datatype Token = Token(seqno: nat, ordinal: nat)

  // ---- What a stream contains --------------------------------------------------

  /** The key belongs to a document body of the collection. */
  predicate IsDocBodyKey(key: bytes, prefix: bytes, collection: nat) {
    && |key| >= |prefix| + 5
    && prefix <= key
    && key[|prefix|] == REC_DOC
    && FromBE(key[|prefix| + 1..|prefix| + 5]) == collection
  }

  /** Body keys are exactly the collection's document prefix followed by an id. */
  lemma DocBodyKeyExact(key: bytes, prefix: bytes, collection: nat)
    requires collection < U32
    ensures IsDocBodyKey(key, prefix, collection) <==> DocPrefix(prefix, collection) <= key
  {
    Spans();
    BERoundTrip(4, collection);
    hide ToBE, FromBE;
    var n := |prefix|;
    if DocPrefix(prefix, collection) <= key {
      assert key[..n + 5] == DocPrefix(prefix, collection);
      assert key[n + 1..n + 5] == key[..n + 5][n + 1..n + 5] == ToBE(4, collection);
      assert key[..n] == key[..n + 5][..n] == prefix;
    }
    if IsDocBodyKey(key, prefix, collection) {
      BEInverse(key[n + 1..n + 5]);
      assert key[..n + 5] == prefix + [REC_DOC] + key[n + 1..n + 5];
      assert key[..n + 5] == DocPrefix(prefix, collection);
    }
  }

  lemma {:induction false} BEInverse(s: bytes)
    ensures FromBE(s) < Span(|s|) && ToBE(|s|, FromBE(s)) == s
  {
    if s != [] {
      var n := |s| - 1;
      BEInverse(s[..n]);
      assert s == s[..n] + [s[n]];
    }
  }

  predicate After(seqno: nat, ordinal: nat, t: Token) {
    seqno > t.seqno || (seqno == t.seqno && ordinal > t.ordinal)
  }

  predicate Emits(e: WalEntry, k: nat, prefix: bytes, collection: nat)
    requires k < |e.ops|
  {
    IsDocBodyKey(e.ops[k].key, prefix, collection) && e.ops[k].command != Other
  }

  function ChangeAt(e: WalEntry, k: nat, prefix: bytes): Change
    requires k < |e.ops| && |e.ops[k].key| >= |prefix| + 5
  {
    var op := e.ops[k];
    Change(e.seqno, k, op.key[|prefix| + 5..], op.command == Put, if op.command == Put then op.value else [])
  }

  /** `c` is a document change recorded in the history. */
  ghost predicate Recorded(history: seq<WalEntry>, prefix: bytes, collection: nat, c: Change) {
    exists e, k :: e in history && 0 <= k < |e.ops| && Emits(e, k, prefix, collection) && c == ChangeAt(e, k, prefix)
  }

  predicate Precedes(a: Change, b: Change) {
    a.seqno < b.seqno || (a.seqno == b.seqno && a.ordinal < b.ordinal)
  }

  ghost predicate Ordered(s: seq<Change>) {
    forall i, j :: 0 <= i < j < |s| ==> Precedes(s[i], s[j])
  }

  ghost predicate SeqsDistinct(history: seq<WalEntry>) {
    forall i, j :: 0 <= i < j < |history| ==> history[i].seqno != history[j].seqno
  }

  // ---- Collecting --------------------------------------------------------------

  function Emitted(e: WalEntry, n: nat, prefix: bytes, collection: nat, t: Token): seq<Change>
    requires n <= |e.ops|
  {
    if n == 0 then []
    else if After(e.seqno, n - 1, t) && Emits(e, n - 1, prefix, collection)
      then Emitted(e, n - 1, prefix, collection, t) + [ChangeAt(e, n - 1, prefix)]
    else Emitted(e, n - 1, prefix, collection, t)
  }

  function EmittedAll(entries: seq<WalEntry>, prefix: bytes, collection: nat, t: Token): seq<Change> {
    if entries == [] then []
    else
      var last := entries[|entries| - 1];
      EmittedAll(entries[..|entries| - 1], prefix, collection, t) + Emitted(last, |last.ops|, prefix, collection, t)
  }

  method PushEntry(e: WalEntry, prefix: bytes, collection: nat, t: Token, start: seq<Change>) returns (out: seq<Change>)
    ensures out == start + Emitted(e, |e.ops|, prefix, collection, t)
  {
    out := start;
    for k := 0 to |e.ops|
      invariant out == start + Emitted(e, k, prefix, collection, t)
    {
      if After(e.seqno, k, t) && IsDocBodyKey(e.ops[k].key, prefix, collection) && e.ops[k].command != Other {
        out := out + [ChangeAt(e, k, prefix)];
      }
    }
  }

  method PushEntries(entries: seq<WalEntry>, prefix: bytes, collection: nat, t: Token, start: seq<Change>) returns (out: seq<Change>)
    ensures out == start + EmittedAll(entries, prefix, collection, t)
  {
    out := start;
    for i := 0 to |entries|
      invariant out == start + EmittedAll(entries[..i], prefix, collection, t)
    {
      assert entries[..i + 1][..i] == entries[..i];
      out := PushEntry(entries[i], prefix, collection, t, out);
    }
    assert entries[..|entries|] == entries;
  }

  function Insert(c: Change, s: seq<Change>): seq<Change> {
    if s == [] || Precedes(c, s[0]) then [c] + s else [s[0]] + Insert(c, s[1..])
  }

  function Sort(s: seq<Change>): seq<Change> {
    if s == [] then [] else Insert(s[|s| - 1], Sort(s[..|s| - 1]))
  }

  function AllEntries(segments: seq<Segment>): seq<WalEntry> {
    if segments == [] then [] else AllEntries(segments[..|segments| - 1]) + segments[|segments| - 1].entries
  }

  /** Segments whose recorded maximum does not rule them out. */
  function Visited(segments: seq<Segment>, t: Token): seq<WalEntry> {
    if segments == [] then []
    else
      var last := segments[|segments| - 1];
      Visited(segments[..|segments| - 1], t) + if last.maxSeq < t.seqno then [] else last.entries
  }

  /** The recorded maximum really bounds the segment. */
  ghost predicate Bounded(segments: seq<Segment>) {
    forall i, e :: 0 <= i < |segments| && e in segments[i].entries ==> e.seqno <= segments[i].maxSeq
  }

  // ---- Resumption --------------------------------------------------------------

  lemma {:induction false} EmittedMembers(e: WalEntry, n: nat, prefix: bytes, collection: nat, t: Token, c: Change)
    requires n <= |e.ops|
    ensures c in Emitted(e, n, prefix, collection, t) <==>
            exists k :: 0 <= k < n && Emits(e, k, prefix, collection) && c == ChangeAt(e, k, prefix) && After(c.seqno, c.ordinal, t)
  {
    if n > 0 {
      EmittedMembers(e, n - 1, prefix, collection, t, c);
    }
  }

  lemma {:induction false} EmittedAllMembers(entries: seq<WalEntry>, prefix: bytes, collection: nat, t: Token, c: Change)
    ensures c in EmittedAll(entries, prefix, collection, t) <==>
            Recorded(entries, prefix, collection, c) && After(c.seqno, c.ordinal, t)
  {
    if entries != [] {
      var n := |entries| - 1;
      var last := entries[n];
      EmittedAllMembers(entries[..n], prefix, collection, t, c);
      EmittedMembers(last, |last.ops|, prefix, collection, t, c);
      assert entries == entries[..n] + [last];
      assert Recorded(entries, prefix, collection, c) <==>
        Recorded(entries[..n], prefix, collection, c) || Recorded([last], prefix, collection, c);
    }
  }

  ghost predicate PositionsDistinct(s: seq<Change>) {
    forall i, j :: 0 <= i < j < |s| ==> s[i].seqno != s[j].seqno || s[i].ordinal != s[j].ordinal
  }

  lemma {:induction false} EmittedDistinct(e: WalEntry, n: nat, prefix: bytes, collection: nat, t: Token)
    requires n <= |e.ops|
    ensures PositionsDistinct(Emitted(e, n, prefix, collection, t))
    ensures forall c :: c in Emitted(e, n, prefix, collection, t) ==> c.seqno == e.seqno && c.ordinal < n
  {
    if n > 0 {
      EmittedDistinct(e, n - 1, prefix, collection, t);
    }
  }

  lemma {:induction false} EmittedAllDistinct(entries: seq<WalEntry>, prefix: bytes, collection: nat, t: Token)
    requires SeqsDistinct(entries)
    ensures PositionsDistinct(EmittedAll(entries, prefix, collection, t))
  {
    if entries != [] {
      var n := |entries| - 1;
      var last := entries[n];
      EmittedAllDistinct(entries[..n], prefix, collection, t);
      EmittedDistinct(last, |last.ops|, prefix, collection, t);
      var front, back := EmittedAll(entries[..n], prefix, collection, t), Emitted(last, |last.ops|, prefix, collection, t);
      forall i, j | 0 <= i < |front| && 0 <= j < |back| ensures front[i].seqno != back[j].seqno {
        EmittedAllMembers(entries[..n], prefix, collection, t, front[i]);
        assert front[i] in front && back[j] in back;
        var e, k :| e in entries[..n] && 0 <= k < |e.ops| && Emits(e, k, prefix, collection) && front[i] == ChangeAt(e, k, prefix);
        var m :| 0 <= m < n && entries[..n][m] == e;
        assert entries[m].seqno != entries[n].seqno;
      }
    }
  }

  lemma {:induction false} InsertSpec(c: Change, s: seq<Change>)
    requires Ordered(s) && forall x :: x in s ==> x.seqno != c.seqno || x.ordinal != c.ordinal
    ensures Ordered(Insert(c, s)) && forall x :: x in Insert(c, s) <==> x == c || x in s
  {
    if s != [] {
      assert s == [s[0]] + s[1..];
      if Precedes(c, s[0]) {
        assert forall i :: 0 <= i < |s| ==> Precedes(c, s[i]);
      } else {
        assert s[0] in s;
        InsertSpec(c, s[1..]);
        var rest := Insert(c, s[1..]);
        forall i | 0 <= i < |rest| ensures Precedes(s[0], rest[i]) {
          assert rest[i] in rest;
          if rest[i] in s[1..] {
            var j :| 0 <= j < |s[1..]| && s[1..][j] == rest[i];
          }
        }
      }
    }
  }

  lemma {:induction false} SortSpec(s: seq<Change>)
    requires PositionsDistinct(s)
    ensures Ordered(Sort(s)) && forall x :: x in Sort(s) <==> x in s
  {
    if s != [] {
      var n := |s| - 1;
      SortSpec(s[..n]);
      assert s == s[..n] + [s[n]];
      forall x | x in Sort(s[..n]) ensures x.seqno != s[n].seqno || x.ordinal != s[n].ordinal {
        var i :| 0 <= i < n && s[..n][i] == x;
      }
      InsertSpec(s[n], Sort(s[..n]));
    }
  }

  lemma {:induction false} VisitedMembers(segments: seq<Segment>, prefix: bytes, collection: nat, t: Token, c: Change)
    requires Bounded(segments) && After(c.seqno, c.ordinal, t)
    ensures Recorded(Visited(segments, t), prefix, collection, c) <==> Recorded(AllEntries(segments), prefix, collection, c)
  {
    if segments != [] {
      var n := |segments| - 1;
      var last := segments[n];
      VisitedMembers(segments[..n], prefix, collection, t, c);
      RecordedConcat(AllEntries(segments[..n]), last.entries, prefix, collection, c);
      if last.maxSeq < t.seqno {
        assert forall e :: e in last.entries ==> e.seqno < t.seqno;
        assert !Recorded(last.entries, prefix, collection, c);
        assert Visited(segments, t) == Visited(segments[..n], t);
      } else {
        RecordedConcat(Visited(segments[..n], t), last.entries, prefix, collection, c);
      }
    }
  }

  lemma RecordedConcat(a: seq<WalEntry>, b: seq<WalEntry>, prefix: bytes, collection: nat, c: Change)
    ensures Recorded(a + b, prefix, collection, c) <==> Recorded(a, prefix, collection, c) || Recorded(b, prefix, collection, c)
  {
    if Recorded(a, prefix, collection, c) || Recorded(b, prefix, collection, c) {
      var e, k :| (e in a || e in b) && 0 <= k < |e.ops| && Emits(e, k, prefix, collection) && c == ChangeAt(e, k, prefix);
      assert e in a + b;
    }
  }

  lemma DropMiddle(a: seq<WalEntry>, b: seq<WalEntry>, c: seq<WalEntry>)
    requires SeqsDistinct(a + (b + c))
    ensures SeqsDistinct(a + c)
  {
    var whole, part := a + (b + c), a + c;
    forall i, j | 0 <= i < j < |part| ensures part[i].seqno != part[j].seqno {
      var i', j' := if i < |a| then i else i + |b|, if j < |a| then j else j + |b|;
      assert part[i] == whole[i'] && part[j] == whole[j'];
    }
  }

  lemma {:induction false} VisitedDistinct(segments: seq<Segment>, t: Token, tail: seq<WalEntry>)
    requires SeqsDistinct(AllEntries(segments) + tail)
    ensures SeqsDistinct(Visited(segments, t) + tail)
  {
    if segments != [] {
      var n := |segments| - 1;
      var front, last := segments[..n], segments[n];
      Associative(AllEntries(front), last.entries, tail);
      if last.maxSeq < t.seqno {
        DropMiddle(AllEntries(front), last.entries, tail);
        VisitedDistinct(front, t, tail);
        assert Visited(segments, t) == Visited(front, t);
      } else {
        VisitedDistinct(front, t, last.entries + tail);
        Associative(Visited(front, t), last.entries, tail);
      }
    }
  }

  /** `r` is the change stream of a history from a token: every recorded document change strictly
      after it, once, in commit order. */
  ghost predicate IsStream(r: seq<Change>, history: seq<WalEntry>, prefix: bytes, collection: nat, t: Token) {
    && Ordered(r)
    && forall c :: c in r <==> Recorded(history, prefix, collection, c) && After(c.seqno, c.ordinal, t)
  }

  lemma CollectedIsStream(segments: seq<Segment>, active: seq<WalEntry>, prefix: bytes, collection: nat, t: Token, out: seq<Change>)
    requires Bounded(segments) && SeqsDistinct(AllEntries(segments) + active)
    requires out == EmittedAll(Visited(segments, t) + active, prefix, collection, t)
    ensures IsStream(Sort(out), AllEntries(segments) + active, prefix, collection, t)
  {
    var visited := Visited(segments, t) + active;
    VisitedDistinct(segments, t, active);
    EmittedAllDistinct(visited, prefix, collection, t);
    SortSpec(out);
    forall c ensures c in Sort(out) <==>
      Recorded(AllEntries(segments) + active, prefix, collection, c) && After(c.seqno, c.ordinal, t)
    {
      EmittedAllMembers(visited, prefix, collection, t, c);
      RecordedConcat(Visited(segments, t), active, prefix, collection, c);
      RecordedConcat(AllEntries(segments), active, prefix, collection, c);
      if After(c.seqno, c.ordinal, t) {
        VisitedMembers(segments, prefix, collection, t, c);
      }
    }
  }

  lemma LastOfConcat<T>(a: seq<T>, b: seq<T>)
    requires b != []
    ensures (a + b)[..|a + b| - 1] == a + b[..|b| - 1] && (a + b)[|a + b| - 1] == b[|b| - 1]
  {
  }

  lemma EmittedAllLast(a: seq<WalEntry>, prefix: bytes, collection: nat, t: Token)
    requires a != []
    ensures EmittedAll(a, prefix, collection, t)
         == EmittedAll(a[..|a| - 1], prefix, collection, t) + Emitted(a[|a| - 1], |a[|a| - 1].ops|, prefix, collection, t)
  {
  }

  lemma {:induction false} EmittedAllConcat(a: seq<WalEntry>, b: seq<WalEntry>, prefix: bytes, collection: nat, t: Token)
    ensures EmittedAll(a + b, prefix, collection, t) == EmittedAll(a, prefix, collection, t) + EmittedAll(b, prefix, collection, t)
  {
    if b == [] {
      assert a + b == a;
    } else {
      var n := |b| - 1;
      hide *;
      EmittedAllConcat(a, b[..n], prefix, collection, t);
      LastOfConcat(a, b);
      EmittedAllLast(b, prefix, collection, t);
      EmittedAllLast(a + b, prefix, collection, t);
      Associative(EmittedAll(a, prefix, collection, t), EmittedAll(b[..n], prefix, collection, t), Emitted(b[n], |b[n].ops|, prefix, collection, t));
    }
  }

  ghost predicate IdsAscend(segments: seq<Segment>) {
    forall i, j :: 0 <= i < j < |segments| ==> segments[i].id < segments[j].id
  }

  lemma Inserted(segments: seq<Segment>, k: nat, sealed: Segment)
    requires k <= |segments| && IdsAscend(segments) && Bounded(segments)
    requires k > 0 ==> segments[k - 1].id < sealed.id
    requires k < |segments| ==> sealed.id < segments[k].id
    requires forall e :: e in sealed.entries ==> e.seqno <= sealed.maxSeq
    ensures IdsAscend(segments[..k] + [sealed] + segments[k..])
    ensures Bounded(segments[..k] + [sealed] + segments[k..])
  {
    var r := segments[..k] + [sealed] + segments[k..];
    forall i, j | 0 <= i < j < |r| ensures r[i].id < r[j].id {
      assert i < k - 1 ==> segments[i].id < segments[k - 1].id;
      assert j > k + 1 ==> segments[k].id < segments[j - 1].id;
    }
  }

  function TotalBytes(segments: seq<Segment>): nat {
    if segments == [] then 0 else segments[0].sizeBytes + TotalBytes(segments[1..])
  }

  /** Retention asks for the oldest segment to go: too old, or over the byte budget with another left. */
  predicate Overdue(segments: seq<Segment>, now: nat, retentionSecs: nat, retentionBytes: nat) {
    && segments != []
    && (|| (retentionSecs > 0 && now > segments[0].sealedMs + retentionSecs * 1000)
        || (retentionBytes > 0 && |segments| > 1 && TotalBytes(segments) > retentionBytes))
  }

  /** `m` is the least bound on the caller's figure and on the segment's own sequence numbers. */
  ghost predicate IsMaxSeq(m: nat, maxSeq: nat, entries: seq<WalEntry>) {
    && m >= maxSeq && (forall e :: e in entries ==> e.seqno <= m)
    && (m == maxSeq || exists e :: e in entries && e.seqno == m)
  }

  /** The archive manifest: sealed segments in id order, each recording a bound on its sequence
      numbers. */
  class Archive {
    var segments: seq<Segment>

    ghost predicate Valid()
      reads this
    {
      Bounded(segments) && IdsAscend(segments)
    }

    constructor ()
      ensures Valid() && segments == []
    {
      segments := [];
    }

    predicate Contains(id: nat)
      reads this
    {
      exists i :: 0 <= i < |segments| && segments[i].id == id
    }

    /** Record a sealed segment, once; a damaged one is refused. The recorded maximum covers both the
        caller's figure and what the segment holds. */
    method ArchiveSegment(id: nat, entries: seq<WalEntry>, clean: bool, maxSeq: nat, sealedMs: nat, sizeBytes: nat) returns (ok: bool)
      requires Valid()
      modifies this
      ensures Valid()
      ensures ok <==> old(Contains(id)) || clean
      ensures old(Contains(id)) || !clean ==> segments == old(segments)
      ensures !old(Contains(id)) && clean ==>
                exists k: nat, m: nat :: k <= |old(segments)| && IsMaxSeq(m, maxSeq, entries)
                  && segments == old(segments)[..k] + [Segment(id, m, sealedMs, sizeBytes, entries)] + old(segments)[k..]
    {
      if Contains(id) {
        return true;
      }
      if !clean {
        return false;
      }
      var m: nat := maxSeq;
      for i := 0 to |entries|
        invariant IsMaxSeq(m, maxSeq, entries[..i])
      {
        assert entries[..i + 1] == entries[..i] + [entries[i]];
        m := if entries[i].seqno > m then entries[i].seqno else m;
      }
      assert entries[..|entries|] == entries;
      var k: nat := |segments|;
      while k > 0 && segments[k - 1].id > id
        invariant 0 <= k <= |segments| && forall i :: k <= i < |segments| ==> segments[i].id > id
      {
        k := k - 1;
      }
      assert k > 0 ==> segments[k - 1].id < id;
      var sealed := Segment(id, m, sealedMs, sizeBytes, entries);
      Inserted(segments, k, sealed);
      segments := segments[..k] + [sealed] + segments[k..];
      return true;
    }

    /** Drop oldest segments until within retention, keeping one unless it is itself too old. */
    method Prune(now: nat, retentionSecs: nat, retentionBytes: nat) returns (removed: nat)
      requires Valid()
      modifies this
      ensures Valid() && removed <= |old(segments)| && segments == old(segments)[removed..]
      ensures forall k :: 0 <= k < removed ==> Overdue(old(segments)[k..], now, retentionSecs, retentionBytes)
      ensures !Overdue(segments, now, retentionSecs, retentionBytes)
    {
      removed := 0;
      while segments != []
        invariant Valid() && removed <= |old(segments)| && segments == old(segments)[removed..]
        invariant forall k :: 0 <= k < removed ==> Overdue(old(segments)[k..], now, retentionSecs, retentionBytes)
        decreases |segments|
      {
        var overBytes := retentionBytes > 0 && TotalBytes(segments) > retentionBytes;
        var overTime := retentionSecs > 0 && now > segments[0].sealedMs + retentionSecs * 1000;
        if (!overBytes && !overTime) || (|segments| == 1 && !overTime) {
          break;
        }
        segments := segments[1..];
        removed := removed + 1;
      }
    }

    /** All document changes strictly after the token, from the archive and then the active segment. */
    method ChangesAfter(active: seq<WalEntry>, prefix: bytes, collection: nat, t: Token) returns (r: seq<Change>)
      requires Valid() && SeqsDistinct(AllEntries(segments) + active)
      ensures IsStream(r, AllEntries(segments) + active, prefix, collection, t)
    {
      var out: seq<Change> := [];
      for i := 0 to |segments|
        invariant out == EmittedAll(Visited(segments[..i], t), prefix, collection, t)
      {
        assert segments[..i + 1][..i] == segments[..i];
        if segments[i].maxSeq < t.seqno {
          assert Visited(segments[..i + 1], t) == Visited(segments[..i], t);
          continue;
        }
        EmittedAllConcat(Visited(segments[..i], t), segments[i].entries, prefix, collection, t);
        out := PushEntries(segments[i].entries, prefix, collection, t, out);
      }
      assert segments[..|segments|] == segments;
      EmittedAllConcat(Visited(segments, t), active, prefix, collection, t);
      out := PushEntries(active, prefix, collection, t, out);
      CollectedIsStream(segments, active, prefix, collection, t, out);
      r := Sort(out);
    }
  }

  // ---- What resumption promises ------------------------------------------------

  lemma {:induction false} StreamsAgree(r: seq<Change>, s: seq<Change>)
    requires Ordered(r) && Ordered(s) && forall c :: c in r <==> c in s
    ensures r == s
  {
    assert r != [] ==> r[0] in r;
    assert s != [] ==> s[0] in s;
    if r != [] && s != [] {
      var k :| 0 <= k < |s| && s[k] == r[0];
      var m :| 0 <= m < |r| && r[m] == s[0];
      assert k > 0 ==> Precedes(s[0], r[0]);
      assert m > 0 ==> Precedes(r[0], s[0]);
      TailChanges(r);
      TailChanges(s);
      StreamsAgree(r[1..], s[1..]);
      assert r == [r[0]] + r[1..] && s == [s[0]] + s[1..];
    }
  }

  lemma TailChanges(r: seq<Change>)
    requires Ordered(r) && r != []
    ensures Ordered(r[1..]) && forall c :: c in r[1..] <==> c in r && c != r[0]
  {
    assert r == [r[0]] + r[1..];
    forall c | c in r[1..] ensures c != r[0] {
      var i :| 0 <= i < |r[1..]| && r[1..][i] == c;
      assert Precedes(r[0], r[i + 1]);
    }
  }

  /** Resuming at any event already delivered yields exactly the rest of the stream. */
  lemma ResumeIsSuffix(all: seq<Change>, r: seq<Change>, history: seq<WalEntry>, prefix: bytes, collection: nat, t: Token, i: nat)
    requires IsStream(all, history, prefix, collection, t) && i < |all|
    requires IsStream(r, history, prefix, collection, Token(all[i].seqno, all[i].ordinal))
    ensures r == all[i + 1..]
  {
    var rest := all[i + 1..];
    assert all[i] in all;
    forall c ensures c in rest <==> c in r {
      if c in rest {
        var j :| 0 <= j < |rest| && rest[j] == c;
        assert Precedes(all[i], all[i + 1 + j]) && c in all;
      }
      if c in r {
        assert c in all;
        var j :| 0 <= j < |all| && all[j] == c;
        assert j > i ==> c == rest[j - i - 1];
      }
    }
    StreamsAgree(r, rest);
  }

  lemma EntriesSnoc(front: seq<Segment>, last: Segment)
    ensures AllEntries(front + [last]) == AllEntries(front) + last.entries
  {
    assert (front + [last])[..|front|] == front;
  }

  lemma {:induction false} EntriesJoin(a: seq<Segment>, b: seq<Segment>)
    ensures AllEntries(a + b) == AllEntries(a) + AllEntries(b)
    decreases |b|
  {
    if b == [] {
      assert a + b == a;
      assert AllEntries(a) + [] == AllEntries(a);
    } else {
      hide AllEntries;
      var n := |b| - 1;
      EntriesJoin(a, b[..n]);
      EntriesSnoc(a + b[..n], b[n]);
      EntriesSnoc(b[..n], b[n]);
      assert a + b == a + b[..n] + [b[n]] && b == b[..n] + [b[n]];
      Associative(AllEntries(a), AllEntries(b[..n]), b[n].entries);
    }
  }

  lemma {:induction false} EntriesBelow(segments: seq<Segment>, t: Token, e: WalEntry)
    requires Bounded(segments) && (forall i :: 0 <= i < |segments| ==> segments[i].maxSeq < t.seqno) && e in AllEntries(segments)
    ensures e.seqno < t.seqno
  {
    var n := |segments| - 1;
    if e in AllEntries(segments[..n]) {
      EntriesBelow(segments[..n], t, e);
    } else {
      assert e in segments[n].entries;
    }
  }

  lemma DroppedBelow(segments: seq<Segment>, removed: nat, t: Token)
    requires Bounded(segments) && removed <= |segments| && forall i :: 0 <= i < removed ==> segments[i].maxSeq < t.seqno
    ensures forall e :: e in AllEntries(segments[..removed]) ==> e.seqno < t.seqno
  {
    hide AllEntries;
    var front := segments[..removed];
    forall i, e | 0 <= i < |front| && e in front[i].entries ensures e.seqno <= front[i].maxSeq {
      assert front[i] == segments[i];
    }
    forall e | e in AllEntries(front) ensures e.seqno < t.seqno {
      EntriesBelow(front, t, e);
    }
  }

  /** Entries below a token contribute nothing to its stream. */
  lemma SilentBelow(dropped: seq<WalEntry>, kept: seq<WalEntry>, r: seq<Change>, prefix: bytes, collection: nat, t: Token)
    requires forall e :: e in dropped ==> e.seqno < t.seqno
    ensures IsStream(r, dropped + kept, prefix, collection, t) <==> IsStream(r, kept, prefix, collection, t)
  {
    forall c: Change | After(c.seqno, c.ordinal, t)
      ensures Recorded(dropped + kept, prefix, collection, c) <==> Recorded(kept, prefix, collection, c)
    {
      RecordedConcat(dropped, kept, prefix, collection, c);
      assert !Recorded(dropped, prefix, collection, c);
    }
  }

  /** Pruning the oldest segments loses nothing for a token beyond their recorded maxima. */
  lemma PruneKeepsStream(segments: seq<Segment>, removed: nat, active: seq<WalEntry>, r: seq<Change>, prefix: bytes, collection: nat, t: Token)
    requires Bounded(segments) && removed <= |segments| && forall i :: 0 <= i < removed ==> segments[i].maxSeq < t.seqno
    ensures IsStream(r, AllEntries(segments) + active, prefix, collection, t) <==>
            IsStream(r, AllEntries(segments[removed..]) + active, prefix, collection, t)
  {
    hide AllEntries, IsStream, Bounded;
    var dropped, kept := AllEntries(segments[..removed]), AllEntries(segments[removed..]);
    EntriesJoin(segments[..removed], segments[removed..]);
    assert segments[..removed] + segments[removed..] == segments;
    Associative(dropped, kept, active);
    DroppedBelow(segments, removed, t);
    SilentBelow(dropped, kept + active, r, prefix, collection, t);
  }
}
