/** The leveled catalog: compaction planning, applying a finished job, and whole runs. */
module Levels {
  import opened Bytes
  import opened Words
  import opened Versions
  import opened MergeIterator
  import opened Compaction
  import opened CompactionReads

  /** A table with its entries; key bounds are its first and last user key. */
  datatype File = File(id: nat, level: nat, entries: seq<Version>, sizeBytes: nat) {
    predicate NonEmpty() {
      entries != []
    }

    function MinKey(): bytes
      requires NonEmpty()
    {
      entries[0].key
    }

    function MaxKey(): bytes
      requires NonEmpty()
    {
      entries[|entries| - 1].key
    }
  }

  datatype Config = Config(l0Trigger: nat, multiplier: nat, l1TargetBytes: nat, targetFileBytes: nat,
                           maxLevel: nat, l2GcMinReclaimBytes: nat)

  datatype Job = Job(inputs: seq<nat>, inputLevel: nat, outputLevel: nat)

  // ---- Overlap -----------------------------------------------------------------

  predicate Overlaps(aMin: bytes, aMax: bytes, bMin: bytes, bMax: bytes) {
    !(Less(aMax, bMin) || Less(bMax, aMin))
  }

  ghost predicate AllNonEmpty(files: seq<File>) {
    forall f :: f in files ==> f.NonEmpty()
  }

  /** `min` and `max` are attained bounds of the files' key ranges. */
  ghost predicate IsSpan(files: seq<File>, min: bytes, max: bytes)
    requires AllNonEmpty(files)
  {
    && (forall f :: f in files ==> Leq(min, f.MinKey()) && Leq(f.MaxKey(), max))
    && (exists f :: f in files && f.MinKey() == min)
    && (exists f :: f in files && f.MaxKey() == max)
  }

  method KeySpan(files: seq<File>) returns (span: Option<(bytes, bytes)>)
    requires AllNonEmpty(files)
    ensures span.None? <==> files == []
    ensures span.Some? ==> IsSpan(files, span.value.0, span.value.1)
  {
    if files == [] {
      return None;
    }
    var min, max := files[0].MinKey(), files[0].MaxKey();
    assert files[..1] == [files[0]];
    LessIrreflexive(min);
    LessIrreflexive(max);
    for i := 1 to |files|
      invariant IsSpan(files[..i], min, max)
    {
      SpanStep(files, i, min, max);
      if Less(files[i].MinKey(), min) {
        min := files[i].MinKey();
      }
      if Less(max, files[i].MaxKey()) {
        max := files[i].MaxKey();
      }
    }
    assert files[..|files|] == files;
    span := Some((min, max));
  }

  lemma SpanStep(files: seq<File>, i: nat, min: bytes, max: bytes)
    requires AllNonEmpty(files) && i < |files| && IsSpan(files[..i], min, max)
    ensures var m := files[i];
            IsSpan(files[..i + 1], if Less(m.MinKey(), min) then m.MinKey() else min,
                   if Less(max, m.MaxKey()) then m.MaxKey() else max)
  {
    hide Less;
    var m := files[i];
    assert files[..i + 1] == files[..i] + [m];
    assert m in files[..i + 1];
    var f :| f in files[..i] && f.MinKey() == min;
    var g :| g in files[..i] && g.MaxKey() == max;
    assert f in files[..i + 1] && g in files[..i + 1];
    LessIrreflexive(m.MinKey());
    LessIrreflexive(m.MaxKey());
    forall h | h in files[..i]
      ensures Less(m.MinKey(), min) ==> Leq(m.MinKey(), h.MinKey())
      ensures Less(max, m.MaxKey()) ==> Leq(h.MaxKey(), m.MaxKey())
    {
      if Less(m.MinKey(), min) { LessLeq(m.MinKey(), min, h.MinKey()); LessAsymmetric(m.MinKey(), h.MinKey()); }
      if Less(max, m.MaxKey()) { LeqLess(h.MaxKey(), max, m.MaxKey()); LessAsymmetric(h.MaxKey(), m.MaxKey()); }
    }
  }

  // ---- Level targets -----------------------------------------------------------

  function LevelBytes(files: seq<File>, level: nat): nat {
    if files == [] then 0
    else (if files[0].level == level then files[0].sizeBytes else 0) + LevelBytes(files[1..], level)
  }

  function SatMul(a: nat, b: nat): nat {
    if a * b < U64 then a * b else U64 - 1
  }

  function NominalTarget(cfg: Config, levels: nat): nat {
    if levels == 0 then cfg.l1TargetBytes else SatMul(NominalTarget(cfg, levels - 1), cfg.multiplier)
  }

  function Multiplier(cfg: Config): (m: nat)
    ensures m > 0
  {
    if cfg.multiplier == 0 then 1 else cfg.multiplier
  }

  function BottomTarget(files: seq<File>, cfg: Config): nat
    requires cfg.maxLevel >= 1
  {
    var actual := LevelBytes(files, cfg.maxLevel);
    if actual > 0 then actual else NominalTarget(cfg, cfg.maxLevel - 1)
  }

  function ScaledTarget(cfg: Config, next: nat): nat {
    var computed := next / Multiplier(cfg);
    if computed >= cfg.l1TargetBytes / Multiplier(cfg) then computed else 0
  }

  /** Byte target of `level`, sized down from the bottom level's footprint; zero when the level
      is not in use. */
  function EffectiveTarget(files: seq<File>, cfg: Config, level: nat): nat
    requires 1 <= level <= cfg.maxLevel
    decreases cfg.maxLevel - level
  {
    if level == cfg.maxLevel then BottomTarget(files, cfg)
    else ScaledTarget(cfg, EffectiveTarget(files, cfg, level + 1))
  }

  method EffectiveLevelTargets(files: seq<File>, cfg: Config) returns (targets: array<nat>)
    requires cfg.maxLevel >= 1
    ensures targets.Length == cfg.maxLevel + 1
    ensures forall l :: 1 <= l <= cfg.maxLevel ==> targets[l] == EffectiveTarget(files, cfg, l)
  {
    hide BottomTarget, ScaledTarget;
    targets := new nat[cfg.maxLevel + 1](_ => 0);
    targets[cfg.maxLevel] := BottomTarget(files, cfg);
    for lvl := cfg.maxLevel downto 1
      invariant forall l :: lvl <= l <= cfg.maxLevel ==> targets[l] == EffectiveTarget(files, cfg, l)
    {
      targets[lvl] := ScaledTarget(cfg, targets[lvl + 1]);
    }
  }

  /** The level L0 merges into: the first in use, or the bottom. */
  ghost predicate IsBase(files: seq<File>, cfg: Config, base: nat)
    requires cfg.maxLevel >= 1
  {
    && 1 <= base <= cfg.maxLevel
    && (forall l :: 1 <= l < base ==> EffectiveTarget(files, cfg, l) == 0)
    && (base < cfg.maxLevel ==> EffectiveTarget(files, cfg, base) > 0)
  }

  method BaseLevel(files: seq<File>, cfg: Config) returns (base: nat)
    requires cfg.maxLevel >= 1
    ensures IsBase(files, cfg, base)
  {
    var targets := EffectiveLevelTargets(files, cfg);
    for lvl := 1 to cfg.maxLevel
      invariant forall l :: 1 <= l < lvl ==> targets[l] == 0
    {
      if targets[lvl] > 0 {
        return lvl;
      }
    }
    return cfg.maxLevel;
  }

  // ---- Planning ----------------------------------------------------------------

  function AtLevel(files: seq<File>, level: nat): (r: seq<File>)
    ensures forall f :: f in r <==> f in files && f.level == level
  {
    if files == [] then []
    else (if files[0].level == level then [files[0]] else []) + AtLevel(files[1..], level)
  }

  ghost predicate DistinctIds(files: seq<File>) {
    forall i, j :: 0 <= i < j < |files| ==> files[i].id != files[j].id
  }

  /** An input of the job at the level being emptied. */
  predicate Source(f: File, files: seq<File>, job: Job) {
    f in files && f.level == job.inputLevel && f.id in job.inputs
  }

  /** `f` reaches into the key span of the job's sources. */
  ghost predicate TouchesSources(f: File, files: seq<File>, job: Job)
    requires AllNonEmpty(files) && f in files
  {
    exists a, b ::
      Source(a, files, job) && Source(b, files, job) && Leq(a.MinKey(), f.MaxKey()) && Leq(f.MinKey(), b.MaxKey())
  }

  /** A well-planned promotion: sources from one level, and at the deeper output level exactly the
      files that reach into their span. */
  ghost predicate Promotes(files: seq<File>, job: Job)
    requires AllNonEmpty(files)
  {
    && job.inputLevel < job.outputLevel
    && (exists f :: Source(f, files, job))
    && (forall id :: id in job.inputs ==> exists f :: f in files && f.id == id)
    && (forall f :: f in files && f.id in job.inputs ==> f.level == job.inputLevel || f.level == job.outputLevel)
    && (forall f :: f in files && f.level == job.outputLevel ==>
          (f.id in job.inputs <==> TouchesSources(f, files, job)))
  }

  /** The job takes every L0 file. */
  ghost predicate WholeL0(files: seq<File>, job: Job) {
    forall f :: f in files && f.level == 0 ==> f.id in job.inputs
  }

  /** Some file at `level` with this id overlaps `[min, max]`. */
  ghost predicate OverlapsAt(files: seq<File>, level: nat, min: bytes, max: bytes, id: nat)
    requires AllNonEmpty(files)
  {
    exists f :: f in files && f.id == id && f.level == level && Overlaps(f.MinKey(), f.MaxKey(), min, max)
  }

  /** Append the ids of the files at `level` that overlap `[min, max]`. */
  method AppendOverlapping(files: seq<File>, level: nat, min: bytes, max: bytes, start: seq<nat>) returns (inputs: seq<nat>)
    requires AllNonEmpty(files)
    ensures forall id :: id in inputs <==> id in start || OverlapsAt(files, level, min, max, id)
  {
    inputs := start;
    for i := 0 to |files|
      invariant forall id :: id in inputs <==> id in start || OverlapsAt(files[..i], level, min, max, id)
    {
      assert files[..i + 1] == files[..i] + [files[i]];
      assert forall f :: f in files[..i + 1] <==> f in files[..i] || f == files[i];
      if files[i].level == level && Overlaps(files[i].MinKey(), files[i].MaxKey(), min, max) {
        inputs := inputs + [files[i].id];
      }
      assert forall id :: OverlapsAt(files[..i + 1], level, min, max, id) <==>
        OverlapsAt(files[..i], level, min, max, id) || OverlapsAt([files[i]], level, min, max, id);
    }
    assert files[..|files|] == files;
  }

  method Ids(files: seq<File>) returns (ids: seq<nat>)
    ensures forall id :: id in ids <==> exists f :: f in files && f.id == id
  {
    ids := [];
    for i := 0 to |files|
      invariant forall id :: id in ids <==> exists f :: f in files[..i] && f.id == id
    {
      assert files[..i + 1] == files[..i] + [files[i]];
      assert forall f :: f in files[..i + 1] <==> f in files[..i] || f == files[i];
      ids := ids + [files[i].id];
    }
    assert files[..|files|] == files;
  }

  lemma SameId(files: seq<File>, f: File, g: File)
    requires DistinctIds(files) && f in files && g in files && f.id == g.id
    ensures f == g
  {
    var i :| 0 <= i < |files| && files[i] == f;
    var j :| 0 <= j < |files| && files[j] == g;
  }

  /** Overlapping the attained span of some files is reaching between two of them. */
  lemma SpanOverlap(sources: seq<File>, min: bytes, max: bytes, f: File)
    requires AllNonEmpty(sources) && IsSpan(sources, min, max) && f.NonEmpty()
    ensures Overlaps(f.MinKey(), f.MaxKey(), min, max) <==>
            exists a, b :: a in sources && b in sources && Leq(a.MinKey(), f.MaxKey()) && Leq(f.MinKey(), b.MaxKey())
  {
    if a, b :| a in sources && b in sources && Leq(a.MinKey(), f.MaxKey()) && Leq(f.MinKey(), b.MaxKey()) {
      LeqTransitive(min, a.MinKey(), f.MaxKey());
      LeqTransitive(f.MinKey(), b.MaxKey(), max);
    }
    if Overlaps(f.MinKey(), f.MaxKey(), min, max) {
      var a :| a in sources && a.MinKey() == min;
      var b :| b in sources && b.MaxKey() == max;
      assert Leq(a.MinKey(), f.MaxKey()) && Leq(f.MinKey(), b.MaxKey());
    }
  }

  /** The id list a job builder assembles: the sources, and what overlaps them one level down. */
  ghost predicate Assembles(files: seq<File>, sources: seq<File>, min: bytes, max: bytes, job: Job) {
    && AllNonEmpty(files) && DistinctIds(files) && job.inputLevel < job.outputLevel
    && sources != [] && (forall f :: f in sources ==> f in files && f.level == job.inputLevel)
    && AllNonEmpty(sources) && IsSpan(sources, min, max)
    && (forall id :: id in job.inputs <==>
          (exists f :: f in sources && f.id == id) || OverlapsAt(files, job.outputLevel, min, max, id))
  }

  lemma AssembledInput(files: seq<File>, sources: seq<File>, min: bytes, max: bytes, job: Job, f: File)
    requires Assembles(files, sources, min, max, job) && f in files
    ensures f.id in job.inputs <==>
            f in sources || (f.level == job.outputLevel && Overlaps(f.MinKey(), f.MaxKey(), min, max))
    ensures Source(f, files, job) <==> f in sources
  {
    if f.id in job.inputs {
      if g :| g in sources && g.id == f.id {
        SameId(files, f, g);
      } else {
        var g :| g in files && g.id == f.id && g.level == job.outputLevel && Overlaps(g.MinKey(), g.MaxKey(), min, max);
        SameId(files, f, g);
      }
    }
  }

  lemma AssembledTouch(files: seq<File>, sources: seq<File>, min: bytes, max: bytes, job: Job, f: File)
    requires Assembles(files, sources, min, max, job) && f in files && f.level == job.outputLevel
    ensures f.id in job.inputs <==> TouchesSources(f, files, job)
  {
    AssembledInput(files, sources, min, max, job, f);
    SpanOverlap(sources, min, max, f);
    hide IsSpan, DistinctIds;
    if f.id in job.inputs {
      var a, b :| a in sources && b in sources && Leq(a.MinKey(), f.MaxKey()) && Leq(f.MinKey(), b.MaxKey());
      AssembledInput(files, sources, min, max, job, a);
      AssembledInput(files, sources, min, max, job, b);
    }
    if TouchesSources(f, files, job) {
      var a, b :| Source(a, files, job) && Source(b, files, job) && Leq(a.MinKey(), f.MaxKey()) && Leq(f.MinKey(), b.MaxKey());
      AssembledInput(files, sources, min, max, job, a);
      AssembledInput(files, sources, min, max, job, b);
    }
  }

  /** Source files of one level plus everything below that overlaps them is a promotion. */
  lemma BuildsPromotion(files: seq<File>, sources: seq<File>, min: bytes, max: bytes, job: Job)
    requires Assembles(files, sources, min, max, job)
    ensures Promotes(files, job)
  {
    hide IsSpan, DistinctIds;
    AssembledInput(files, sources, min, max, job, sources[0]);
    forall f | f in files
      ensures f.id in job.inputs ==> f.level == job.inputLevel || f.level == job.outputLevel
      ensures f.level == job.outputLevel ==> (f.id in job.inputs <==> TouchesSources(f, files, job))
      ensures f in sources ==> f.id in job.inputs
    {
      AssembledInput(files, sources, min, max, job, f);
      if f.level == job.outputLevel {
        AssembledTouch(files, sources, min, max, job, f);
      }
    }
  }

  method PlanL0(files: seq<File>, cfg: Config) returns (job: Option<Job>)
    requires AllNonEmpty(files) && DistinctIds(files) && cfg.maxLevel >= 1 && cfg.l0Trigger >= 1
    ensures job.Some? <==> Pressed(files, cfg, 0)
    ensures job.Some? ==> Promotes(files, job.value) && job.value.inputLevel == 0 && IsBase(files, cfg, job.value.outputLevel)
    ensures job.Some? ==> WholeL0(files, job.value)
  {
    var l0 := AtLevel(files, 0);
    if |l0| < cfg.l0Trigger {
      return None;
    }
    var base := BaseLevel(files, cfg);
    var span := KeySpan(l0);
    var (min, max) := span.value;
    var ids := Ids(l0);
    var inputs := AppendOverlapping(files, base, min, max, ids);
    BuildsPromotion(files, l0, min, max, Job(inputs, 0, base));
    job := Some(Job(inputs, 0, base));
  }

  /** The file with the least id, which is the oldest. */
  method Oldest(files: seq<File>) returns (oldest: Option<File>)
    ensures oldest.None? <==> files == []
    ensures oldest.Some? ==> oldest.value in files && forall f :: f in files ==> oldest.value.id <= f.id
  {
    oldest := None;
    for i := 0 to |files|
      invariant oldest.None? <==> i == 0
      invariant oldest.Some? ==> oldest.value in files && forall j :: 0 <= j < i ==> oldest.value.id <= files[j].id
    {
      if oldest.None? || files[i].id < oldest.value.id {
        oldest := Some(files[i]);
      }
    }
  }

  /** A level asks for compaction: enough L0 files, or more bytes than the target of a level in use. */
  predicate Pressed(files: seq<File>, cfg: Config, level: nat) {
    if level == 0 then |AtLevel(files, 0)| >= cfg.l0Trigger
    else level < cfg.maxLevel && 0 < EffectiveTarget(files, cfg, level) < LevelBytes(files, level)
  }

  lemma {:induction false} BytesNeedFiles(files: seq<File>, level: nat)
    ensures LevelBytes(files, level) > 0 ==> AtLevel(files, level) != []
  {
    if files != [] {
      BytesNeedFiles(files[1..], level);
      if files[0].level == level {
        assert files[0] in AtLevel(files, level);
      } else if AtLevel(files[1..], level) != [] {
        assert AtLevel(files[1..], level)[0] in AtLevel(files, level);
      }
    }
  }

  lemma SingleSpan(o: File)
    requires o.NonEmpty()
    ensures IsSpan([o], o.MinKey(), o.MaxKey())
  {
    LessIrreflexive(o.MinKey());
    LessIrreflexive(o.MaxKey());
  }

  method PlanLevel(files: seq<File>, cfg: Config, level: nat) returns (job: Option<Job>)
    requires AllNonEmpty(files) && DistinctIds(files) && 1 <= level < cfg.maxLevel
    ensures job.Some? <==> Pressed(files, cfg, level)
    ensures job.Some? ==> Promotes(files, job.value) && job.value.inputLevel == level && job.value.outputLevel == level + 1
    ensures job.Some? ==> exists o :: IsOldest(files, level, o) && OnlySource(files, job.value, o)
  {
    hide EffectiveTarget, LevelBytes, Overlaps, OverlapsAt, Promotes, OnlySource, DistinctIds;
    var lvl := AtLevel(files, level);
    BytesNeedFiles(files, level);
    var targets := EffectiveLevelTargets(files, cfg);
    var target := targets[level];
    if target == 0 || LevelBytes(files, level) <= target {
      return None;
    }
    var oldest := Oldest(lvl);
    var o := oldest.value;
    var inputs := AppendOverlapping(files, level + 1, o.MinKey(), o.MaxKey(), [o.id]);
    job := Some(Job(inputs, level, level + 1));
    OldestPromotes(files, level, o, job.value);
    assert IsOldest(files, level, o);
  }

  lemma OldestPromotes(files: seq<File>, level: nat, o: File, job: Job)
    requires AllNonEmpty(files) && DistinctIds(files) && o in files && o.level == level
    requires job.inputLevel == level && job.outputLevel == level + 1
    requires forall id :: id in job.inputs <==> id in [o.id] || OverlapsAt(files, level + 1, o.MinKey(), o.MaxKey(), id)
    ensures Promotes(files, job) && OnlySource(files, job, o)
  {
    hide IsSpan, Overlaps, Promotes, DistinctIds, OverlapsAt;
    SingleSpan(o);
    forall id ensures id in job.inputs <==> (exists f :: f in [o] && f.id == id) || OverlapsAt(files, job.outputLevel, o.MinKey(), o.MaxKey(), id) {
      assert o in [o];
    }
    BuildsPromotion(files, [o], o.MinKey(), o.MaxKey(), job);
    forall f | f in files ensures Source(f, files, job) <==> f == o {
      AssembledInput(files, [o], o.MinKey(), o.MaxKey(), job, f);
    }
  }

  ghost predicate OnlySource(files: seq<File>, job: Job, o: File) {
    forall f :: Source(f, files, job) <==> f == o
  }

  ghost predicate IsOldest(files: seq<File>, level: nat, o: File) {
    o in files && o.level == level && forall f :: f in files && f.level == level ==> o.id <= f.id
  }

  /** Bottom-level files an in-place job around `o` takes. */
  predicate Joins(f: File, o: File)
    requires f.NonEmpty() && o.NonEmpty()
  {
    f.level == o.level && (f.id == o.id || Overlaps(f.MinKey(), f.MaxKey(), o.MinKey(), o.MaxKey()))
  }

  /** Bytes of the other files joining `o`. */
  function OtherBytes(files: seq<File>, o: File): nat
    requires AllNonEmpty(files) && o.NonEmpty()
  {
    if files == [] then 0
    else
      var n := |files| - 1;
      OtherBytes(files[..n], o) + if files[n].id != o.id && Joins(files[n], o) then files[n].sizeBytes else 0
  }

  lemma {:induction false} OtherBytesConcat(a: seq<File>, b: seq<File>, o: File)
    requires AllNonEmpty(a) && AllNonEmpty(b) && o.NonEmpty()
    ensures AllNonEmpty(a + b) && OtherBytes(a + b, o) == OtherBytes(a, o) + OtherBytes(b, o)
  {
    hide Joins;
    assert forall f :: f in a + b ==> f in a || f in b;
    if b == [] {
      assert a + b == a;
    } else {
      var n := |b| - 1;
      OtherBytesConcat(a, b[..n], o);
      assert (a + b)[..|a| + n] == a + b[..n];
    }
  }

  /** Only files of the level count. */
  lemma {:induction false} OtherBytesAtLevel(files: seq<File>, o: File)
    requires AllNonEmpty(files) && o.NonEmpty()
    ensures AllNonEmpty(AtLevel(files, o.level)) && OtherBytes(AtLevel(files, o.level), o) == OtherBytes(files, o)
  {
    if files != [] {
      hide OtherBytes, Joins;
      OtherBytesAtLevel(files[1..], o);
      var mine := if files[0].level == o.level then [files[0]] else [];
      assert files == [files[0]] + files[1..];
      OtherBytesConcat([files[0]], files[1..], o);
      OtherBytesConcat(mine, AtLevel(files[1..], o.level), o);
      ElsewhereCountsNothing(files[0], o);
    }
  }

  lemma ElsewhereCountsNothing(f: File, o: File)
    requires f.NonEmpty() && o.NonEmpty()
    ensures OtherBytes([], o) == 0 && (f.level != o.level ==> OtherBytes([f], o) == 0)
  {
    assert [f][..0] == [];
  }

  /** Ids and bytes of the files joining `o`. */
  method Gather(l2: seq<File>, o: File) returns (inputs: seq<nat>, bytes: nat)
    requires AllNonEmpty(l2) && o in l2 && forall f :: f in l2 ==> f.level == o.level
    ensures forall id :: id in inputs <==> exists f :: f in l2 && f.id == id && Joins(f, o)
    ensures |inputs| >= 2 <==> exists g :: g in l2 && g.id != o.id && Joins(g, o)
    ensures bytes == o.sizeBytes + OtherBytes(l2, o)
  {
    hide Overlaps;
    inputs, bytes := [o.id], o.sizeBytes;
    for i := 0 to |l2|
      invariant o.id in inputs && |inputs| >= 1 && (|inputs| >= 2 ==> exists g :: g in l2 && g.id != o.id && Joins(g, o))
      invariant forall id :: id in inputs ==> exists f :: f in l2 && f.id == id && Joins(f, o)
      invariant forall j :: 0 <= j < i && Joins(l2[j], o) ==> l2[j].id in inputs && (l2[j].id != o.id ==> |inputs| >= 2)
      invariant bytes == o.sizeBytes + OtherBytes(l2[..i], o)
    {
      assert l2[i] in l2;
      assert l2[..i + 1][..i] == l2[..i];
      if l2[i].id != o.id && Overlaps(l2[i].MinKey(), l2[i].MaxKey(), o.MinKey(), o.MaxKey()) {
        inputs, bytes := inputs + [l2[i].id], bytes + l2[i].sizeBytes;
      }
    }
    assert l2[..|l2|] == l2;
  }

  /** Rewriting the oldest bottom file with those overlapping it is worth it: some file does, and half
      of the bytes, the estimated saving, reach the threshold. */
  ghost predicate WorthRewriting(files: seq<File>, cfg: Config, o: File)
    requires AllNonEmpty(files) && o.NonEmpty()
  {
    var all := o.sizeBytes + OtherBytes(files, o);
    (exists g :: g in files && g.id != o.id && Joins(g, o)) && all - all / 2 >= cfg.l2GcMinReclaimBytes
  }

  /** A bottom-level job in place: the oldest bottom file with every one overlapping it, planned if and
      only if there is one and the saving is worth it. */
  method PlanL2Gc(files: seq<File>, cfg: Config) returns (job: Option<Job>)
    requires AllNonEmpty(files) && DistinctIds(files)
    ensures job.Some? <==> exists o :: IsOldest(files, cfg.maxLevel, o) && WorthRewriting(files, cfg, o)
    ensures job.Some? ==> job.value.inputLevel == job.value.outputLevel == cfg.maxLevel
    ensures job.Some? ==> exists o :: IsOldest(files, cfg.maxLevel, o) && InPlace(files, o, job.value.inputs)
  {
    hide Joins, DistinctIds, OtherBytes;
    var l2 := AtLevel(files, cfg.maxLevel);
    var oldest := Oldest(l2);
    if oldest.None? {
      return None;
    }
    var o := oldest.value;
    assert IsOldest(files, cfg.maxLevel, o);
    forall p | IsOldest(files, cfg.maxLevel, p) ensures p == o {
      SameId(files, p, o);
    }
    OtherBytesAtLevel(files, o);
    SameCompany(files, l2, o);
    var inputs, bytes := Gather(l2, o);
    if |inputs| < 2 || bytes - bytes / 2 < cfg.l2GcMinReclaimBytes {
      return None;
    }
    JoinedById(files, l2, o, inputs);
    assert WorthRewriting(files, cfg, o);
    job := Some(Job(inputs, cfg.maxLevel, cfg.maxLevel));
  }

  lemma SameCompany(files: seq<File>, l2: seq<File>, o: File)
    requires AllNonEmpty(files) && o.NonEmpty() && forall g :: g in l2 <==> g in files && g.level == o.level
    ensures (exists g :: g in l2 && g.id != o.id && Joins(g, o)) <==> (exists g :: g in files && g.id != o.id && Joins(g, o))
  {
    hide Overlaps;
  }

  /** The inputs are the files joining `o`, and some other file does. */
  ghost predicate InPlace(files: seq<File>, o: File, inputs: seq<nat>)
    requires AllNonEmpty(files) && o in files
  {
    && (forall f :: f in files ==> (f.id in inputs <==> Joins(f, o)))
    && (exists g :: g in files && g.id != o.id && Joins(g, o))
  }

  lemma JoinedById(files: seq<File>, l2: seq<File>, o: File, inputs: seq<nat>)
    requires AllNonEmpty(files) && DistinctIds(files) && o in l2 && o in files
    requires forall g :: g in l2 <==> g in files && g.level == o.level
    requires forall id :: id in inputs <==> exists f :: f in l2 && f.id == id && Joins(f, o)
    requires exists g :: g in l2 && g.id != o.id && Joins(g, o)
    ensures InPlace(files, o, inputs)
  {
    hide Overlaps, DistinctIds;
    forall f | f in files ensures f.id in inputs <==> Joins(f, o) {
      if f.id in inputs {
        var g :| g in l2 && g.id == f.id && Joins(g, o);
        SameId(files, f, g);
      }
    }
  }

  predicate Apart(f: File, g: File) {
    f.NonEmpty() && g.NonEmpty() ==> Less(f.MaxKey(), g.MinKey()) || Less(g.MaxKey(), f.MinKey())
  }

  /** Files of one level from 1 up never overlap. */
  ghost predicate LevelsDisjoint(files: seq<File>) {
    forall f, g :: f in files && g in files && f.id != g.id && f.level == g.level && f.level >= 1 ==> Apart(f, g)
  }

  ghost predicate Calm(files: seq<File>, cfg: Config, candidates: seq<nat>) {
    forall i :: 0 <= i < |candidates| ==> !Pressed(files, cfg, candidates[i])
  }

  ghost predicate FirstPressed(files: seq<File>, cfg: Config, candidates: seq<nat>, i: nat)
    requires i < |candidates|
  {
    Pressed(files, cfg, candidates[i]) && forall j :: 0 <= j < i ==> !Pressed(files, cfg, candidates[j])
  }

  /** Over disjoint levels no file joins another. */
  lemma NeverInPlace(files: seq<File>, cfg: Config, inputs: seq<nat>)
    requires AllNonEmpty(files) && LevelsDisjoint(files) && cfg.maxLevel >= 1
    ensures !exists o :: IsOldest(files, cfg.maxLevel, o) && InPlace(files, o, inputs)
  {
    forall o | IsOldest(files, cfg.maxLevel, o) ensures !InPlace(files, o, inputs) {
      forall g | g in files && g.id != o.id ensures !Joins(g, o) {
        assert g.level == o.level ==> Apart(g, o);
      }
    }
  }

  /** Plan one job, trying candidate levels in the order their scores put them. Over disjoint
      levels the result is always a promotion, never an in-place job. */
  method Plan(files: seq<File>, cfg: Config, candidates: seq<nat>) returns (job: Option<Job>)
    requires AllNonEmpty(files) && DistinctIds(files) && LevelsDisjoint(files)
    requires cfg.maxLevel >= 1 && cfg.l0Trigger >= 1
    requires forall l :: l in candidates ==> l == 0 || l < cfg.maxLevel
    ensures job.None? <==> Calm(files, cfg, candidates)
    ensures job.Some? ==> Promotes(files, job.value) && job.value.outputLevel <= cfg.maxLevel
    ensures job.Some? && job.value.inputLevel == 0 ==> WholeL0(files, job.value)
    ensures job.Some? ==> exists i :: 0 <= i < |candidates| && FirstPressed(files, cfg, candidates, i) && job.value.inputLevel == candidates[i]
  {
    hide EffectiveTarget, Promotes;
    for i := 0 to |candidates|
      invariant forall j :: 0 <= j < i ==> !Pressed(files, cfg, candidates[j])
    {
      assert candidates[i] in candidates;
      if candidates[i] == 0 {
        job := PlanL0(files, cfg);
      } else {
        job := PlanLevel(files, cfg, candidates[i]);
      }
      if job.Some? {
        assert FirstPressed(files, cfg, candidates, i);
        return;
      }
    }
    job := PlanL2Gc(files, cfg);
    if job.Some? {
      NeverInPlace(files, cfg, job.value.inputs);
    }
  }

  // ---- Applying a job ----------------------------------------------------------

  function Chosen(files: seq<File>, ids: seq<nat>, wanted: bool): (r: seq<File>)
    ensures forall f :: f in r <==> f in files && (f.id in ids) == wanted
    ensures |r| <= |files|
  {
    if files == [] then []
    else (if (files[0].id in ids) == wanted then [files[0]] else []) + Chosen(files[1..], ids, wanted)
  }

  /** No (key, sequence) pair is stored twice in the catalog. */
  ghost predicate SlotsDistinct(files: seq<File>) {
    forall f, g, p, q ::
      (f in files && g in files && 0 <= p < |f.entries| && 0 <= q < |g.entries| && (f.id != g.id || p != q)) ==>
        !SameSlot(f.entries[p], g.entries[q])
  }

  ghost predicate EntriesSorted(files: seq<File>) {
    forall f :: f in files ==> Sorted(Forward, f.entries)
  }

  /** What every flush and compaction maintains. */
  ghost predicate Sound(files: seq<File>, cfg: Config) {
    && AllNonEmpty(files) && DistinctIds(files) && EntriesSorted(files) && SlotsDistinct(files)
    && (forall f :: f in files ==> f.level <= cfg.maxLevel)
    && LevelsDisjoint(files)
  }

  ghost function Stored(files: seq<File>): set<Version> {
    set f, v | f in files && v in f.entries :: v
  }

  function LanesOf(files: seq<File>): (r: Lanes)
    ensures |r| == |files|
    ensures forall i :: 0 <= i < |files| ==> r[i] == files[i].entries
  {
    seq(|files|, i requires 0 <= i < |files| => files[i].entries)
  }

  lemma {:induction false} ChosenDistinctIds(files: seq<File>, ids: seq<nat>, wanted: bool)
    requires DistinctIds(files)
    ensures DistinctIds(Chosen(files, ids, wanted))
  {
    if files != [] {
      assert DistinctIds(files[1..]);
      ChosenDistinctIds(files[1..], ids, wanted);
      var rest := Chosen(files[1..], ids, wanted);
      forall j | 0 <= j < |rest| ensures rest[j].id != files[0].id {
        assert rest[j] in rest;
        var k :| 0 <= k < |files[1..]| && files[1..][k] == rest[j];
        assert files[k + 1].id != files[0].id;
      }
    }
  }

  lemma ChosenSound(files: seq<File>, cfg: Config, ids: seq<nat>, wanted: bool)
    requires Sound(files, cfg)
    ensures Sound(Chosen(files, ids, wanted), cfg)
  {
    ChosenDistinctIds(files, ids, wanted);
  }

  lemma LanesWellFormed(files: seq<File>, cfg: Config)
    requires Sound(files, cfg)
    ensures LanesSorted(Forward, LanesOf(files)) && LanesDistinct(LanesOf(files))
  {
    var lanes := LanesOf(files);
    forall i | 0 <= i < |lanes| ensures Sorted(Forward, lanes[i]) {
      assert files[i] in files;
    }
    forall i, p, j, q | 0 <= i < |lanes| && 0 <= j < |lanes| && 0 <= p < |lanes[i]| && 0 <= q < |lanes[j]| && (i != j || p != q)
      ensures !SameSlot(lanes[i][p], lanes[j][q])
    {
      assert files[i] in files && files[j] in files;
      assert i != j ==> files[i].id != files[j].id;
    }
  }

  lemma LanesStored(files: seq<File>, v: Version)
    ensures v in Union(LanesOf(files)) <==> v in Stored(files)
  {
    var lanes := LanesOf(files);
    if v in Union(lanes) {
      var i, p := UnionOrigin(lanes, v);
      assert files[i] in files && v in files[i].entries;
    }
    if v in Stored(files) {
      var f :| f in files && v in f.entries;
      var i :| 0 <= i < |files| && files[i] == f;
      var p :| 0 <= p < |f.entries| && f.entries[p] == v;
      UnionMember(lanes, i, p);
    }
  }

  /** The merged stream of some files holds exactly their versions. */
  lemma MergedStored(files: seq<File>, cfg: Config)
    requires Sound(files, cfg)
    ensures var s := Merged(Forward, LanesOf(files));
            Sorted(Forward, s) && Contents(s) == Stored(files) && Distinct(Contents(s))
  {
    var lanes := LanesOf(files);
    var s := Merged(Forward, lanes);
    LanesWellFormed(files, cfg);
    MergedSorted(Forward, lanes);
    MergedPermutes(Forward, lanes);
    forall v ensures v in s <==> v in Stored(files) {
      assert v in s <==> v in multiset(s);
      LanesStored(files, v);
    }
    StoredDistinct(files);
  }

  lemma StoredDistinct(files: seq<File>)
    requires SlotsDistinct(files) && DistinctIds(files)
    ensures Distinct(Stored(files))
  {
    forall a, b | a in Stored(files) && b in Stored(files) && SameSlot(a, b) ensures a == b {
      var f :| f in files && a in f.entries;
      var g :| g in files && b in g.entries;
      var p :| 0 <= p < |f.entries| && f.entries[p] == a;
      var q :| 0 <= q < |g.entries| && g.entries[q] == b;
      assert f.id == g.id && p == q;
      SameId(files, f, g);
    }
  }

  // ---- Outputs of a job --------------------------------------------------------

  lemma {:induction false} SurvivorsSorted(s: seq<Version>, n: nat, r: Rules)
    requires Sorted(Forward, s) && n <= |s|
    ensures Sorted(Forward, Survivors(s, n, r))
    ensures forall v :: v in Survivors(s, n, r) ==> v in s[..n]
  {
    if n > 0 {
      SurvivorsSorted(s, n - 1, r);
      assert s[..n] == s[..n - 1] + [s[n - 1]];
      var out := Survivors(s, n - 1, r);
      forall i | 0 <= i < |out| ensures Before(Forward, out[i], s[n - 1]) {
        assert out[i] in out;
        var k :| 0 <= k < |s[..n - 1]| && s[..n - 1][k] == out[i];
        assert Before(Forward, s[k], s[n - 1]);
      }
    }
  }

  lemma {:induction false} FlattenSorted(files: seq<seq<Version>>, f: nat)
    requires Sorted(Forward, Flatten(files)) && f < |files|
    ensures Sorted(Forward, files[f]) && forall v :: v in files[f] ==> v in Flatten(files)
  {
    var front, last := files[..|files| - 1], files[|files| - 1];
    var all := Flatten(files);
    assert all == Flatten(front) + last;
    if f < |files| - 1 {
      forall i, j | 0 <= i < j < |Flatten(front)| ensures Before(Forward, Flatten(front)[i], Flatten(front)[j]) {
        assert all[i] == Flatten(front)[i] && all[j] == Flatten(front)[j];
      }
      FlattenSorted(front, f);
      assert files[f] == front[f];
    } else {
      forall i, j | 0 <= i < j < |last| ensures Before(Forward, last[i], last[j]) {
        assert all[|Flatten(front)| + i] == last[i] && all[|Flatten(front)| + j] == last[j];
      }
    }
  }

  lemma {:induction false} FlattenMember(files: seq<seq<Version>>, v: Version) returns (f: nat)
    requires v in Flatten(files)
    ensures f < |files| && v in files[f]
  {
    if v in files[|files| - 1] {
      f := |files| - 1;
    } else {
      f := FlattenMember(files[..|files| - 1], v);
    }
  }

  /** The tables a job publishes: consecutive fresh ids at the output level. */
  function Published(outputs: seq<seq<Version>>, level: nat, nextId: nat, sizeOf: seq<Version> -> nat): (r: seq<File>)
    ensures |r| == |outputs|
    ensures forall i :: 0 <= i < |r| ==> r[i] == File(nextId + i, level, outputs[i], sizeOf(outputs[i]))
  {
    seq(|outputs|, i requires 0 <= i < |outputs| => File(nextId + i, level, outputs[i], sizeOf(outputs[i])))
  }

  /** What `ExecuteCompaction` guarantees about outputs merged from `ins`. */
  ghost predicate Compacts(ins: seq<File>, outputs: seq<seq<Version>>, r: Rules) {
    var s := Merged(Forward, LanesOf(ins));
    && Flatten(outputs) == Survivors(s, |s|, r)
    && KeysSeparated(outputs)
    && forall f :: 0 <= f < |outputs| ==> outputs[f] != []
  }

  lemma {:induction false} FlattenHolds(files: seq<seq<Version>>, f: nat, v: Version)
    requires f < |files| && v in files[f]
    ensures v in Flatten(files)
  {
    var n := |files| - 1;
    if f < n {
      FlattenHolds(files[..n], f, v);
    }
  }

  /** Published tables hold what the outputs do together. */
  lemma PublishedStored(outputs: seq<seq<Version>>, level: nat, nextId: nat, sizeOf: seq<Version> -> nat)
    ensures Stored(Published(outputs, level, nextId, sizeOf)) == Contents(Flatten(outputs))
  {
    hide Flatten;
    var out := Published(outputs, level, nextId, sizeOf);
    forall v ensures v in Stored(out) <==> v in Flatten(outputs) {
      if v in Stored(out) {
        var f :| f in out && v in f.entries;
        var i :| 0 <= i < |out| && out[i] == f;
        FlattenHolds(outputs, i, v);
      }
      if v in Flatten(outputs) {
        var i := FlattenMember(outputs, v);
        assert out[i] in out && v in out[i].entries;
      }
    }
  }

  lemma OutputsStored(ins: seq<File>, cfg: Config, outputs: seq<seq<Version>>, r: Rules, level: nat, nextId: nat, sizeOf: seq<Version> -> nat)
    requires Sound(ins, cfg) && Compacts(ins, outputs, r)
    ensures Stored(Published(outputs, level, nextId, sizeOf)) == KeptSet(Stored(ins), r)
    ensures forall i :: 0 <= i < |outputs| ==> Sorted(Forward, outputs[i])
    ensures forall i, v :: 0 <= i < |outputs| && v in outputs[i] ==> v in Stored(ins)
  {
    hide Sound, Sorted, Survivors, KeysSeparated, KeptSet, Stored, Published, Merged, Flatten, Distinct;
    var s := Merged(Forward, LanesOf(ins));
    MergedStored(ins, cfg);
    SurvivorsAreKept(s, r);
    SurvivorsSorted(s, |s|, r);
    PublishedStored(outputs, level, nextId, sizeOf);
    assert s[..|s|] == s;
    forall i | 0 <= i < |outputs|
      ensures Sorted(Forward, outputs[i]) && forall v :: v in outputs[i] ==> v in Stored(ins)
    {
      FlattenSorted(outputs, i);
    }
  }

  // ---- Level disjointness survives a job ---------------------------------------

  lemma EntryBounds(f: File, v: Version)
    requires f.NonEmpty() && Sorted(Forward, f.entries) && v in f.entries
    ensures Leq(f.MinKey(), v.key) && Leq(v.key, f.MaxKey())
  {
    var p :| 0 <= p < |f.entries| && f.entries[p] == v;
    LessIrreflexive(v.key);
    if p > 0 {
      assert Before(Forward, f.entries[0], v);
      if Less(f.MinKey(), v.key) { LessAsymmetric(f.MinKey(), v.key); }
    }
    if p < |f.entries| - 1 {
      assert Before(Forward, v, f.entries[|f.entries| - 1]);
      if Less(v.key, f.MaxKey()) { LessAsymmetric(v.key, f.MaxKey()); }
    }
  }

  lemma BoundsOrdered(f: File)
    requires f.NonEmpty() && Sorted(Forward, f.entries)
    ensures Leq(f.MinKey(), f.MaxKey())
  {
    EntryBounds(f, f.entries[0]);
  }

  /** A file whose sources all lie above `left` lies above it too, if it reaches a source. */
  lemma StaysAbove(left: File, f: File, a: File)
    requires left.NonEmpty() && f.NonEmpty() && a.NonEmpty() && Sorted(Forward, left.entries)
    requires Apart(f, left) && Less(left.MaxKey(), a.MinKey()) && Leq(a.MinKey(), f.MaxKey())
    ensures Less(left.MaxKey(), f.MinKey())
  {
    if Less(f.MaxKey(), left.MinKey()) {
      BoundsOrdered(left);
      LessLeq(f.MaxKey(), left.MinKey(), left.MaxKey());
      LessTransitive(f.MaxKey(), left.MaxKey(), a.MinKey());
    }
  }

  lemma StaysBelow(right: File, f: File, b: File)
    requires right.NonEmpty() && f.NonEmpty() && b.NonEmpty() && Sorted(Forward, right.entries)
    requires Apart(f, right) && Less(b.MaxKey(), right.MinKey()) && Leq(f.MinKey(), b.MaxKey())
    ensures Less(f.MaxKey(), right.MinKey())
  {
    if Less(right.MaxKey(), f.MinKey()) {
      BoundsOrdered(right);
      LeqLess(right.MinKey(), right.MaxKey(), f.MinKey());
      LessLeq(right.MinKey(), f.MinKey(), b.MaxKey());
      LessAsymmetric(b.MaxKey(), right.MinKey());
    }
  }

  ghost predicate InputsAbove(files: seq<File>, job: Job, left: File)
    requires AllNonEmpty(files) && left.NonEmpty()
  {
    forall f :: f in files && f.id in job.inputs ==> Less(left.MaxKey(), f.MinKey())
  }

  ghost predicate InputsBelow(files: seq<File>, job: Job, right: File)
    requires AllNonEmpty(files) && right.NonEmpty()
  {
    forall f :: f in files && f.id in job.inputs ==> Less(f.MaxKey(), right.MinKey())
  }

  lemma HullBelow(files: seq<File>, cfg: Config, job: Job, kept: File)
    requires Sound(files, cfg) && Promotes(files, job)
    requires kept in files && kept.level == job.outputLevel && kept.id !in job.inputs
    requires forall b :: Source(b, files, job) ==> Less(b.MaxKey(), kept.MinKey())
    ensures InputsBelow(files, job, kept)
  {
    forall f | f in files && f.id in job.inputs ensures Less(f.MaxKey(), kept.MinKey()) {
      if f.level == job.outputLevel {
        assert TouchesSources(f, files, job) && Apart(f, kept);
        var b :| Source(b, files, job) && Leq(f.MinKey(), b.MaxKey());
        StaysBelow(kept, f, b);
      } else {
        assert Source(f, files, job);
      }
    }
  }

  lemma HullAbove(files: seq<File>, cfg: Config, job: Job, kept: File)
    requires Sound(files, cfg) && Promotes(files, job)
    requires kept in files && kept.level == job.outputLevel && kept.id !in job.inputs
    requires forall a :: Source(a, files, job) ==> Less(kept.MaxKey(), a.MinKey())
    ensures InputsAbove(files, job, kept)
  {
    forall f | f in files && f.id in job.inputs ensures Less(kept.MaxKey(), f.MinKey()) {
      if f.level == job.outputLevel {
        assert TouchesSources(f, files, job) && Apart(f, kept);
        var a :| Source(a, files, job) && Leq(a.MinKey(), f.MaxKey());
        StaysAbove(kept, f, a);
      } else {
        assert Source(f, files, job);
      }
    }
  }

  /** A file left alone at the output level has the whole input hull on one side. */
  lemma OutsideHull(files: seq<File>, cfg: Config, job: Job, kept: File)
    requires Sound(files, cfg) && Promotes(files, job)
    requires kept in files && kept.level == job.outputLevel && kept.id !in job.inputs
    ensures InputsAbove(files, job, kept) || InputsBelow(files, job, kept)
  {
    hide EntriesSorted, SlotsDistinct, LevelsDisjoint, DistinctIds;
    assert !TouchesSources(kept, files, job);
    if a :| Source(a, files, job) && Leq(a.MinKey(), kept.MaxKey()) {
      HullBelow(files, cfg, job, kept);
    } else {
      HullAbove(files, cfg, job, kept);
    }
  }

  lemma StoredOrigin(files: seq<File>, v: Version) returns (f: File)
    requires v in Stored(files)
    ensures f in files && v in f.entries
  {
    f :| f in files && v in f.entries;
  }

  /** So no output overlaps it. */
  lemma OutputApart(files: seq<File>, cfg: Config, job: Job, kept: File, out: File)
    requires Sound(files, cfg) && Promotes(files, job)
    requires kept in files && kept.level == job.outputLevel && kept.id !in job.inputs
    requires out.NonEmpty() && forall v :: v in out.entries ==> v in Stored(Chosen(files, job.inputs, true))
    ensures Apart(out, kept) && Apart(kept, out)
  {
    OutsideHull(files, cfg, job, kept);
    var first, last := out.entries[0], out.entries[|out.entries| - 1];
    if InputsAbove(files, job, kept) {
      var f := StoredOrigin(Chosen(files, job.inputs, true), first);
      EntryBounds(f, first);
      LessLeq(kept.MaxKey(), f.MinKey(), first.key);
    } else {
      var f := StoredOrigin(Chosen(files, job.inputs, true), last);
      EntryBounds(f, last);
      LeqLess(last.key, f.MaxKey(), kept.MinKey());
    }
  }

  /** The hypotheses under which a finished job is applied. */
  ghost predicate Applies(files: seq<File>, cfg: Config, job: Job, outputs: seq<seq<Version>>, r: Rules, nextId: nat) {
    && Sound(files, cfg) && Promotes(files, job) && job.outputLevel <= cfg.maxLevel
    && Compacts(Chosen(files, job.inputs, true), outputs, r)
    && (forall f :: f in files ==> f.id < nextId)
  }

  /** Inputs leave the catalog, outputs join it. */
  function Apply(files: seq<File>, job: Job, outputs: seq<seq<Version>>, nextId: nat, sizeOf: seq<Version> -> nat): seq<File> {
    Chosen(files, job.inputs, false) + Published(outputs, job.outputLevel, nextId, sizeOf)
  }

  lemma OutputsApart(outputs: seq<seq<Version>>, level: nat, nextId: nat, sizeOf: seq<Version> -> nat, f: File, g: File)
    requires KeysSeparated(outputs) && f.id != g.id
    requires f in Published(outputs, level, nextId, sizeOf) && g in Published(outputs, level, nextId, sizeOf)
    ensures Apart(f, g)
  {
    hide Less, Published;
    var out := Published(outputs, level, nextId, sizeOf);
    var i :| 0 <= i < |out| && out[i] == f;
    var j :| 0 <= j < |out| && out[j] == g;
    if outputs[i] != [] && outputs[j] != [] {
      assert outputs[i][0] in outputs[i] && outputs[i][|outputs[i]| - 1] in outputs[i];
      assert outputs[j][0] in outputs[j] && outputs[j][|outputs[j]| - 1] in outputs[j];
    }
  }

  lemma ApplyLevelsDisjoint(files: seq<File>, cfg: Config, job: Job, outputs: seq<seq<Version>>, r: Rules, nextId: nat, sizeOf: seq<Version> -> nat)
    requires Applies(files, cfg, job, outputs, r, nextId)
    ensures LevelsDisjoint(Apply(files, job, outputs, nextId, sizeOf))
  {
    var ins, rest := Chosen(files, job.inputs, true), Chosen(files, job.inputs, false);
    var out := Published(outputs, job.outputLevel, nextId, sizeOf);
    ChosenSound(files, cfg, job.inputs, true);
    OutputsStored(ins, cfg, outputs, r, job.outputLevel, nextId, sizeOf);
    hide Chosen, Stored, Published, Promotes, DistinctIds, EntriesSorted, SlotsDistinct, KeysSeparated, Apart;
    forall f: File, g: File | f in rest + out && g in rest + out && f.id != g.id && f.level == g.level && f.level >= 1
      ensures Apart(f, g)
    {
      if f in out && g in out {
        OutputsApart(outputs, job.outputLevel, nextId, sizeOf, f, g);
      } else if f in out {
        var i :| 0 <= i < |out| && out[i] == f;
        OutputApart(files, cfg, job, g, f);
      } else if g in out {
        var j :| 0 <= j < |out| && out[j] == g;
        OutputApart(files, cfg, job, f, g);
      }
    }
  }

  /** No two entries of the new catalog share a slot. */
  lemma AppliedSlots(files: seq<File>, cfg: Config, job: Job, outputs: seq<seq<Version>>, r: Rules, nextId: nat, sizeOf: seq<Version> -> nat,
                     f: File, p: nat, g: File, q: nat)
    requires Applies(files, cfg, job, outputs, r, nextId)
    requires f in Apply(files, job, outputs, nextId, sizeOf) && g in Apply(files, job, outputs, nextId, sizeOf)
    requires p < |f.entries| && q < |g.entries| && (f.id != g.id || p != q)
    ensures !SameSlot(f.entries[p], g.entries[q])
  {
    hide Promotes, LevelsDisjoint, Published, Stored, SameSlot, KeysSeparated, DistinctIds, SlotsDistinct, Chosen, EntriesSorted, LanesOf, Merged, Survivors;
    var ins := Chosen(files, job.inputs, true);
    var out := Published(outputs, job.outputLevel, nextId, sizeOf);
    ChosenSound(files, cfg, job.inputs, true);
    OutputsStored(ins, cfg, outputs, r, job.outputLevel, nextId, sizeOf);
    StoredDistinct(ins);
    if f in out && g in out {
      OutputsSlots(outputs, Stored(ins), out, nextId, f, p, g, q);
    } else if f in out {
      OutputEntry(outputs, out, Stored(ins), f, p);
      RestSlots(files, job, g, q, f.entries[p]);
    } else if g in out {
      OutputEntry(outputs, out, Stored(ins), g, q);
      RestSlots(files, job, f, p, g.entries[q]);
    } else {
      KeptSlots(files, f, p, g, q);
    }
  }

  lemma KeptSlots(files: seq<File>, f: File, p: nat, g: File, q: nat)
    requires SlotsDistinct(files) && f in files && g in files && p < |f.entries| && q < |g.entries| && (f.id != g.id || p != q)
    ensures !SameSlot(f.entries[p], g.entries[q])
  {
    hide SameSlot;
  }

  lemma ApplySlotsDistinct(files: seq<File>, cfg: Config, job: Job, outputs: seq<seq<Version>>, r: Rules, nextId: nat, sizeOf: seq<Version> -> nat)
    requires Applies(files, cfg, job, outputs, r, nextId)
    ensures SlotsDistinct(Apply(files, job, outputs, nextId, sizeOf))
  {
    hide Applies, Apply, SameSlot;
    var all := Apply(files, job, outputs, nextId, sizeOf);
    forall f: File, g: File, p, q | f in all && g in all && 0 <= p < |f.entries| && 0 <= q < |g.entries| && (f.id != g.id || p != q)
      ensures !SameSlot(f.entries[p], g.entries[q])
    {
      AppliedSlots(files, cfg, job, outputs, r, nextId, sizeOf, f, p, g, q);
    }
  }

  lemma OutputEntry(outputs: seq<seq<Version>>, out: seq<File>, from: set<Version>, f: File, p: nat)
    requires |out| == |outputs| && (forall i :: 0 <= i < |out| ==> out[i].entries == outputs[i]) && f in out && p < |f.entries|
    requires forall i, v :: 0 <= i < |outputs| && v in outputs[i] ==> v in from
    ensures f.entries[p] in from
  {
    var i :| 0 <= i < |out| && out[i] == f;
    assert f.entries[p] in outputs[i];
  }

  lemma OutputsSlots(outputs: seq<seq<Version>>, from: set<Version>, out: seq<File>, nextId: nat, f: File, p: nat, g: File, q: nat)
    requires |out| == |outputs| && KeysSeparated(outputs) && Distinct(from)
    requires forall i :: 0 <= i < |out| ==> out[i].id == nextId + i && out[i].entries == outputs[i] && Sorted(Forward, outputs[i])
    requires forall i, v :: 0 <= i < |outputs| && v in outputs[i] ==> v in from
    requires f in out && g in out && p < |f.entries| && q < |g.entries| && (f.id != g.id || p != q)
    ensures !SameSlot(f.entries[p], g.entries[q])
  {
    var i :| 0 <= i < |out| && out[i] == f;
    var j :| 0 <= j < |out| && out[j] == g;
    var a, b := f.entries[p], g.entries[q];
    assert a in outputs[i] && b in outputs[j];
    LessIrreflexive(a.key);
    assert SameSlot(a, b) ==> a == b;
    assert i == j ==> Before(Forward, a, b) || Before(Forward, b, a);
  }

  lemma RestSlots(files: seq<File>, job: Job, kept: File, p: nat, v: Version)
    requires SlotsDistinct(files) && kept in files && kept.id !in job.inputs && p < |kept.entries|
    requires v in Stored(Chosen(files, job.inputs, true))
    ensures !SameSlot(kept.entries[p], v) && !SameSlot(v, kept.entries[p])
  {
    var h := StoredOrigin(Chosen(files, job.inputs, true), v);
    var q :| 0 <= q < |h.entries| && h.entries[q] == v;
  }

  lemma ApplyDistinctIds(files: seq<File>, cfg: Config, job: Job, outputs: seq<seq<Version>>, r: Rules, nextId: nat, sizeOf: seq<Version> -> nat)
    requires Applies(files, cfg, job, outputs, r, nextId)
    ensures DistinctIds(Apply(files, job, outputs, nextId, sizeOf))
    ensures forall f :: f in Apply(files, job, outputs, nextId, sizeOf) ==> f.id < nextId + |outputs|
  {
    var rest, out := Chosen(files, job.inputs, false), Published(outputs, job.outputLevel, nextId, sizeOf);
    ChosenDistinctIds(files, job.inputs, false);
    hide Promotes, Compacts, SlotsDistinct, LevelsDisjoint, EntriesSorted, Chosen, Published;
    ConcatDistinctIds(rest, out, nextId);
  }

  lemma ConcatDistinctIds(rest: seq<File>, out: seq<File>, nextId: nat)
    requires DistinctIds(rest) && (forall f :: f in rest ==> f.id < nextId) && forall i :: 0 <= i < |out| ==> out[i].id == nextId + i
    ensures DistinctIds(rest + out) && forall f :: f in rest + out ==> f.id < nextId + |out|
  {
    var all := rest + out;
    forall i, j | 0 <= i < j < |all| ensures all[i].id != all[j].id {
      if i < |rest| {
        assert rest[i] in rest;
      }
    }
  }

  lemma {:induction false} NoneChosen(files: seq<File>, ids: seq<nat>)
    requires forall f :: f in files ==> f.id !in ids
    ensures Chosen(files, ids, true) == []
  {
    if files != [] {
      NoneChosen(files[1..], ids);
    }
  }

  lemma {:induction false} ChosenConcat(a: seq<File>, b: seq<File>, ids: seq<nat>)
    requires forall f :: f in b ==> f.id !in ids
    ensures Chosen(a + b, ids, true) == Chosen(a, ids, true)
  {
    if a != [] {
      ChosenConcat(a[1..], b, ids);
      TailOfConcat(a, b);
    } else {
      assert a + b == b;
      NoneChosen(b, ids);
    }
  }

  lemma SourcesKept(files: seq<File>, flushed: seq<File>, job: Job, f: File)
    requires forall g :: g in flushed ==> g.id !in job.inputs
    ensures Source(f, files + flushed, job) <==> Source(f, files, job)
  {
    assert f in files + flushed <==> f in files || f in flushed;
  }

  lemma TouchesKept(files: seq<File>, flushed: seq<File>, job: Job, f: File)
    requires AllNonEmpty(files) && AllNonEmpty(files + flushed) && f in files && f in files + flushed
    requires forall g :: g in flushed ==> g.id !in job.inputs
    ensures TouchesSources(f, files + flushed, job) <==> TouchesSources(f, files, job)
  {
    forall g ensures Source(g, files + flushed, job) <==> Source(g, files, job) {
      SourcesKept(files, flushed, job, g);
    }
    hide Source;
  }

  /** Files flushed to L0 meanwhile do not disturb a planned job. */
  lemma FlushedPromotes(files: seq<File>, flushed: seq<File>, job: Job)
    requires AllNonEmpty(files) && AllNonEmpty(files + flushed) && Promotes(files, job)
    requires forall f :: f in flushed ==> f.level == 0 && f.id !in job.inputs
    ensures Promotes(files + flushed, job)
  {
    hide TouchesSources, Source;
    var all := files + flushed;
    assert forall f :: f in all <==> f in files || f in flushed;
    var f :| Source(f, files, job);
    SourcesKept(files, flushed, job, f);
    forall g | g in all && g.level == job.outputLevel ensures g.id in job.inputs <==> TouchesSources(g, all, job) {
      assert g in files;
      TouchesKept(files, flushed, job, g);
    }
    forall id | id in job.inputs ensures exists g :: g in all && g.id == id {
      var g :| g in files && g.id == id;
      assert g in all;
    }
  }

  lemma FlushedApplies(files: seq<File>, flushed: seq<File>, cfg: Config, job: Job, outputs: seq<seq<Version>>, r: Rules, nextId: nat)
    requires Applies(files, cfg, job, outputs, r, nextId) && Sound(files + flushed, cfg)
    requires forall f :: f in flushed ==> f.level == 0 && f.id !in job.inputs && f.id < nextId
    ensures Applies(files + flushed, cfg, job, outputs, r, nextId)
  {
    hide Sound, Compacts, Chosen, Promotes;
    ChosenConcat(files, flushed, job.inputs);
    PlanReady(files, cfg);
    PlanReady(files + flushed, cfg);
    FlushedPromotes(files, flushed, job);
    assert forall f :: f in files + flushed ==> f in files || f in flushed;
  }

  /** A job planned before a flush and applied after it keeps the catalog sound. */
  lemma ApplySoundAfterFlush(files: seq<File>, flushed: seq<File>, cfg: Config, job: Job, outputs: seq<seq<Version>>, r: Rules, nextId: nat,
                             sizeOf: seq<Version> -> nat)
    requires Applies(files, cfg, job, outputs, r, nextId) && Sound(files + flushed, cfg)
    requires forall f :: f in flushed ==> f.level == 0 && f.id !in job.inputs && f.id < nextId
    ensures Sound(Apply(files + flushed, job, outputs, nextId, sizeOf), cfg)
  {
    hide Sound, Applies, Apply;
    FlushedApplies(files, flushed, cfg, job, outputs, r, nextId);
    ApplySound(files + flushed, cfg, job, outputs, r, nextId, sizeOf);
  }

  /** Applying a planned job keeps the catalog sound: in particular levels stay disjoint. */
  lemma ApplySound(files: seq<File>, cfg: Config, job: Job, outputs: seq<seq<Version>>, r: Rules, nextId: nat, sizeOf: seq<Version> -> nat)
    requires Applies(files, cfg, job, outputs, r, nextId)
    ensures Sound(Apply(files, job, outputs, nextId, sizeOf), cfg)
  {
    var ins, out := Chosen(files, job.inputs, true), Published(outputs, job.outputLevel, nextId, sizeOf);
    ChosenSound(files, cfg, job.inputs, true);
    OutputsStored(ins, cfg, outputs, r, job.outputLevel, nextId, sizeOf);
    ApplyDistinctIds(files, cfg, job, outputs, r, nextId, sizeOf);
    ApplySlotsDistinct(files, cfg, job, outputs, r, nextId, sizeOf);
    ApplyLevelsDisjoint(files, cfg, job, outputs, r, nextId, sizeOf);
    forall f | f in out ensures f.NonEmpty() && Sorted(Forward, f.entries) && f.level == job.outputLevel {
      var i :| 0 <= i < |out| && out[i] == f;
    }
  }

  /** The versions stored after a job are the kept inputs plus everything left alone. */
  lemma ApplyStored(files: seq<File>, cfg: Config, job: Job, outputs: seq<seq<Version>>, r: Rules, nextId: nat, sizeOf: seq<Version> -> nat)
    requires Applies(files, cfg, job, outputs, r, nextId)
    ensures var ins, rest := Stored(Chosen(files, job.inputs, true)), Stored(Chosen(files, job.inputs, false));
            && Stored(files) == ins + rest && Distinct(ins + rest)
            && Stored(Apply(files, job, outputs, nextId, sizeOf)) == KeptSet(ins, r) + rest
  {
    var ins, rest := Chosen(files, job.inputs, true), Chosen(files, job.inputs, false);
    var out := Published(outputs, job.outputLevel, nextId, sizeOf);
    ChosenSound(files, cfg, job.inputs, true);
    OutputsStored(ins, cfg, outputs, r, job.outputLevel, nextId, sizeOf);
    StoredDistinct(files);
    StoredUnion(rest, out);
    StoredPartition(files, job.inputs);
  }

  lemma StoredPartition(files: seq<File>, ids: seq<nat>)
    ensures Stored(files) == Stored(Chosen(files, ids, true)) + Stored(Chosen(files, ids, false))
  {
    var ins, rest := Chosen(files, ids, true), Chosen(files, ids, false);
    forall v | v in Stored(files) ensures v in Stored(ins) + Stored(rest) {
      var f := StoredOrigin(files, v);
      assert f in ins || f in rest;
    }
  }

  lemma StoredUnion(a: seq<File>, b: seq<File>)
    ensures Stored(a + b) == Stored(a) + Stored(b)
  {
  }

  // ---- Whole runs --------------------------------------------------------------

  function Entries(files: seq<File>): nat {
    if files == [] then 0 else |files[0].entries| + Entries(files[1..])
  }

  function Depth(f: File, maxLevel: nat): nat {
    if f.level <= maxLevel then maxLevel - f.level else 0
  }

  /** How far all entries together still are from the bottom level. */
  function Potential(files: seq<File>, maxLevel: nat): nat {
    if files == [] then 0 else |files[0].entries| * Depth(files[0], maxLevel) + Potential(files[1..], maxLevel)
  }

  lemma {:induction false} PotentialConcat(a: seq<File>, b: seq<File>, maxLevel: nat)
    ensures Potential(a + b, maxLevel) == Potential(a, maxLevel) + Potential(b, maxLevel)
  {
    if a == [] {
      assert a + b == b;
    } else {
      PotentialConcat(a[1..], b, maxLevel);
      TailOfConcat(a, b);
    }
  }

  lemma {:induction false} PotentialPartition(files: seq<File>, ids: seq<nat>, maxLevel: nat)
    ensures Potential(files, maxLevel)
            == Potential(Chosen(files, ids, true), maxLevel) + Potential(Chosen(files, ids, false), maxLevel)
  {
    if files != [] {
      PotentialPartition(files[1..], ids, maxLevel);
      var yes, no := Chosen(files[1..], ids, true), Chosen(files[1..], ids, false);
      if files[0].id in ids {
        assert Chosen(files, ids, true) == [files[0]] + yes && Chosen(files, ids, false) == no;
      } else {
        assert Chosen(files, ids, false) == [files[0]] + no && Chosen(files, ids, true) == yes;
      }
    }
  }

  /** Entries above `level` contribute at least as much as they would there, and strictly more if
      one of them is really above. */
  lemma {:induction false} PotentialAbove(ins: seq<File>, level: nat, maxLevel: nat)
    requires level <= maxLevel && forall f :: f in ins ==> f.level <= level
    ensures Potential(ins, maxLevel) >= Entries(ins) * (maxLevel - level)
    ensures (exists f :: f in ins && f.level < level && f.NonEmpty()) ==> Potential(ins, maxLevel) > Entries(ins) * (maxLevel - level)
  {
    if ins != [] {
      PotentialAbove(ins[1..], level, maxLevel);
      var n, d, e := |ins[0].entries|, Depth(ins[0], maxLevel), maxLevel - level;
      assert ins[0] in ins && d >= e;
      WeightMonotone(n, e, d);
      Distributes(n, Entries(ins[1..]), e);
    }
  }

  lemma WeightMonotone(n: nat, e: nat, d: nat)
    requires e <= d
    ensures n * e <= n * d
    ensures n > 0 && e < d ==> n * e < n * d
  {
  }

  lemma Scales(m: nat, n: nat, d: nat)
    requires m <= n
    ensures m * d <= n * d
  {
  }

  lemma Distributes(m: nat, n: nat, d: nat)
    ensures (m + n) * d == m * d + n * d
  {
  }

  lemma PotentialSingle(f: File, maxLevel: nat)
    ensures Potential([f], maxLevel) == |f.entries| * Depth(f, maxLevel)
  {
    assert [f][1..] == [];
  }

  lemma {:induction false} PotentialPublished(out: seq<File>, files: seq<seq<Version>>, level: nat, maxLevel: nat)
    requires level <= maxLevel && |out| == |files|
    requires forall i :: 0 <= i < |out| ==> out[i].level == level && out[i].entries == files[i]
    ensures Potential(out, maxLevel) == |Flatten(files)| * (maxLevel - level)
  {
    if out != [] {
      var n := |out| - 1;
      var front, last := files[..n], files[n];
      PotentialPublished(out[..n], front, level, maxLevel);
      PotentialConcat(out[..n], [out[n]], maxLevel);
      assert out == out[..n] + [out[n]];
      assert Flatten(files) == Flatten(front) + last;
      PotentialSingle(out[n], maxLevel);
      Distributes(|Flatten(front)|, |last|, maxLevel - level);
    }
  }

  lemma {:induction false} MergedLength(dir: Direction, lanes: Lanes)
    ensures |Merged(dir, lanes)| == TotalLength(lanes)
    decreases TotalLength(lanes)
  {
    if k :| 0 <= k < |lanes| && lanes[k] != [] {
      var i := BestExists(dir, lanes, k);
      MergedStep(dir, lanes, i);
      TotalLengthUpdate(lanes, i, lanes[i][1..]);
      MergedLength(dir, lanes[i := lanes[i][1..]]);
    } else {
      MergedEmpty(dir, lanes);
      EmptyLanes(lanes);
    }
  }

  lemma {:induction false} EmptyLanes(lanes: Lanes)
    requires forall i :: 0 <= i < |lanes| ==> lanes[i] == []
    ensures TotalLength(lanes) == 0
  {
    if lanes != [] {
      EmptyLanes(lanes[1..]);
    }
  }

  lemma {:induction false} EntriesAreLanes(files: seq<File>)
    ensures TotalLength(LanesOf(files)) == Entries(files)
  {
    if files != [] {
      EntriesAreLanes(files[1..]);
      assert LanesOf(files)[1..] == LanesOf(files[1..]);
    }
  }

  lemma {:induction false} SurvivorsShorter(s: seq<Version>, n: nat, r: Rules)
    requires n <= |s|
    ensures |Survivors(s, n, r)| <= n
  {
    if n > 0 {
      SurvivorsShorter(s, n - 1, r);
    }
  }

  /** Every job moves entries down: the potential strictly falls. */
  lemma ApplyDescends(files: seq<File>, cfg: Config, job: Job, outputs: seq<seq<Version>>, r: Rules, nextId: nat, sizeOf: seq<Version> -> nat)
    requires Applies(files, cfg, job, outputs, r, nextId)
    ensures Potential(Apply(files, job, outputs, nextId, sizeOf), cfg.maxLevel) < Potential(files, cfg.maxLevel)
  {
    hide *;
    var ins, rest := Chosen(files, job.inputs, true), Chosen(files, job.inputs, false);
    var out := Published(outputs, job.outputLevel, nextId, sizeOf);
    SourceAbove(files, cfg, job, outputs, r, nextId);
    InputsOutweigh(ins, outputs, r, job.outputLevel, cfg.maxLevel);
    PotentialPublished(out, outputs, job.outputLevel, cfg.maxLevel);
    PotentialConcat(rest, out, cfg.maxLevel);
    PotentialPartition(files, job.inputs, cfg.maxLevel);
    AppliedIs(files, job, outputs, nextId, sizeOf);
  }

  lemma AppliedIs(files: seq<File>, job: Job, outputs: seq<seq<Version>>, nextId: nat, sizeOf: seq<Version> -> nat)
    ensures Apply(files, job, outputs, nextId, sizeOf)
            == Chosen(files, job.inputs, false) + Published(outputs, job.outputLevel, nextId, sizeOf)
  {
  }

  lemma InputsOutweigh(ins: seq<File>, outputs: seq<seq<Version>>, r: Rules, level: nat, maxLevel: nat)
    requires level <= maxLevel && Compacts(ins, outputs, r) && forall f :: f in ins ==> f.level <= level
    requires exists f :: f in ins && f.level < level && f.NonEmpty()
    ensures |Flatten(outputs)| * (maxLevel - level) < Potential(ins, maxLevel)
  {
    hide *;
    OutputsShorter(ins, outputs, r);
    Scales(|Flatten(outputs)|, Entries(ins), maxLevel - level);
    PotentialAbove(ins, level, maxLevel);
  }

  lemma OutputsShorter(ins: seq<File>, outputs: seq<seq<Version>>, r: Rules)
    requires Compacts(ins, outputs, r)
    ensures |Flatten(outputs)| <= Entries(ins)
  {
    var s := Merged(Forward, LanesOf(ins));
    MergedLength(Forward, LanesOf(ins));
    EntriesAreLanes(ins);
    SurvivorsShorter(s, |s|, r);
  }

  lemma SourceAbove(files: seq<File>, cfg: Config, job: Job, outputs: seq<seq<Version>>, r: Rules, nextId: nat)
    requires Applies(files, cfg, job, outputs, r, nextId)
    ensures var ins := Chosen(files, job.inputs, true);
            && job.outputLevel <= cfg.maxLevel && Compacts(ins, outputs, r)
            && (forall f :: f in ins ==> f.level <= job.outputLevel)
            && exists f :: f in ins && f.level < job.outputLevel && f.NonEmpty()
  {
    hide Sound, Compacts;
    assert AllNonEmpty(files) by { PlanReady(files, cfg); }
    var f :| Source(f, files, job);
    assert f in Chosen(files, job.inputs, true);
  }

  /** The environment of a run: retention watermark, whether snapshots are live, and the clock. */
  datatype Env = Env(watermark: nat, snapshotsLive: bool, now: nat)

  /** One compaction as a change of the stored versions. Tombstones may go only when no snapshot
      is live. */
  ghost predicate StoredStep(before: set<Version>, after: set<Version>, env: Env) {
    exists ins: set<Version>, rest: set<Version>, drop: bool ::
      && before == ins + rest && Distinct(before) && (drop ==> !env.snapshotsLive)
      && after == KeptSet(ins, Rules(env.watermark, drop, env.now)) + rest
  }

  /** Plan one job, execute it and apply it. */
  method CompactOnce(files: seq<File>, cfg: Config, candidates: seq<nat>, env: Env, nextId: nat, sizeOf: seq<Version> -> nat)
    returns (files': seq<File>, nextId': nat, progressed: bool)
    requires Sound(files, cfg) && cfg.maxLevel >= 1 && cfg.l0Trigger >= 1
    requires forall l :: l in candidates ==> l == 0 || l < cfg.maxLevel
    requires forall f :: f in files ==> f.id < nextId
    ensures Sound(files', cfg) && forall f :: f in files' ==> f.id < nextId'
    ensures !progressed ==> files' == files && Calm(files, cfg, candidates)
    ensures progressed <==> !Calm(files, cfg, candidates)
    ensures progressed ==> Potential(files', cfg.maxLevel) < Potential(files, cfg.maxLevel)
    ensures progressed ==> StoredStep(Stored(files), Stored(files'), env)
  {
    hide Sound, Promotes, Potential, Stored, LanesOf, Chosen, SplitWell, Merged, Survivors, KeptSet;
    PlanReady(files, cfg);
    var job := Plan(files, cfg, candidates);
    if job.None? {
      return files, nextId, false;
    }
    var ins := Chosen(files, job.value.inputs, true);
    ChosenSound(files, cfg, job.value.inputs, true);
    LanesWellFormed(ins, cfg);
    var drop := job.value.outputLevel == cfg.maxLevel && !env.snapshotsLive;
    var r := Rules(env.watermark, drop, env.now);
    var outputs, dropped := ExecuteCompaction(LanesOf(ins), r, cfg.targetFileBytes);
    SplitSeparates(outputs, cfg.targetFileBytes);
    assert Applies(files, cfg, job.value, outputs, r, nextId);
    ApplySound(files, cfg, job.value, outputs, r, nextId, sizeOf);
    ApplyDistinctIds(files, cfg, job.value, outputs, r, nextId, sizeOf);
    ApplyDescends(files, cfg, job.value, outputs, r, nextId, sizeOf);
    ApplyStored(files, cfg, job.value, outputs, r, nextId, sizeOf);
    files' := Apply(files, job.value, outputs, nextId, sizeOf);
    nextId', progressed := nextId + |outputs|, true;
  }

  lemma PlanReady(files: seq<File>, cfg: Config)
    requires Sound(files, cfg)
    ensures AllNonEmpty(files) && DistinctIds(files) && LevelsDisjoint(files)
  {
  }

  lemma SplitSeparates(outputs: seq<seq<Version>>, target: nat)
    requires SplitWell(outputs, target)
    ensures KeysSeparated(outputs) && forall f :: 0 <= f < |outputs| ==> outputs[f] != []
  {
  }

  /** With snapshots live and nothing expired, one compaction changes no newest version at or
      above the watermark, and expires nothing new. */
  lemma StepPreservesReads(before: set<Version>, after: set<Version>, env: Env, key: bytes, at: nat)
    requires StoredStep(before, after, env) && env.snapshotsLive && at >= env.watermark
    requires forall v :: v in before ==> !Reclaims(v, env.now)
    ensures Newest(after, key, at) == Newest(before, key, at)
    ensures after <= before
  {
    var ins: set<Version>, rest: set<Version>, drop: bool :|
      && before == ins + rest && Distinct(before) && (drop ==> !env.snapshotsLive)
      && after == KeptSet(ins, Rules(env.watermark, drop, env.now)) + rest;
    SupersedingPreserves(ins, rest, Rules(env.watermark, drop, env.now), key, at);
  }

  ghost predicate SameReads(before: set<Version>, after: set<Version>, env: Env) {
    && after <= before
    && forall key, at: nat :: at >= env.watermark ==> Newest(after, key, at) == Newest(before, key, at)
  }

  /** No level that asks for compaction is ever passed over. */
  ghost predicate AllConsidered(cfg: Config, candidatesOf: seq<File> -> seq<nat>) {
    forall files, level: nat :: Pressed(files, cfg, level) ==> level in candidatesOf(files)
  }

  /** Compaction quiesces: with no new flushes it stops after at most `Potential` jobs, whatever
      order scores put the levels in, keeping the catalog sound throughout; and while snapshots are
      live and nothing expires, every read at or above the watermark is unchanged by the run. */
  method RunToIdle(files: seq<File>, cfg: Config, candidatesOf: seq<File> -> seq<nat>, env: Env, nextId: nat, sizeOf: seq<Version> -> nat)
    returns (idle: seq<File>, jobs: nat)
    requires Sound(files, cfg) && cfg.maxLevel >= 1 && cfg.l0Trigger >= 1
    requires forall fs, l :: l in candidatesOf(fs) ==> l == 0 || l < cfg.maxLevel
    requires forall f :: f in files ==> f.id < nextId
    ensures Sound(idle, cfg)
    ensures jobs + Potential(idle, cfg.maxLevel) <= Potential(files, cfg.maxLevel)
    ensures Calm(idle, cfg, candidatesOf(idle))
    ensures AllConsidered(cfg, candidatesOf) ==> forall level: nat :: !Pressed(idle, cfg, level)
    ensures env.snapshotsLive && (forall v :: v in Stored(files) ==> !Reclaims(v, env.now)) ==>
              SameReads(Stored(files), Stored(idle), env)
  {
    hide Sound, Potential, Stored, Newest, AtLevel;
    idle, jobs := files, 0;
    var next := nextId;
    while true
      invariant Sound(idle, cfg) && forall f :: f in idle ==> f.id < next
      invariant jobs + Potential(idle, cfg.maxLevel) <= Potential(files, cfg.maxLevel)
      invariant env.snapshotsLive && (forall v :: v in Stored(files) ==> !Reclaims(v, env.now)) ==>
        SameReads(Stored(files), Stored(idle), env)
      decreases Potential(idle, cfg.maxLevel)
    {
      var progressed;
      ghost var before := Stored(idle);
      idle, next, progressed := CompactOnce(idle, cfg, candidatesOf(idle), env, next, sizeOf);
      if !progressed {
        return;
      }
      if env.snapshotsLive && forall v :: v in Stored(files) ==> !Reclaims(v, env.now) {
        forall key, at: nat | at >= env.watermark ensures Newest(Stored(idle), key, at) == Newest(before, key, at) {
          StepPreservesReads(before, Stored(idle), env, key, at);
        }
        StepPreservesReads(before, Stored(idle), env, [], env.watermark);
      }
      jobs := jobs + 1;
    }
  }
}
