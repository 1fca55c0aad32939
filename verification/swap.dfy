/** The interruptible three-way swap of `wolfBoot_update`: BOOT and UPDATE
    exchange their contents sector by sector through the one-sector SWAP
    partition. A per-sector flag in the update partition's trailer records
    how far each sector got (NEW, SWAPPING, BACKUP, UPDATED), so a swap cut
    short by a power loss is resumed on the next boot by running the same
    loop again from sector 0.

    A sector copy is taken whole here; `UpdateFlash.CopyKeepsImage` states
    when the chunked copy of the source has that effect. */
module SwapMachine {
  import opened Base
  import opened UpdateFlash

  /** A partition as a map from sector index to contents; an absent sector is
      blank. */
  type Partition = map<nat, Sector>

  function SectorOf(p: Partition, s: nat): Sector {
    if s in p then p[s] else Blank
  }

  /** BOOT, UPDATE, the SWAP sector and the sector flags. A sector without a
      stored flag reads as NEW: the source presets the flag to NEW before
      reading it. */
  datatype SwapState = SwapState(boot: Partition, update: Partition, swap: Sector,
                                 flags: map<nat, SectFlag>)

  function FlagOf(flags: map<nat, SectFlag>, s: nat): SectFlag {
    if s in flags then flags[s] else FlagNew
  }

  /** The atomic steps of the swap: three sector copies and a flag write. */
  datatype SwapOp =
    | UpdateToSwap(s: nat)
    | BootToUpdate(s: nat)
    | SwapToBoot(s: nat)
    | SetFlag(s: nat, f: SectFlag)

  function Apply(st: SwapState, op: SwapOp): SwapState {
    match op
    case UpdateToSwap(s) => st.(swap := SectorOf(st.update, s))
    case BootToUpdate(s) => st.(update := st.update[s := SectorOf(st.boot, s)])
    case SwapToBoot(s) => st.(boot := st.boot[s := st.swap])
    case SetFlag(s, f) => st.(flags := st.flags[s := f])
  }

  /** Power lost during `op`: an interrupted copy leaves arbitrary contents
      `g` in its destination sector; a flag write is atomic and has not
      happened. */
  function Tear(st: SwapState, op: SwapOp, g: Sector): SwapState {
    match op
    case UpdateToSwap(_) => st.(swap := g)
    case BootToUpdate(s) => st.(update := st.update[s := g])
    case SwapToBoot(s) => st.(boot := st.boot[s := g])
    case SetFlag(_, _) => st
  }

  function Run(st: SwapState, ops: seq<SwapOp>): SwapState
    decreases |ops|
  {
    if |ops| == 0 then st else Run(Apply(st, ops[0]), ops[1..])
  }

  lemma {:induction false} RunAppend(st: SwapState, a: seq<SwapOp>, b: seq<SwapOp>)
    ensures Run(st, a + b) == Run(Run(st, a), b)
    decreases |a|
  {
    if |a| == 0 {
      assert a + b == b;
    } else {
      assert (a + b)[0] == a[0];
      assert (a + b)[1..] == a[1..] + b;
      RunAppend(Apply(st, a[0]), a[1..], b);
    }
  }

  lemma RunTwo(st: SwapState, a: SwapOp, b: SwapOp)
    ensures Run(st, [a]) == Apply(st, a)
    ensures Run(st, [a, b]) == Apply(Apply(st, a), b)
  {
    assert [a][1..] == [];
    assert [a, b][1..] == [b];
    assert Run(Apply(st, a), [b]) == Apply(Apply(st, a), b) by {
      assert [b][1..] == [];
    }
  }

  lemma RunThree(st: SwapState, a: SwapOp, b: SwapOp, d: SwapOp)
    ensures Run(st, [a, b, d]) == Apply(Apply(Apply(st, a), b), d)
  {
    assert [a, b, d][1..] == [b, d];
    RunTwo(Apply(st, a), b, d);
  }

  /** A prefix of `a + b` and the step after it, read off `a` or `b`. */
  lemma SplitAt<T>(a: seq<T>, b: seq<T>, k: nat)
    requires k < |a + b|
    ensures k < |a| ==> (a + b)[..k] == a[..k] && (a + b)[k] == a[k]
    ensures k >= |a| ==> (a + b)[..k] == a + b[..k - |a|] && (a + b)[k] == b[k - |a|]
  {
  }

  // ---------------------------------------------------------------------
  // One sector: the fall-through chain
  // ---------------------------------------------------------------------

  /** A flag is written only when the sector is not the last one of the
      partition, whose trailer holds the flags. */
  predicate Persisted(c: Config, s: nat) {
    (s + 1) * c.sectorSize < c.partitionSize
  }

  function Persist(c: Config, s: nat, f: SectFlag): seq<SwapOp> {
    if Persisted(c, s) then [SetFlag(s, f)] else []
  }

  /** The steps of one loop iteration for a sector whose flag reads `f`, with
      the switch's fall-through: NEW copies UPDATE to SWAP and goes on as
      SWAPPING, which copies BOOT to UPDATE and goes on as BACKUP, which
      copies SWAP to BOOT; UPDATED and unknown flags do nothing. */
  function StageOps(c: Config, s: nat, f: SectFlag): seq<SwapOp>
    decreases Rank(FlagUpdated) - Rank(f)
  {
    match f
    case FlagNew => [UpdateToSwap(s)] + Persist(c, s, FlagSwapping) + StageOps(c, s, FlagSwapping)
    case FlagSwapping => [BootToUpdate(s)] + Persist(c, s, FlagBackup) + StageOps(c, s, FlagBackup)
    case FlagBackup => [SwapToBoot(s)] + Persist(c, s, FlagUpdated)
    case _ => []
  }

  /** Progress order of the flags. */
  function Rank(f: SectFlag): nat {
    match f
    case FlagNew => 0
    case FlagSwapping => 1
    case FlagBackup => 2
    case FlagUpdated => 3
    case FlagOther => 3
  }

  function SectorOps(c: Config, st: SwapState, s: nat): seq<SwapOp> {
    StageOps(c, s, FlagOf(st.flags, s))
  }

  // ---------------------------------------------------------------------
  // The loop
  // ---------------------------------------------------------------------

  /** The number of loop iterations for a total size: the loop runs while
      `sector * SECTOR < total_size`. */
  function SectorsFor(c: Config, total: nat): nat
    requires c.sectorSize > 0
  {
    (total + c.sectorSize - 1) / c.sectorSize
  }

  /** Sector `s` is visited by the loop exactly when it starts below the
      total size. */
  lemma SectorsForIsLoopBound(c: Config, total: nat, s: nat)
    requires c.sectorSize > 0
    ensures s < SectorsFor(c, total) <==> s * c.sectorSize < total
  {
    var S := c.sectorSize;
    var n := SectorsFor(c, total);
    DivModBasics(total + S - 1, S);
    if s < n {
      MulMonotone(S, s + 1, n);
    } else {
      MulMonotone(S, n, s);
    }
  }

  /** The swap loop from sector `s` up to (not including) sector `n`. */
  function SwapFrom(c: Config, st: SwapState, s: nat, n: nat): SwapState
    decreases n - s
  {
    if s >= n then st else SwapFrom(c, Run(st, SectorOps(c, st, s)), s + 1, n)
  }

  /** The atomic steps the loop from sector `s` performs, in order. */
  function Trace(c: Config, st: SwapState, s: nat, n: nat): seq<SwapOp>
    decreases n - s
  {
    if s >= n then [] else SectorOps(c, st, s) + Trace(c, Run(st, SectorOps(c, st, s)), s + 1, n)
  }

  lemma {:induction false} TraceRuns(c: Config, st: SwapState, s: nat, n: nat)
    ensures Run(st, Trace(c, st, s, n)) == SwapFrom(c, st, s, n)
    decreases n - s
  {
    if s < n {
      var st1 := Run(st, SectorOps(c, st, s));
      RunAppend(st, SectorOps(c, st, s), Trace(c, st1, s + 1, n));
      TraceRuns(c, st1, s + 1, n);
    }
  }

  // ---------------------------------------------------------------------
  // What the swap promises
  // ---------------------------------------------------------------------

  /** The promise of the swap for the first `n` sectors: BOOT holds what
      UPDATE held and UPDATE holds what BOOT held; sectors from `n` on are
      untouched. */
  ghost predicate Exchanged(st: SwapState, b0: Partition, u0: Partition, n: nat) {
    && (forall s: nat :: s < n ==> SectorOf(st.boot, s) == SectorOf(u0, s))
    && (forall s: nat :: s < n ==> SectorOf(st.update, s) == SectorOf(b0, s))
    && (forall s: nat :: s >= n ==> SectorOf(st.boot, s) == SectorOf(b0, s))
    && (forall s: nat :: s >= n ==> SectorOf(st.update, s) == SectorOf(u0, s))
  }

  /** What sector `p` holds according to its flag. NEW: both partitions
      original. SWAPPING: the update sector is saved in SWAP, BOOT original
      (UPDATE may be half written). BACKUP: UPDATE holds the old boot sector,
      SWAP the old update sector (BOOT may be half written). UPDATED: done. */
  predicate StageHolds(st: SwapState, p: nat, b0: Partition, u0: Partition) {
    match FlagOf(st.flags, p)
    case FlagNew => SectorOf(st.boot, p) == SectorOf(b0, p) && SectorOf(st.update, p) == SectorOf(u0, p)
    case FlagSwapping => SectorOf(st.boot, p) == SectorOf(b0, p) && st.swap == SectorOf(u0, p)
    case FlagBackup => SectorOf(st.update, p) == SectorOf(b0, p) && st.swap == SectorOf(u0, p)
    case FlagUpdated => SectorOf(st.boot, p) == SectorOf(u0, p) && SectorOf(st.update, p) == SectorOf(b0, p)
    case FlagOther => false
  }

  /** The state of a swap of `n` sectors whose progress cursor is `p`:
      sectors in front of it are UPDATED, sector `p` is as its flag says,
      the sectors after it are NEW and untouched. */
  ghost predicate GoodAt(st: SwapState, b0: Partition, u0: Partition, n: nat, p: nat) {
    && p <= n
    && (forall s: nat :: s < p ==> FlagOf(st.flags, s) == FlagUpdated)
    && (forall s: nat :: s < p ==> SectorOf(st.boot, s) == SectorOf(u0, s))
    && (forall s: nat :: s < p ==> SectorOf(st.update, s) == SectorOf(b0, s))
    && (p < n ==> StageHolds(st, p, b0, u0))
    && (forall s: nat :: p < s < n ==> FlagOf(st.flags, s) == FlagNew)
    && (forall s: nat :: p < s || n <= s ==> SectorOf(st.boot, s) == SectorOf(b0, s))
    && (forall s: nat :: p < s || n <= s ==> SectorOf(st.update, s) == SectorOf(u0, s))
  }

  /** A state from which running the loop again from sector 0 completes the
      swap: some cursor describes it. */
  ghost predicate Resumable(st: SwapState, b0: Partition, u0: Partition, n: nat) {
    exists p: nat :: p <= n && GoodAt(st, b0, u0, n, p)
  }

  /** Every visited sector has its flag persisted. */
  predicate AllPersisted(c: Config, n: nat) {
    n * c.sectorSize < c.partitionSize
  }

  lemma PersistedBelow(c: Config, s: nat, n: nat)
    requires s < n && AllPersisted(c, n)
    ensures Persisted(c, s)
  {
    MulMonotone(c.sectorSize, s + 1, n);
  }

  /** A state that differs from a good one only at the cursor sector is good
      when the cursor sector is as its flag says. */
  lemma GoodAtFrame(st: SwapState, st': SwapState, b0: Partition, u0: Partition, n: nat, p: nat)
    requires GoodAt(st, b0, u0, n, p) && p < n
    requires forall s: nat :: s != p ==> SectorOf(st'.boot, s) == SectorOf(st.boot, s)
    requires forall s: nat :: s != p ==> SectorOf(st'.update, s) == SectorOf(st.update, s)
    requires forall s: nat :: s != p ==> FlagOf(st'.flags, s) == FlagOf(st.flags, s)
    requires StageHolds(st', p, b0, u0)
    ensures GoodAt(st', b0, u0, n, p)
  {
  }

  /** Steps on sector `p` leave every other sector and flag alone. */
  lemma {:induction false} RunFrame(c: Config, st: SwapState, p: nat, f: SectFlag, k: nat, s: nat)
    requires s != p && k <= |StageOps(c, p, f)|
    ensures SectorOf(Run(st, StageOps(c, p, f)[..k]).boot, s) == SectorOf(st.boot, s)
    ensures SectorOf(Run(st, StageOps(c, p, f)[..k]).update, s) == SectorOf(st.update, s)
    ensures FlagOf(Run(st, StageOps(c, p, f)[..k]).flags, s) == FlagOf(st.flags, s)
    decreases k
  {
    if k > 0 {
      var ops := StageOps(c, p, f);
      assert ops[..k] == ops[..k - 1] + [ops[k - 1]];
      RunAppend(st, ops[..k - 1], [ops[k - 1]]);
      RunFrame(c, st, p, f, k - 1, s);
      StageOpsOn(c, p, f, k - 1);
    }
  }

  /** Every step of a stage works on that stage's sector. */
  lemma {:induction false} StageOpsOn(c: Config, p: nat, f: SectFlag, i: nat)
    requires i < |StageOps(c, p, f)|
    ensures StageOps(c, p, f)[i].s == p
    decreases Rank(FlagUpdated) - Rank(f)
  {
    match f
    case FlagNew =>
      var head := [UpdateToSwap(p)] + Persist(c, p, FlagSwapping);
      if i >= |head| {
        StageOpsOn(c, p, FlagSwapping, i - |head|);
      }
    case FlagSwapping =>
      var head := [BootToUpdate(p)] + Persist(c, p, FlagBackup);
      if i >= |head| {
        StageOpsOn(c, p, FlagBackup, i - |head|);
      }
    case _ =>
  }

  /** The copy a NEW or SWAPPING stage starts with, and the flag it then
      writes. */
  function HeadCopy(f: SectFlag, p: nat): SwapOp {
    if f == FlagNew then UpdateToSwap(p) else BootToUpdate(p)
  }

  function NextFlag(f: SectFlag): SectFlag {
    if f == FlagNew then FlagSwapping else FlagBackup
  }

  lemma StageHead(c: Config, p: nat, f: SectFlag)
    requires Persisted(c, p) && (f == FlagNew || f == FlagSwapping)
    ensures StageOps(c, p, f) == [HeadCopy(f, p), SetFlag(p, NextFlag(f))] + StageOps(c, p, NextFlag(f))
  {
  }

  /** The copy, finished or torn, keeps the state good. */
  lemma HeadCopyGood(st: SwapState, b0: Partition, u0: Partition, n: nat, p: nat, g: Sector)
    requires GoodAt(st, b0, u0, n, p) && p < n
    requires FlagOf(st.flags, p) == FlagNew || FlagOf(st.flags, p) == FlagSwapping
    ensures GoodAt(Apply(st, HeadCopy(FlagOf(st.flags, p), p)), b0, u0, n, p)
    ensures GoodAt(Tear(st, HeadCopy(FlagOf(st.flags, p), p), g), b0, u0, n, p)
  {
    var op := HeadCopy(FlagOf(st.flags, p), p);
    GoodAtFrame(st, Apply(st, op), b0, u0, n, p);
    GoodAtFrame(st, Tear(st, op, g), b0, u0, n, p);
  }

  /** The copy followed by its flag write moves the sector to the next stage
      and keeps the state good. */
  lemma HeadStepsGood(st: SwapState, b0: Partition, u0: Partition, n: nat, p: nat)
    requires GoodAt(st, b0, u0, n, p) && p < n
    requires FlagOf(st.flags, p) == FlagNew || FlagOf(st.flags, p) == FlagSwapping
    ensures var f := FlagOf(st.flags, p);
      var st2 := Apply(Apply(st, HeadCopy(f, p)), SetFlag(p, NextFlag(f)));
      FlagOf(st2.flags, p) == NextFlag(f) && GoodAt(st2, b0, u0, n, p)
  {
    var f := FlagOf(st.flags, p);
    var st2 := Apply(Apply(st, HeadCopy(f, p)), SetFlag(p, NextFlag(f)));
    GoodAtFrame(st, st2, b0, u0, n, p);
  }

  /** The first two steps of a NEW or SWAPPING stage (a copy and its flag)
      bring the sector to the next stage. */
  lemma AdvanceStage(c: Config, st: SwapState, b0: Partition, u0: Partition, n: nat, p: nat)
      returns (st2: SwapState)
    requires GoodAt(st, b0, u0, n, p) && p < n && Persisted(c, p)
    requires FlagOf(st.flags, p) == FlagNew || FlagOf(st.flags, p) == FlagSwapping
    ensures var f := FlagOf(st.flags, p);
      var next := if f == FlagNew then FlagSwapping else FlagBackup;
      && StageOps(c, p, f) == StageOps(c, p, f)[..2] + StageOps(c, p, next)
      && st2 == Run(st, StageOps(c, p, f)[..2])
      && FlagOf(st2.flags, p) == next
      && GoodAt(st2, b0, u0, n, p)
      && GoodAt(Run(st, StageOps(c, p, f)[..1]), b0, u0, n, p)
      && GoodAt(Tear(st, StageOps(c, p, f)[0], SectorOf(st.update, p)), b0, u0, n, p)
  {
    var f := FlagOf(st.flags, p);
    StageHead(c, p, f);
    var ops := StageOps(c, p, f);
    var a, b := HeadCopy(f, p), SetFlag(p, NextFlag(f));
    assert ops[0] == a && ops[1] == b;
    assert ops[..1] == [a];
    assert ops[..2] == [a, b];
    RunTwo(st, a, b);
    HeadCopyGood(st, b0, u0, n, p, SectorOf(st.update, p));
    HeadStepsGood(st, b0, u0, n, p);
    st2 := Apply(Apply(st, a), b);
  }

  // ---------------------------------------------------------------------
  // Completion
  // ---------------------------------------------------------------------

  /** The last copy of a BACKUP stage and its flag finish the sector: the
      cursor moves on by one. */
  lemma BackupStageDone(st: SwapState, b0: Partition, u0: Partition, n: nat, p: nat)
    requires GoodAt(st, b0, u0, n, p) && p < n && FlagOf(st.flags, p) == FlagBackup
    ensures GoodAt(Apply(Apply(st, SwapToBoot(p)), SetFlag(p, FlagUpdated)), b0, u0, n, p + 1)
  {
    var st2 := Apply(Apply(st, SwapToBoot(p)), SetFlag(p, FlagUpdated));
    forall s: nat | s < p + 1
      ensures FlagOf(st2.flags, s) == FlagUpdated
      ensures SectorOf(st2.boot, s) == SectorOf(u0, s)
      ensures SectorOf(st2.update, s) == SectorOf(b0, s)
    {
      if s < p {
        assert FlagOf(st.flags, s) == FlagUpdated;
      }
    }
    forall s: nat | p + 1 < s < n
      ensures FlagOf(st2.flags, s) == FlagNew
    {
      assert FlagOf(st.flags, s) == FlagNew;
    }
    if p + 1 < n {
      assert FlagOf(st.flags, p + 1) == FlagNew;
      assert StageHolds(st2, p + 1, b0, u0);
    }
  }

  /** One loop iteration on the cursor sector finishes it: the state is good
      with the cursor one sector further. */
  lemma {:induction false} StageRun(c: Config, st: SwapState, b0: Partition, u0: Partition, n: nat, p: nat)
    requires GoodAt(st, b0, u0, n, p) && p < n && Persisted(c, p)
    ensures GoodAt(Run(st, SectorOps(c, st, p)), b0, u0, n, p + 1)
    decreases Rank(FlagUpdated) - Rank(FlagOf(st.flags, p))
  {
    var f := FlagOf(st.flags, p);
    var ops := SectorOps(c, st, p);
    if f == FlagNew || f == FlagSwapping {
      var st2 := AdvanceStage(c, st, b0, u0, n, p);
      RunAppend(st, ops[..2], ops[2..]);
      assert ops[2..] == SectorOps(c, st2, p);
      StageRun(c, st2, b0, u0, n, p);
    } else if f == FlagBackup {
      assert ops == [SwapToBoot(p), SetFlag(p, FlagUpdated)];
      RunTwo(st, SwapToBoot(p), SetFlag(p, FlagUpdated));
      BackupStageDone(st, b0, u0, n, p);
    } else {
      assert ops == [];
    }
  }

  /** Sectors already UPDATED in front of sector `p` are skipped by a
      restarted loop. */
  lemma {:induction false} SkipDone(c: Config, st: SwapState, n: nat, p: nat, s: nat)
    requires forall q: nat :: q < p ==> FlagOf(st.flags, q) == FlagUpdated
    requires s <= p
    ensures SwapFrom(c, st, s, n) == SwapFrom(c, st, p, n)
    ensures Trace(c, st, s, n) == Trace(c, st, p, n)
    decreases p - s
  {
    if s < p {
      assert SectorOps(c, st, s) == [];
      assert Run(st, []) == st;
      SkipDone(c, st, n, p, s + 1);
    }
  }

  /** From a good state the loop completes the exchange. */
  lemma {:induction false} LoopCompletes(c: Config, st: SwapState, b0: Partition, u0: Partition, n: nat, p: nat)
    requires AllPersisted(c, n) && GoodAt(st, b0, u0, n, p)
    ensures Exchanged(SwapFrom(c, st, p, n), b0, u0, n)
    decreases n - p
  {
    if p < n {
      PersistedBelow(c, p, n);
      StageRun(c, st, b0, u0, n, p);
      LoopCompletes(c, Run(st, SectorOps(c, st, p)), b0, u0, n, p + 1);
    }
  }

  /** Running the loop from sector 0 on a resumable state completes the
      exchange. */
  lemma ResumeCompletes(c: Config, st: SwapState, b0: Partition, u0: Partition, n: nat)
    requires AllPersisted(c, n) && Resumable(st, b0, u0, n)
    ensures Exchanged(SwapFrom(c, st, 0, n), b0, u0, n)
  {
    var p: nat :| p <= n && GoodAt(st, b0, u0, n, p);
    SkipDone(c, st, n, p, 0);
    LoopCompletes(c, st, b0, u0, n, p);
  }

  /** A fresh swap (no flag written yet) exchanges the first `n` sectors of
      BOOT and UPDATE and leaves the rest alone. */
  lemma FreshSwapExchanges(c: Config, st: SwapState, n: nat)
    requires AllPersisted(c, n)
    requires forall s: nat :: s < n ==> FlagOf(st.flags, s) == FlagNew
    ensures Exchanged(SwapFrom(c, st, 0, n), st.boot, st.update, n)
  {
    assert GoodAt(st, st.boot, st.update, n, 0);
    ResumeCompletes(c, st, st.boot, st.update, n);
  }

  // ---------------------------------------------------------------------
  // Interruption
  // ---------------------------------------------------------------------

  /** Power lost inside the stage of the cursor sector, after `k` complete
      steps, whether or not step `k` tore its destination: the state is still
      resumable. */
  lemma {:induction false} StageCrash(c: Config, st: SwapState, b0: Partition, u0: Partition, n: nat, p: nat,
                                      k: nat, g: Sector)
    requires GoodAt(st, b0, u0, n, p) && p < n && Persisted(c, p)
    requires k < |SectorOps(c, st, p)|
    ensures Resumable(Run(st, SectorOps(c, st, p)[..k]), b0, u0, n)
    ensures Resumable(Tear(Run(st, SectorOps(c, st, p)[..k]), SectorOps(c, st, p)[k], g), b0, u0, n)
    decreases Rank(FlagUpdated) - Rank(FlagOf(st.flags, p))
  {
    var f := FlagOf(st.flags, p);
    var ops := SectorOps(c, st, p);
    if f == FlagNew || f == FlagSwapping {
      if k < 2 {
        FirstStepsCrash(c, st, b0, u0, n, p, k, g);
      } else {
        var st2 := AdvanceStage(c, st, b0, u0, n, p);
        var rest := SectorOps(c, st2, p);
        assert ops == ops[..2] + rest;
        assert ops[..k] == ops[..2] + rest[..k - 2];
        RunAppend(st, ops[..2], rest[..k - 2]);
        assert ops[k] == rest[k - 2];
        StageCrash(c, st2, b0, u0, n, p, k - 2, g);
      }
    } else if f == FlagBackup {
      BackupCrash(c, st, b0, u0, n, p, k, g);
    }
  }

  /** Power lost in the first copy of a NEW or SWAPPING stage, or right
      after it, before its flag is written. */
  lemma FirstStepsCrash(c: Config, st: SwapState, b0: Partition, u0: Partition, n: nat, p: nat, k: nat, g: Sector)
    requires GoodAt(st, b0, u0, n, p) && p < n && Persisted(c, p)
    requires FlagOf(st.flags, p) == FlagNew || FlagOf(st.flags, p) == FlagSwapping
    requires k < 2
    ensures Resumable(Run(st, SectorOps(c, st, p)[..k]), b0, u0, n)
    ensures Resumable(Tear(Run(st, SectorOps(c, st, p)[..k]), SectorOps(c, st, p)[k], g), b0, u0, n)
  {
    if k == 0 {
      FirstCopyCrash(c, st, b0, u0, n, p, g);
    } else {
      FlagWriteCrash(c, st, b0, u0, n, p, g);
    }
  }

  /** Power lost before or during the stage's copy. */
  lemma FirstCopyCrash(c: Config, st: SwapState, b0: Partition, u0: Partition, n: nat, p: nat, g: Sector)
    requires GoodAt(st, b0, u0, n, p) && p < n && Persisted(c, p)
    requires FlagOf(st.flags, p) == FlagNew || FlagOf(st.flags, p) == FlagSwapping
    ensures GoodAt(Run(st, SectorOps(c, st, p)[..0]), b0, u0, n, p)
    ensures GoodAt(Tear(Run(st, SectorOps(c, st, p)[..0]), SectorOps(c, st, p)[0], g), b0, u0, n, p)
  {
    var ops := SectorOps(c, st, p);
    var _ := AdvanceStage(c, st, b0, u0, n, p);
    assert ops[..0] == [];
    GoodAtFrame(st, Tear(st, ops[0], g), b0, u0, n, p);
  }

  /** Power lost after the copy, around the write of the stage's flag: the
      flag write does not tear. */
  lemma FlagWriteCrash(c: Config, st: SwapState, b0: Partition, u0: Partition, n: nat, p: nat, g: Sector)
    requires GoodAt(st, b0, u0, n, p) && p < n && Persisted(c, p)
    requires FlagOf(st.flags, p) == FlagNew || FlagOf(st.flags, p) == FlagSwapping
    ensures GoodAt(Run(st, SectorOps(c, st, p)[..1]), b0, u0, n, p)
    ensures GoodAt(Tear(Run(st, SectorOps(c, st, p)[..1]), SectorOps(c, st, p)[1], g), b0, u0, n, p)
  {
    var f := FlagOf(st.flags, p);
    var ops := SectorOps(c, st, p);
    var _ := AdvanceStage(c, st, b0, u0, n, p);
    var st1 := Run(st, ops[..1]);
    assert ops[1] == SetFlag(p, if f == FlagNew then FlagSwapping else FlagBackup);
    assert Tear(st1, ops[1], g) == st1;
  }

  /** Power lost in the BACKUP stage: while the swap sector is copied to
      BOOT, or before the UPDATED flag is written. */
  lemma BackupCrash(c: Config, st: SwapState, b0: Partition, u0: Partition, n: nat, p: nat, k: nat, g: Sector)
    requires GoodAt(st, b0, u0, n, p) && p < n && Persisted(c, p)
    requires FlagOf(st.flags, p) == FlagBackup && k < |SectorOps(c, st, p)|
    ensures Resumable(Run(st, SectorOps(c, st, p)[..k]), b0, u0, n)
    ensures Resumable(Tear(Run(st, SectorOps(c, st, p)[..k]), SectorOps(c, st, p)[k], g), b0, u0, n)
  {
    var ops := SectorOps(c, st, p);
    assert ops == [SwapToBoot(p), SetFlag(p, FlagUpdated)];
    if k == 0 {
      assert ops[..0] == [];
      GoodAtFrame(st, Tear(st, ops[0], g), b0, u0, n, p);
    } else {
      assert ops[..1] == [SwapToBoot(p)];
      var st1 := Apply(st, SwapToBoot(p));
      assert Run(st, ops[..1]) == st1;
      GoodAtFrame(st, st1, b0, u0, n, p);
    }
  }

  /** Power lost anywhere in the loop from the cursor on leaves a resumable
      state. */
  lemma {:induction false} TraceCrash(c: Config, st: SwapState, b0: Partition, u0: Partition, n: nat, p: nat,
                                      k: nat, g: Sector)
    requires AllPersisted(c, n) && GoodAt(st, b0, u0, n, p)
    requires k < |Trace(c, st, p, n)|
    ensures Resumable(Run(st, Trace(c, st, p, n)[..k]), b0, u0, n)
    ensures Resumable(Tear(Run(st, Trace(c, st, p, n)[..k]), Trace(c, st, p, n)[k], g), b0, u0, n)
    decreases n - p
  {
    var ops := SectorOps(c, st, p);
    var st1 := Run(st, ops);
    var rest := Trace(c, st1, p + 1, n);
    var t := Trace(c, st, p, n);
    assert t == ops + rest;
    PersistedBelow(c, p, n);
    SplitAt(ops, rest, k);
    if k < |ops| {
      StageCrash(c, st, b0, u0, n, p, k, g);
    } else {
      StageRun(c, st, b0, u0, n, p);
      RunAppend(st, ops, rest[..k - |ops|]);
      TraceCrash(c, st1, b0, u0, n, p + 1, k - |ops|, g);
    }
  }

  /** The central promise: if power is lost at any point of the swap loop
      (between two steps or in the middle of a sector copy), the state is
      again resumable, so the loop run again from sector 0 on the next boot
      completes the exchange; by induction this holds for any number of
      power losses. */
  lemma SwapResumes(c: Config, st: SwapState, b0: Partition, u0: Partition, n: nat, k: nat, g: Sector)
    requires AllPersisted(c, n) && Resumable(st, b0, u0, n)
    requires k < |Trace(c, st, 0, n)|
    ensures Resumable(Tear(Run(st, Trace(c, st, 0, n)[..k]), Trace(c, st, 0, n)[k], g), b0, u0, n)
    ensures Resumable(Run(st, Trace(c, st, 0, n)[..k]), b0, u0, n)
    ensures Exchanged(SwapFrom(c, Tear(Run(st, Trace(c, st, 0, n)[..k]), Trace(c, st, 0, n)[k], g), 0, n),
                      b0, u0, n)
  {
    var p: nat :| p <= n && GoodAt(st, b0, u0, n, p);
    SkipDone(c, st, n, p, 0);
    TraceCrash(c, st, b0, u0, n, p, k, g);
    ResumeCompletes(c, Tear(Run(st, Trace(c, st, 0, n)[..k]), Trace(c, st, 0, n)[k], g), b0, u0, n);
  }

  // ---------------------------------------------------------------------
  // Flags only advance
  // ---------------------------------------------------------------------

  /** Without a persisted flag a stage writes no flag. */
  lemma {:induction false} NoFlagWrites(c: Config, p: nat, f: SectFlag, i: nat)
    requires !Persisted(c, p) && i < |StageOps(c, p, f)|
    ensures !StageOps(c, p, f)[i].SetFlag?
    decreases Rank(FlagUpdated) - Rank(f)
  {
    match f
    case FlagNew =>
      if i >= 1 {
        NoFlagWrites(c, p, FlagSwapping, i - 1);
      }
    case FlagSwapping =>
      if i >= 1 {
        NoFlagWrites(c, p, FlagBackup, i - 1);
      }
    case _ =>
  }

  /** Within one stage every flag write moves the sector's flag exactly one
      step forward. */
  lemma {:induction false} StageAdvances(c: Config, st: SwapState, p: nat, f: SectFlag, k: nat)
    requires Persisted(c, p) && FlagOf(st.flags, p) == f
    requires k < |StageOps(c, p, f)| && StageOps(c, p, f)[k].SetFlag?
    ensures StageOps(c, p, f)[k].s == p
    ensures Rank(StageOps(c, p, f)[k].f) == Rank(FlagOf(Run(st, StageOps(c, p, f)[..k]).flags, p)) + 1
    decreases Rank(FlagUpdated) - Rank(f)
  {
    var ops := StageOps(c, p, f);
    if f == FlagNew || f == FlagSwapping {
      StageHead(c, p, f);
      var a, b := HeadCopy(f, p), SetFlag(p, NextFlag(f));
      var rest := StageOps(c, p, NextFlag(f));
      assert ops == [a, b] + rest;
      RunTwo(st, a, b);
      if k == 1 {
        assert ops[..1] == [a];
      } else {
        assert ops[..k] == [a, b] + rest[..k - 2];
        RunAppend(st, [a, b], rest[..k - 2]);
        StageAdvances(c, Apply(Apply(st, a), b), p, NextFlag(f), k - 2);
      }
    } else {
      assert ops == [SwapToBoot(p), SetFlag(p, FlagUpdated)];
      assert ops[..1] == [SwapToBoot(p)];
      assert Run(st, ops[..1]) == Apply(st, SwapToBoot(p));
    }
  }

  /** Flags only advance: every flag write of the loop, from any starting
      state, sets its sector's flag to the one right after the flag the
      sector has at that moment (NEW, SWAPPING, BACKUP, UPDATED). */
  lemma {:induction false} FlagsOnlyAdvance(c: Config, st: SwapState, s: nat, n: nat, k: nat)
    requires k < |Trace(c, st, s, n)| && Trace(c, st, s, n)[k].SetFlag?
    ensures var op := Trace(c, st, s, n)[k];
      Rank(op.f) == Rank(FlagOf(Run(st, Trace(c, st, s, n)[..k]).flags, op.s)) + 1
    decreases n - s
  {
    var ops := SectorOps(c, st, s);
    var st1 := Run(st, ops);
    var rest := Trace(c, st1, s + 1, n);
    var t := Trace(c, st, s, n);
    assert t == ops + rest;
    SplitAt(ops, rest, k);
    if k < |ops| {
      if Persisted(c, s) {
        StageAdvances(c, st, s, FlagOf(st.flags, s), k);
      } else {
        NoFlagWrites(c, s, FlagOf(st.flags, s), k);
      }
    } else {
      RunAppend(st, ops, rest[..k - |ops|]);
      FlagsOnlyAdvance(c, st1, s + 1, n, k - |ops|);
    }
  }

  // ---------------------------------------------------------------------
  // The size check and the trailer sector
  // ---------------------------------------------------------------------

  /** A sector that the loop visits without persisting its flag breaks
      resumption: with 16-byte sectors in a 64-byte partition, sectors 0 to 2
      already swapped and sector 3 (the trailer sector) still to do, power lost
      after two of its three copies leaves a state from which the loop run
      again does not install the update in sector 3. */
  lemma UnpersistedSectorNotResumable()
    ensures var c := Config(16, 64, 8, 16, false, false, 0x0100);
      var b0: Partition := map[3 := Written([1])];
      var u0: Partition := map[3 := Written([2])];
      var st := SwapState(b0, u0, Blank, map[0 := FlagUpdated, 1 := FlagUpdated, 2 := FlagUpdated]);
      var x := Run(st, Trace(c, st, 0, 4)[..2]);
      && GoodAt(st, b0, u0, 4, 3)
      && !Persisted(c, 3)
      && !Exchanged(SwapFrom(c, x, 0, 4), b0, u0, 4)
  {
    var c := Config(16, 64, 8, 16, false, false, 0x0100);
    var b0: Partition := map[3 := Written([1])];
    var u0: Partition := map[3 := Written([2])];
    var st := SwapState(b0, u0, Blank, map[0 := FlagUpdated, 1 := FlagUpdated, 2 := FlagUpdated]);
    var ops := [UpdateToSwap(3), BootToUpdate(3), SwapToBoot(3)];
    ThreeSectorsDone(b0, u0, st);
    assert !Persisted(c, 3);
    assert SectorOps(c, st, 3) == ops by {
      assert StageOps(c, 3, FlagBackup) == [SwapToBoot(3)];
      assert StageOps(c, 3, FlagSwapping) == [BootToUpdate(3), SwapToBoot(3)];
    }
    SkipDone(c, st, 4, 3, 0);
    assert Trace(c, st, 0, 4) == ops by {
      assert Trace(c, Run(st, ops), 4, 4) == [];
    }
    assert ops[..2] == [UpdateToSwap(3), BootToUpdate(3)];
    RunTwo(st, UpdateToSwap(3), BootToUpdate(3));
    var x := Apply(Apply(st, UpdateToSwap(3)), BootToUpdate(3));
    assert FlagOf(x.flags, 3) == FlagNew;
    SkipDone(c, x, 4, 3, 0);
    assert SwapFrom(c, x, 0, 4) == Run(x, ops) by {
      assert SectorOps(c, x, 3) == ops;
    }
    RunThree(x, UpdateToSwap(3), BootToUpdate(3), SwapToBoot(3));
    assert SectorOf(Run(x, ops).boot, 3) == Written([1]);
  }

  lemma ThreeSectorsDone(b0: Partition, u0: Partition, st: SwapState)
    requires b0 == map[3 := Written([1])] && u0 == map[3 := Written([2])]
    requires st == SwapState(b0, u0, Blank, map[0 := FlagUpdated, 1 := FlagUpdated, 2 := FlagUpdated])
    ensures GoodAt(st, b0, u0, 4, 3)
  {
  }

  /** The size check as written ignores the header: with 16-byte sectors, a
      64-byte partition and an 8-byte header, a 47-byte firmware passes
      (47 <= 48 - 1), but header and firmware take 55 bytes, so the swap loop
      visits sector 3, which is the trailer sector: its flags are never
      written, and the remainder length wraps around. */
  lemma AsWrittenReachesTrailer()
    ensures var c := Config(16, 64, 8, 16, false, false, 0x0100);
      var img := UpdateImage(0x0101, 47, true, true, true);
      var n := SectorsFor(c, GetTotalSize(c, 0, img.fwSize));
      && ValidConfig(c)
      && CheckNewUpdate(c, AsWritten, img, 1, 2, 0).Ok?
      && !CheckNewUpdate(c, HeaderIncluded, img, 1, 2, 0).Ok?
      && n == 4
      && !Persisted(c, n - 1) && !AllPersisted(c, n)
      && RemainderLength(c, n) == TWO_32 - 16
  {
    var c := Config(16, 64, 8, 16, false, false, 0x0100);
    assert GetTotalSize(c, 0, 47) == 55;
    assert SectorsFor(c, 55) == 4;
  }

  /** With the header counted, an accepted update whose running image was
      accepted by the same check never reaches the trailer sectors: every
      sector of the swap has its flag persisted, so `SwapResumes` applies, and
      the remainder length is exact. */
  lemma HeaderIncludedKeepsTrailer(c: Config, img: UpdateImage, bootFw: uint32,
                                   curVer: uint32, updVer: uint32, fallback: int)
    requires ValidConfig(c)
    requires CheckNewUpdate(c, HeaderIncluded, img, curVer, updVer, fallback).Ok?
    requires SizeFits(c, HeaderIncluded, bootFw)
    ensures var n := SectorsFor(c, GetTotalSize(c, bootFw, img.fwSize));
      && n * c.sectorSize <= MaxUpdateSize(c)
      && AllPersisted(c, n)
      && n * c.sectorSize + RemainderLength(c, n) == MaxUpdateSize(c)
  {
    var total := GetTotalSize(c, bootFw, img.fwSize);
    assert total <= MaxUpdateSize(c);
    var r := if c.writeOnce then 2 else 1;
    SectorsBelowMargin(c.sectorSize, c.partitionSize, r, total);
  }

  /** Rounding a size up to whole sectors stays inside a partition of whole
      sectors less an `r`-sector margin. */
  lemma SectorsBelowMargin(S: nat, P: nat, r: nat, total: nat)
    requires S > 0 && P % S == 0 && P >= r * S + S
    requires total <= P - r * S
    ensures (total + S - 1) / S * S <= P - r * S
  {
    var m := P - r * S;
    var q := P / S;
    DivModBasics(P, S);
    assert m == S * (q - r);
    assert q - r >= 1 by {
      if q - r < 1 {
        MulMonotone(S, q - r, 0);
      }
    }
    DivModUnique(m, S, q - r, 0);
    InUnit(m, S - 1, S);
    DivMonotone(total + S - 1, m + S - 1, S);
    var n := (total + S - 1) / S;
    assert n <= q - r;
    MulMonotone(S, n, q - r);
  }
}
