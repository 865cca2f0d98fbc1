/** Any number of callers that share the frame bitmap, each atomic operation a step of its own. */
module FrameSharing {
  import opened HeapMath
  import opened Bits
  import opened RawMemory
  import opened FrameBitmap

  /** Where a caller is: outside, or in the loop of `alloc_frame` about to probe frame `i`. */
  datatype Pc = Idle | Scanning(i: nat)

  /** `held` is what this caller was given and has not given back. */
  datatype Caller = Caller(pc: Pc, held: set<nat>)

  datatype Shared = Shared(words: seq<Word>, callers: seq<Caller>)

  datatype Action = Start | Probe | Release(frame: nat)

  predicate Enabled(s: Shared, t: nat, a: Action, n: nat) {
    t < |s.callers| &&
    match a
    case Start => s.callers[t].pc == Idle
    case Probe => s.callers[t].pc.Scanning? && s.callers[t].pc.i < n
    case Release(frame) => s.callers[t].pc == Idle && frame in s.callers[t].held && frame < n
  }

  /** A probe clears the frame's bit, and takes the frame if the bit was set. */
  function Do(s: Shared, t: nat, a: Action, n: nat): Shared
    requires |s.words| == WordCount(n) && Enabled(s, t, a, n)
  {
    var c := s.callers[t];
    match a
    case Start => s.(callers := s.callers[t := c.(pc := if n == 0 then Idle else Scanning(0))])
    case Probe =>
      var i := c.pc.i;
      var next :=
        if And(s.words[i / 64], Pow2(i % 64)) != 0 then Caller(Idle, c.held + {i})
        else c.(pc := if i + 1 < n then Scanning(i + 1) else Idle);
      Shared(WithUsed(s.words, i), s.callers[t := next])
    case Release(frame) => Shared(WithFree(s.words, frame), s.callers[t := c.(held := c.held - {frame})])
  }

  // ---- Ownership ----

  /** Each frame is free, or held by exactly one caller. */
  ghost predicate Exclusive(s: Shared, n: nat) {
    && Bitmap(s.words, n)
    && (forall t: nat, f: nat :: Holds(s, t, f) ==> f < n && !IsFree(s.words, f))
    && (forall t: nat, u: nat, f: nat :: Holds(s, t, f) && Holds(s, u, f) ==> t == u)
    && (forall f :: 0 <= f < n && !IsFree(s.words, f) ==> HeldBySome(s, f))
    && forall t :: 0 <= t < |s.callers| && s.callers[t].pc.Scanning? ==> s.callers[t].pc.i < n
  }

  predicate Holds(s: Shared, t: nat, f: nat) {
    t < |s.callers| && f in s.callers[t].held
  }

  ghost predicate HeldBySome(s: Shared, f: nat) {
    exists t: nat :: Holds(s, t, f)
  }

  /** What an action does to the holdings. */
  ghost predicate Moved(s: Shared, s': Shared, t: nat, taken: set<nat>, gone: set<nat>) {
    forall u: nat, f: nat :: Holds(s', u, f) <==> (Holds(s, u, f) && !(u == t && f in gone)) || (u == t && f in taken)
  }

  lemma MovedHolders(s: Shared, s': Shared, t: nat, taken: set<nat>, gone: set<nat>, f: nat)
    requires Moved(s, s', t, taken, gone) && f !in gone && HeldBySome(s, f)
    ensures HeldBySome(s', f)
  {
    var u: nat :| Holds(s, u, f);
    assert Holds(s', u, f);
  }

  lemma ProbeKeepsExclusive(s: Shared, t: nat, n: nat)
    requires Exclusive(s, n) && Enabled(s, t, Probe, n)
    ensures Exclusive(Do(s, t, Probe, n), n)
  {
    var i, s' := s.callers[t].pc.i, Do(s, t, Probe, n);
    var taken := if IsFree(s.words, i) then {i} else {};
    MaskTests(s.words, i);
    WordsRefineSet(s.words, n, i);
    forall f | 0 <= f < n ensures IsFree(s'.words, f) <==> IsFree(s.words, f) && f != i {
      UsedMeans(s.words, i, f);
    }
    assert Moved(s, s', t, taken, {});
    forall f | 0 <= f < n && !IsFree(s'.words, f) ensures HeldBySome(s', f) {
      if f in taken {
        assert Holds(s', t, f);
      } else {
        MovedHolders(s, s', t, taken, {}, f);
      }
    }
  }

  lemma ReleaseKeepsExclusive(s: Shared, t: nat, f0: nat, n: nat)
    requires Exclusive(s, n) && Enabled(s, t, Release(f0), n)
    ensures Exclusive(Do(s, t, Release(f0), n), n)
  {
    var s' := Do(s, t, Release(f0), n);
    WordsRefineSet(s.words, n, f0);
    forall f | 0 <= f < n ensures IsFree(s'.words, f) <==> IsFree(s.words, f) || f == f0 {
      FreeMeans(s.words, f0, f);
    }
    assert Holds(s, t, f0);
    assert Moved(s, s', t, {}, {f0});
    forall f | 0 <= f < n && !IsFree(s'.words, f) ensures HeldBySome(s', f) {
      MovedHolders(s, s', t, {}, {f0}, f);
    }
  }

  lemma StartKeepsExclusive(s: Shared, t: nat, n: nat)
    requires Exclusive(s, n) && Enabled(s, t, Start, n)
    ensures Exclusive(Do(s, t, Start, n), n)
  {
    var s' := Do(s, t, Start, n);
    assert Moved(s, s', t, {}, {});
    forall f | 0 <= f < n && !IsFree(s'.words, f) ensures HeldBySome(s', f) {
      MovedHolders(s, s', t, {}, {}, f);
    }
  }

  lemma DoKeepsExclusive(s: Shared, t: nat, a: Action, n: nat)
    requires Exclusive(s, n) && Enabled(s, t, a, n)
    ensures Exclusive(Do(s, t, a, n), n)
  {
    match a {
      case Start => StartKeepsExclusive(s, t, n);
      case Probe => ProbeKeepsExclusive(s, t, n);
      case Release(frame) => ReleaseKeepsExclusive(s, t, frame, n);
    }
  }

  // ---- Runs ----

  /** An interleaving: `moves[k]` is who acts at time `k`, and how. */
  datatype Run = Run(n: nat, states: seq<Shared>, moves: seq<(nat, Action)>) {

    ghost predicate StepAt(k: nat)
      requires |states| == |moves| + 1 && k < |moves|
    {
      && |states[k].words| == WordCount(n) && Enabled(states[k], moves[k].0, moves[k].1, n)
      && states[k + 1] == Do(states[k], moves[k].0, moves[k].1, n)
    }

    function Held(k: nat, t: nat): set<nat>
      requires k < |states|
    {
      if t < |states[k].callers| then states[k].callers[t].held else {}
    }

    predicate Outside(k: nat, t: nat)
      requires k < |states|
    {
      t < |states[k].callers| && states[k].callers[t].pc == Idle
    }

    /** After `init`: every frame free, nobody in `alloc_frame`. */
    ghost predicate Ok() {
      && |states| == |moves| + 1
      && Bitmap(states[0].words, n) && FreeSet(states[0].words, n) == AllFrames(n)
      && (forall t :: 0 <= t < |states[0].callers| ==> states[0].callers[t] == Caller(Idle, {}))
      && forall k :: 0 <= k < |moves| ==> StepAt(k)
    }
  }

  /** However the callers are interleaved, at every moment each frame is free or has exactly one owner. */
  lemma {:induction false} NoFrameHasTwoOwners(run: Run, k: nat)
    requires run.Ok() && k < |run.states|
    ensures Exclusive(run.states[k], run.n)
    decreases k
  {
    if k == 0 {
      forall f | 0 <= f < run.n ensures IsFree(run.states[0].words, f) {
        assert IsFrame(f, run.n);
        assert f in FreeSet(run.states[0].words, run.n);
      }
    } else {
      NoFrameHasTwoOwners(run, k - 1);
      assert run.StepAt(k - 1);
      DoKeepsExclusive(run.states[k - 1], run.moves[k - 1].0, run.moves[k - 1].1, run.n);
    }
  }

  /** `alloc_frame` in two calls never gives out one frame twice without a release in between: the frame
      a probe takes was free, so nobody held it. */
  lemma TakenFrameWasNobodys(run: Run, k: nat, u: nat, f: nat)
    requires run.Ok() && k < |run.moves| && run.moves[k].1 == Probe
    requires f in run.Held(k + 1, run.moves[k].0) && f !in run.Held(k, run.moves[k].0)
    ensures |run.states[k].words| == WordCount(run.n) && f in FreeSet(run.states[k].words, run.n)
    ensures f !in run.Held(k, u)
  {
    NoFrameHasTwoOwners(run, k);
    assert run.StepAt(k);
    MaskTests(run.states[k].words, run.states[k].callers[run.moves[k].0].pc.i);
    assert !Holds(run.states[k], u, f);
  }

  // ---- Failure ----

  /** Caller `t` probes frame `f` at time `m`, and finds it taken. */
  ghost predicate SawTaken(run: Run, t: nat, f: nat, m: nat)
    requires run.Ok()
  {
    && m < |run.moves| && run.moves[m] == (t, Probe) && t < |run.states[m].callers|
    && run.states[m].callers[t].pc == Scanning(f) && f < 64 * |run.states[m].words| && !IsFree(run.states[m].words, f)
  }

  /** Caller `t` is in one and the same call of `alloc_frame` from time `m` to time `k`. */
  ghost predicate OneScan(run: Run, t: nat, m: nat, k: nat)
    requires run.Ok() && k < |run.states|
  {
    forall x :: m <= x <= k ==> t < |run.states[x].callers| && run.states[x].callers[t].pc.Scanning?
  }

  ghost predicate SawTakenInScan(run: Run, t: nat, f: nat, k: nat)
    requires run.Ok() && k < |run.states|
  {
    exists m: nat :: m < k && SawTaken(run, t, f, m) && OneScan(run, t, m, k)
  }

  lemma {:induction false} ScanSawTaken(run: Run, t: nat, k: nat)
    requires run.Ok() && k < |run.states| && t < |run.states[k].callers| && run.states[k].callers[t].pc.Scanning?
    ensures forall f :: 0 <= f < run.states[k].callers[t].pc.i ==> SawTakenInScan(run, t, f, k)
    decreases k
  {
    if k > 0 {
      assert run.StepAt(k - 1);
      NoFrameHasTwoOwners(run, k - 1);
      var s, s', u, a := run.states[k - 1], run.states[k], run.moves[k - 1].0, run.moves[k - 1].1;
      if u == t && a == Start {
      } else {
        assert s.callers[t].pc.Scanning?;
        ScanSawTaken(run, t, k - 1);
        forall f | 0 <= f < s'.callers[t].pc.i ensures SawTakenInScan(run, t, f, k) {
          if f < s.callers[t].pc.i {
            assert SawTakenInScan(run, t, f, k - 1);
            var m: nat :| m < k - 1 && SawTaken(run, t, f, m) && OneScan(run, t, m, k - 1);
            assert OneScan(run, t, m, k);
          } else {
            MaskTests(s.words, f);
            assert SawTaken(run, t, f, k - 1) && OneScan(run, t, k - 1, k);
          }
        }
      }
    }
  }

  /** `alloc_frame` fails only after it saw every frame taken, each at its own moment of that same call. */
  lemma FailureSawEveryFrameTaken(run: Run, k: nat, f: nat)
    requires run.Ok() && k < |run.moves| && run.moves[k].1 == Probe
    requires run.Outside(k + 1, run.moves[k].0) && run.Held(k + 1, run.moves[k].0) == run.Held(k, run.moves[k].0)
    requires f < run.n
    ensures var t := run.moves[k].0;
      SawTaken(run, t, f, k) || SawTakenInScan(run, t, f, k)
  {
    assert run.StepAt(k);
    NoFrameHasTwoOwners(run, k);
    var t := run.moves[k].0;
    var i := run.states[k].callers[t].pc.i;
    MaskTests(run.states[k].words, i);
    ScanSawTaken(run, t, k);
    assert Holds(run.states[k], t, i) ==> !IsFree(run.states[k].words, i);
  }
}
