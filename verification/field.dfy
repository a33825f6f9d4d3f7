/** The per-frame field logic of the sketch's draw loop: the spawn gate in the top
    tier, and the reverse pass that updates every firework and drops the finished
    ones. */
module FireworkField {
  import opened Vectors
  import opened Particles
  import opened Splice
  import opened Fireworks
  import opened Scores

  /** The two global variables the draw loop keeps between frames. */
  datatype Field = Field(fireworks: seq<Firework>, lastFireworkTime: int)

  const InitialField: Field := Field([], 0)

  /** A firework is launched on every frame that is a multiple of this... */
  const SpawnPeriod: nat := 30
  /** ... and on any frame more than this many frames after the last launch. */
  const StallLimit: int := 60

  /** The random draws of one launch: the x position in the middle 60% of the
      width, the rocket's velocity and the explosion colour. */
  datatype Launch = Launch(x: real, vel: Vec2, color: Color)

  predicate ValidLaunch(l: Launch, width: real) {
    && ((0.2 * width <= l.x <= 0.8 * width) || (0.8 * width <= l.x <= 0.2 * width))
    && RocketVelocity(l.vel)
    && RandomColor(l.color)
  }

  /** One burst of random draws for each firework the frame updates. */
  predicate ValidBursts(bursts: seq<seq<SparkSeed>>) {
    forall i | 0 <= i < |bursts| :: ValidBurst(bursts[i])
  }

  predicate SpawnDue(frame: nat, last: int) {
    frame % SpawnPeriod == 0 || frame - last > StallLimit
  }

  /** The spawn gate: on a due frame, one new firework at (x, height) is appended
      and the frame is remembered; on any other frame nothing changes. */
  function MaybeSpawn(f: Field, frame: nat, height: real, l: Launch): (r: Field)
    requires RocketVelocity(l.vel) && RandomColor(l.color)
    ensures SpawnDue(frame, f.lastFireworkTime) ==>
      && |r.fireworks| == |f.fireworks| + 1
      && r.fireworks[..|f.fireworks|] == f.fireworks
      && r.fireworks[|f.fireworks|] == NewFirework(l.x, height, l.vel, l.color)
      && r.lastFireworkTime == frame
    ensures !SpawnDue(frame, f.lastFireworkTime) ==> r == f
  {
    if SpawnDue(frame, f.lastFireworkTime) then
      assert (f.fireworks + [NewFirework(l.x, height, l.vel, l.color)])[..|f.fireworks|] == f.fireworks;
      Field(f.fireworks + [NewFirework(l.x, height, l.vel, l.color)], frame)
    else f
  }

  /** A launched rocket starts on the bottom edge, somewhere in the middle 60% of
      the width. */
  lemma SpawnPosition(f: Field, frame: nat, width: real, height: real, l: Launch)
    requires ValidLaunch(l, width) && SpawnDue(frame, f.lastFireworkTime)
    ensures var p := MaybeSpawn(f, frame, height, l).fireworks[|f.fireworks|].rocket.pos;
      && p.y == height
      && ((0.2 * width <= p.x <= 0.8 * width) || (0.8 * width <= p.x <= 0.2 * width))
  {
  }

  /** Every firework updated once, firework `i` with burst `i`. */
  function UpdateAll(fws: seq<Firework>, height: real, bursts: seq<seq<SparkSeed>>): (r: seq<Firework>)
    requires |bursts| == |fws| && ValidBursts(bursts)
    ensures |r| == |fws|
    ensures forall i | 0 <= i < |r| :: r[i] == Fireworks.Update(fws[i], height, bursts[i])
    decreases |fws|
  {
    if fws == [] then []
    else [Fireworks.Update(fws[0], height, bursts[0])] + UpdateAll(fws[1..], height, bursts[1..])
  }

  /** The fireworks of `s` that are not finished, in their original order. */
  function Unfinished(s: seq<Firework>): (r: seq<Firework>)
    ensures |r| <= |s|
    ensures forall i | 0 <= i < |r| :: !IsFinished(r[i])
    decreases |s|
  {
    if s == [] then [] else (if IsFinished(s[0]) then [] else [s[0]]) + Unfinished(s[1..])
  }

  /** Pruning drops exactly the finished fireworks. */
  lemma {:induction false} UnfinishedMembers(s: seq<Firework>)
    ensures forall x :: x in Unfinished(s) <==> x in s && !IsFinished(x)
    decreases |s|
  {
    if s != [] {
      UnfinishedMembers(s[1..]);
      assert forall x :: x in s <==> x == s[0] || x in s[1..];
    }
  }

  /** Pruning works element by element, so it keeps the relative order. */
  lemma {:induction false} UnfinishedAppend(a: seq<Firework>, b: seq<Firework>)
    ensures Unfinished(a + b) == Unfinished(a) + Unfinished(b)
    decreases |a|
  {
    if a == [] {
      assert a + b == b;
    } else {
      assert (a + b)[0] == a[0] && (a + b)[1..] == a[1..] + b;
      UnfinishedAppend(a[1..], b);
    }
  }

  /** A field with nothing finished in it is left as it is. */
  lemma {:induction false} UnfinishedKeepsLive(s: seq<Firework>)
    requires forall i | 0 <= i < |s| :: !IsFinished(s[i])
    ensures Unfinished(s) == s
    decreases |s|
  {
    if s != [] {
      assert forall i | 0 <= i < |s| - 1 :: s[1..][i] == s[i + 1];
      UnfinishedKeepsLive(s[1..]);
    }
  }

  /** The update pass as a specification: every firework is updated, and exactly
      the updated fireworks that are not finished remain, in order. */
  function Advance(fws: seq<Firework>, height: real, bursts: seq<seq<SparkSeed>>): (r: seq<Firework>)
    requires |bursts| == |fws| && ValidBursts(bursts)
    ensures |r| <= |fws|
    ensures forall i | 0 <= i < |r| :: !IsFinished(r[i])
  {
    Unfinished(UpdateAll(fws, height, bursts))
  }

  /** An updated firework is kept exactly when it is not finished, and everything
      kept is some firework after its update. */
  lemma AdvanceMembers(fws: seq<Firework>, height: real, bursts: seq<seq<SparkSeed>>)
    requires |bursts| == |fws| && ValidBursts(bursts)
    ensures forall i | 0 <= i < |fws| ::
      Fireworks.Update(fws[i], height, bursts[i]) in Advance(fws, height, bursts) <==>
        !IsFinished(Fireworks.Update(fws[i], height, bursts[i]))
    ensures forall y | y in Advance(fws, height, bursts) ::
      exists i | 0 <= i < |fws| :: y == Fireworks.Update(fws[i], height, bursts[i])
  {
    var u := UpdateAll(fws, height, bursts);
    UnfinishedMembers(u);
    forall i | 0 <= i < |fws| ensures Fireworks.Update(fws[i], height, bursts[i]) in u {
      assert u[i] == Fireworks.Update(fws[i], height, bursts[i]);
    }
  }

  /** Splitting the bursts of two sequences of fireworks keeps them valid. */
  lemma ValidBurstsAppend(ba: seq<seq<SparkSeed>>, bb: seq<seq<SparkSeed>>)
    requires ValidBursts(ba) && ValidBursts(bb)
    ensures ValidBursts(ba + bb)
  {
    forall i | 0 <= i < |ba + bb| ensures ValidBurst((ba + bb)[i]) {
      if i >= |ba| {
        assert (ba + bb)[i] == bb[i - |ba|];
      }
    }
  }

  /** The pass treats each firework on its own, so the survivors keep their
      relative order: advancing a concatenation advances each part. */
  lemma AdvanceAppend(a: seq<Firework>, b: seq<Firework>, height: real,
                      ba: seq<seq<SparkSeed>>, bb: seq<seq<SparkSeed>>)
    requires |ba| == |a| && |bb| == |b| && ValidBursts(ba) && ValidBursts(bb)
    ensures ValidBursts(ba + bb)
    ensures Advance(a + b, height, ba + bb) == Advance(a, height, ba) + Advance(b, height, bb)
  {
    ValidBurstsAppend(ba, bb);
    var ua := UpdateAll(a, height, ba);
    var ub := UpdateAll(b, height, bb);
    var u := UpdateAll(a + b, height, ba + bb);
    assert u == ua + ub by {
      forall i | 0 <= i < |u| ensures u[i] == (ua + ub)[i] {
        if i < |a| {
          assert (a + b)[i] == a[i] && (ba + bb)[i] == ba[i];
        } else {
          assert (a + b)[i] == b[i - |a|] && (ba + bb)[i] == bb[i - |a|];
        }
      }
    }
    UnfinishedAppend(ua, ub);
  }

  /** Unfolds the pass at index `i`. */
  lemma AdvanceAt(fws: seq<Firework>, height: real, bursts: seq<seq<SparkSeed>>, i: int)
    requires |bursts| == |fws| && ValidBursts(bursts) && 0 <= i < |fws|
    ensures var x := Fireworks.Update(fws[i], height, bursts[i]);
      Advance(fws[i..], height, bursts[i..]) ==
        (if IsFinished(x) then [] else [x]) + Advance(fws[i + 1..], height, bursts[i + 1..])
  {
    var u := UpdateAll(fws[i..], height, bursts[i..]);
    var v := UpdateAll(fws[i + 1..], height, bursts[i + 1..]);
    assert u[0] == Fireworks.Update(fws[i], height, bursts[i]);
    assert u[1..] == v by {
      forall j | 0 <= j < |v| ensures u[1..][j] == v[j] {
        assert fws[i..][j + 1] == fws[i + 1..][j] && bursts[i..][j + 1] == bursts[i + 1..][j];
      }
    }
  }

  /** The pass as the sketch writes it: walk the fireworks from the last index to
      the first, update each in place and splice it out once it is finished. */
  method UpdateAndPrune(fws: seq<Firework>, height: real, bursts: seq<seq<SparkSeed>>)
    returns (r: seq<Firework>)
    requires |bursts| == |fws| && ValidBursts(bursts)
    ensures r == Advance(fws, height, bursts)
  {
    r := fws;
    var i: int := |r| - 1;
    while i >= 0
      invariant -1 <= i < |fws| && |r| > i
      invariant r[..i + 1] == fws[..i + 1]
      invariant r[i + 1..] == Advance(fws[i + 1..], height, bursts[i + 1..])
    {
      ghost var before := r;
      var x := Fireworks.Update(r[i], height, bursts[i]);
      r := ReplaceOrRemove(r, i, x, !IsFinished(x));
      PruneInvariant(fws, height, bursts, before, r, i);
      i := i - 1;
    }
  }

  /** One iteration of the pass re-establishes its invariant. */
  lemma PruneInvariant(fws: seq<Firework>, height: real, bursts: seq<seq<SparkSeed>>,
                       r: seq<Firework>, r': seq<Firework>, i: int)
    requires |bursts| == |fws| && ValidBursts(bursts)
    requires 0 <= i < |fws| && |r| > i
    requires r[..i + 1] == fws[..i + 1]
    requires r[i + 1..] == Advance(fws[i + 1..], height, bursts[i + 1..])
    requires var x := Fireworks.Update(r[i], height, bursts[i]);
      r' == ReplaceOrRemove(r, i, x, !IsFinished(x))
    ensures r'[..i] == fws[..i]
    ensures r'[i..] == Advance(fws[i..], height, bursts[i..])
  {
    assert r[i] == fws[i] by { assert r[..i + 1][i] == fws[..i + 1][i]; }
    assert r[..i] == fws[..i] by { assert r[..i] == r[..i + 1][..i]; }
    AdvanceAt(fws, height, bursts, i);
  }

  /** Every firework of a field is well formed. */
  predicate AllWf(fws: seq<Firework>) {
    forall i | 0 <= i < |fws| :: Wf(fws[i])
  }

  /** The pass keeps every firework well formed. */
  lemma AdvanceKeepsWf(fws: seq<Firework>, height: real, bursts: seq<seq<SparkSeed>>)
    requires |bursts| == |fws| && ValidBursts(bursts) && AllWf(fws)
    ensures AllWf(Advance(fws, height, bursts))
  {
    var u := UpdateAll(fws, height, bursts);
    forall i | 0 <= i < |u| ensures Wf(u[i]) {
      UpdateKeepsWf(fws[i], height, bursts[i]);
    }
    var r := Unfinished(u);
    UnfinishedMembers(u);
    forall i | 0 <= i < |r| ensures Wf(r[i]) {
      assert r[i] in u;
    }
  }

  /** The fireworks half of one call of `draw`, given the frame's score tier.
      Outside the top tier the field is untouched. In the top tier the spawn gate
      runs first, then the update pass over every firework, including one launched
      this frame. `bursts` holds one burst per firework after the spawn gate;
      extra bursts are unused. */
  function DrawStep(f: Field, tier: Tier, frame: nat, height: real, l: Launch,
                    bursts: seq<seq<SparkSeed>>): (r: Field)
    requires RocketVelocity(l.vel) && RandomColor(l.color)
    requires |bursts| > |f.fireworks| && ValidBursts(bursts)
    ensures tier != Excellent ==> r == f
    ensures tier == Excellent ==>
      && |r.fireworks| <= |f.fireworks| + 1
      && (forall i | 0 <= i < |r.fireworks| :: !IsFinished(r.fireworks[i]))
      && r.lastFireworkTime == (if SpawnDue(frame, f.lastFireworkTime) then frame else f.lastFireworkTime)
    ensures tier == Excellent ==> forall i | 0 <= i < |f.fireworks| ::
      var x := Fireworks.Update(f.fireworks[i], height, bursts[i]);
      !IsFinished(x) ==> x in r.fireworks
    ensures tier == Excellent && SpawnDue(frame, f.lastFireworkTime) ==>
      Fireworks.Update(NewFirework(l.x, height, l.vel, l.color), height, bursts[|f.fireworks|]) in r.fireworks
  {
    if tier != Excellent then f
    else
      var g := MaybeSpawn(f, frame, height, l);
      SpawnThenAdvanceMembers(f, frame, height, l, bursts);
      g.(fireworks := Advance(g.fireworks, height, bursts[..|g.fireworks|]))
  }

  /** The members of the field after the spawn gate and the pass: every old firework
      that is not finished after its update, and the new one on a due frame. */
  lemma SpawnThenAdvanceMembers(f: Field, frame: nat, height: real, l: Launch,
                                bursts: seq<seq<SparkSeed>>)
    requires RocketVelocity(l.vel) && RandomColor(l.color)
    requires |bursts| > |f.fireworks| && ValidBursts(bursts)
    ensures var g := MaybeSpawn(f, frame, height, l);
      var r := Advance(g.fireworks, height, bursts[..|g.fireworks|]);
      && (forall i | 0 <= i < |f.fireworks| ::
            var x := Fireworks.Update(f.fireworks[i], height, bursts[i]);
            !IsFinished(x) ==> x in r)
      && (SpawnDue(frame, f.lastFireworkTime) ==>
            Fireworks.Update(NewFirework(l.x, height, l.vel, l.color), height, bursts[|f.fireworks|]) in r)
  {
    var g := MaybeSpawn(f, frame, height, l);
    var bs := bursts[..|g.fireworks|];
    SpawnedPrefix(f, frame, height, l, bursts);
    AdvanceMembers(g.fireworks, height, bs);
    if SpawnDue(frame, f.lastFireworkTime) {
      var n := |f.fireworks|;
      LaunchedSurvivesFrame(g.fireworks[n], height, bs[n]);
    }
  }

  /** After the spawn gate the old fireworks are a prefix, with their own bursts. */
  lemma SpawnedPrefix(f: Field, frame: nat, height: real, l: Launch, bursts: seq<seq<SparkSeed>>)
    requires RocketVelocity(l.vel) && RandomColor(l.color)
    requires |bursts| > |f.fireworks| && ValidBursts(bursts)
    ensures var g := MaybeSpawn(f, frame, height, l);
      var bs := bursts[..|g.fireworks|];
      && |bs| == |g.fireworks| && ValidBursts(bs)
      && (forall i | 0 <= i < |f.fireworks| :: g.fireworks[i] == f.fireworks[i] && bs[i] == bursts[i])
      && (SpawnDue(frame, f.lastFireworkTime) ==>
            g.fireworks[|f.fireworks|] == NewFirework(l.x, height, l.vel, l.color) &&
            bs[|f.fireworks|] == bursts[|f.fireworks|])
      && (!SpawnDue(frame, f.lastFireworkTime) ==> g.fireworks == f.fireworks)
  {
    var g := MaybeSpawn(f, frame, height, l);
    var n := |f.fireworks|;
    if SpawnDue(frame, f.lastFireworkTime) {
      forall i | 0 <= i < n ensures g.fireworks[i] == f.fireworks[i] {
        assert g.fireworks[i] == g.fireworks[..n][i];
      }
    }
  }

  /** In the top tier the frame's field in closed form: the old fireworks advanced,
      in order and without the finished ones, followed on a due frame by the new
      firework after its first update. Nothing else is in the field. */
  lemma DrawStepShape(f: Field, frame: nat, height: real, l: Launch, bursts: seq<seq<SparkSeed>>)
    requires RocketVelocity(l.vel) && RandomColor(l.color)
    requires |bursts| > |f.fireworks| && ValidBursts(bursts)
    ensures var n := |f.fireworks|;
      && ValidBursts(bursts[..n])
      && DrawStep(f, Excellent, frame, height, l, bursts).fireworks ==
           Advance(f.fireworks, height, bursts[..n]) +
           (if SpawnDue(frame, f.lastFireworkTime)
            then [Fireworks.Update(NewFirework(l.x, height, l.vel, l.color), height, bursts[n])]
            else [])
  {
    var n := |f.fireworks|;
    var g := MaybeSpawn(f, frame, height, l);
    assert ValidBursts(bursts[..n]) by {
      assert forall i | 0 <= i < n :: bursts[..n][i] == bursts[i];
    }
    if SpawnDue(frame, f.lastFireworkTime) {
      var x := NewFirework(l.x, height, l.vel, l.color);
      assert g.fireworks == f.fireworks + [x];
      assert bursts[..n + 1] == bursts[..n] + [bursts[n]];
      AdvanceAppend(f.fireworks, [x], height, bursts[..n], [bursts[n]]);
      LaunchedSurvivesFrame(x, height, bursts[n]);
      var u := UpdateAll([x], height, [bursts[n]]);
      UnfinishedKeepsLive(u);
    }
  }

  /** `draw` as the sketch runs it: the tier of the current score, the spawn gate,
      and the reverse splice loop. */
  method DrawFrame(f: Field, s: ScoreState, frame: nat, height: real, l: Launch,
                   bursts: seq<seq<SparkSeed>>) returns (r: Field)
    requires RocketVelocity(l.vel) && RandomColor(l.color)
    requires |bursts| > |f.fireworks| && ValidBursts(bursts)
    ensures r == DrawStep(f, TierOf(s), frame, height, l, bursts)
  {
    r := f;
    var tier := ChooseTier(Percentage(s));
    if tier == Excellent {
      r := MaybeSpawn(f, frame, height, l);
      var updated := UpdateAndPrune(r.fireworks, height, bursts[..|r.fireworks|]);
      r := r.(fireworks := updated);
    }
  }

  /** A frame keeps every firework of the field well formed. */
  lemma DrawKeepsWf(f: Field, tier: Tier, frame: nat, height: real, l: Launch,
                    bursts: seq<seq<SparkSeed>>)
    requires RocketVelocity(l.vel) && RandomColor(l.color)
    requires |bursts| > |f.fireworks| && ValidBursts(bursts)
    requires AllWf(f.fireworks)
    ensures AllWf(DrawStep(f, tier, frame, height, l, bursts).fireworks)
  {
    if tier == Excellent {
      var g := MaybeSpawn(f, frame, height, l);
      assert AllWf(g.fireworks) by {
        forall i | 0 <= i < |g.fireworks| ensures Wf(g.fireworks[i]) {
          if i < |f.fireworks| {
            assert g.fireworks[i] == g.fireworks[..|f.fireworks|][i];
          }
        }
      }
      AdvanceKeepsWf(g.fireworks, height, bursts[..|g.fireworks|]);
    }
  }

  /** No frame in the top tier ends more than `StallLimit` frames after the last
      launch: the stall condition launches as soon as that limit is exceeded. */
  lemma LaunchWithinStallLimit(f: Field, frame: nat, height: real, l: Launch,
                               bursts: seq<seq<SparkSeed>>)
    requires RocketVelocity(l.vel) && RandomColor(l.color)
    requires |bursts| > |f.fireworks| && ValidBursts(bursts)
    ensures frame - DrawStep(f, Excellent, frame, height, l, bursts).lastFireworkTime <= StallLimit
  {
  }

  /** The random draws of one frame: a launch, used if the frame launches, and one
      burst per firework the frame updates. */
  datatype FrameDraws = FrameDraws(launch: Launch, bursts: seq<seq<SparkSeed>>)

  /** Draws for consecutive frames starting from a field of `base` fireworks: frame
      `j` of the run sees at most `base + j + 1` fireworks after its spawn gate. */
  predicate ValidDraws(draws: seq<FrameDraws>, base: nat) {
    forall j | 0 <= j < |draws| ::
      && RocketVelocity(draws[j].launch.vel) && RandomColor(draws[j].launch.color)
      && |draws[j].bursts| > base + j && ValidBursts(draws[j].bursts)
  }

  /** The launch time after `count` frames from frame `first`, starting from `last`:
      the spawn gate's bookkeeping on its own, without the fireworks. */
  function LaunchClock(last: int, tier: Tier, first: nat, count: nat): (r: int)
    ensures r == last || first <= r < first + count
    ensures tier != Excellent ==> r == last
    decreases count
  {
    if count == 0 then last
    else
      var n := count - 1;
      var prev := LaunchClock(last, tier, first, n);
      if tier == Excellent && SpawnDue(first + n, prev) then first + n else prev
  }

  /** Frames `first`, `first + 1`, ... of `draw` at a fixed score tier and field
      height, one frame per element of `draws`. */
  function DrawRun(f: Field, tier: Tier, first: nat, height: real, draws: seq<FrameDraws>): (r: Field)
    requires ValidDraws(draws, |f.fireworks|)
    ensures |r.fireworks| <= |f.fireworks| + |draws|
    decreases |draws|
  {
    if draws == [] then f
    else
      var n := |draws| - 1;
      assert ValidDraws(draws[..n], |f.fireworks|) by {
        assert forall j | 0 <= j < n :: draws[..n][j] == draws[j];
      }
      var g := DrawRun(f, tier, first, height, draws[..n]);
      DrawStep(g, tier, first + n, height, draws[n].launch, draws[n].bursts)
  }

  /** One frame moves the launch clock by one step. */
  lemma StepLaunchTime(g: Field, tier: Tier, frame: nat, height: real, l: Launch,
                       bursts: seq<seq<SparkSeed>>)
    requires RocketVelocity(l.vel) && RandomColor(l.color)
    requires |bursts| > |g.fireworks| && ValidBursts(bursts)
    ensures DrawStep(g, tier, frame, height, l, bursts).lastFireworkTime ==
            if tier == Excellent && SpawnDue(frame, g.lastFireworkTime) then frame
            else g.lastFireworkTime
  { }

  /** Below the top tier the field never changes, however many frames pass: no
      firework is launched and none is updated. */
  lemma {:induction false} LowTierIsStill(f: Field, s: ScoreState, first: nat, height: real,
                                          draws: seq<FrameDraws>)
    requires ValidDraws(draws, |f.fireworks|)
    requires TierOf(s) != Excellent
    ensures DrawRun(f, TierOf(s), first, height, draws) == f
    decreases |draws|
  {
    if draws != [] {
      var n := |draws| - 1;
      assert ValidDraws(draws[..n], |f.fireworks|) by {
        assert forall j | 0 <= j < n :: draws[..n][j] == draws[j];
      }
      LowTierIsStill(f, s, first, height, draws[..n]);
    }
  }

  /** The launch time after a run depends only on the tier, the frame numbers and the
      launch time before it: never on the fireworks or the random draws. */
  lemma {:induction false} RunFollowsClock(f: Field, tier: Tier, first: nat, height: real,
                                           draws: seq<FrameDraws>)
    requires ValidDraws(draws, |f.fireworks|)
    ensures DrawRun(f, tier, first, height, draws).lastFireworkTime ==
            LaunchClock(f.lastFireworkTime, tier, first, |draws|)
    decreases |draws|
  {
    if draws != [] {
      var n := |draws| - 1;
      assert ValidDraws(draws[..n], |f.fireworks|) by {
        assert forall j | 0 <= j < n :: draws[..n][j] == draws[j];
      }
      RunFollowsClock(f, tier, first, height, draws[..n]);
      var g := DrawRun(f, tier, first, height, draws[..n]);
      StepLaunchTime(g, tier, first + n, height, draws[n].launch, draws[n].bursts);
    }
  }

  /** Once the clock passes a frame number divisible by `SpawnPeriod` in the top tier,
      its launch time is no earlier than its first frame. */
  lemma {:induction false} ClockAtLeast(last: int, first: nat, count: nat, k: nat)
    requires k < count && (first + k) % SpawnPeriod == 0
    ensures LaunchClock(last, Excellent, first, count) >= first
    decreases count
  {
    if k < count - 1 {
      ClockAtLeast(last, first, count - 1, k);
    }
  }

  /** In the top tier, any `SpawnPeriod` consecutive frames launch at least once:
      the launch time after them is no earlier than the first of them. */
  lemma LaunchEveryPeriod(f: Field, first: nat, height: real, draws: seq<FrameDraws>)
    requires ValidDraws(draws, |f.fireworks|) && |draws| >= SpawnPeriod
    ensures DrawRun(f, Excellent, first, height, draws).lastFireworkTime >= first
  {
    var k := (SpawnPeriod - first % SpawnPeriod) % SpawnPeriod;
    assert (first + k) % SpawnPeriod == 0;
    ClockAtLeast(f.lastFireworkTime, first, |draws|, k);
    RunFollowsClock(f, Excellent, first, height, draws);
  }

  /** An empty field that launched at frame 0 stays so on a frame that is not due. */
  lemma EmptyStaysEmpty(g: Field, tier: Tier, frame: nat, height: real, l: Launch,
                        bursts: seq<seq<SparkSeed>>)
    requires RocketVelocity(l.vel) && RandomColor(l.color)
    requires |bursts| > 0 && ValidBursts(bursts)
    requires g.fireworks == [] && g.lastFireworkTime == 0
    requires !SpawnDue(frame, 0)
    ensures var r := DrawStep(g, tier, frame, height, l, bursts);
      r.fireworks == [] && r.lastFireworkTime == 0
  {
    assert MaybeSpawn(g, frame, height, l) == g;
    assert bursts[..0] == [];
  }

  /** Before the first period has elapsed no frame is due. */
  lemma EarlyFrameNotDue(frame: nat)
    requires 0 < frame < SpawnPeriod
    ensures !SpawnDue(frame, 0)
  {
    assert frame % SpawnPeriod == frame;
  }

  /** From the start of the page, frames 1 to 29 launch nothing. */
  lemma {:induction false} QuietBeforeFirstPeriod(tier: Tier, height: real, draws: seq<FrameDraws>)
    requires ValidDraws(draws, 0) && |draws| < SpawnPeriod
    ensures var r := DrawRun(InitialField, tier, 1, height, draws);
      r.fireworks == [] && r.lastFireworkTime == 0
    decreases |draws|
  {
    if draws != [] {
      var n := |draws| - 1;
      assert ValidDraws(draws[..n], 0) by {
        assert forall j | 0 <= j < n :: draws[..n][j] == draws[j];
      }
      QuietBeforeFirstPeriod(tier, height, draws[..n]);
      var g := DrawRun(InitialField, tier, 1, height, draws[..n]);
      EarlyFrameNotDue(1 + n);
      EmptyStaysEmpty(g, tier, 1 + n, height, draws[n].launch, draws[n].bursts);
    }
  }

  /** The pass over a single firework that has not exploded keeps it. */
  lemma AdvanceSingle(fws: seq<Firework>, height: real, bursts: seq<seq<SparkSeed>>)
    requires |fws| == 1 && |bursts| == 1 && ValidBursts(bursts)
    requires Wf(fws[0]) && !fws[0].exploded
    ensures |Advance(fws, height, bursts)| == 1
  {
    LaunchedSurvivesFrame(fws[0], height, bursts[0]);
    var u := UpdateAll(fws, height, bursts);
    UnfinishedKeepsLive(u);
  }

  /** In the top tier, a due frame turns an empty field into one holding just the
      new firework after its first update. */
  lemma SpawnIntoEmpty(g: Field, frame: nat, height: real, l: Launch, bs: seq<seq<SparkSeed>>)
    requires RocketVelocity(l.vel) && RandomColor(l.color)
    requires |bs| >= 1 && ValidBursts(bs)
    requires g.fireworks == [] && SpawnDue(frame, g.lastFireworkTime)
    ensures var r := DrawStep(g, Excellent, frame, height, l, bs);
      && r.fireworks == [Fireworks.Update(NewFirework(l.x, height, l.vel, l.color), height, bs[0])]
      && r.lastFireworkTime == frame
  {
    var h := MaybeSpawn(g, frame, height, l);
    AdvanceSingle(h.fireworks, height, bs[..1]);
    var r := DrawStep(g, Excellent, frame, height, l, bs);
    var x := Fireworks.Update(NewFirework(l.x, height, l.vel, l.color), height, bs[0]);
    assert x in r.fireworks && |r.fireworks| == 1;
    assert r.fireworks == [x];
  }

  /** From the start of the page, in the top tier, the 30th frame launches the
      first firework, which is then the only one in the field, updated once. */
  lemma FirstLaunch(height: real, draws: seq<FrameDraws>)
    requires ValidDraws(draws, 0) && |draws| == SpawnPeriod
    ensures var d := draws[SpawnPeriod - 1];
      var r := DrawRun(InitialField, Excellent, 1, height, draws);
      && r.fireworks == [Fireworks.Update(NewFirework(d.launch.x, height, d.launch.vel, d.launch.color),
                                          height, d.bursts[0])]
      && r.lastFireworkTime == SpawnPeriod
  {
    var n := SpawnPeriod - 1;
    assert ValidDraws(draws[..n], 0) by {
      assert forall j | 0 <= j < n :: draws[..n][j] == draws[j];
    }
    QuietBeforeFirstPeriod(Excellent, height, draws[..n]);
    var g := DrawRun(InitialField, Excellent, 1, height, draws[..n]);
    assert SpawnDue(SpawnPeriod, 0) by { assert SpawnPeriod % SpawnPeriod == 0; }
    SpawnIntoEmpty(g, SpawnPeriod, height, draws[n].launch, draws[n].bursts);
  }
}
