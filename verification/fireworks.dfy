/** One launch-to-extinguish event: a rocket that climbs under thrust, explodes
    once into a burst of sparks, and is finished when the last spark has faded. */
module Fireworks {
  import opened Vectors
  import opened Particles
  import opened Splice

  /** Number of sparks one explosion creates. */
  const SparkCount: nat := 100
  /** Upward thrust applied to the rocket on every ascending update. */
  const Thrust: Vec2 := Vec2(0.0, -0.05)
  /** Downward pull applied to every spark on every update. */
  const Gravity: Vec2 := Vec2(0.0, 0.05)
  /** The rocket explodes once it is above this fraction of the field height. */
  const ExplosionLevel: real := 0.3

  /** `rocket` is kept (no longer updated or drawn) after the explosion. */
  datatype Firework = Firework(
    rocket: Particle,
    exploded: bool,
    sparks: seq<Particle>,
    explosionColor: Color)

  /** The random draws one explosion consumes: one seed per spark. */
  predicate ValidBurst(burst: seq<SparkSeed>) {
    |burst| == SparkCount && forall i | 0 <= i < |burst| :: ValidSeed(burst[i])
  }

  /** Every particle of `s` is a spark of colour `c` with lifespan exactly `life`. */
  predicate Cohort(s: seq<Particle>, c: Color, life: int) {
    forall i | 0 <= i < |s| :: !s[i].isFirework && s[i].color == c && s[i].lifespan == life
  }

  /** The shape every reachable firework has: a rocket particle, no sparks before the
      explosion, and sparks that were all born together, so they share colour and
      (positive) lifespan. */
  predicate Wf(fw: Firework) {
    && fw.rocket.isFirework
    && (!fw.exploded ==> fw.sparks == [])
    && (fw.sparks != [] ==>
          fw.sparks[0].lifespan > 0 && Cohort(fw.sparks, fw.explosionColor, fw.sparks[0].lifespan))
  }

  /** What keeps a climbing rocket climbing: it moves up at least 10 per frame and
      nothing is left in its acceleration between frames. */
  predicate Climbing(fw: Firework) {
    fw.rocket.vel.y <= -10.0 && fw.rocket.acc == Zero
  }

  predicate IsFinished(fw: Firework) {
    fw.exploded && |fw.sparks| == 0
  }

  /** The constructor: a rocket at (x, y) with a random launch velocity and a random
      explosion colour. */
  function NewFirework(x: real, y: real, vel: Vec2, c: Color): (fw: Firework)
    requires RocketVelocity(vel) && RandomColor(c)
    ensures Wf(fw) && Climbing(fw) && !IsFinished(fw)
    ensures !fw.exploded && fw.sparks == [] && fw.rocket.pos == Vec2(x, y)
    ensures fw.explosionColor == c
  {
    Firework(NewRocket(x, y, vel), false, [], c)
  }

  /** One new spark at `pos` for each seed of `burst`, in order. */
  function Born(pos: Vec2, burst: seq<SparkSeed>, c: Color): (r: seq<Particle>)
    requires forall i | 0 <= i < |burst| :: ValidSeed(burst[i])
    ensures |r| == |burst|
    ensures forall i | 0 <= i < |r| :: r[i] == NewSpark(pos, burst[i], c)
    decreases |burst|
  {
    if burst == [] then [] else [NewSpark(pos, burst[0], c)] + Born(pos, burst[1..], c)
  }

  /** Appends exactly `SparkCount` sparks at the rocket's position, all of the
      explosion colour; does not set `exploded` (its caller does). */
  function Explode(fw: Firework, burst: seq<SparkSeed>): (r: Firework)
    requires ValidBurst(burst)
    ensures |r.sparks| == |fw.sparks| + SparkCount
    ensures r.sparks[..|fw.sparks|] == fw.sparks
    ensures forall i | |fw.sparks| <= i < |r.sparks| ::
      && r.sparks[i].pos == fw.rocket.pos
      && r.sparks[i].vel == burst[i - |fw.sparks|].vel
      && r.sparks[i].acc == Zero
    ensures Cohort(r.sparks[|fw.sparks|..], fw.explosionColor, MaxLifespan)
    ensures r.rocket == fw.rocket && r.exploded == fw.exploded
    ensures r.explosionColor == fw.explosionColor
  {
    var born := Born(fw.rocket.pos, burst, fw.explosionColor);
    assert (fw.sparks + born)[|fw.sparks|..] == born;
    fw.(sparks := fw.sparks + born)
  }

  /** The ascending half of `update`: thrust, integrate, and explode when the rocket
      has stopped rising or is above the explosion level. */
  function Ascend(fw: Firework, height: real, burst: seq<SparkSeed>): (r: Firework)
    requires ValidBurst(burst)
    ensures fw.exploded ==> r == fw
    ensures !fw.exploded ==> r.rocket == Particles.Update(ApplyForce(fw.rocket, Thrust))
    ensures r.explosionColor == fw.explosionColor
    ensures !r.exploded ==> r.sparks == fw.sparks
    ensures !fw.exploded ==>
      (r.exploded <==> r.rocket.vel.y >= 0.0 || r.rocket.pos.y < height * ExplosionLevel)
  {
    if fw.exploded then fw
    else
      var rocket := Particles.Update(ApplyForce(fw.rocket, Thrust));
      var moved := fw.(rocket := rocket);
      if rocket.vel.y >= 0.0 || rocket.pos.y < height * ExplosionLevel then
        Explode(moved, burst).(exploded := true)
      else
        moved
  }

  /** The frame that explodes a firework adds exactly the sparks `Explode` makes at
      the rocket's new position. */
  lemma AscendExplodes(fw: Firework, height: real, burst: seq<SparkSeed>)
    requires ValidBurst(burst) && !fw.exploded
    ensures var r := Ascend(fw, height, burst);
      r.exploded ==> r.sparks == Explode(fw.(rocket := r.rocket), burst).sparks
  {
  }

  /** What happens to one spark in one frame: gravity, then integration. */
  function SparkStep(p: Particle): Particle {
    Particles.Update(ApplyForce(p, Gravity))
  }

  /** The spark pass as a filter: every spark is stepped, and exactly the ones whose
      lifespan is still positive survive, in their original order. */
  function StepSparks(s: seq<Particle>): (r: seq<Particle>)
    ensures |r| <= |s|
    ensures forall i | 0 <= i < |r| :: r[i].lifespan > 0
    decreases |s|
  {
    if s == [] then []
    else
      var p := SparkStep(s[0]);
      (if p.lifespan > 0 then [p] else []) + StepSparks(s[1..])
  }

  /** A stepped spark survives the pass exactly when its lifespan is still positive,
      and the pass yields nothing else. */
  lemma {:induction false} StepSparksMembers(s: seq<Particle>)
    ensures forall i | 0 <= i < |s| ::
      SparkStep(s[i]).lifespan > 0 <==> SparkStep(s[i]) in StepSparks(s)
    ensures forall q | q in StepSparks(s) :: exists i :: 0 <= i < |s| && q == SparkStep(s[i])
    decreases |s|
  {
    if s != [] {
      StepSparksMembers(s[1..]);
      assert forall i | 1 <= i < |s| :: s[1..][i - 1] == s[i];
    }
  }

  /** Unfolds the spark pass at index `i` of `s`. */
  lemma StepSparksAt(s: seq<Particle>, i: int)
    requires 0 <= i < |s|
    ensures StepSparks(s[i..]) ==
      (if SparkStep(s[i]).lifespan > 0 then [SparkStep(s[i])] else []) + StepSparks(s[i + 1..])
  {
    assert s[i..][1..] == s[i + 1..];
  }

  /** The spark pass as the sketch writes it: walk the sparks from the last index
      down, step the one at `i` in place, and splice it out when its lifespan is gone. */
  method SparkPass(sparks: seq<Particle>) returns (r: seq<Particle>)
    ensures r == StepSparks(sparks)
  {
    r := sparks;
    var i: int := |r| - 1;
    while i >= 0
      invariant -1 <= i < |sparks| && |r| > i
      invariant r[..i + 1] == sparks[..i + 1]
      invariant r[i + 1..] == StepSparks(sparks[i + 1..])
    {
      ghost var before := r;
      var p := SparkStep(r[i]);
      r := ReplaceOrRemove(r, i, p, p.lifespan > 0);
      PassInvariant(sparks, before, r, i);
      i := i - 1;
    }
  }

  /** One iteration of the spark loop re-establishes its invariant. */
  lemma PassInvariant(sparks: seq<Particle>, r: seq<Particle>, r': seq<Particle>, i: int)
    requires 0 <= i < |sparks| && |r| > i
    requires r[..i + 1] == sparks[..i + 1]
    requires r[i + 1..] == StepSparks(sparks[i + 1..])
    requires r' == ReplaceOrRemove(r, i, SparkStep(r[i]), SparkStep(r[i]).lifespan > 0)
    ensures r'[..i] == sparks[..i] && r'[i..] == StepSparks(sparks[i..])
  {
    assert r[i] == sparks[i] by {
      assert r[..i + 1][i] == sparks[..i + 1][i];
    }
    assert r[..i] == sparks[..i] by {
      assert r[..i] == r[..i + 1][..i];
    }
    StepSparksAt(sparks, i);
  }

  /** One frame of a firework: the ascending step (which may explode it), then the
      spark pass over every spark, including those just created. */
  function Update(fw: Firework, height: real, burst: seq<SparkSeed>): (r: Firework)
    requires ValidBurst(burst)
    ensures fw.exploded ==> r.exploded && r.rocket == fw.rocket && |r.sparks| <= |fw.sparks|
    ensures forall i | 0 <= i < |r.sparks| :: r.sparks[i].lifespan > 0
    ensures r.explosionColor == fw.explosionColor
  {
    var a := Ascend(fw, height, burst);
    a.(sparks := StepSparks(a.sparks))
  }

  /** `n` consecutive frames at a fixed field height. One burst of random draws
      suffices: an explosion happens at most once. */
  function Run(fw: Firework, height: real, burst: seq<SparkSeed>, n: nat): Firework
    requires ValidBurst(burst)
    decreases n
  {
    if n == 0 then fw else Update(Run(fw, height, burst, n - 1), height, burst)
  }

  /** Sparks born together stay together: one pass takes every spark of a cohort
      to lifespan `life - SparkDecay`, and removes all of them once that is not positive. */
  lemma {:induction false} CohortStep(s: seq<Particle>, c: Color, life: int)
    requires Cohort(s, c, life)
    ensures life - SparkDecay > 0 ==>
      |StepSparks(s)| == |s| && Cohort(StepSparks(s), c, life - SparkDecay)
    ensures life - SparkDecay <= 0 ==> StepSparks(s) == []
    decreases |s|
  {
    if s != [] {
      assert Cohort(s[1..], c, life) by {
        assert forall i | 0 <= i < |s| - 1 :: s[1..][i] == s[i + 1];
      }
      CohortStep(s[1..], c, life);
      var p := SparkStep(s[0]);
      assert p.lifespan == life - SparkDecay && p.color == c && !p.isFirework;
      if life - SparkDecay > 0 {
        var r := StepSparks(s);
        assert r == [p] + StepSparks(s[1..]);
        assert forall i | 1 <= i < |r| :: r[i] == StepSparks(s[1..])[i - 1];
      }
    }
  }

  /** `Update` keeps a firework well formed. */
  lemma UpdateKeepsWf(fw: Firework, height: real, burst: seq<SparkSeed>)
    requires ValidBurst(burst) && Wf(fw)
    ensures Wf(Update(fw, height, burst))
  {
    var a := Ascend(fw, height, burst);
    var r := Update(fw, height, burst);
    assert r.sparks == StepSparks(a.sparks) && r.exploded == a.exploded;
    assert r.rocket.isFirework;
    if fw.exploded {
      assert a == fw;
      if a.sparks != [] {
        CohortStep(a.sparks, a.explosionColor, a.sparks[0].lifespan);
      }
    } else if a.exploded {
      assert a.sparks[|fw.sparks|..] == a.sparks;
      CohortStep(a.sparks, a.explosionColor, MaxLifespan);
    } else {
      assert a.sparks == [];
    }
  }

  /** While it climbs, the rocket's vertical velocity stays at or below -10, so the
      "stopped rising" test never fires: the rocket explodes exactly when its new
      height is above the explosion level, and otherwise rises by at least 10. */
  lemma ClimbStep(fw: Firework, height: real, burst: seq<SparkSeed>)
    requires ValidBurst(burst) && Wf(fw) && Climbing(fw) && !fw.exploded
    ensures var r := Update(fw, height, burst);
      && r.rocket.vel.y <= -10.0
      && r.rocket.pos.y == fw.rocket.pos.y + fw.rocket.vel.y - 0.05
      && (r.exploded <==> r.rocket.pos.y < height * ExplosionLevel)
      && (!r.exploded ==> Climbing(r) && r.rocket.pos.y <= fw.rocket.pos.y - 10.0)
  {
    var rocket := Particles.Update(ApplyForce(fw.rocket, Thrust));
    assert rocket.vel.y == fw.rocket.vel.y - 0.05;
    var a := Ascend(fw, height, burst);
    assert a.rocket == rocket;
    assert Update(fw, height, burst).rocket == rocket;
  }

  /** `exploded` is never reset, and the rocket is frozen from then on. */
  lemma {:induction false} ExplodedStays(fw: Firework, height: real, burst: seq<SparkSeed>, n: nat)
    requires ValidBurst(burst) && fw.exploded
    ensures Run(fw, height, burst, n).exploded && Run(fw, height, burst, n).rocket == fw.rocket
    decreases n
  {
    if n > 0 {
      ExplodedStays(fw, height, burst, n - 1);
    }
  }

  /** A frame that does not explode a climbing firework leaves it climbing. */
  lemma StillClimbing(fw: Firework, height: real, burst: seq<SparkSeed>)
    requires ValidBurst(burst) && Wf(fw) && Climbing(fw) && !fw.exploded
    ensures var r := Update(fw, height, burst); !r.exploded ==> Wf(r) && Climbing(r)
  {
    ClimbStep(fw, height, burst);
    UpdateKeepsWf(fw, height, burst);
  }

  /** Until it explodes, a climbing rocket stays well formed and climbing, and after
      `k` frames it is at least `10 k` above where it started. */
  lemma {:induction false} ClimbInvariant(fw: Firework, height: real, burst: seq<SparkSeed>, k: nat)
    requires ValidBurst(burst) && Wf(fw) && Climbing(fw) && !fw.exploded
    ensures var x := Run(fw, height, burst, k);
      x.exploded || (Wf(x) && Climbing(x) && x.rocket.pos.y <= fw.rocket.pos.y - 10.0 * (k as real))
    decreases k
  {
    if k > 0 {
      ClimbInvariant(fw, height, burst, k - 1);
      var x := Run(fw, height, burst, k - 1);
      if !x.exploded {
        StillClimbing(x, height, burst);
        ClimbStep(x, height, burst);
      }
    }
  }

  /** A climbing rocket explodes within any number of frames `n` that would carry it,
      at 10 per frame, above the explosion level. */
  lemma ExplodesWithin(fw: Firework, height: real, burst: seq<SparkSeed>, n: nat)
    requires ValidBurst(burst) && Wf(fw) && Climbing(fw) && !fw.exploded
    requires n >= 1 && 10.0 * (n as real) > fw.rocket.pos.y - height * ExplosionLevel
    ensures Run(fw, height, burst, n).exploded
  {
    ClimbInvariant(fw, height, burst, n - 1);
    var x := Run(fw, height, burst, n - 1);
    if !x.exploded {
      ClimbStep(x, height, burst);
    }
  }

  /** A firework launched from the bottom edge of a field of height `height`
      explodes within `n` frames whenever `10 n > 0.7 height`. */
  lemma LaunchExplodes(x: real, height: real, vel: Vec2, c: Color, burst: seq<SparkSeed>, n: nat)
    requires RocketVelocity(vel) && RandomColor(c) && ValidBurst(burst)
    requires n >= 1 && 10.0 * (n as real) > 0.7 * height
    ensures Run(NewFirework(x, height, vel, c), height, burst, n).exploded
  {
    ExplodesWithin(NewFirework(x, height, vel, c), height, burst, n);
  }

  /** A finished firework is a fixed point of `Update`. */
  lemma {:induction false} FinishedStays(fw: Firework, height: real, burst: seq<SparkSeed>, n: nat)
    requires ValidBurst(burst) && IsFinished(fw)
    ensures Run(fw, height, burst, n) == fw
    decreases n
  {
    if n > 0 {
      FinishedStays(fw, height, burst, n - 1);
      assert Update(fw, height, burst) == fw;
    }
  }

  /** An exploded firework whose `count` sparks all have lifespan `life`, or that has
      no sparks left once `life` is not positive. */
  predicate Fading(x: Firework, c: Color, count: nat, life: int) {
    && Wf(x) && x.exploded && x.explosionColor == c
    && (life > 0 ==> |x.sparks| == count && Cohort(x.sparks, c, life))
    && (life <= 0 ==> x.sparks == [])
  }

  /** One frame of an exploded firework ages its sparks' cohort by `SparkDecay`. */
  lemma FadeStep(x: Firework, height: real, burst: seq<SparkSeed>, c: Color, count: nat, life: int)
    requires ValidBurst(burst) && Fading(x, c, count, life)
    ensures Fading(Update(x, height, burst), c, count, life - SparkDecay)
  {
    UpdateKeepsWf(x, height, burst);
    assert Ascend(x, height, burst) == x;
    assert Update(x, height, burst).sparks == StepSparks(x.sparks);
    if life > 0 {
      CohortStep(x.sparks, c, life);
    }
  }

  /** After an explosion the sparks age as one cohort: `n` frames later they all have
      lifespan `life - 5 n` while that is positive, and are all gone afterwards. */
  lemma {:induction false} FadeInvariant(fw: Firework, height: real, burst: seq<SparkSeed>, n: nat)
    requires ValidBurst(burst) && Wf(fw) && fw.exploded && fw.sparks != []
    ensures Fading(Run(fw, height, burst, n), fw.explosionColor, |fw.sparks|,
                   fw.sparks[0].lifespan - SparkDecay * n)
    decreases n
  {
    if n > 0 {
      FadeInvariant(fw, height, burst, n - 1);
      FadeStep(Run(fw, height, burst, n - 1), height, burst, fw.explosionColor, |fw.sparks|,
               fw.sparks[0].lifespan - SparkDecay * (n - 1));
    }
  }

  /** An exploded firework whose sparks have lifespan `life` is finished after
      exactly the number of frames that takes `life` to zero or below. */
  lemma SparksFadeTogether(fw: Firework, height: real, burst: seq<SparkSeed>, n: nat)
    requires ValidBurst(burst) && Wf(fw) && fw.exploded && fw.sparks != []
    ensures IsFinished(Run(fw, height, burst, n)) <==> SparkDecay * n >= fw.sparks[0].lifespan
  {
    FadeInvariant(fw, height, burst, n);
  }

  /** The frame that explodes a firework leaves exactly `SparkCount` sparks of its
      explosion colour, all already updated once. */
  lemma ExplosionFrame(fw: Firework, height: real, burst: seq<SparkSeed>)
    requires ValidBurst(burst) && Wf(fw) && !fw.exploded
    requires Update(fw, height, burst).exploded
    ensures Fading(Update(fw, height, burst), fw.explosionColor, SparkCount, MaxLifespan - SparkDecay)
  {
    var a := Ascend(fw, height, burst);
    assert a.sparks[|fw.sparks|..] == a.sparks;
    CohortStep(a.sparks, fw.explosionColor, MaxLifespan);
    UpdateKeepsWf(fw, height, burst);
  }

  /** A firework that has not exploded is never finished by its next frame: either
      it is still climbing or it has just made `SparkCount` sparks. */
  lemma LaunchedSurvivesFrame(fw: Firework, height: real, burst: seq<SparkSeed>)
    requires ValidBurst(burst) && Wf(fw) && !fw.exploded
    ensures !IsFinished(Update(fw, height, burst))
  {
    if Update(fw, height, burst).exploded {
      ExplosionFrame(fw, height, burst);
    }
  }

  /** Counting from a firework that explodes on its next frame, its sparks have
      lifespan `255 - 5 k` after `k >= 1` frames, until they are all gone. */
  lemma {:induction false} ExplosionFade(fw: Firework, height: real, burst: seq<SparkSeed>, k: nat)
    requires ValidBurst(burst) && Wf(fw) && !fw.exploded
    requires Update(fw, height, burst).exploded
    requires k >= 1
    ensures Fading(Run(fw, height, burst, k), fw.explosionColor, SparkCount, MaxLifespan - SparkDecay * k)
    decreases k
  {
    if k == 1 {
      ExplosionFrame(fw, height, burst);
    } else {
      ExplosionFade(fw, height, burst, k - 1);
      FadeStep(Run(fw, height, burst, k - 1), height, burst, fw.explosionColor, SparkCount,
               MaxLifespan - SparkDecay * (k - 1));
    }
  }

  /** Counting the frame of the explosion, a firework is finished on exactly the
      51st frame its sparks are updated: 255 = 51 * 5. */
  lemma FinishedOnFiftyFirstSparkFrame(fw: Firework, height: real, burst: seq<SparkSeed>, k: nat)
    requires ValidBurst(burst) && Wf(fw) && !fw.exploded
    requires Update(fw, height, burst).exploded
    ensures IsFinished(Run(fw, height, burst, k)) <==> k >= 51
  {
    if k > 0 {
      ExplosionFade(fw, height, burst, k);
    }
  }
}
