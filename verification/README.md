# Firework score sketch — a Dafny model

`sketch.js` is a p5.js page that shows the result of an embedded H5P quiz.
A `message` listener stores the score and the maximum score the quiz posts.
On every animation frame `draw()` turns the two numbers into a percentage and picks one of
four display tiers. In the top tier (90% or more) it launches fireworks. Each firework is a
rocket that climbs under constant thrust and then explodes into 100 sparks. The sparks fall
under gravity, slow down under drag and fade out. A firework is removed from the field once
its last spark has faded.

This project models that simulation as pure functions over immutable datatypes, on exact
reals:

- `Vectors`: the plane vector.
- `Particles`: the `Particle` class. It covers the constructor for rockets and sparks,
  `applyForce` and `update`.
- `Fireworks`: the `Firework` class. It covers the constructor, `update`, `explode` and
  `isFinished`, and the reverse splice loop over the sparks.
- `Splice`: the in-place "overwrite index `i`, maybe splice it out" step that both reverse
  loops share.
- `Scores`: the message rule, JavaScript division, and the tier chain of `draw()`.
- `FireworkField`: the firework half of `draw()`. It covers the spawn gate and the reverse
  update-and-prune loop over the field, plus runs of many frames.

The two loops that splice while they iterate (`SparkPass`, `UpdateAndPrune`) are written
the way the sketch writes them, as methods. Each is proved equal to a filter over an
element-wise map (`StepSparks`, `Advance`). Every property below is stated about that
filter.

Some behaviours of the code are easy to misread; the model follows the code on each:

- **A zero maximum score.**
  - The code computes `score / 0 * 100` with JavaScript semantics.
  - A positive score gives `+Infinity`, which lands in the top tier and launches
    fireworks.
  - `0 / 0` is `NaN`, which fails every comparison and reaches the fallback branch.
  - A negative score gives `-Infinity`, which also reaches the fallback branch.
  - So a zero maximum is not always "no score" (`Scores.Divide`, `Scores.ExcellentExactly`).
- **The rocket is kept after the explosion.** It is no longer updated or drawn, but the
  firework still holds it.
- **Lifespan and decay.** Particles are born with lifespan 255 and a spark loses 5 per
  update. A firework is finished on exactly the 51st frame that updates its sparks,
  counting the explosion frame.
- **No delay before a firework is finished.** A spark is removed in the same pass that
  takes its lifespan to 0 or below. So the firework is finished in that frame, not one
  frame later.
- **The "stopped rising" test cannot fire.** The thrust points upward and the launch speed
  is at least 10 upward, so the test `vel.y >= 0` is never true. A rocket explodes only by
  passing 30% of the field height (`Fireworks.ClimbStep`).
- **The score state.** The score state is the two numbers, both starting at 0; the
  maximum may be zero or negative.

## Model

| member | source | states |
|---|---|---|
| `Particles.NewRocket` | sketch.js:201-211 | A rocket starts at its spawn point with zero acceleration and lifespan 255. It carries the drawn launch velocity, so it moves upward at 10 or more per frame. |
| `Particles.NewSpark` | sketch.js:201-219 | A spark starts at the given point with zero acceleration and lifespan 255. It has the colour it was given and its drawn velocity, whose speed is between 1 and 6. |
| `Particles.ApplyForce` | sketch.js:222-224 | Adds the force to the acceleration and leaves every other field unchanged. |
| `Particles.Update` | sketch.js:226-238 | The new velocity is the old velocity plus the acceleration. The position moves by that new velocity, before drag. The acceleration is cleared. A spark then loses 5 lifespan and its velocity is scaled by 0.98. A rocket keeps its lifespan and is not damped. |
| `Particles.AgeLifespan` | sketch.js:226-238 | Over `n` updates a spark loses exactly `5 n` lifespan. A rocket loses none, and no update changes a particle's role. |
| `Particles.ForcesAccumulate` | sketch.js:222-224 | Two forces applied in one frame act as their sum, in either order. |
| `Fireworks.NewFirework` | sketch.js:143-149 | A new firework has not exploded, has no sparks and is not finished. It is well formed and climbing, and its rocket sits at the spawn point. |
| `Fireworks.Explode` | sketch.js:174-179 | Appends exactly 100 sparks and keeps the existing ones as a prefix. Every new spark is at the rocket's position with zero acceleration, lifespan 255 and the explosion colour. The new sparks take their velocities from the burst in order. |
| `Fireworks.Ascend` | sketch.js:151-161 | An exploded firework is left alone. Otherwise the rocket gets thrust and one update, and the firework explodes exactly when the updated rocket has stopped rising or is above 30% of the field height. Sparks appear only when the firework explodes. |
| `Fireworks.AscendExplodes` | sketch.js:157-159 | The frame that explodes a firework adds exactly the sparks `explode` makes at the rocket's new position. |
| `Fireworks.StepSparksMembers` | sketch.js:164-171 | A spark that still has positive lifespan after its update is kept. Every kept spark is some spark after its update. |
| `Fireworks.SparkPass` | sketch.js:164-171 | The reverse loop that updates each spark and splices out dead ones gives the same sequence as the filter over the updated sparks. |
| `Fireworks.Update` | sketch.js:151-172 | After a frame every spark has positive lifespan. Once a firework has exploded, the next frame keeps it exploded, keeps its rocket and never adds sparks. |
| `Fireworks.CohortStep` | sketch.js:164-171 | Sparks with one colour and one lifespan all survive a pass with lifespan 5 lower, or all die together. |
| `Fireworks.UpdateKeepsWf` | sketch.js:151-172 | A frame keeps the firework well formed. There are no sparks before the explosion, and all sparks share the explosion colour and one positive lifespan. |
| `Fireworks.ClimbStep` | sketch.js:152-160 | While a rocket climbs, its vertical velocity stays at -10 or below. It explodes exactly when it passes 30% of the field height. Otherwise it rises by at least 10. |
| `Fireworks.ExplodedStays` | sketch.js:152-161 | `exploded` is never reset, so `explode` runs at most once. After the explosion the rocket never changes. |
| `Fireworks.ClimbInvariant` | sketch.js:151-160 | After `k` frames without exploding, the rocket is still climbing and has risen at least `10 k`. |
| `Fireworks.ExplodesWithin` | sketch.js:152-160 | A climbing rocket has exploded after any `n` frames that would carry it 10 per frame above 30% of the field height. |
| `Fireworks.LaunchExplodes` | sketch.js:143-160 | A firework launched from the bottom edge has exploded after `n` frames whenever `10 n > 0.7 height`. |
| `Fireworks.LaunchedSurvivesFrame` | sketch.js:151-195 | A firework that has not exploded is never finished one frame later. |
| `Fireworks.FinishedStays` | sketch.js:151-195 | A finished firework is unchanged by any number of frames. |
| `Fireworks.FadeInvariant` | sketch.js:163-171 | `n` frames after an explosion, the count, colour and shared lifespan of the sparks are known exactly: they have lost `5 n` lifespan, or they are all gone. |
| `Fireworks.SparksFadeTogether` | sketch.js:164-195 | An exploded firework is finished after `n` frames exactly when `5 n` reaches its sparks' lifespan. |
| `Fireworks.ExplosionFrame` | sketch.js:151-179 | The frame that explodes a firework leaves exactly 100 sparks of its colour, each already updated once to lifespan 250. |
| `Fireworks.ExplosionFade` | sketch.js:151-179 | Counting from the frame before the explosion, after `k` frames there are exactly 100 sparks with lifespan `255 - 5 k`, or none once that is not positive. |
| `Fireworks.FinishedOnFiftyFirstSparkFrame` | sketch.js:151-195 | Counting the explosion frame, a firework is finished exactly from the 51st frame that updates its sparks. |
| `Scores.OnMessage` | sketch.js:20-27 | A message whose `type` is `H5P_SCORE_RESULT` replaces both score fields. Any other message leaves the state unchanged, and so does a missing one. |
| `Scores.DeliverKeepsLastResult` | sketch.js:17-38 | If message `j` is a score result and no later message is one, the state after the session holds exactly the score and maximum of message `j`. |
| `Scores.DeliverWithoutResult` | sketch.js:17-38 | A session in which no message is a score result leaves the state unchanged. |
| `Scores.OnMessageIdempotent` | sketch.js:22-27 | Receiving the same message twice has the effect of receiving it once. |
| `Scores.Divide` | sketch.js:60 | JavaScript division: a finite quotient exactly when the divisor is non-zero. Otherwise +Infinity, -Infinity or NaN by the sign of the dividend. |
| `Scores.Times100` | sketch.js:60 | Multiplying by 100 keeps infinities and NaN as they are and scales a finite value. |
| `Scores.TierMatchesReference` | sketch.js:60-100 | For every score and maximum, the tier computed through the division equals a reference tier stated without division. The reference cross-multiplies the thresholds and flips the comparison for a negative maximum. |
| `Scores.InitialHasNoScore` | sketch.js:60-100 | Before any score arrives the percentage is NaN and the fallback branch is taken. |
| `Scores.ExcellentExactly` | sketch.js:60-70 | Fireworks are enabled exactly when the score is at least 90% of a positive maximum, or at most 90% of a negative one, or positive over a zero maximum. |
| `Scores.TierMonotone` | sketch.js:70-100 | For a fixed positive maximum, a higher score never lands in a lower tier. |
| `FireworkField.MaybeSpawn` | sketch.js:78-82 | On a due frame, exactly one new firework is appended after the existing ones and the frame number is remembered. On any other frame nothing changes. |
| `FireworkField.SpawnPosition` | sketch.js:79-80 | A launched rocket starts on the bottom edge, within the middle 60% of the width. |
| `FireworkField.LaunchWithinStallLimit` | sketch.js:78-81 | No frame in the top tier ends more than 60 frames after the last launch. |
| `FireworkField.LaunchClock` | sketch.js:78-82 | The launch time after a number of frames is either the one before them or one of their frame numbers; below the top tier it never moves. |
| `FireworkField.RunFollowsClock` | sketch.js:78-82 | The launch time after a run of frames depends only on the tier, the frame numbers and the launch time before it, never on the fireworks or the random draws. |
| `FireworkField.ClockAtLeast` | sketch.js:78-82 | In the top tier, once the frames pass a number divisible by 30, the launch time is at least the first frame's number. |
| `FireworkField.LaunchEveryPeriod` | sketch.js:78-82 | In the top tier, every 30 consecutive frames contain a launch: afterwards the last launch time is no earlier than the first of them. |
| `FireworkField.UnfinishedMembers` | sketch.js:122-125 | Pruning keeps exactly the fireworks that are not finished. |
| `FireworkField.UnfinishedAppend` | sketch.js:118-126 | Pruning works element by element, so it keeps the relative order. |
| `FireworkField.Advance` | sketch.js:118-126 | After the pass the field holds no more fireworks than before, and none of them is finished. |
| `FireworkField.AdvanceMembers` | sketch.js:118-126 | An updated firework stays in the field exactly when it is not finished. Everything in the field is some firework after its update. |
| `FireworkField.AdvanceAppend` | sketch.js:118-126 | Advancing a concatenation of fireworks advances each part, so the survivors keep their relative order. |
| `FireworkField.UpdateAndPrune` | sketch.js:118-126 | The reverse loop that updates fireworks in place and splices out finished ones gives the same field as the update-then-filter definition. |
| `FireworkField.AdvanceKeepsWf` | sketch.js:118-126 | The pass keeps every firework of the field well formed. |
| `FireworkField.DrawStep` | sketch.js:70-126 | Below the top tier the field is untouched. In the top tier the field grows by at most one firework and ends with none finished. Every old firework that is not finished after its update stays in the field, and so does the new firework of a due frame. On a due frame the launch time becomes the frame number; otherwise it is kept. |
| `FireworkField.DrawStepShape` | sketch.js:78-126 | In the top tier the field after a frame is exactly the old fireworks after their update, finished ones dropped and order kept, followed on a due frame by the new firework after its first update. Nothing else is in it. |
| `FireworkField.DrawFrame` | sketch.js:55-126 | The frame as the sketch runs it gives the field that `DrawStep` specifies. It takes the tier of the current score, then the spawn gate, then the reverse loop. |
| `FireworkField.DrawKeepsWf` | sketch.js:70-126 | A frame keeps every firework of the field well formed. |
| `FireworkField.DrawRun` | sketch.js:55-126 | After `n` frames the field holds at most `n` more fireworks than at the start. |
| `FireworkField.LowTierIsStill` | sketch.js:70-126 | Below the top tier no firework is ever launched or updated, whatever the frame count. |
| `FireworkField.QuietBeforeFirstPeriod` | sketch.js:13-82 | From the page start, frames 1 to 29 launch nothing, whatever the tier. |
| `FireworkField.SpawnIntoEmpty` | sketch.js:78-126 | In the top tier, a due frame turns an empty field into one holding exactly the new firework after its first update. |
| `FireworkField.FirstLaunch` | sketch.js:13-126 | From the page start in the top tier, frame 30 launches the first firework. Afterwards the field holds exactly that firework, built from frame 30's launch draws and updated once. |

## Left out

- Rendering is not modelled: every `show()`, `background`, `text`, `fill`, `rect`,
  `stroke` and `point` call, the spark alpha, and the `scoreText` string. These calls are
  side effects on the canvas and have no checkable result.
- `setup()` and `createCanvas` are not modelled. The canvas size is fixed once there, so
  the field height is a parameter that stays constant over a run of frames.
- The p5 frame loop is not modelled. The caller supplies `frameCount`, starting at 1.
- `addEventListener` registration and `console.log` are not modelled. This is browser
  event plumbing; the pure rule is `Scores.OnMessage`.
- `redraw()` (sketch.js:34-36) is not modelled as its own operation. After a score result
  it makes p5 run `draw()` once more at once, with `frameCount` one higher, so every score
  message costs one extra simulation frame. In the model that extra frame is one more
  `DrawStep` call, with the next frame number and the new score's tier.
- The payload is not modelled as an arbitrary JavaScript value. A message is either falsy
  (`Absent`) or an object with a string `type` and numeric `score` and `maxScore` fields.
- Calls to `random`, `color`, `createVector` and `p5.Vector.fromAngle` become parameters
  that the caller supplies:
  - the launch position, bounded by `ValidLaunch`;
  - the rocket velocity, in `[-1,1] x [-15,-10]`;
  - the explosion colour, with each channel in `[0,255]`;
  - one seed per spark, giving a size in `[2,4]` and a velocity whose squared length is
    in `[1,36]` (a speed from 1 to 6 in any direction).

  The ranges are closed, while p5 draws from half-open ones.
- IEEE-754 rounding, overflow and negative zero are not modelled. The arithmetic is exact
  `real`, so the model makes no claim about float behaviour.
- Fireworks.Run and FireworkField.DrawRun use one field height for the whole run,
  because the sketch never resizes its canvas.
- FireworkField.DrawRun: states only the growth bound on the field and, through
  `RunFollowsClock`, its launch time. It gives no closed form for the contents after
  many frames. The per-frame contents are stated by `DrawStepShape` and `MaybeSpawn`.
