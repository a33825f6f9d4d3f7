/** The score a page receives from an embedded quiz, and the display tier the
    sketch derives from it on every frame. */
module Scores {

  /** The two global score variables; both start at 0. */
  datatype ScoreState = ScoreState(finalScore: real, maxScore: real)

  const InitialScore: ScoreState := ScoreState(0.0, 0.0)

  /** The discriminant a score-result message carries in its `type` field. */
  const ScoreResultKind: string := "H5P_SCORE_RESULT"

  /** The `data` of an inbound message: either a falsy value, or an object with a
      `type` and the two score fields. */
  datatype Message = Absent | Payload(kind: string, score: real, maxScore: real)

  predicate IsScoreResult(m: Message) {
    m.Payload? && m.kind == ScoreResultKind
  }

  /** The message listener's rule: a score result replaces both fields at once;
      every other message leaves the state alone. */
  function OnMessage(s: ScoreState, m: Message): (r: ScoreState)
    ensures IsScoreResult(m) ==> r.finalScore == m.score && r.maxScore == m.maxScore
    ensures !IsScoreResult(m) ==> r == s
  {
    if IsScoreResult(m) then ScoreState(m.score, m.maxScore) else s
  }

  /** The messages of a page session, delivered in order. */
  function Deliver(s: ScoreState, ms: seq<Message>): ScoreState
    decreases |ms|
  {
    if ms == [] then s else OnMessage(Deliver(s, ms[..|ms| - 1]), ms[|ms| - 1])
  }

  /** Whatever came before it, the last score result of a session decides the state:
      messages after it that are not score results change nothing. */
  lemma {:induction false} DeliverKeepsLastResult(s: ScoreState, ms: seq<Message>, j: int)
    requires 0 <= j < |ms| && IsScoreResult(ms[j])
    requires forall k | j < k < |ms| :: !IsScoreResult(ms[k])
    ensures Deliver(s, ms) == ScoreState(ms[j].score, ms[j].maxScore)
    decreases |ms|
  {
    if j < |ms| - 1 {
      var init := ms[..|ms| - 1];
      assert forall k | 0 <= k < |init| :: init[k] == ms[k];
      DeliverKeepsLastResult(s, init, j);
    }
  }

  /** A session without any score result leaves the starting state in place. */
  lemma {:induction false} DeliverWithoutResult(s: ScoreState, ms: seq<Message>)
    requires forall i | 0 <= i < |ms| :: !IsScoreResult(ms[i])
    ensures Deliver(s, ms) == s
    decreases |ms|
  {
    if ms != [] {
      var init := ms[..|ms| - 1];
      assert forall i | 0 <= i < |init| :: init[i] == ms[i];
      DeliverWithoutResult(s, init);
    }
  }

  /** Receiving the same message twice has the effect of receiving it once. */
  lemma OnMessageIdempotent(s: ScoreState, m: Message)
    ensures OnMessage(OnMessage(s, m), m) == OnMessage(s, m)
  {
  }

  /** A JavaScript number as the tier choice can see it. */
  datatype Number = Finite(value: real) | NaN | PosInf | NegInf

  /** JavaScript `a / b` on finite operands: division by zero gives a signed
      infinity, or NaN for `0 / 0`. */
  function Divide(a: real, b: real): (r: Number)
    ensures r.Finite? <==> b != 0.0
    ensures r.Finite? ==> r.value * b == a
    ensures r == NaN <==> a == 0.0 && b == 0.0
    ensures r == PosInf <==> a > 0.0 && b == 0.0
    ensures r == NegInf <==> a < 0.0 && b == 0.0
  {
    if b != 0.0 then Finite(a / b)
    else if a > 0.0 then PosInf
    else if a < 0.0 then NegInf
    else NaN
  }

  /** JavaScript `n * 100`: infinities and NaN absorb the factor. */
  function Times100(n: Number): (r: Number)
    ensures r.Finite? <==> n.Finite?
    ensures n.Finite? ==> r.value == 100.0 * n.value
    ensures !n.Finite? ==> r == n
  {
    match n
    case Finite(v) => Finite(v * 100.0)
    case _ => n
  }

  /** `(finalScore / maxScore) * 100`, evaluated on every frame. */
  function Percentage(s: ScoreState): Number {
    Times100(Divide(s.finalScore, s.maxScore))
  }

  /** JavaScript `n >= t` for a finite `t`: false whenever `n` is NaN. */
  predicate AtLeast(n: Number, t: real) {
    match n
    case Finite(v) => v >= t
    case PosInf => true
    case _ => false
  }

  /** The four branches of the frame's score display. */
  datatype Tier = Excellent | Good | NeedsWork | NoScore

  /** The if-else chain on the percentage: first match wins, and the last branch
      catches everything the three comparisons reject (NaN among them). */
  function ChooseTier(p: Number): Tier {
    if AtLeast(p, 90.0) then Excellent
    else if AtLeast(p, 60.0) then Good
    else if AtLeast(p, 0.0) then NeedsWork
    else NoScore
  }

  function TierOf(s: ScoreState): Tier {
    ChooseTier(Percentage(s))
  }

  /** Reference definition of the tiers without division: the three thresholds
      cross-multiplied by the maximum, with the comparison flipped for a negative
      maximum, and the zero maximum decided by the sign of the score. */
  function ExpectedTier(s: ScoreState): Tier {
    var (sc, m) := (s.finalScore, s.maxScore);
    if m > 0.0 then
      if 10.0 * sc >= 9.0 * m then Excellent
      else if 10.0 * sc >= 6.0 * m then Good
      else if sc >= 0.0 then NeedsWork
      else NoScore
    else if m < 0.0 then
      if 10.0 * sc <= 9.0 * m then Excellent
      else if 10.0 * sc <= 6.0 * m then Good
      else if sc <= 0.0 then NeedsWork
      else NoScore
    else if sc > 0.0 then Excellent
    else NoScore
  }

  /** Comparing a ratio with a threshold is comparing the cross products. */
  lemma RatioAtLeast(sc: real, m: real, q: real, t: real)
    requires m != 0.0 && q * m == sc
    ensures m > 0.0 ==> (100.0 * q >= t <==> 100.0 * sc >= t * m)
    ensures m < 0.0 ==> (100.0 * q >= t <==> 100.0 * sc <= t * m)
  {
    assert 100.0 * sc == (100.0 * q) * m;
    if m > 0.0 {
      if 100.0 * q >= t {
        assert (100.0 * q) * m >= t * m;
      } else {
        assert (100.0 * q) * m < t * m;
      }
    } else if m < 0.0 {
      if 100.0 * q >= t {
        assert (100.0 * q) * m <= t * m;
      } else {
        assert (100.0 * q) * m > t * m;
      }
    }
  }

  /** The tier the sketch computes through JavaScript division is the tier of the
      division-free reference, for every pair of scores. */
  lemma TierMatchesReference(s: ScoreState)
    ensures TierOf(s) == ExpectedTier(s)
  {
    var d := Divide(s.finalScore, s.maxScore);
    if s.maxScore != 0.0 {
      var q := d.value;
      RatioAtLeast(s.finalScore, s.maxScore, q, 90.0);
      RatioAtLeast(s.finalScore, s.maxScore, q, 60.0);
      RatioAtLeast(s.finalScore, s.maxScore, q, 0.0);
    }
  }

  /** Before any score arrives the percentage is `0 / 0`, NaN, and the fallback
      branch is taken. */
  lemma InitialHasNoScore()
    ensures Percentage(InitialScore) == NaN
    ensures TierOf(InitialScore) == NoScore
  {
  }

  /** The top tier, which is the one that launches fireworks, in closed form: at
      least 90% of a positive maximum, or any positive score over a zero maximum. */
  lemma ExcellentExactly(s: ScoreState)
    ensures TierOf(s) == Excellent <==>
      || (s.maxScore > 0.0 && 10.0 * s.finalScore >= 9.0 * s.maxScore)
      || (s.maxScore < 0.0 && 10.0 * s.finalScore <= 9.0 * s.maxScore)
      || (s.maxScore == 0.0 && s.finalScore > 0.0)
  {
    TierMatchesReference(s);
  }

  /** The rank of a tier, highest first. */
  function Rank(t: Tier): nat {
    match t
    case Excellent => 3
    case Good => 2
    case NeedsWork => 1
    case NoScore => 0
  }

  /** For a fixed positive maximum, a higher score never lands in a lower tier. */
  lemma TierMonotone(s: ScoreState, s': ScoreState)
    requires s.maxScore > 0.0 && s'.maxScore == s.maxScore
    requires s.finalScore <= s'.finalScore
    ensures Rank(TierOf(s)) <= Rank(TierOf(s'))
  {
    TierMatchesReference(s);
    TierMatchesReference(s');
  }
}
