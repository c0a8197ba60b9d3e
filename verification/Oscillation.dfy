/** `OscillationDetector`: the shortest block of recorded states that is immediately repeated. */
module Oscillation {
  import opened Options

  /** A block of length `c` at `offset` is followed at once by a copy of itself. */
  predicate RepeatsAt<T(==)>(h: seq<T>, c: nat, offset: nat)
    requires offset + 2 * c <= |h|
  {
    h[offset..offset + c] == h[offset + c..offset + 2 * c]
  }

  /** Some block of length `c` is immediately repeated. */
  ghost predicate Repeats<T>(h: seq<T>, c: nat) {
    exists offset: nat :: offset + 2 * c <= |h| && RepeatsAt(h, c, offset)
  }

  /** What a call of the detector must answer: the least repeated length in 2 .. window + 1,
      and nothing when there is none or too little has been recorded. */
  ghost predicate IsAnswer<T>(h: seq<T>, window: nat, minHistory: int, answer: Option<nat>) {
    match answer
    case Some(c) =>
      |h| >= minHistory && 2 <= c <= window + 1 && Repeats(h, c) && forall d :: 2 <= d < c ==> !Repeats(h, d)
    case None =>
      |h| < minHistory || forall d :: 2 <= d <= window + 1 ==> !Repeats(h, d)
  }

  class OscillationDetector {
    const windowSize: nat
    const minHistory: int
    var history: seq<string>
    var window: seq<string>
    var lastStabilizationTime: real
    var stabilizationCount: nat
    var falsePositiveCount: nat
    var totalDetections: nat

    /** The bounded window is always the tail of the history. */
    ghost predicate Valid()
      reads this
    {
      window == if |history| <= windowSize then history else history[|history| - windowSize..]
    }

    constructor (windowSize: nat := 3, minHistory: int := 6)
      ensures Valid() && history == [] && this.windowSize == windowSize && this.minHistory == minHistory
      ensures totalDetections == 0 && stabilizationCount == 0 && falsePositiveCount == 0
    {
      this.windowSize := windowSize;
      this.minHistory := minHistory;
      history, window := [], [];
      lastStabilizationTime := 0.0;
      stabilizationCount, falsePositiveCount, totalDetections := 0, 0, 0;
    }

    method RecordState(name: string)
      requires Valid()
      modifies this`history, this`window
      ensures Valid() && history == old(history) + [name]
    {
      history := history + [name];
      window := if windowSize == 0 then []
                else if |window| == windowSize then window[1..] + [name]
                else window + [name];
    }

    method DetectOscillation() returns (answer: Option<nat>)
      modifies this`totalDetections
      ensures IsAnswer(history, windowSize, minHistory, answer)
      ensures totalDetections == old(totalDetections) + if answer == None then 0 else 1
    {
      if |history| < minHistory {
        return None;
      }
      answer := None;
      var cycleLen := 2;
      while cycleLen < windowSize + 2 && answer == None
        invariant 2 <= cycleLen && totalDetections == old(totalDetections)
        invariant match answer
                  case None => cycleLen <= (if windowSize == 0 then 2 else windowSize + 2) && forall d :: 2 <= d < cycleLen ==> !Repeats(history, d)
                  case Some(c) => IsAnswer(history, windowSize, minHistory, answer)
        decreases windowSize + 2 - cycleLen, answer == None
      {
        var offset := 0;
        while offset < |history| - cycleLen * 2 + 1 && answer == None
          invariant 0 <= offset
          invariant answer == None ==> forall o: nat :: o < offset && o + 2 * cycleLen <= |history| ==> !RepeatsAt(history, cycleLen, o)
          invariant answer != None ==> answer == Some(cycleLen) && Repeats(history, cycleLen)
          decreases |history| - offset, answer == None
        {
          if RepeatsAt(history, cycleLen, offset) {
            answer := Some(cycleLen);
          } else {
            offset := offset + 1;
          }
        }
        if answer == None {
          cycleLen := cycleLen + 1;
        }
      }
      if answer != None {
        totalDetections := totalDetections + 1;
      }
    }

    method Stabilize(now: real)
      modifies this
      ensures Valid() && history == [] && stabilizationCount == old(stabilizationCount) + 1
      ensures lastStabilizationTime == now
      ensures totalDetections == old(totalDetections) && falsePositiveCount == old(falsePositiveCount)
    {
      lastStabilizationTime := now;
      stabilizationCount := stabilizationCount + 1;
      history, window := [], [];
    }
  }

  lemma RepeatsPersist<T>(h: seq<T>, more: seq<T>, c: nat)
    requires Repeats(h, c)
    ensures Repeats(h + more, c)
  {
    var offset: nat :| offset + 2 * c <= |h| && RepeatsAt(h, c, offset);
    assert (h + more)[offset..offset + c] == h[offset..offset + c];
    assert (h + more)[offset + c..offset + 2 * c] == h[offset + c..offset + 2 * c];
    assert RepeatsAt(h + more, c, offset);
  }

  /** The answer is a function of what was recorded. */
  lemma AnswerIsUnique<T>(h: seq<T>, window: nat, minHistory: int, a: Option<nat>, b: Option<nat>)
    requires IsAnswer(h, window, minHistory, a) && IsAnswer(h, window, minHistory, b)
    ensures a == b
  {
  }

  /** Until the next stabilisation, recording more never loses a detection nor lengthens the
      reported block. */
  lemma DetectionsPersist<T>(h: seq<T>, more: seq<T>, window: nat, minHistory: int, before: Option<nat>, after: Option<nat>)
    requires IsAnswer(h, window, minHistory, before) && IsAnswer(h + more, window, minHistory, after)
    ensures before.Some? ==> after.Some? && after.value <= before.value
  {
    if before.Some? {
      RepeatsPersist(h, more, before.value);
    }
  }

  /** A history that runs through a block twice in full, anywhere, is reported once it is long
      enough, with a length no longer than the block's. */
  lemma RepeatedBlockIsReported<T>(before: seq<T>, block: seq<T>, after: seq<T>, window: nat, minHistory: int, answer: Option<nat>)
    requires 2 <= |block| <= window + 1
    requires var h := before + block + block + after; |h| >= minHistory && IsAnswer(h, window, minHistory, answer)
    ensures answer.Some? && answer.value <= |block|
  {
    var h := before + block + block + after;
    assert h[|before|..|before| + |block|] == block;
    assert h[|before| + |block|..|before| + 2 * |block|] == block;
    assert h[|before|..|before| + |block|] == h[|before| + |block|..|before| + 2 * |block|];
    assert RepeatsAt(h, |block|, |before|);
    assert Repeats(h, |block|);
  }
}
