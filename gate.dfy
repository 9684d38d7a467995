/**
 * The alert gate run once per camera frame: filter the detected labels
 * against the allow-list, open the gate when something is left and more than
 * three seconds have passed since the last alert, build the sentence, and
 * move the cooldown timer forward only when the synthesised audio exists
 * and is played.
 *
 * Clock readings and the outcome of the audio-file existence check are
 * inputs: `nowCheck` is the reading compared at the gate, `nowReset` the
 * later reading taken after synthesis, stored when the alert is played.
 */
module AlertGate {

  import opened Wrappers
  import opened LabelFilter
  import opened WarningSentence

  /** Seconds that must have passed, strictly, since the last alert. */
  const Cooldown: real := 3.0

  /** The inputs one frame brings to the gate. */
  datatype Frame = Frame(detected: seq<string>, nowCheck: real, fileExists: bool, nowReset: real)

  /** What one frame does: the sentence built if the gate opened, whether it was played, the timer afterwards. */
  datatype Outcome = Outcome(sentence: Option<string>, played: bool, lastAlert: real)

  /** The gate's behaviour on frame `f` when the timer holds `last`. */
  function Decide(allow: seq<string>, last: real, f: Frame): Outcome
  {
    if f.detected != [] then
      var warnings := Filter(f.detected, allow);
      if warnings != [] && f.nowCheck - last > Cooldown then
        if f.fileExists then Outcome(Some(Sentence(warnings)), true, f.nowReset)
        else Outcome(Some(Sentence(warnings)), false, last)
      else Outcome(None, false, last)
    else Outcome(None, false, last)
  }

  /** Some detected label is allow-listed. */
  predicate AnyAllowed(detected: seq<string>, allow: seq<string>)
  {
    exists i :: 0 <= i < |detected| && detected[i] in allow
  }

  /** Frames with no allow-listed label, the empty frame included, never alert and leave the timer alone. */
  lemma NoAllowedLabelNoAlert(allow: seq<string>, last: real, f: Frame)
    requires !AnyAllowed(f.detected, allow)
    ensures Decide(allow, last, f) == Outcome(None, false, last)
  {
    FilterEmptyIff(f.detected, allow);
  }

  /** The gate opens exactly when some label is allow-listed and strictly more than the cooldown has passed. */
  lemma GateOpensIff(allow: seq<string>, last: real, f: Frame)
    ensures Decide(allow, last, f).sentence.Some? <==>
              AnyAllowed(f.detected, allow) && f.nowCheck - last > Cooldown
  {
    FilterEmptyIff(f.detected, allow);
  }

  /** At exactly three seconds the gate stays shut and nothing changes. */
  lemma NoAlertAtExactlyCooldown(allow: seq<string>, last: real, f: Frame)
    requires f.nowCheck - last == Cooldown
    ensures Decide(allow, last, f) == Outcome(None, false, last)
  {
  }

  /**
   * When the gate opens, the sentence is the one built from the filtered labels,
   * and with a comma-free allow-list it lists exactly those labels, in detection
   * order and with repeats.
   */
  lemma AlertSentence(allow: seq<string>, last: real, f: Frame)
    requires Decide(allow, last, f).sentence.Some?
    ensures Decide(allow, last, f).sentence.value == Sentence(Filter(f.detected, allow))
    ensures (forall i :: 0 <= i < |allow| ==> CommaFree(allow[i])) ==>
              Labels(Decide(allow, last, f).sentence.value) == Some(Filter(f.detected, allow))
  {
    var w := Filter(f.detected, allow);
    if forall i :: 0 <= i < |allow| ==> CommaFree(allow[i]) {
      forall i | 0 <= i < |w| ensures CommaFree(w[i]) {
        var j :| 0 <= j < |allow| && allow[j] == w[i];
      }
      SentenceRoundTrip(w);
    }
  }

  /** The allow-list's labels contain no comma, so spoken sentences can be read back. */
  lemma WarningObjectsCommaFree()
    ensures forall i :: 0 <= i < |WarningObjects| ==> CommaFree(WarningObjects[i])
  {
  }

  /** On the script's own allow-list, every sentence the gate produces reads back as the filtered labels. */
  lemma WarningObjectsSentenceReadsBack(last: real, f: Frame)
    requires Decide(WarningObjects, last, f).sentence.Some?
    ensures Labels(Decide(WarningObjects, last, f).sentence.value) == Some(Filter(f.detected, WarningObjects))
  {
    WarningObjectsCommaFree();
    AlertSentence(WarningObjects, last, f);
  }

  /**
   * Playback happens exactly when the gate opened and the audio file exists,
   * and the timer takes the post-synthesis reading then and only then.
   */
  lemma TimerMovesOnlyOnPlayback(allow: seq<string>, last: real, f: Frame)
    ensures Decide(allow, last, f).played <==> Decide(allow, last, f).sentence.Some? && f.fileExists
    ensures Decide(allow, last, f).lastAlert == if Decide(allow, last, f).played then f.nowReset else last
  {
  }

  /** A missing audio file drops the alert without arming the cooldown, so the next qualifying frame alerts again. */
  lemma MissingFileRetries(allow: seq<string>, last: real, f: Frame, g: Frame)
    requires Decide(allow, last, f).sentence.Some? && !f.fileExists
    requires g.detected == f.detected && g.nowCheck >= f.nowCheck
    ensures Decide(allow, last, f).lastAlert == last
    ensures Decide(allow, Decide(allow, last, f).lastAlert, g).sentence.Some?
  {
  }

  /** After a played alert, a frame checked within three seconds of the reset stays silent and leaves the timer alone. */
  lemma CooldownAfterAlert(allow: seq<string>, last: real, f: Frame, g: Frame)
    requires Decide(allow, last, f).played
    requires g.nowCheck - f.nowReset <= Cooldown
    ensures Decide(allow, Decide(allow, last, f).lastAlert, g) == Outcome(None, false, f.nowReset)
  {
  }

  /** When the reset reading is not earlier than the check reading, the timer never goes back, and when it moves it jumps past the cooldown. */
  lemma TimerNeverDecreasesStep(allow: seq<string>, last: real, f: Frame)
    requires f.nowCheck <= f.nowReset
    ensures Decide(allow, last, f).lastAlert >= last
    ensures Decide(allow, last, f).lastAlert != last ==> Decide(allow, last, f).lastAlert > last + Cooldown
  {
  }

  /** The concrete frames the gate is meant to handle, on the fixed allow-list. */
  lemma GateExamples()
    ensures Decide(WarningObjects, 0.0, Frame(["person", "dog"], 10.0, true, 10.5))
              == Outcome(Some("Warning! person detected ahead."), true, 10.5)
    ensures Decide(WarningObjects, 0.0, Frame(["dog", "cat"], 10.0, true, 10.5)) == Outcome(None, false, 0.0)
    ensures Decide(WarningObjects, 10.5, Frame(["person", "dog"], 11.0, true, 11.5)) == Outcome(None, false, 10.5)
  {
    var d: seq<string> := ["person", "dog"];
    assert d[1..] == ["dog"];
    assert Filter(d, WarningObjects) == ["person"];
    SentenceExamples();
    var e: seq<string> := ["dog", "cat"];
    assert Filter(e, WarningObjects) == [];
  }

  // ----- Runs of frames -----

  /** The timer after the frames of `frames` were processed in order from timer value `last`. */
  function TimerAfter(allow: seq<string>, last: real, frames: seq<Frame>): real
    decreases |frames|
  {
    if frames == [] then last
    else Decide(allow, TimerAfter(allow, last, frames[..|frames| - 1]), frames[|frames| - 1]).lastAlert
  }

  /** What frame `k` of a run does. */
  function OutcomeAt(allow: seq<string>, last: real, frames: seq<Frame>, k: nat): Outcome
    requires k < |frames|
  {
    Decide(allow, TimerAfter(allow, last, frames[..k]), frames[k])
  }

  /** In every frame the reset reading is taken no earlier than the check reading. */
  predicate ResetAfterCheck(frames: seq<Frame>)
  {
    forall k :: 0 <= k < |frames| ==> frames[k].nowCheck <= frames[k].nowReset
  }

  lemma TimerAfterPrefix(allow: seq<string>, last: real, frames: seq<Frame>, k: nat)
    requires k < |frames|
    ensures TimerAfter(allow, last, frames[..k + 1]) == OutcomeAt(allow, last, frames, k).lastAlert
  {
    assert frames[..k + 1][..k] == frames[..k];
  }

  /** Over a run, the timer never decreases. */
  lemma {:induction false} TimerNeverDecreases(allow: seq<string>, last: real, frames: seq<Frame>, i: nat, j: nat)
    requires ResetAfterCheck(frames)
    requires i <= j <= |frames|
    ensures TimerAfter(allow, last, frames[..i]) <= TimerAfter(allow, last, frames[..j])
    decreases j
  {
    if i < j {
      TimerNeverDecreases(allow, last, frames, i, j - 1);
      TimerAfterPrefix(allow, last, frames, j - 1);
      TimerNeverDecreasesStep(allow, TimerAfter(allow, last, frames[..j - 1]), frames[j - 1]);
    }
  }

  /**
   * The throttle: once an alert has been played in frame `i`, the gate opens
   * again in a later frame `j` only if that frame's check reading is more
   * than three seconds after frame `i`'s reset reading.
   */
  lemma Throttle(allow: seq<string>, last: real, frames: seq<Frame>, i: nat, j: nat)
    requires ResetAfterCheck(frames)
    requires i < j < |frames|
    requires OutcomeAt(allow, last, frames, i).played
    requires OutcomeAt(allow, last, frames, j).sentence.Some?
    ensures frames[j].nowCheck - frames[i].nowReset > Cooldown
  {
    TimerAfterPrefix(allow, last, frames, i);
    TimerNeverDecreases(allow, last, frames, i + 1, j);
  }

  /** The detector's allow-list and the cooldown timer, which starts at 0. */
  class Gate {
    const allow: seq<string>
    var lastAlert: real

    constructor (allow: seq<string>)
      ensures this.allow == allow && lastAlert == 0.0
    {
      this.allow := allow;
      lastAlert := 0.0;
    }

    /** One frame through the gate; returns the sentence built, if any, and whether it was played. */
    method Step(detected: seq<string>, nowCheck: real, fileExists: bool, nowReset: real)
      returns (sentence: Option<string>, played: bool)
      modifies this
      ensures Outcome(sentence, played, lastAlert) == Decide(allow, old(lastAlert), Frame(detected, nowCheck, fileExists, nowReset))
    {
      sentence, played := None, false;
      if detected != [] {
        var warnings := Filter(detected, allow);
        if warnings != [] && nowCheck - lastAlert > Cooldown {
          sentence := Some(Sentence(warnings));
          if fileExists {
            played := true;
            lastAlert := nowReset;
          }
        }
      }
    }

    /** The capture loop over a finite run of frames; returns what each frame did. */
    method Run(frames: seq<Frame>) returns (outcomes: seq<Outcome>)
      modifies this
      ensures lastAlert == TimerAfter(allow, old(lastAlert), frames)
      ensures |outcomes| == |frames|
      ensures forall k :: 0 <= k < |frames| ==> outcomes[k] == OutcomeAt(allow, old(lastAlert), frames, k)
      ensures ResetAfterCheck(frames) ==> lastAlert >= old(lastAlert)
    {
      outcomes := [];
      var i := 0;
      while i < |frames|
        invariant 0 <= i <= |frames|
        invariant lastAlert == TimerAfter(allow, old(lastAlert), frames[..i])
        invariant |outcomes| == i
        invariant forall k :: 0 <= k < i ==> outcomes[k] == OutcomeAt(allow, old(lastAlert), frames, k)
      {
        var f := frames[i];
        var sentence, played := Step(f.detected, f.nowCheck, f.fileExists, f.nowReset);
        TimerAfterPrefix(allow, old(lastAlert), frames, i);
        outcomes := outcomes + [Outcome(sentence, played, lastAlert)];
        i := i + 1;
      }
      assert frames[..|frames|] == frames;
      if ResetAfterCheck(frames) {
        TimerNeverDecreases(allow, old(lastAlert), frames, 0, |frames|);
      }
    }
  }
}
