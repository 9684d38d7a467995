# Blind assistance alert gate

A Dafny model of the per-frame alert policy of the blind assistance
detection script (`blind_assistance_detection.py`). Each camera frame the
script receives a list of class labels from an object detector, keeps the
labels that are on a fixed allow-list, and, when some remain and more than
three seconds have passed since the last alert, builds the sentence
`"Warning! " + ", ".join(warnings) + " detected ahead."`, synthesises it to
an audio file and plays it. The cooldown timer `last_alert_time` starts at 0
and is moved to the current time only when the audio file exists and is
played.

The model has four modules:

- `Wrappers` (`wrappers.dfy`): an `Option` datatype.
- `LabelFilter` (`filter.dfy`): the allow-list `WarningObjects` and the
  list-comprehension filter `Filter`, with lemmas that the filtered list keeps
  detection order (a subsequence), keeps every allow-listed detection with its
  multiplicity and nothing else, is empty exactly when nothing allow-listed
  was detected, and is the unique longest allow-listed subsequence of the
  detections.
- `WarningSentence` (`sentence.dfy`): `Join` (Python's `str.join`) and
  `Sentence`. As an independent partner, `Split` and `Labels` read a sentence
  back into its label list; the round-trip lemma `SentenceRoundTrip` pins the
  sentence format down (for non-empty lists of comma-free labels, which every
  spoken list is).
- `AlertGate` (`gate.dfy`): the specification function `Decide` for one
  frame, the `Gate` class whose mutable field `lastAlert` is the script's
  `last_alert_time`, its `Step` method (one iteration of the capture loop) and
  `Run` method (the loop over a finite run of frames), and lemmas about the
  gate: when it opens (an if-and-only-if), the exact-three-seconds boundary,
  the sentence it produces, the timer moving only on playback, the retry after
  a missing audio file, the cooldown after an alert, the timer never going
  back, and the throttle over whole runs.

Clock readings are `real` inputs. Each frame carries two readings:
`nowCheck` is compared at the gate (line 46) and `nowReset` is stored after
synthesis (line 63). The outcome of the audio-file existence check (line 60)
is a boolean input. Playback is the returned `played` flag.

Line 44 is a list comprehension, so the filtered list and the sentence keep
detection order and duplicates.

## Model

| member | source | states |
|---|---|---|
| `LabelFilter.Filter` | blind_assistance_detection.py:44 | the filtered list is no longer than the detections and every label in it is on the allow-list |
| `LabelFilter.FilterIsSubsequence` | blind_assistance_detection.py:44 | the filtered list keeps detection order: it is a subsequence of the detections |
| `LabelFilter.FilterCounts` | blind_assistance_detection.py:44 | each allow-listed label occurs in the filtered list exactly as often as it was detected; any other label does not occur |
| `LabelFilter.FilterEmptyIff` | blind_assistance_detection.py:43-44 | the filtered list is empty if and only if no detected label is on the allow-list (including when nothing is detected) |
| `LabelFilter.AllowedSubsequenceBound` | blind_assistance_detection.py:44 | no subsequence of the detections made of allow-listed labels is longer than the filtered list |
| `LabelFilter.FilterIsLongestAllowedSubsequence` | blind_assistance_detection.py:44 | the filtered list is the unique longest subsequence of the detections made of allow-listed labels |
| `WarningSentence.SplitJoin` | blind_assistance_detection.py:47 | cutting at ", " undoes joining with ", " for a non-empty list of comma-free labels |
| `WarningSentence.SentenceRoundTrip` | blind_assistance_detection.py:47 | a warning sentence is prefix, joined labels and suffix: reading it back gives exactly the labels, in order and with repeats |
| `WarningSentence.SentenceInjective` | blind_assistance_detection.py:47 | different non-empty lists of comma-free labels give different sentences |
| `WarningSentence.SentenceExamples` | blind_assistance_detection.py:47 | ["person"] gives "Warning! person detected ahead."; ["person","person"] repeats the label |
| `AlertGate.WarningObjectsCommaFree` | blind_assistance_detection.py:25 | no label on the fixed allow-list contains a comma |
| `AlertGate.WarningObjectsSentenceReadsBack` | blind_assistance_detection.py:25-47 | on the fixed allow-list, every sentence the gate produces reads back as exactly the filtered labels, in order and with repeats |
| `AlertGate.NoAllowedLabelNoAlert` | blind_assistance_detection.py:43-46 | with no allow-listed label (or no label at all) there is no sentence, no playback and the timer is unchanged, whatever the time |
| `AlertGate.GateOpensIff` | blind_assistance_detection.py:43-46 | a sentence is produced if and only if some detected label is allow-listed and the check reading exceeds the timer by strictly more than 3 seconds |
| `AlertGate.NoAlertAtExactlyCooldown` | blind_assistance_detection.py:46 | at exactly 3 seconds elapsed nothing fires and the timer is unchanged |
| `AlertGate.AlertSentence` | blind_assistance_detection.py:44-47 | when the gate opens the sentence is built from the filtered labels and, for a comma-free allow-list, reads back as exactly those labels |
| `AlertGate.TimerMovesOnlyOnPlayback` | blind_assistance_detection.py:60-65 | playback happens if and only if the gate opened and the audio file exists; the timer takes the post-synthesis reading exactly then, else keeps its value |
| `AlertGate.MissingFileRetries` | blind_assistance_detection.py:46-65 | when the audio file is missing the timer is unchanged and the next frame with the same labels checked no earlier alerts again |
| `AlertGate.CooldownAfterAlert` | blind_assistance_detection.py:46-63 | after a played alert reset to t, a frame checked at most 3 seconds after t produces nothing and leaves the timer at t |
| `AlertGate.TimerNeverDecreasesStep` | blind_assistance_detection.py:46-63 | when the reset reading is not before the check reading, one frame never lowers the timer, and when it moves it moves more than 3 seconds forward |
| `AlertGate.GateExamples` | blind_assistance_detection.py:25-47 | on the fixed allow-list: person and dog alert with "Warning! person detected ahead."; dog and cat never alert; a second qualifying frame half a second after the reset stays silent |
| `AlertGate.TimerNeverDecreases` | blind_assistance_detection.py:34-63 | over a run of frames the timer never decreases, when every frame's reset reading is at or after its check reading |
| `AlertGate.Throttle` | blind_assistance_detection.py:34-63 | after a played alert in one frame, a later frame opens the gate only if its check reading is more than 3 seconds after that alert's reset reading |
| `AlertGate.Gate.constructor` | blind_assistance_detection.py:25-27 | the gate holds the given allow-list and its timer starts at 0 |
| `AlertGate.Gate.Step` | blind_assistance_detection.py:43-65 | one frame: the returned sentence, playback flag and new timer are exactly those of `Decide` from the old timer |
| `AlertGate.Gate.Run` | blind_assistance_detection.py:34-72 | the loop over a run of frames: each frame's outcome is that of `Decide` from the timer left by the frames before it, and the timer never decreases when every reset reading is at or after its check reading |

## Left out

- Model loading and inference (lines 21, 40-41): the detector is external; the labels of a frame are an input `seq<string>`.
- Speech synthesis and the temporary file (lines 51-54): an external network service and file I/O; only the outcome of the existence check at line 60 reaches the gate when synthesis completes, as the `fileExists` input.
- Exceptions raised by speech synthesis or saving (lines 53-54) or by audio loading or playback (lines 61-62): none is caught, so such a failure ends the script in the middle of a frame, after the sentence is built and with `last_alert_time` unchanged. That path is not modelled; the nearest model state is a run ending with a frame whose `fileExists` is false.
- The 0.3-second sleep (line 57): only a delay; its effect is that the reset reading may be later than the check reading, which the two readings capture.
- Audio engine set-up, loading, playback and shutdown (lines 22, 61-62, 77): external; playback is the returned `played` flag.
- Camera capture, frame annotation and display, and the exits on a failed read or the 'q' key (lines 32, 35-37, 68-72, 75-76): I/O; a run is a finite sequence of frames and ends where the loop would exit.
- Floating-point wall-clock time: readings and the timer are exact reals, so rounding in the subtraction at line 46 is not modelled.
- Console output (lines 29-30, 48, 65, 78): no effect on the gate.
- The allow-list label "table" is matched literally against the detector's class names; which names the detector produces is not part of this model.
