/**
 * The allow-list filter applied to the labels the detector reports for one
 * frame: the labels worth a spoken warning, kept in detection order and with
 * duplicates, everything else dropped.
 */
module LabelFilter {

  /** The fixed allow-list of object classes that warrant a spoken warning. */
  const WarningObjects: seq<string> :=
    ["person", "car", "bus", "truck", "bicycle", "motorcycle", "chair", "bench", "table"]

  /** The detected labels that are members of `allow`, in detection order, duplicates kept. */
  function Filter(detected: seq<string>, allow: seq<string>): (warnings: seq<string>)
    ensures |warnings| <= |detected|
    ensures forall i :: 0 <= i < |warnings| ==> warnings[i] in allow
  {
    if detected == [] then []
    else if detected[0] in allow then [detected[0]] + Filter(detected[1..], allow)
    else Filter(detected[1..], allow)
  }

  /** `w` can be obtained from `d` by deleting elements, without reordering. */
  predicate IsSubsequence(w: seq<string>, d: seq<string>)
    decreases |d|
  {
    if w == [] then true
    else if d == [] then false
    else (w[0] == d[0] && IsSubsequence(w[1..], d[1..])) || IsSubsequence(w, d[1..])
  }

  /** Every element of `w` is a member of `allow`. */
  predicate AllAllowed(w: seq<string>, allow: seq<string>)
  {
    forall i :: 0 <= i < |w| ==> w[i] in allow
  }

  /** The filtered list keeps detection order: it is a subsequence of the detections. */
  lemma {:induction false} FilterIsSubsequence(detected: seq<string>, allow: seq<string>)
    ensures IsSubsequence(Filter(detected, allow), detected)
    decreases |detected|
  {
    if detected != [] {
      FilterIsSubsequence(detected[1..], allow);
    }
  }

  /**
   * Nothing allow-listed is dropped and nothing else is kept: each label occurs
   * in the filtered list exactly as often as it was detected if it is allow-listed,
   * and not at all otherwise.
   */
  lemma {:induction false} FilterCounts(detected: seq<string>, allow: seq<string>, x: string)
    ensures multiset(Filter(detected, allow))[x] == if x in allow then multiset(detected)[x] else 0
    decreases |detected|
  {
    if detected != [] {
      FilterCounts(detected[1..], allow, x);
      assert detected == [detected[0]] + detected[1..];
    }
  }

  /** The filtered list is empty exactly when no detected label is allow-listed. */
  lemma {:induction false} FilterEmptyIff(detected: seq<string>, allow: seq<string>)
    ensures Filter(detected, allow) == [] <==> forall i :: 0 <= i < |detected| ==> detected[i] !in allow
    decreases |detected|
  {
    if detected != [] {
      FilterEmptyIff(detected[1..], allow);
      if detected[0] !in allow && Filter(detected, allow) == [] {
        forall i | 0 <= i < |detected| ensures detected[i] !in allow {
          if i > 0 {
            assert detected[i] == detected[1..][i - 1];
          }
        }
      }
    }
  }

  /** No subsequence of the detections made only of allow-listed labels is longer than the filtered list. */
  lemma {:induction false} AllowedSubsequenceBound(w: seq<string>, detected: seq<string>, allow: seq<string>)
    requires IsSubsequence(w, detected)
    requires AllAllowed(w, allow)
    ensures |w| <= |Filter(detected, allow)|
    decreases |detected|
  {
    if w != [] {
      var d := detected[1..];
      if w[0] == detected[0] && IsSubsequence(w[1..], d) {
        AllowedSubsequenceBound(w[1..], d, allow);
      } else {
        AllowedSubsequenceBound(w, d, allow);
      }
    }
  }

  /**
   * The filtered list is characterised without reference to how it is computed:
   * it is the one subsequence of the detections that consists of allow-listed
   * labels and is at least as long as every other such subsequence.
   */
  lemma {:induction false} FilterIsLongestAllowedSubsequence(w: seq<string>, detected: seq<string>, allow: seq<string>)
    requires IsSubsequence(w, detected)
    requires AllAllowed(w, allow)
    requires |w| >= |Filter(detected, allow)|
    ensures w == Filter(detected, allow)
    decreases |detected|
  {
    if w != [] {
      var d := detected[1..];
      if detected[0] in allow {
        if w[0] == detected[0] && IsSubsequence(w[1..], d) {
          FilterIsLongestAllowedSubsequence(w[1..], d, allow);
          assert w == [w[0]] + w[1..];
        } else {
          AllowedSubsequenceBound(w, d, allow);
        }
      } else {
        assert w[0] in allow;
        FilterIsLongestAllowedSubsequence(w, d, allow);
      }
    }
  }
}
