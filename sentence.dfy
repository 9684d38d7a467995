/**
 * The spoken warning: a fixed prefix, the filtered labels joined by ", ",
 * and a fixed suffix. `Labels` reads a sentence back into its label list
 * and is the inverse that pins the sentence format down.
 */
module WarningSentence {

  import opened Wrappers

  const Prefix: string := "Warning! "
  const Separator: string := ", "
  const Suffix: string := " detected ahead."

  /** The parts concatenated with `sep` between neighbours; no parts give the empty string. */
  function Join(sep: string, parts: seq<string>): string
  {
    if parts == [] then ""
    else if |parts| == 1 then parts[0]
    else parts[0] + sep + Join(sep, parts[1..])
  }

  /** The sentence spoken for a list of warnings. */
  function Sentence(warnings: seq<string>): string
  {
    Prefix + Join(Separator, warnings) + Suffix
  }

  /** A label that cannot be confused with the separator. */
  predicate CommaFree(name: string)
  {
    ',' !in name
  }

  /** Position of the first ", " in `s`, or `|s|` when there is none. */
  function SeparatorIndex(s: string): (i: nat)
    ensures i <= |s|
    ensures i < |s| ==> i + 1 < |s| && s[i] == ',' && s[i + 1] == ' '
  {
    if |s| < 2 then |s|
    else if s[0] == ',' && s[1] == ' ' then 0
    else 1 + SeparatorIndex(s[1..])
  }

  /** `s` cut at every ", "; a string without one is a single part. */
  function Split(s: string): (parts: seq<string>)
    ensures parts != []
    decreases |s|
  {
    var i := SeparatorIndex(s);
    if i == |s| then [s] else [s[..i]] + Split(s[i + 2..])
  }

  /** The labels a warning sentence lists, or None when `s` is not shaped like one. */
  function Labels(s: string): Option<seq<string>>
  {
    if |s| >= |Prefix| + |Suffix| && s[..|Prefix|] == Prefix && s[|s| - |Suffix|..] == Suffix
    then Some(Split(s[|Prefix|..|s| - |Suffix|]))
    else None
  }

  lemma {:induction false} SeparatorIndexAbsent(p: string)
    requires CommaFree(p)
    ensures SeparatorIndex(p) == |p|
    decreases |p|
  {
    if |p| >= 2 {
      SeparatorIndexAbsent(p[1..]);
    }
  }

  lemma {:induction false} SeparatorIndexAfter(p: string, rest: string)
    requires CommaFree(p)
    ensures SeparatorIndex(p + Separator + rest) == |p|
    decreases |p|
  {
    if p != [] {
      assert (p + Separator + rest)[1..] == p[1..] + Separator + rest;
      SeparatorIndexAfter(p[1..], rest);
    }
  }

  /** Splitting at ", " undoes joining with ", " for a non-empty list of comma-free labels. */
  lemma {:induction false} SplitJoin(parts: seq<string>)
    requires parts != []
    requires forall i :: 0 <= i < |parts| ==> CommaFree(parts[i])
    ensures Split(Join(Separator, parts)) == parts
    decreases |parts|
  {
    if |parts| == 1 {
      SeparatorIndexAbsent(parts[0]);
    } else {
      var p := parts[0];
      var rest := Join(Separator, parts[1..]);
      var s := p + Separator + rest;
      assert Join(Separator, parts) == s;
      SeparatorIndexAfter(p, rest);
      assert |s| > |p|;
      assert s[..|p|] == p;
      assert s[|p| + 2..] == rest;
      assert Split(s) == [p] + Split(rest);
      SplitJoin(parts[1..]);
      assert parts == [p] + parts[1..];
    }
  }

  /** A sentence names exactly the warnings it was built from, in order and with repeats. */
  lemma SentenceRoundTrip(warnings: seq<string>)
    requires warnings != []
    requires forall i :: 0 <= i < |warnings| ==> CommaFree(warnings[i])
    ensures Labels(Sentence(warnings)) == Some(warnings)
  {
    var j := Join(Separator, warnings);
    var s := Sentence(warnings);
    assert s[..|Prefix|] == Prefix;
    assert s[|s| - |Suffix|..] == Suffix;
    assert s[|Prefix|..|s| - |Suffix|] == j;
    SplitJoin(warnings);
  }

  /** Two warning lists give the same sentence only if they are the same list. */
  lemma SentenceInjective(w1: seq<string>, w2: seq<string>)
    requires w1 != [] && w2 != []
    requires forall i :: 0 <= i < |w1| ==> CommaFree(w1[i])
    requires forall i :: 0 <= i < |w2| ==> CommaFree(w2[i])
    requires Sentence(w1) == Sentence(w2)
    ensures w1 == w2
  {
    SentenceRoundTrip(w1);
    SentenceRoundTrip(w2);
  }

  /** One label is spoken on its own; a repeated label is spoken twice. */
  lemma SentenceExamples()
    ensures Sentence(["person"]) == "Warning! person detected ahead."
    ensures Sentence(["person", "person"]) == "Warning! person, person detected ahead."
  {
    var one: seq<string> := ["person"];
    var two: seq<string> := ["person", "person"];
    assert Join(Separator, one) == "person";
    assert two[1..] == one;
    assert Join(Separator, two) == "person" + Separator + "person";
  }
}
