/** Searching and splitting text. */
module Strings {
  import opened Seqs

  predicate OccursAt(s: string, pattern: string, i: nat) {
    i + |pattern| <= |s| && s[i..i + |pattern|] == pattern
  }

  ghost predicate Contains(s: string, pattern: string) { exists i: nat :: OccursAt(s, pattern, i) }

  /** `std::string::find`: the first occurrence at or after `from`. */
  function Find(s: string, pattern: string, from: nat): (r: Option<nat>)
    ensures r.Some? ==> from <= r.value <= r.value + |pattern| <= |s|
    decreases |s| - from
  {
    if from + |pattern| > |s| then None
    else if OccursAt(s, pattern, from) then Some(from)
    else Find(s, pattern, from + 1)
  }

  /** `Find` names the first occurrence, or there is none. */
  lemma {:induction false} FindSpec(s: string, pattern: string, from: nat)
    ensures var r := Find(s, pattern, from);
            match r
            case Some(at) =>
              from <= at && OccursAt(s, pattern, at) && forall i: nat :: from <= i < at ==> !OccursAt(s, pattern, i)
            case None => forall i: nat :: from <= i ==> !OccursAt(s, pattern, i)
    decreases |s| - from
  {
    if from + |pattern| <= |s| && !OccursAt(s, pattern, from) {
      FindSpec(s, pattern, from + 1);
    }
  }

  /** `std::string::find` of one character. */
  function IndexOf(s: string, c: char, from: nat): (r: Option<nat>)
    ensures r.Some? ==> from <= r.value < |s| && s[r.value] == c
    ensures r.Some? ==> forall i :: from <= i < r.value ==> s[i] != c
    ensures r.None? ==> forall i :: from <= i < |s| ==> s[i] != c
    decreases |s| - from
  {
    if from >= |s| then None else if s[from] == c then Some(from) else IndexOf(s, c, from + 1)
  }

  /** The pieces between separators; never empty. */
  function Split(s: string, separator: char): (r: seq<string>)
    ensures r != []
    decreases |s|
  {
    match IndexOf(s, separator, 0)
    case None => [s]
    case Some(p) => [s[..p]] + Split(s[p + 1..], separator)
  }
}
