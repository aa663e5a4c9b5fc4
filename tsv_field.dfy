/** The timestamp field of a tab-separated log line: what the pattern
    `(?:^|[ \t])time\:([^\t]+)` captures in its leftmost match, found by a
    direct scan instead of a regular-expression engine.

    A match of the pattern is determined by where its capture group starts:
    position `c` of the line such that `time:` ends at `c`, the `time:`
    starts the line or follows a space or a tab, and the character at `c`
    exists and is not a tab. The capture then runs greedily to the next tab
    or to the end of the line. A match starting earlier has an earlier
    capture start (two candidate captures at 5 and 6 would both start the
    match at 0, but they need the first character of the line to be `t` and
    a blank respectively), so the leftmost match is the one with the
    smallest capture start. */
module TsvField {
  import opened Wrappers

  const Tag := "time:"

  predicate IsBlank(ch: char) {
    ch == ' ' || ch == '\t'
  }

  /** `c` starts the capture of a match of the pattern in `line`. */
  predicate CaptureStart(line: string, c: int) {
    5 <= c < |line| && line[c - 5..c] == Tag
    && (c == 5 || IsBlank(line[c - 6]))
    && line[c] != '\t'
  }

  /** The end of the run of non-tab characters that starts at `c`. */
  function RunEnd(line: string, c: nat): (e: nat)
    requires c <= |line|
    ensures c <= e <= |line|
    ensures forall i :: c <= i < e ==> line[i] != '\t'
    ensures e == |line| || line[e] == '\t'
    decreases |line| - c
  {
    if c == |line| || line[c] == '\t' then c else RunEnd(line, c + 1)
  }

  /** The smallest capture start at or after `from`. */
  function ScanFrom(line: string, from: nat): (r: Option<nat>)
    ensures r.Some? ==> from <= r.value && CaptureStart(line, r.value)
    ensures r.Some? ==> forall c :: from <= c < r.value ==> !CaptureStart(line, c)
    ensures r.None? ==> forall c :: from <= c ==> !CaptureStart(line, c)
    decreases |line| - from
  {
    if from >= |line| then None
    else if CaptureStart(line, from) then Some(from)
    else ScanFrom(line, from + 1)
  }

  /** Where the capture of the leftmost match starts, if the pattern
      matches at all. */
  function TimeFieldStart(line: string): (r: Option<nat>)
    ensures r.Some? ==> CaptureStart(line, r.value)
    ensures r.Some? ==> forall c :: 0 <= c < r.value ==> !CaptureStart(line, c)
    ensures r.None? <==> forall c :: 0 <= c ==> !CaptureStart(line, c)
  {
    ScanFrom(line, 0)
  }

  /** What the pattern captures, or "" when it does not match. */
  function TimeValue(line: string): string {
    match TimeFieldStart(line)
    case None => ""
    case Some(c) => line[c..RunEnd(line, c)]
  }

  /** The captured value is empty exactly when no field qualifies; otherwise
      it is the maximal tab-free run after the leftmost qualifying `time:`. */
  lemma TimeValueSpec(line: string)
    ensures TimeValue(line) == "" <==> forall c :: 0 <= c ==> !CaptureStart(line, c)
    ensures TimeValue(line) != "" ==> exists c ::
      CaptureStart(line, c) && (forall c' :: 0 <= c' < c ==> !CaptureStart(line, c'))
      && TimeValue(line) == line[c..RunEnd(line, c)]
    ensures '\t' !in TimeValue(line)
  {
    match TimeFieldStart(line)
    case None =>
    case Some(c) =>
      var e := RunEnd(line, c);
      assert line[c..e][0] == line[c];
      forall i | 0 <= i < e - c
        ensures line[c..e][i] != '\t'
      {
        assert line[c..e][i] == line[c + i];
      }
  }

  /** The end of a tab-free run is the first tab after it, or the end of
      the line. */
  lemma {:induction false} RunEndAt(line: string, c: nat, e: nat)
    requires c <= e <= |line|
    requires forall i :: c <= i < e ==> line[i] != '\t'
    requires e == |line| || line[e] == '\t'
    ensures RunEnd(line, c) == e
    decreases e - c
  {
    if c < e {
      RunEndAt(line, c + 1, e);
    }
  }
}
