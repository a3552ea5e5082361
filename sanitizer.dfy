/**
 * The sanitiser as the program runs it: turns are mutable records shared
 * with the caller, the merge appends to the text of the first turn of each
 * run in place, and a final scan rejects a dialogue whose roles do not
 * alternate.
 */
module Sanitizer {
  import opened Dialogue

  datatype Option<T> = None | Some(value: T)

  /** One dialogue turn as the program holds it: a record whose fields can be rewritten. */
  class Turn {
    var role: Role
    var text: string

    constructor (role: Role, text: string)
      ensures this.role == role && this.text == text
    {
      this.role := role;
      this.text := text;
    }
  }

  /** The current values of the turns, in order. */
  function Snapshot(ts: seq<Turn>): (es: seq<Entry>)
    reads ts
    ensures |es| == |ts|
    ensures forall i :: 0 <= i < |ts| ==> es[i] == Entry(ts[i].role, ts[i].text)
  {
    seq(|ts|, i reads ts requires 0 <= i < |ts| => Entry(ts[i].role, ts[i].text))
  }

  /** No turn object occurs twice. */
  predicate Distinct(ts: seq<Turn>)
  {
    ts == [] || (ts[0] !in ts[1..] && Distinct(ts[1..]))
  }

  /** Two different positions of a Distinct sequence hold different turns. */
  lemma {:induction false} DistinctApart(ts: seq<Turn>, i: nat, j: nat)
    requires Distinct(ts) && i < |ts| && j < |ts| && i != j
    ensures ts[i] != ts[j]
  {
    if i == 0 {
      assert ts[j] == ts[1..][j - 1];
    } else if j == 0 {
      assert ts[i] == ts[1..][i - 1];
    } else {
      DistinctApart(ts[1..], i - 1, j - 1);
    }
  }

  /** A position whose role repeats at the next position, and that role. */
  datatype Repeat = Repeat(at: nat, role: Role)

  /** What the sanitiser returns: the merged turns, or the alternation error it raises. */
  datatype Sanitization =
    | Merged(turns: seq<Turn>)
    | RolesNotAlternating(repeat: Repeat)

  /**
   * The defensive scan: finds the first position whose role equals the
   * next one, or reports that there is none.
   */
  method FindRepeat(roles: seq<Role>) returns (found: Option<Repeat>)
    ensures found.None? <==> Alternating(roles)
    ensures found.Some? ==>
      && found.value.at + 1 < |roles|
      && roles[found.value.at] == roles[found.value.at + 1] == found.value.role
      && Alternating(roles[..found.value.at + 1])
  {
    var i := 0;
    while i < |roles| - 1
      invariant i == 0 || i < |roles|
      invariant forall k :: 0 <= k < i ==> roles[k] != roles[k + 1]
    {
      if roles[i] == roles[i + 1] {
        return Some(Repeat(i, roles[i]));
      }
      i := i + 1;
    }
    return None;
  }

  /** The merge of the first k input turns, built one turn at a time as the loop does. */
  ghost function SanitizedUpTo(input: seq<Entry>, k: nat): seq<Entry>
    requires k <= |input|
  {
    if k == 0 then [] else Absorb(SanitizedUpTo(input, k - 1), input[k - 1])
  }

  /** The run starts among the first k roles, found one position at a time as the loop does. */
  ghost function StartsUpTo(rs: seq<Role>, k: nat): (starts: seq<nat>)
    requires k <= |rs|
    ensures forall j :: 0 <= j < |starts| ==> starts[j] < k
  {
    if k == 0 then []
    else if StartsRun(rs, k - 1) then StartsUpTo(rs, k - 1) + [k - 1]
    else StartsUpTo(rs, k - 1)
  }

  /** The step-by-step merge agrees with Sanitized on prefixes. */
  lemma {:induction false} SanitizedUpToPrefix(input: seq<Entry>, k: nat)
    requires k <= |input|
    ensures SanitizedUpTo(input, k) == Sanitized(input[..k])
  {
    if k > 0 {
      SanitizedUpToPrefix(input, k - 1);
      SanitizedSnoc(input[..k - 1], input[k - 1]);
      assert input[..k] == input[..k - 1] + [input[k - 1]];
    }
  }

  /** The step-by-step run starts agree with RunStarts on prefixes. */
  lemma {:induction false} StartsUpToPrefix(rs: seq<Role>, k: nat)
    requires k <= |rs|
    ensures StartsUpTo(rs, k) == RunStarts(rs[..k])
  {
    if k == 0 {
      assert rs[..0] == [];
    } else {
      StartsUpToPrefix(rs, k - 1);
      RunStartsPrefix(rs, k - 1);
    }
  }

  /** The last run start found so far begins a run and comes after all the others. */
  lemma {:induction false} StartsUpToFacts(rs: seq<Role>, k: nat)
    requires k <= |rs|
    ensures var starts := StartsUpTo(rs, k);
      starts != [] ==>
        && StartsRun(rs, starts[|starts| - 1])
        && forall j :: 0 <= j < |starts| - 1 ==> starts[j] < starts[|starts| - 1]
  {
    if k > 0 {
      StartsUpToFacts(rs, k - 1);
    }
  }

  /**
   * After k turns there is one merged turn per run start, there is none
   * before the first turn, and the last one has the role of turn k - 1.
   */
  lemma {:induction false} SanitizedUpToFacts(input: seq<Entry>, k: nat)
    requires k <= |input|
    ensures |StartsUpTo(Roles(input), k)| == |SanitizedUpTo(input, k)|
    ensures SanitizedUpTo(input, k) == [] <==> k == 0
    ensures k > 0 ==> SanitizedUpTo(input, k)[|SanitizedUpTo(input, k)| - 1].role == input[k - 1].role
  {
    if k > 0 {
      SanitizedUpToFacts(input, k - 1);
      assert StartsRun(Roles(input), k - 1) <==> k == 1 || input[k - 2].role != input[k - 1].role;
    }
  }

  /**
   * The values of the input turns after the loop has read k of them: the
   * text of every turn read so far that continues a run has been appended,
   * after a space, to the text of the run's first turn.
   */
  ghost function Progressed(input: seq<Entry>, k: nat): (cur: seq<Entry>)
    requires k <= |input|
    ensures |cur| == |input|
  {
    if k == 0 then input
    else
      var prev := Progressed(input, k - 1);
      var starts := StartsUpTo(Roles(input), k - 1);
      // starts is never empty here, since position 0 always begins a run
      if StartsRun(Roles(input), k - 1) || starts == [] then prev
      else
        var s := starts[|starts| - 1];
        prev[s := Entry(prev[s].role, prev[s].text + " " + input[k - 1].text)]
  }

  /**
   * Reading a turn that continues a run appends its text, after a space,
   * to the text of the run's first turn, and changes nothing else.
   */
  lemma ProgressedOnMerge(input: seq<Entry>, k: nat)
    requires k < |input| && !StartsRun(Roles(input), k)
    ensures StartsUpTo(Roles(input), k) != []
    ensures StartsUpTo(Roles(input), k + 1) == StartsUpTo(Roles(input), k)
    ensures var starts := StartsUpTo(Roles(input), k);
      var s := starts[|starts| - 1];
      var cur := Progressed(input, k);
      Progressed(input, k + 1) == cur[s := Entry(cur[s].role, cur[s].text + " " + input[k].text)]
  {
    SanitizedUpToFacts(input, k);
  }

  /** Reading a turn that begins a run records it as a run start and changes no value. */
  lemma ProgressedOnAppend(input: seq<Entry>, k: nat)
    requires k < |input| && StartsRun(Roles(input), k)
    ensures StartsUpTo(Roles(input), k + 1) == StartsUpTo(Roles(input), k) + [k]
    ensures Progressed(input, k + 1) == Progressed(input, k)
  {
  }

  /** The loop never changes a role. */
  lemma {:induction false} ProgressedRoles(input: seq<Entry>, k: nat)
    requires k <= |input|
    ensures forall i :: 0 <= i < |input| ==> Progressed(input, k)[i].role == input[i].role
  {
    if k > 0 {
      ProgressedRoles(input, k - 1);
    }
  }

  /** A turn that the loop has not read yet keeps its text. */
  lemma {:induction false} ProgressedUnread(input: seq<Entry>, k: nat)
    requires k <= |input|
    ensures forall i :: k <= i < |input| ==> Progressed(input, k)[i].text == input[i].text
  {
    if k > 0 {
      ProgressedUnread(input, k - 1);
    }
  }

  /** A turn that does not begin a run keeps its text. */
  lemma {:induction false} ProgressedKeepsText(input: seq<Entry>, k: nat)
    requires k <= |input|
    ensures forall i {:trigger StartsRun(Roles(input), i)} ::
      0 <= i < |input| && !StartsRun(Roles(input), i) ==> Progressed(input, k)[i].text == input[i].text
  {
    if k > 0 {
      ProgressedKeepsText(input, k - 1);
      StartsUpToFacts(Roles(input), k - 1);
    }
  }

  /**
   * After k turns, each merged turn's value is held by the input turn at
   * its run start.
   */
  ghost predicate Holds(input: seq<Entry>, k: nat)
    requires k <= |input|
  {
    && |StartsUpTo(Roles(input), k)| == |SanitizedUpTo(input, k)|
    && forall j :: 0 <= j < |StartsUpTo(Roles(input), k)| ==>
         Progressed(input, k)[StartsUpTo(Roles(input), k)[j]] == SanitizedUpTo(input, k)[j]
  }

  /** Reading a turn that begins a run appends it, and it holds its own value. */
  lemma HoldsAppend(input: seq<Entry>, i: nat)
    requires i < |input| && StartsRun(Roles(input), i) && Holds(input, i)
    ensures Holds(input, i + 1)
  {
    var acc := SanitizedUpTo(input, i);
    SanitizedUpToFacts(input, i);
    ProgressedRoles(input, i);
    ProgressedUnread(input, i);
    assert Progressed(input, i)[i] == input[i];
    assert SanitizedUpTo(input, i + 1) == acc + [input[i]];
  }

  /**
   * Writing v at the last recorded position s, and as the last accumulated
   * value, keeps every recorded position holding its accumulated value.
   */
  lemma UpdateLastHeld(cur: seq<Entry>, acc: seq<Entry>, starts: seq<nat>, v: Entry)
    requires |starts| == |acc| > 0
    requires forall j :: 0 <= j < |starts| ==> starts[j] < |cur| && cur[starts[j]] == acc[j]
    requires forall j :: 0 <= j < |starts| - 1 ==> starts[j] < starts[|starts| - 1]
    ensures forall j :: 0 <= j < |starts| ==>
      cur[starts[|starts| - 1] := v][starts[j]] == acc[|acc| - 1 := v][j]
  {
  }

  /** Reading a turn that continues a run adds its text to the value the run's first turn holds. */
  lemma HoldsMerge(input: seq<Entry>, i: nat)
    requires i < |input| && !StartsRun(Roles(input), i) && Holds(input, i)
    ensures Holds(input, i + 1)
  {
    var acc := SanitizedUpTo(input, i);
    var starts := StartsUpTo(Roles(input), i);
    var cur := Progressed(input, i);
    SanitizedUpToFacts(input, i);
    StartsUpToFacts(Roles(input), i);
    var s := starts[|starts| - 1];
    var merged := Entry(cur[s].role, cur[s].text + " " + input[i].text);
    UpdateLastHeld(cur, acc, starts, merged);
    assert cur[s] == acc[|acc| - 1];
    assert SanitizedUpTo(input, i + 1) == acc[|acc| - 1 := merged];
    ProgressedOnMerge(input, i);
  }

  /** Each merged turn's value is held by the first turn of its run. */
  lemma {:induction false} ProgressedHolds(input: seq<Entry>, k: nat)
    requires k <= |input|
    ensures Holds(input, k)
  {
    if k > 0 {
      ProgressedHolds(input, k - 1);
      if StartsRun(Roles(input), k - 1) {
        HoldsAppend(input, k - 1);
      } else {
        HoldsMerge(input, k - 1);
      }
    }
  }

  /** The turns of ts at the positions idx, in that order. */
  function Pick<T>(ts: seq<T>, idx: seq<nat>): (picked: seq<T>)
    requires forall j :: 0 <= j < |idx| ==> idx[j] < |ts|
    ensures |picked| == |idx|
    ensures forall j :: 0 <= j < |idx| ==> picked[j] == ts[idx[j]]
  {
    seq(|idx|, j requires 0 <= j < |idx| => ts[idx[j]])
  }

  /** Picking one more position appends the turn there. */
  lemma PickSnoc<T>(ts: seq<T>, idx: seq<nat>, i: nat)
    requires forall j :: 0 <= j < |idx| ==> idx[j] < |ts|
    requires i < |ts|
    ensures Pick(ts, idx + [i]) == Pick(ts, idx) + [ts[i]]
  {
  }

  /** A turn that begins a run is appended to the merged list and nothing is rewritten. */
  lemma AppendStep(raw: seq<Turn>, merged: seq<Turn>, input: seq<Entry>, k: nat)
    requires k < |input| == |raw| && StartsRun(Roles(input), k)
    requires Snapshot(raw) == Progressed(input, k)
    requires merged == Pick(raw, StartsUpTo(Roles(input), k))
    ensures Snapshot(raw) == Progressed(input, k + 1)
    ensures merged + [raw[k]] == Pick(raw, StartsUpTo(Roles(input), k + 1))
  {
    ProgressedOnAppend(input, k);
    PickSnoc(raw, StartsUpTo(Roles(input), k), k);
  }

  /**
   * The loop's test, read from the turn objects — is there a last merged
   * turn, and does it have the role of turn k? — holds exactly when turn k
   * does not begin a run.
   */
  lemma ReadDecision(raw: seq<Turn>, merged: seq<Turn>, input: seq<Entry>, k: nat)
    requires k < |input| == |raw|
    requires Snapshot(raw) == Progressed(input, k)
    requires merged == Pick(raw, StartsUpTo(Roles(input), k))
    ensures (merged != [] && merged[|merged| - 1].role == raw[k].role) <==> !StartsRun(Roles(input), k)
  {
    ProgressedRoles(input, k);
    ProgressedHolds(input, k);
    SanitizedUpToFacts(input, k);
    var acc := SanitizedUpTo(input, k);
    var starts := StartsUpTo(Roles(input), k);
    var cur := Progressed(input, k);
    assert raw[k].role == cur[k].role == input[k].role;
    if merged != [] {
      var s := starts[|starts| - 1];
      assert merged[|merged| - 1] == raw[s];
      assert raw[s].role == cur[s].role == acc[|acc| - 1].role;
    }
  }

  /**
   * When turn k has the role of the last merged turn, that turn is the
   * object at the last run start s, and the next step value is the current
   * one with turn k's text appended to position s after a space.
   */
  lemma MergeTarget(raw: seq<Turn>, merged: seq<Turn>, input: seq<Entry>, k: nat) returns (s: nat)
    requires k < |input| == |raw|
    requires Snapshot(raw) == Progressed(input, k)
    requires merged == Pick(raw, StartsUpTo(Roles(input), k))
    requires merged != [] && merged[|merged| - 1].role == raw[k].role
    ensures s < k && merged[|merged| - 1] == raw[s]
    ensures StartsUpTo(Roles(input), k + 1) == StartsUpTo(Roles(input), k)
    ensures Progressed(input, k + 1) ==
      Snapshot(raw)[s := Entry(raw[s].role, raw[s].text + " " + raw[k].text)]
  {
    ReadDecision(raw, merged, input, k);
    ProgressedUnread(input, k);
    ProgressedOnMerge(input, k);
    var starts := StartsUpTo(Roles(input), k);
    s := starts[|starts| - 1];
    assert raw[k].text == Progressed(input, k)[k].text == input[k].text;
  }

  /**
   * One merging iteration: turn k has the role of the last merged turn, so
   * its text is appended, after a space, to that turn's text.
   */
  method ExtendLast(raw: seq<Turn>, merged: seq<Turn>, k: nat, ghost input: seq<Entry>)
    requires Distinct(raw) && k < |input| == |raw|
    requires Snapshot(raw) == Progressed(input, k)
    requires merged == Pick(raw, StartsUpTo(Roles(input), k))
    requires merged != [] && merged[|merged| - 1].role == raw[k].role
    modifies raw
    ensures Snapshot(raw) == Progressed(input, k + 1)
    ensures merged == Pick(raw, StartsUpTo(Roles(input), k + 1))
  {
    ghost var s := MergeTarget(raw, merged, input, k);
    ghost var next := Progressed(input, k + 1);
    var last := merged[|merged| - 1];
    last.text := last.text + " " + raw[k].text;
    forall i | 0 <= i < |raw| ensures Snapshot(raw)[i] == next[i] {
      if i != s {
        DistinctApart(raw, i, s);
      }
    }
  }

  /** Once every turn has been read, the step-by-step values are the definitions. */
  lemma UpToAll(input: seq<Entry>)
    ensures SanitizedUpTo(input, |input|) == Sanitized(input)
    ensures StartsUpTo(Roles(input), |input|) == RunStarts(Roles(input))
  {
    SanitizedUpToPrefix(input, |input|);
    StartsUpToPrefix(Roles(input), |input|);
    assert input[..|input|] == input;
    assert Roles(input)[..|input|] == Roles(input);
  }

  /**
   * Once every turn has been read, each turn keeps its role, and each turn
   * that does not begin a run keeps its text.
   */
  lemma MergeDoneTurns(raw: seq<Turn>, input: seq<Entry>)
    requires |input| == |raw|
    requires Snapshot(raw) == Progressed(input, |input|)
    ensures forall i :: 0 <= i < |raw| ==> raw[i].role == input[i].role
    ensures forall i :: 0 <= i < |raw| && i !in RunStarts(Roles(input)) ==> raw[i].text == input[i].text
  {
    var cur := Progressed(input, |input|);
    ProgressedRoles(input, |input|);
    ProgressedKeepsText(input, |input|);
    RunStartsSpec(Roles(input));
    forall i | 0 <= i < |raw| ensures raw[i].role == input[i].role {
      assert raw[i].role == cur[i].role;
    }
    forall i | 0 <= i < |raw| && i !in RunStarts(Roles(input)) ensures raw[i].text == input[i].text {
      assert !StartsRun(Roles(input), i);
      assert raw[i].text == cur[i].text;
    }
  }

  /**
   * Once every turn has been read, the merged turns are the turns at the
   * run starts and their values are the merged dialogue; roles are kept, and
   * so is the text of every turn that does not begin a run.
   */
  lemma MergeDone(raw: seq<Turn>, merged: seq<Turn>, input: seq<Entry>)
    requires |input| == |raw|
    requires Snapshot(raw) == Progressed(input, |input|)
    requires merged == Pick(raw, StartsUpTo(Roles(input), |input|))
    ensures Snapshot(merged) == Sanitized(input)
    ensures var starts := RunStarts(Roles(input));
      && |merged| == |starts|
      && forall j :: 0 <= j < |starts| ==> starts[j] < |raw| && merged[j] == raw[starts[j]]
    ensures forall i :: 0 <= i < |raw| ==> raw[i].role == input[i].role
    ensures forall i :: 0 <= i < |raw| && i !in RunStarts(Roles(input)) ==> raw[i].text == input[i].text
  {
    MergeDoneTurns(raw, input);
    var n := |input|;
    ProgressedHolds(input, n);
    UpToAll(input);
    var acc := SanitizedUpTo(input, n);
    var starts := StartsUpTo(Roles(input), n);
    forall j | 0 <= j < |merged| ensures Snapshot(merged)[j] == acc[j] {
      assert merged[j] == raw[starts[j]];
    }
  }

  /**
   * One pass of the merge loop over turn k: extend the last merged turn when
   * it has the same role, otherwise append turn k.
   */
  method Step(raw: seq<Turn>, merged: seq<Turn>, k: nat, ghost input: seq<Entry>) returns (next: seq<Turn>)
    requires Distinct(raw) && k < |input| == |raw|
    requires Snapshot(raw) == Progressed(input, k)
    requires merged == Pick(raw, StartsUpTo(Roles(input), k))
    modifies raw
    ensures Snapshot(raw) == Progressed(input, k + 1)
    ensures next == Pick(raw, StartsUpTo(Roles(input), k + 1))
  {
    var turn := raw[k];
    ReadDecision(raw, merged, input, k);
    if merged != [] && merged[|merged| - 1].role == turn.role {
      ExtendLast(raw, merged, k, input);
      next := merged;
    } else {
      AppendStep(raw, merged, input, k);
      next := merged + [turn];
    }
  }

  /**
   * The merge loop: merges every run of consecutive same-role turns into
   * the first turn of the run, whose text becomes the run's texts joined by
   * single spaces, and returns those first turns. The caller's turn objects
   * are shared, not copied, so the first turn of each run is rewritten in
   * place; input names their values on entry.
   */
  method MergeRuns(raw: seq<Turn>, ghost input: seq<Entry>) returns (merged: seq<Turn>)
    requires Distinct(raw)
    requires Snapshot(raw) == input
    modifies raw
    ensures Snapshot(merged) == Sanitized(input)
    ensures var starts := RunStarts(Roles(input));
      && |merged| == |starts|
      && forall j :: 0 <= j < |starts| ==> starts[j] < |raw| && merged[j] == raw[starts[j]]
    ensures forall i :: 0 <= i < |raw| ==> raw[i].role == input[i].role
    ensures forall i :: 0 <= i < |raw| && i !in RunStarts(Roles(input)) ==> raw[i].text == input[i].text
  {
    merged := [];
    var k := 0;
    while k < |raw|
      invariant k <= |raw|
      invariant Snapshot(raw) == Progressed(input, k)
      invariant merged == Pick(raw, StartsUpTo(Roles(input), k))
    {
      merged := Step(raw, merged, k, input);
      k := k + 1;
    }
    MergeDone(raw, merged, input);
  }

  /**
   * The sanitiser: merges the runs, then rejects the result if two
   * neighbouring merged turns still share a role. The merge always leaves
   * the roles alternating, so the rejection never happens.
   */
  method SanitizeDialogue(raw: seq<Turn>) returns (r: Sanitization)
    requires Distinct(raw)
    modifies raw
    ensures r.Merged?
    ensures Snapshot(r.turns) == Sanitized(old(Snapshot(raw)))
    ensures var starts := RunStarts(Roles(old(Snapshot(raw))));
      && |r.turns| == |starts|
      && forall j :: 0 <= j < |starts| ==> starts[j] < |raw| && r.turns[j] == raw[starts[j]]
    ensures forall i :: 0 <= i < |raw| ==> raw[i].role == old(raw[i].role)
    ensures forall i :: 0 <= i < |raw| && i !in RunStarts(Roles(old(Snapshot(raw)))) ==>
      raw[i].text == old(raw[i].text)
  {
    ghost var input := Snapshot(raw);
    var merged := MergeRuns(raw, input);
    SanitizedAlternates(input);
    var found := FindRepeat(Roles(Snapshot(merged)));
    match found {
      case None => return Merged(merged);
      case Some(repeat) => return RolesNotAlternating(repeat);
    }
  }
}
