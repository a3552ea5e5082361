/**
 * Value-level specification of dialogue sanitisation: the turns of a
 * dialogue as plain values, the merge step the sanitiser applies to each
 * turn, the whole merge as a left fold, and the properties the sanitised
 * dialogue has (alternating roles, collapsed role sequence, texts joined
 * run by run, the last turn kept).
 */
module Dialogue {

  /** A speaker identifier, as it appears in the "role" field of a turn. */
  type Role = string

  /** The value of one dialogue turn: who speaks and what is said. */
  datatype Entry = Entry(role: Role, text: string)

  function Roles(es: seq<Entry>): (rs: seq<Role>)
    ensures |rs| == |es|
    ensures forall i :: 0 <= i < |es| ==> rs[i] == es[i].role
  {
    seq(|es|, i requires 0 <= i < |es| => es[i].role)
  }

  function Texts(es: seq<Entry>): (ts: seq<string>)
    ensures |ts| == |es|
    ensures forall i :: 0 <= i < |es| ==> ts[i] == es[i].text
  {
    seq(|es|, i requires 0 <= i < |es| => es[i].text)
  }

  /** No two neighbouring roles are equal. */
  predicate Alternating(rs: seq<Role>)
  {
    forall i :: 0 <= i < |rs| - 1 ==> rs[i] != rs[i + 1]
  }

  predicate IsSuffix(x: string, s: string)
  {
    |x| <= |s| && s[|s| - |x|..] == x
  }

  /** The texts joined in order with exactly one space between neighbours. */
  function Join(ts: seq<string>): string
    requires |ts| > 0
  {
    if |ts| == 1 then ts[0] else Join(ts[..|ts| - 1]) + " " + ts[|ts| - 1]
  }

  /**
   * One iteration of the merge loop: a turn whose role is that of the last
   * accumulated turn is appended to that turn's text after a space;
   * otherwise it becomes a new accumulated turn.
   */
  function Absorb(acc: seq<Entry>, e: Entry): seq<Entry>
  {
    if acc != [] && acc[|acc| - 1].role == e.role then
      acc[|acc| - 1 := Entry(e.role, acc[|acc| - 1].text + " " + e.text)]
    else
      acc + [e]
  }

  /** The merged dialogue: Absorb applied to every turn, first to last. */
  function Sanitized(es: seq<Entry>): seq<Entry>
  {
    if es == [] then [] else Absorb(Sanitized(es[..|es| - 1]), es[|es| - 1])
  }

  /**
   * Reference definition of the output role order, recursive from the front:
   * the role sequence with every run of equal neighbours collapsed to one.
   */
  function Collapse(rs: seq<Role>): seq<Role>
  {
    if |rs| <= 1 then rs
    else if rs[0] == rs[1] then Collapse(rs[1..])
    else [rs[0]] + Collapse(rs[1..])
  }

  /** Position i begins a maximal run of one role. */
  predicate StartsRun(rs: seq<Role>, i: nat)
    requires i < |rs|
  {
    i == 0 || rs[i - 1] != rs[i]
  }

  /** The positions at which the maximal same-role runs begin, in order. */
  function RunStarts(rs: seq<Role>): (starts: seq<nat>)
    ensures |starts| <= |rs|
    ensures starts == [] <==> rs == []
  {
    if rs == [] then []
    else RunStarts(rs[..|rs| - 1]) + (if StartsRun(rs, |rs| - 1) then [|rs| - 1] else [])
  }

  /** One past the last position of run j. */
  function RunEnd(rs: seq<Role>, j: nat): (end: nat)
    requires j < |RunStarts(rs)|
    ensures RunStarts(rs)[j] < end <= |rs|
  {
    RunStartsSpec(rs);
    var starts := RunStarts(rs);
    if j + 1 < |starts| then starts[j + 1] else |rs|
  }

  // ---------------------------------------------------------------------
  // Run starts

  /**
   * RunStarts lists, in strictly increasing order, exactly the positions at
   * which a run begins; the first run begins at 0.
   */
  lemma {:induction false} RunStartsSpec(rs: seq<Role>)
    ensures forall j :: 0 <= j < |RunStarts(rs)| ==> RunStarts(rs)[j] < |rs|
    ensures forall j :: 0 <= j < |RunStarts(rs)| ==> StartsRun(rs, RunStarts(rs)[j])
    ensures forall j, k :: 0 <= j < k < |RunStarts(rs)| ==> RunStarts(rs)[j] < RunStarts(rs)[k]
    ensures forall i :: 0 <= i < |rs| && StartsRun(rs, i) ==> i in RunStarts(rs)
    ensures rs != [] ==> |RunStarts(rs)| > 0 && RunStarts(rs)[0] == 0
  {
    if rs != [] {
      var p := rs[..|rs| - 1];
      RunStartsSpec(p);
      assert forall i :: 0 <= i < |p| ==> (StartsRun(p, i) <==> StartsRun(rs, i));
    }
  }

  /** Extending a prefix of rs by one position adds that position if it starts a run. */
  lemma RunStartsPrefix(rs: seq<Role>, k: nat)
    requires k < |rs|
    ensures RunStarts(rs[..k + 1]) == RunStarts(rs[..k]) + (if StartsRun(rs, k) then [k] else [])
  {
    assert rs[..k + 1][..k] == rs[..k];
  }

  /** Every position of run j carries the role of the run's first turn. */
  lemma RunIsUniform(rs: seq<Role>, j: nat, i: nat)
    requires j < |RunStarts(rs)|
    requires RunStarts(rs)[j] <= i < RunEnd(rs, j)
    ensures rs[i] == rs[RunStarts(rs)[j]]
    decreases i
  {
    RunStartsSpec(rs);
    var starts := RunStarts(rs);
    if i > starts[j] {
      RunIsUniform(rs, j, i - 1);
      forall k | 0 <= k < |starts| ensures starts[k] != i {
        if k > j + 1 {
          assert starts[j + 1] < starts[k];
        }
      }
      assert !StartsRun(rs, i);
    }
  }

  // ---------------------------------------------------------------------
  // Properties of the merge

  /** The last turn is never dropped: it keeps its role and ends the last text. */
  lemma LastTurnKept(es: seq<Entry>)
    requires es != []
    ensures Sanitized(es) != []
    ensures Sanitized(es)[|Sanitized(es)| - 1].role == es[|es| - 1].role
    ensures IsSuffix(es[|es| - 1].text, Sanitized(es)[|Sanitized(es)| - 1].text)
  {
  }

  /** No turn is created: the output is never longer than the input, and empty only for empty input. */
  lemma {:induction false} SanitizedLength(es: seq<Entry>)
    ensures |Sanitized(es)| <= |es|
    ensures Sanitized(es) == [] <==> es == []
  {
    if es != [] {
      SanitizedLength(es[..|es| - 1]);
    }
  }

  /** After merging no two adjacent turns share a role. */
  lemma {:induction false} SanitizedAlternates(es: seq<Entry>)
    ensures Alternating(Roles(Sanitized(es)))
  {
    if es != [] {
      var p := es[..|es| - 1];
      SanitizedAlternates(p);
    }
  }

  lemma {:induction false} CollapseSnoc(rs: seq<Role>, r: Role)
    ensures Collapse(rs + [r]) ==
      if rs != [] && rs[|rs| - 1] == r then Collapse(rs) else Collapse(rs) + [r]
  {
    if |rs| >= 2 {
      assert (rs + [r])[1..] == rs[1..] + [r];
      CollapseSnoc(rs[1..], r);
    } else if |rs| == 1 {
      assert (rs + [r])[1..] == [r];
    }
  }

  lemma RolesSnoc(p: seq<Entry>, e: Entry)
    ensures Roles(p + [e]) == Roles(p) + [e.role]
  {
  }

  /** One merge step keeps the accumulated roles, or appends the new turn's role. */
  lemma AbsorbRoles(acc: seq<Entry>, e: Entry)
    ensures Roles(Absorb(acc, e)) ==
      if acc != [] && acc[|acc| - 1].role == e.role then Roles(acc) else Roles(acc) + [e.role]
  {
  }

  /** The output roles are the input roles with consecutive duplicates collapsed. */
  lemma {:induction false} SanitizedRoles(es: seq<Entry>)
    ensures Roles(Sanitized(es)) == Collapse(Roles(es))
  {
    if es != [] {
      var p := es[..|es| - 1];
      var e := es[|es| - 1];
      assert es == p + [e];
      SanitizedRoles(p);
      SanitizedRolesSnoc(p, e);
    }
  }

  /** Inductive step of SanitizedRoles: appending a turn keeps the output roles collapsed. */
  lemma SanitizedRolesSnoc(p: seq<Entry>, e: Entry)
    requires Roles(Sanitized(p)) == Collapse(Roles(p))
    ensures Roles(Sanitized(p + [e])) == Collapse(Roles(p + [e]))
  {
    SanitizedSnoc(p, e);
    RolesSnoc(p, e);
    CollapseSnoc(Roles(p), e.role);
    AbsorbRoles(Sanitized(p), e);
    if p != [] {
      LastTurnKept(p);
    }
  }

  /** An already alternating dialogue is left as it is, and only such a dialogue is. */
  lemma {:induction false} AlternatingUnchanged(es: seq<Entry>)
    ensures Sanitized(es) == es <==> Alternating(Roles(es))
  {
    SanitizedAlternates(es);
    if es != [] && Alternating(Roles(es)) {
      var p := es[..|es| - 1];
      var e := es[|es| - 1];
      assert es == p + [e];
      RolesSnoc(p, e);
      assert Alternating(Roles(p));
      AlternatingUnchanged(p);
      if p != [] {
        assert Roles(es)[|p| - 1] != Roles(es)[|p|];
      }
    }
  }

  /** One merge step keeps the length, or adds one turn. */
  lemma AbsorbLength(acc: seq<Entry>, e: Entry)
    ensures |Absorb(acc, e)| ==
      if acc != [] && acc[|acc| - 1].role == e.role then |acc| else |acc| + 1
  {
  }

  /** A merge that loses no turn was given an alternating dialogue. */
  lemma {:induction false} NoMergeAlternates(es: seq<Entry>)
    requires |Sanitized(es)| == |es|
    ensures Alternating(Roles(es))
  {
    if es != [] {
      var p := es[..|es| - 1];
      var e := es[|es| - 1];
      AbsorbLength(Sanitized(p), e);
      SanitizedLength(p);
      NoMergeAlternates(p);
      assert es == p + [e];
      RolesSnoc(p, e);
      if p != [] {
        LastTurnKept(p);
        assert Roles(es)[|p| - 1] != Roles(es)[|p|];
      }
    }
  }

  /** No merge happens exactly when the input already alternates. */
  lemma NoMergeIffAlternating(es: seq<Entry>)
    ensures |Sanitized(es)| == |es| <==> Alternating(Roles(es))
  {
    AlternatingUnchanged(es);
    if |Sanitized(es)| == |es| {
      NoMergeAlternates(es);
    }
  }

  lemma JoinSnoc(ts: seq<string>, t: string)
    requires |ts| > 0
    ensures Join(ts + [t]) == Join(ts) + " " + t
  {
    assert (ts + [t])[..|ts|] == ts;
  }

  /** Appending a turn adds a run start exactly when its role differs from the previous one. */
  lemma RunStartsSnoc(p: seq<Entry>, e: Entry)
    ensures RunStarts(Roles(p + [e])) ==
      RunStarts(Roles(p)) + (if p != [] && p[|p| - 1].role == e.role then [] else [|p|])
  {
    var rs := Roles(p + [e]);
    assert rs[..|rs| - 1] == Roles(p);
  }

  /** The turns of run j of es: a maximal block of neighbours sharing one role. */
  function Run(es: seq<Entry>, j: nat): (run: seq<Entry>)
    requires j < |RunStarts(Roles(es))|
    ensures run != []
  {
    var rs := Roles(es);
    var end := RunEnd(rs, j);
    assert RunStarts(rs)[j] < end;
    assert end <= |es|;
    es[RunStarts(rs)[j]..end]
  }

  /** The merged turn that run j of es becomes. */
  function MergedRun(es: seq<Entry>, j: nat): Entry
    requires j < |RunStarts(Roles(es))|
  {
    var run := Run(es, j);
    Entry(run[0].role, Join(Texts(run)))
  }

  /** Every turn of run j has the role of the run's first turn. */
  lemma RunHasOneRole(es: seq<Entry>, j: nat)
    requires j < |RunStarts(Roles(es))|
    ensures forall i :: 0 <= i < |Run(es, j)| ==> Run(es, j)[i].role == Run(es, j)[0].role
  {
    var rs := Roles(es);
    forall i | 0 <= i < |Run(es, j)| ensures Run(es, j)[i].role == Run(es, j)[0].role {
      RunIsUniform(rs, j, RunStarts(rs)[j] + i);
    }
  }

  /** A run of p that does not reach the last turn is unchanged when a turn is appended. */
  lemma SnocKeepsRun(p: seq<Entry>, e: Entry, j: nat)
    requires j < |RunStarts(Roles(p))|
    requires j + 1 < |RunStarts(Roles(p))| || !(p[|p| - 1].role == e.role)
    ensures j < |RunStarts(Roles(p + [e]))| && Run(p + [e], j) == Run(p, j)
  {
    var es := p + [e];
    RunStartsSnoc(p, e);
    var rs := Roles(es);
    var rp := Roles(p);
    assert RunEnd(rs, j) == RunEnd(rp, j);
  }

  /** When the appended turn joins the last run of p, that run grows by it. */
  lemma SnocExtendsRun(p: seq<Entry>, e: Entry)
    requires p != [] && p[|p| - 1].role == e.role
    ensures |RunStarts(Roles(p + [e]))| == |RunStarts(Roles(p))|
    ensures Run(p + [e], |RunStarts(Roles(p))| - 1) == Run(p, |RunStarts(Roles(p))| - 1) + [e]
  {
    var es := p + [e];
    RunStartsSnoc(p, e);
    var rs := Roles(es);
    var rp := Roles(p);
    var n := |RunStarts(rp)|;
    assert RunEnd(rs, n - 1) == |es| && RunEnd(rp, n - 1) == |p|;
    var start := RunStarts(rp)[n - 1];
    assert es[start..|es|] == p[start..|p|] + [e];
  }

  /** When the appended turn starts a new run, that run holds it alone. */
  lemma SnocStartsRun(p: seq<Entry>, e: Entry)
    requires !(p != [] && p[|p| - 1].role == e.role)
    ensures |RunStarts(Roles(p + [e]))| == |RunStarts(Roles(p))| + 1
    ensures Run(p + [e], |RunStarts(Roles(p))|) == [e]
  {
    var es := p + [e];
    RunStartsSnoc(p, e);
    var n := |RunStarts(Roles(p))|;
    assert RunStarts(Roles(es))[n] == |p| && RunEnd(Roles(es), n) == |es|;
  }

  /** A merged run of p that does not reach the last turn is unchanged when a turn is appended. */
  lemma SnocKeepsMergedRun(p: seq<Entry>, e: Entry, j: nat)
    requires j < |RunStarts(Roles(p))|
    requires j + 1 < |RunStarts(Roles(p))| || !(p[|p| - 1].role == e.role)
    ensures j < |RunStarts(Roles(p + [e]))| && MergedRun(p + [e], j) == MergedRun(p, j)
  {
    SnocKeepsRun(p, e, j);
  }

  /** The merged-run description of p's output, for use as an induction hypothesis. */
  predicate MergesRuns(es: seq<Entry>)
  {
    && |Sanitized(es)| == |RunStarts(Roles(es))|
    && forall j :: 0 <= j < |Sanitized(es)| ==> Sanitized(es)[j] == MergedRun(es, j)
  }

  /** Inductive step of SanitizedJoinsRuns when the appended turn joins the last run. */
  lemma SnocMergesRuns(p: seq<Entry>, e: Entry)
    requires MergesRuns(p)
    requires p != [] && p[|p| - 1].role == e.role
    ensures MergesRuns(p + [e])
  {
    var n := |Sanitized(p)|;
    SnocMergedRun(p, e);
    forall j | 0 <= j < n ensures Sanitized(p + [e])[j] == MergedRun(p + [e], j) {
      if j + 1 < n {
        SnocMergedAt(p, e, j);
      }
    }
  }

  /** An output turn before the last is unchanged, and so is its run, when a turn joins the last run. */
  lemma SnocMergedAt(p: seq<Entry>, e: Entry, j: nat)
    requires p != [] && p[|p| - 1].role == e.role
    requires |Sanitized(p)| == |RunStarts(Roles(p))|
    requires j + 1 < |Sanitized(p)| && Sanitized(p)[j] == MergedRun(p, j)
    requires Sanitized(p)[|Sanitized(p)| - 1] == MergedRun(p, |Sanitized(p)| - 1)
    ensures j < |RunStarts(Roles(p + [e]))| && Sanitized(p + [e])[j] == MergedRun(p + [e], j)
  {
    SnocMergedRun(p, e);
    SnocKeepsMergedRun(p, e, j);
  }

  /** The shape of the output when the appended turn joins the last run, in run terms. */
  lemma SnocMergedRun(p: seq<Entry>, e: Entry)
    requires p != [] && p[|p| - 1].role == e.role
    requires |Sanitized(p)| == |RunStarts(Roles(p))|
    requires Sanitized(p)[|Sanitized(p)| - 1] == MergedRun(p, |Sanitized(p)| - 1)
    ensures |RunStarts(Roles(p + [e]))| == |Sanitized(p)|
    ensures Sanitized(p + [e]) ==
      Sanitized(p)[|Sanitized(p)| - 1 := MergedRun(p + [e], |Sanitized(p)| - 1)]
  {
    LastTurnKept(p);
    SanitizedSnoc(p, e);
    MergedRunGrows(p, e);
  }

  lemma SanitizedSnoc(p: seq<Entry>, e: Entry)
    ensures Sanitized(p + [e]) == Absorb(Sanitized(p), e)
  {
    assert (p + [e])[..|p|] == p;
  }

  /** A turn that joins the last run adds a space and its text to that run's merged text. */
  lemma MergedRunGrows(p: seq<Entry>, e: Entry)
    requires p != [] && p[|p| - 1].role == e.role
    ensures |RunStarts(Roles(p + [e]))| == |RunStarts(Roles(p))| > 0
    ensures var n := |RunStarts(Roles(p))|;
      MergedRun(p + [e], n - 1) ==
        Entry(MergedRun(p, n - 1).role, MergedRun(p, n - 1).text + " " + e.text)
  {
    var n := |RunStarts(Roles(p))|;
    SnocExtendsRun(p, e);
    var run := Run(p, n - 1);
    assert Texts(run + [e]) == Texts(run) + [e.text];
    JoinSnoc(Texts(run), e.text);
    assert (run + [e])[0] == run[0];
  }

  /** The shape of the output when the appended turn starts a new run, in run terms. */
  lemma SnocAppended(p: seq<Entry>, e: Entry)
    requires |Sanitized(p)| == |RunStarts(Roles(p))|
    requires !(p != [] && p[|p| - 1].role == e.role)
    ensures |RunStarts(Roles(p + [e]))| == |RunStarts(Roles(p))| + 1
    ensures Sanitized(p + [e]) == Sanitized(p) + [MergedRun(p + [e], |RunStarts(Roles(p))|)]
  {
    if p != [] {
      LastTurnKept(p);
    }
    SanitizedSnoc(p, e);
    SnocStartsRun(p, e);
    MergedRunSingle(p, e);
  }

  /** A turn that starts a new run is that run's merged turn unchanged. */
  lemma MergedRunSingle(p: seq<Entry>, e: Entry)
    requires !(p != [] && p[|p| - 1].role == e.role)
    ensures |RunStarts(Roles(p + [e]))| == |RunStarts(Roles(p))| + 1
    ensures MergedRun(p + [e], |RunStarts(Roles(p))|) == e
  {
    SnocStartsRun(p, e);
    assert Texts([e]) == [e.text];
  }

  /** Inductive step of SanitizedJoinsRuns when the appended turn starts a new run. */
  lemma SnocAppendsRun(p: seq<Entry>, e: Entry)
    requires MergesRuns(p)
    requires !(p != [] && p[|p| - 1].role == e.role)
    ensures MergesRuns(p + [e])
  {
    var es := p + [e];
    var n := |RunStarts(Roles(p))|;
    var Sp := Sanitized(p);
    SnocAppended(p, e);
    var S := Sanitized(es);
    forall j | 0 <= j < |S| ensures S[j] == MergedRun(es, j) {
      if j < n {
        SnocKeepsMergedRun(p, e, j);
        assert S[j] == Sp[j];
      }
    }
  }

  /**
   * The merge is run by run: output turn j is run j of the input merged,
   * with the run's role and the run's texts joined in order with single
   * spaces. With RunStartsSpec and RunHasOneRole this says that each output
   * turn stands for exactly one maximal same-role run.
   */
  lemma {:induction false} SanitizedJoinsRuns(es: seq<Entry>)
    ensures |Sanitized(es)| == |RunStarts(Roles(es))|
    ensures forall j :: 0 <= j < |Sanitized(es)| ==> Sanitized(es)[j] == MergedRun(es, j)
  {
    if es != [] {
      var p := es[..|es| - 1];
      var e := es[|es| - 1];
      assert es == p + [e];
      SanitizedJoinsRuns(p);
      if p != [] && p[|p| - 1].role == e.role {
        SnocMergesRuns(p, e);
      } else {
        SnocAppendsRun(p, e);
      }
    }
  }

  /** Sanitising twice is the same as sanitising once. */
  lemma SanitizedIdempotent(es: seq<Entry>)
    ensures Sanitized(Sanitized(es)) == Sanitized(es)
  {
    SanitizedAlternates(es);
    AlternatingUnchanged(Sanitized(es));
  }
}
