/** The verdict of the `ci` aggregate job over its dependencies. */
module MergeGate {
  import opened Bytes
  import opened Grammar
  import opened Aggregate
  import opened AggregateTokens
  import opened AggregateText

  const DRAFT_GATE := "check-draft"
  const FILTER := "changes"

  /** The jobs a workflow defines beside the aggregate, with the text of their conditions, and the dependencies' results. */
  datatype Workflow = Workflow(jobs: map<string, Option<string>>, results: map<string, string>, run: Run)

  /** None where the job's condition is unreadable. */
  function Selected(w: Workflow, job: string): Option<bool>
    requires job in w.jobs
  {
    var condition := w.jobs[job];
    if condition.None? then Some(true) else EvaluateText(condition.value, w.run)
  }

  /** The other jobs in the order the source reports them. */
  ghost predicate Ordered(w: Workflow, order: seq<string>) {
    forall job :: job in order <==> job in w.jobs && job != DRAFT_GATE && job != FILTER
  }

  /** Both gate jobs skipped: a draft, on which nothing else ran. */
  predicate IsDraft(w: Workflow)
    requires DRAFT_GATE in w.results && FILTER in w.results
  {
    w.results[DRAFT_GATE] == "skipped" && w.results[FILTER] == "skipped"
  }

  /** Both gate jobs succeeded, so the other results mean what they say. */
  predicate IsTrusted(w: Workflow)
    requires DRAFT_GATE in w.results && FILTER in w.results
  {
    w.results[DRAFT_GATE] == "success" && w.results[FILTER] == "success"
  }

  /** The condition, where there is one, is the text of d, and every operand of d resolves. */
  ghost predicate ConditionIs(w: Workflow, job: string, d: Disj)
    requires job in w.jobs
  {
    w.jobs[job].Some? && IsTextOf(w.jobs[job].value, d) && !SomeUnresolvable(Operands(d), w.run)
  }

  ghost predicate IsReadable(w: Workflow, job: string)
    requires job in w.jobs
  {
    w.jobs[job].Some? ==> exists d :: ConditionIs(w, job, d)
  }

  /** Nothing selects the job out of the run: it has no condition, or one that means true. */
  ghost predicate IsSelected(w: Workflow, job: string)
    requires job in w.jobs
  {
    w.jobs[job].Some? ==> exists d :: ConditionIs(w, job, d) && MeanDisj(d, w.run) == Some(true)
  }

  /** The job neither failed nor was cancelled, and succeeded where it was selected. */
  ghost predicate IsSound(w: Workflow, job: string)
    requires job in w.jobs && job in w.results
  {
    w.results[job] != "failure" && w.results[job] != "cancelled" && (IsSelected(w, job) ==> w.results[job] == "success")
  }

  lemma SelectedIff(w: Workflow, job: string)
    requires job in w.jobs
    ensures Selected(w, job).Some? <==> IsReadable(w, job)
    ensures Selected(w, job) == Some(true) <==> IsSelected(w, job)
  {
    hide EvaluateText, ReadText, Collapse, ReadsDisj, Operands, SomeUnresolvable;
    if w.jobs[job].Some? {
      TextAnswersIff(w.jobs[job].value, w.run);
      if d :| IsTextOf(w.jobs[job].value, d) && !SomeUnresolvable(Operands(d), w.run) {
        assert ConditionIs(w, job, d);
        assert EvaluateText(w.jobs[job].value, w.run) == MeanDisj(d, w.run);
      }
    }
  }

  /** The exit code; the source raises KeyError where one of its two gate jobs is not defined. */
  method Verdict(w: Workflow, order: seq<string>) returns (code: int)
    requires Ordered(w, order) && DRAFT_GATE in w.jobs && FILTER in w.jobs
    ensures 0 <= code <= 3 && (code == 3 <==> w.run.event == "")
    ensures code == 0 <==>
              && w.run.event != "" && w.jobs.Keys == w.results.Keys
              && (IsDraft(w) || (IsTrusted(w) && forall job :: job in order ==> IsReadable(w, job) && IsSound(w, job)))
    ensures code == 1 <==>
              && w.run.event != ""
              && (w.jobs.Keys == w.results.Keys ==>
                    && !IsDraft(w)
                    && (IsTrusted(w) ==> (forall job :: job in order ==> IsReadable(w, job)) && exists job :: job in order && !IsSound(w, job)))
    ensures code == 2 <==>
              && w.run.event != "" && w.jobs.Keys == w.results.Keys
              && IsTrusted(w) && exists job :: job in order && !IsReadable(w, job)
  {
    hide Selected, IsReadable, IsSelected;
    if w.run.event == "" {
      return 3;
    }
    if w.jobs.Keys != w.results.Keys {
      return 1;
    }
    var draft, filter := w.results[DRAFT_GATE], w.results[FILTER];
    if draft == "skipped" {
      return if filter != "skipped" then 1 else 0;
    }
    if draft != "success" || filter != "success" {
      return 1;
    }
    var failures: seq<string> := [];
    for i := 0 to |order|
      invariant failures == [] <==> forall j :: 0 <= j < i ==> IsSound(w, order[j])
      invariant forall j :: 0 <= j < i ==> IsReadable(w, order[j])
    {
      var job := order[i];
      assert job in order;
      var result := w.results[job];
      var expected := Selected(w, job);
      SelectedIff(w, job);
      if expected.None? {
        return 2;
      }
      if result == "failure" || result == "cancelled" {
        failures := failures + [job];
      } else if expected.value && result != "success" {
        failures := failures + [job];
      }
    }
    assert forall j :: 0 <= j < |order| ==> order[j] in order;
    return if failures != [] then 1 else 0;
  }

  /** Green, and no draft: both gate jobs succeeded, no job failed or was cancelled, every condition reads, and a job
      that did not succeed has a condition whose meaning is false. */
  lemma GreenMeansSelectedSucceeded(w: Workflow, job: string)
    requires job in w.jobs && job in w.results && IsReadable(w, job)
    ensures IsSound(w, job) <==>
              || w.results[job] == "success"
              || (w.results[job] !in {"failure", "cancelled"} &&
                  exists d :: ConditionIs(w, job, d) && MeanDisj(d, w.run) == Some(false))
  {
    hide ReadText, Collapse, ReadsDisj, Operands, SomeUnresolvable, MeanDisj;
    SelectedIff(w, job);
    if w.jobs[job].Some? {
      var d :| ConditionIs(w, job, d);
      MeaningIs(w, job, d);
      forall d' | ConditionIs(w, job, d')
        ensures MeanDisj(d', w.run) == MeanDisj(d, w.run)
      {
        MeaningIs(w, job, d');
      }
    }
  }

  lemma MeaningIs(w: Workflow, job: string, d: Disj)
    requires job in w.jobs && ConditionIs(w, job, d)
    ensures MeanDisj(d, w.run).Some? && MeanDisj(d, w.run) == EvaluateText(w.jobs[job].value, w.run)
  {
    hide EvaluateText, ReadText, Collapse, ReadsDisj, Operands, SomeUnresolvable;
    TextAnswersIff(w.jobs[job].value, w.run);
  }
}
