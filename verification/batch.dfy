/**
 * `get_requesters`: reading the instruction lines in order into jobs, and
 * turning each job that is not already produced into a ready request.
 */
module Batch {
  import opened Wrappers
  import opened Requests
  import Parser
  import ExistingIndex
  import Paths
  import TimeWindow
  import Text

  /** Every line classified, in order. */
  function Classified(lines: seq<string>): (ls: seq<Parser.Line>)
    ensures |ls| == |lines|
  {
    seq(|lines|, k requires 0 <= k < |lines| => Parser.Classify(lines[k]))
  }

  /** The jobs of classified lines before the first stop line, in order. */
  function Jobs(ls: seq<Parser.Line>): (jobs: seq<Job>)
    ensures |jobs| <= |ls|
  {
    if |ls| == 0 then []
    else match ls[0]
      case Stop => []
      case Fields(job) => [job] + Jobs(ls[1..])
      case _ => Jobs(ls[1..])
  }

  /**
   * The jobs of the lines before the first stop line, in file order
   * (what `get_requesters(lines, return_args=True)` returns).
   */
  function Args(lines: seq<string>): (jobs: seq<Job>)
    ensures |jobs| <= |lines|
  {
    Jobs(Classified(lines))
  }

  /** The output name of every job read is free of `?` and `"`. */
  lemma ArgsCleanNames(lines: seq<string>)
    ensures forall j :: j in Args(lines) ==> '?' !in j.output && '"' !in j.output
  {
    var ls := Classified(lines);
    forall k | 0 <= k < |ls| && ls[k].Fields?
      ensures CleanOutput(ls[k].job)
    {
      Parser.ClassifyShape(lines[k]);
    }
    JobsClean(ls);
  }

  /** The output name of `job` is free of `?` and `"`. */
  predicate CleanOutput(job: Job)
  {
    '?' !in job.output && '"' !in job.output
  }

  lemma {:induction false} JobsClean(ls: seq<Parser.Line>)
    requires forall k :: 0 <= k < |ls| && ls[k].Fields? ==> CleanOutput(ls[k].job)
    ensures forall j :: j in Jobs(ls) ==> CleanOutput(j)
  {
    if |ls| > 0 {
      assert forall k :: 0 <= k < |ls[1..]| ==> ls[1..][k] == ls[k + 1];
      JobsClean(ls[1..]);
    }
  }

  /** What one job contributes: a request, nothing, or the message of an exception. */
  type Admission = Result<Option<Requester>, string>

  /**
   * What one job contributes in the default mode: nothing when its output is
   * indexed, not ready, or already on disk (whatever its size); the request
   * otherwise; or the exception building it raised.
   */
  function Admit(job: Job, env: Env, names: seq<string>): (a: Admission)
    ensures a.Failure? <==> !ExistingIndex.Exists(names, job.output) && Build(job, env).Raised?
    ensures a.Success? && a.value.Some? <==>
              && !ExistingIndex.Exists(names, job.output)
              && Build(job, env).Ready?
              && !env.isFile(Build(job, env).requester.output)
    ensures a.Success? && a.value.Some? ==> Build(job, env) == Ready(a.value.value)
  {
    if ExistingIndex.Exists(names, job.output) then Success(None)
    else match Build(job, env)
      case Raised(e) => Failure(e)
      case NotReady(_) => Success(None)
      case Ready(r) => if env.isFile(r.output) then Success(None) else Success(Some(r))
  }

  /** `Admit` for one environment and one index, as a function of the job. */
  function AdmitIn(env: Env, names: seq<string>): Job -> Admission
  {
    job => Admit(job, env, names)
  }

  /** `done` followed by the requests of `rest`, or the error of `rest`. */
  function Prepend(done: seq<Requester>, rest: Result<seq<Requester>, string>): (r: Result<seq<Requester>, string>)
    ensures r.Success? <==> rest.Success?
  {
    match rest
    case Success(more) => Success(done + more)
    case Failure(e) => Failure(e)
  }

  /** The request a job contributes, as a list of at most one. */
  function Contribution(first: Option<Requester>): seq<Requester>
  {
    if first.Some? then [first.value] else []
  }

  /** The requests `admit` makes of `jobs`, in order, or the first exception. */
  function Select(jobs: seq<Job>, admit: Job -> Admission): (r: Result<seq<Requester>, string>)
    ensures r.Success? ==> |r.value| <= |jobs|
  {
    if |jobs| == 0 then Success([])
    else match admit(jobs[0])
      case Failure(e) => Failure(e)
      case Success(first) => Prepend(Contribution(first), Select(jobs[1..], admit))
  }

  /** The three results `get_requesters` can have. */
  datatype Outcome =
    | ArgList(args: seq<Job>)                  // with `return_args`
    | Requesters(requesters: seq<Requester>)   // without it
    | Aborted(error: string)                   // an exception escaped

  /**
   * `get_requesters(lines, return_args)` over the files `found` under the
   * output roots.
   */
  method GetRequesters(lines: seq<string>, found: seq<string>, env: Env, returnArgs: bool) returns (out: Outcome)
    ensures returnArgs ==> out == ArgList(Args(lines))
    ensures !returnArgs ==> out == match Select(Args(lines), AdmitIn(env, ExistingIndex.Index(found)))
                                   case Success(rs) => Requesters(rs)
                                   case Failure(e) => Aborted(e)
  {
    var names := ExistingIndex.Index(found);
    out := Collect(lines, AdmitIn(env, names), returnArgs);
  }

  /**
   * The loop of `get_requesters`, for any decision `admit` on each job: one
   * pass over the lines, stopping at the first stop line, and at the first
   * exception.
   */
  method Collect(lines: seq<string>, admit: Job -> Admission, returnArgs: bool) returns (out: Outcome)
    ensures returnArgs ==> out == ArgList(Args(lines))
    ensures !returnArgs ==> out == match Select(Args(lines), admit)
                                   case Success(rs) => Requesters(rs)
                                   case Failure(e) => Aborted(e)
  {
    var args: seq<Job> := [];
    var requesters: seq<Requester> := [];
    var stopped := false;
    var i := 0;
    ghost var ls := Classified(lines);
    assert ls[i..] == ls;
    assert Args(lines) == args + Jobs(ls[i..]);
    PrependNothing(Select(Args(lines), admit));
    while i < |lines| && !stopped
      invariant 0 <= i <= |lines|
      invariant stopped ==> Jobs(ls[i..]) == []
      invariant Args(lines) == args + Jobs(ls[i..])
      invariant returnArgs ==> requesters == []
      invariant !returnArgs ==>
                  Select(Args(lines), admit) == Prepend(requesters, Select(Jobs(ls[i..]), admit))
      decreases |lines| - i, !stopped
    {
      var line := Parser.Classify(lines[i]);
      assert line == ls[i];
      if line.Fields? {
        var job := line.job;
        FieldsStep(ls, i, args);
        if !returnArgs {
          var abort;
          abort, requesters := Take(requesters, job, Jobs(ls[i + 1..]), admit);
          if abort.Some? {
            return Aborted(abort.value);
          }
        }
        args := args + [job];
        i := i + 1;
      } else if line.Stop? {
        StopStep(ls, i);
        stopped := true;
      } else {
        SkipStep(ls, i);
        i := i + 1;
      }
    }
    if !stopped {
      assert ls[i..] == [];
    }
    assert Args(lines) == args;
    if returnArgs {
      out := ArgList(args);
    } else {
      out := Requesters(requesters);
    }
  }

  /**
   * One job of the loop: the exception `admit` raises on it, or the requests
   * so far followed by what it contributes.
   */
  method Take(requesters: seq<Requester>, job: Job, ghost rest: seq<Job>, admit: Job -> Admission)
    returns (abort: Option<string>, more: seq<Requester>)
    ensures abort.Some? ==> Prepend(requesters, Select([job] + rest, admit)) == Failure(abort.value)
    ensures abort.None? ==> Prepend(requesters, Select([job] + rest, admit)) == Prepend(more, Select(rest, admit))
    ensures abort.Some? <==> admit(job).Failure?
    ensures abort.Some? ==> abort.value == admit(job).error
    ensures abort.None? ==> more == requesters + Contribution(admit(job).value)
  {
    SelectStep(job, rest, admit);
    match admit(job)
    case Failure(e) =>
      abort, more := Some(e), requesters;
    case Success(first) =>
      var head := Contribution(first);
      PrependTwice(requesters, head, Select(rest, admit));
      abort, more := None, requesters + head;
  }

  /** A comment or malformed line contributes no job. */
  lemma SkipStep(ls: seq<Parser.Line>, i: int)
    requires 0 <= i < |ls|
    requires ls[i].Comment? || ls[i].Malformed?
    ensures Jobs(ls[i..]) == Jobs(ls[i + 1..])
  {
    assert ls[i..][0] == ls[i] && ls[i..][1..] == ls[i + 1..];
  }

  /** A stop line ends the jobs. */
  lemma StopStep(ls: seq<Parser.Line>, i: int)
    requires 0 <= i < |ls|
    requires ls[i].Stop?
    ensures Jobs(ls[i..]) == []
  {
    assert ls[i..][0] == ls[i];
  }

  /** A line of fields appends its job. */
  lemma FieldsStep(ls: seq<Parser.Line>, i: int, args: seq<Job>)
    requires 0 <= i < |ls|
    requires ls[i].Fields?
    ensures Jobs(ls[i..]) == [ls[i].job] + Jobs(ls[i + 1..])
    ensures args + Jobs(ls[i..]) == (args + [ls[i].job]) + Jobs(ls[i + 1..])
  {
    assert ls[i..][0] == ls[i] && ls[i..][1..] == ls[i + 1..];
  }

  /** One step of `Select`. */
  lemma SelectStep(job: Job, rest: seq<Job>, admit: Job -> Admission)
    ensures admit(job).Failure? ==> Select([job] + rest, admit) == Failure(admit(job).error)
    ensures admit(job).Success? ==>
              Select([job] + rest, admit) == Prepend(Contribution(admit(job).value), Select(rest, admit))
  {
    assert ([job] + rest)[0] == job && ([job] + rest)[1..] == rest;
  }

  lemma PrependNothing(r: Result<seq<Requester>, string>)
    ensures Prepend([], r) == r
  {
    if r.Success? {
      assert [] + r.value == r.value;
    }
  }

  lemma PrependTwice(a: seq<Requester>, b: seq<Requester>, r: Result<seq<Requester>, string>)
    ensures Prepend(a, Prepend(b, r)) == Prepend(a + b, r)
  {
    if r.Success? {
      assert a + (b + r.value) == (a + b) + r.value;
    }
  }

  /** Every request selected is what `admit` makes of one of the jobs. */
  lemma {:induction false} SelectSound(jobs: seq<Job>, admit: Job -> Admission, r: Requester)
    requires Select(jobs, admit).Success?
    requires r in Select(jobs, admit).value
    ensures exists k :: 0 <= k < |jobs| && admit(jobs[k]) == Success(Some(r))
  {
    var head := Contribution(admit(jobs[0]).value);
    var rest := Select(jobs[1..], admit);
    assert Select(jobs, admit).value == head + rest.value;
    if r in head {
      assert admit(jobs[0]) == Success(Some(r));
    } else {
      SelectSound(jobs[1..], admit, r);
      var k :| 0 <= k < |jobs[1..]| && admit(jobs[1..][k]) == Success(Some(r));
      assert jobs[k + 1] == jobs[1..][k];
    }
  }

  /** Every request `admit` makes of one of the jobs is selected. */
  lemma {:induction false} SelectComplete(jobs: seq<Job>, admit: Job -> Admission, k: int)
    requires Select(jobs, admit).Success?
    requires 0 <= k < |jobs|
    requires admit(jobs[k]).Success? && admit(jobs[k]).value.Some?
    ensures admit(jobs[k]).value.value in Select(jobs, admit).value
  {
    var head := Contribution(admit(jobs[0]).value);
    var rest := Select(jobs[1..], admit);
    assert Select(jobs, admit).value == head + rest.value;
    var r := admit(jobs[k]).value.value;
    if k == 0 {
      assert (head + rest.value)[0] == r;
    } else {
      assert jobs[1..][k - 1] == jobs[k];
      SelectComplete(jobs[1..], admit, k - 1);
      assert r in rest.value;
    }
  }

  /** The selection fails exactly when `admit` fails on some job. */
  lemma {:induction false} SelectFails(jobs: seq<Job>, admit: Job -> Admission)
    ensures Select(jobs, admit).Failure? <==> exists k :: 0 <= k < |jobs| && admit(jobs[k]).Failure?
  {
    if |jobs| > 0 {
      SelectFails(jobs[1..], admit);
      if admit(jobs[0]).Success? {
        if exists k :: 0 <= k < |jobs| && admit(jobs[k]).Failure? {
          var k :| 0 <= k < |jobs| && admit(jobs[k]).Failure?;
          assert jobs[1..][k - 1] == jobs[k];
        }
        if exists k :: 0 <= k < |jobs[1..]| && admit(jobs[1..][k]).Failure? {
          var k :| 0 <= k < |jobs[1..]| && admit(jobs[1..][k]).Failure?;
          assert jobs[k + 1] == jobs[1..][k];
        }
      }
    }
  }

  /** When `admit` makes nothing of any job, the selection is empty. */
  lemma {:induction false} SelectNothing(jobs: seq<Job>, admit: Job -> Admission)
    requires forall k :: 0 <= k < |jobs| ==> admit(jobs[k]) == Success(None)
    ensures Select(jobs, admit) == Success([])
  {
    if |jobs| > 0 {
      assert admit(jobs[0]) == Success(None);
      forall k | 0 <= k < |jobs[1..]|
        ensures admit(jobs[1..][k]) == Success(None)
      {
        assert jobs[1..][k] == jobs[k + 1];
      }
      SelectNothing(jobs[1..], admit);
    }
  }

  /**
   * Once a run has written its outputs, a job admitted before is not admitted
   * again: if it yielded a request, its output is now on disk. This needs its
   * input candidate not to have appeared in the meantime, so that it builds
   * as before.
   */
  lemma AdmitAgain(job: Job, env: Env, later: Env, names: seq<string>)
    requires Admit(job, env, names).Success?
    requires Grown(env, later)
    requires later.isFile(Candidate(job.input, env)) == env.isFile(Candidate(job.input, env))
    requires Admit(job, env, names).value.Some? ==> later.isFile(Admit(job, env, names).value.value.output)
    ensures Admit(job, later, names) == Success(None)
  {
    BuildUnchanged(job, env, later);
  }

  /**
   * Running the same jobs again once the selected requests have written
   * their outputs selects nothing, provided files are only ever added and no
   * job's input candidate has appeared in between.
   */
  lemma RerunSelectsNothing(jobs: seq<Job>, env: Env, later: Env, names: seq<string>)
    requires Select(jobs, AdmitIn(env, names)).Success?
    requires Grown(env, later)
    requires forall k :: 0 <= k < |jobs| ==>
               later.isFile(Candidate(jobs[k].input, env)) == env.isFile(Candidate(jobs[k].input, env))
    requires forall r :: r in Select(jobs, AdmitIn(env, names)).value ==> later.isFile(r.output)
    ensures Select(jobs, AdmitIn(later, names)) == Success([])
  {
    var admit, again := AdmitIn(env, names), AdmitIn(later, names);
    var selected := Select(jobs, admit).value;
    forall k | 0 <= k < |jobs|
      ensures again(jobs[k]) == Success(None)
    {
      SelectedEach(jobs, admit, k);
      RerunOne(jobs[k], env, later, names, selected);
    }
    SelectNothing(jobs, again);
  }

  /**
   * A job whose input candidate appears between two runs is passed over by the
   * first, as not ready, and admitted by the second.
   */
  lemma AppearedInputAdmitted(job: Job, env: Env, later: Env, names: seq<string>)
    requires Grown(env, later)
    requires !env.isFile(Candidate(job.input, env)) && later.isFile(Candidate(job.input, env))
    requires !(IsRemote(job.input) && env.download(job.input).DownloadError?)
    requires !ExistingIndex.Exists(names, job.output)
    requires TimeWindow.Duration(job.start, job.end).Success? && !Text.StartsWith(job.output, "-")
    requires !later.isFile(Paths.Join(env.outputFolder, job.output))
    ensures Admit(job, env, names) == Success(None)
    ensures Build(job, later).Ready? && Admit(job, later, names) == Success(Some(Build(job, later).requester))
  {
    InputAppears(job, env, later);
  }

  /**
   * Rerunning is not idempotent when one line's input is another line's
   * output: the first run selects only the earlier request, because the later
   * job's input does not exist yet, and the second run selects the later one.
   */
  lemma ChainedJobRunsOnRerun(first: Job, second: Job, env: Env, later: Env, names: seq<string>, r: Requester)
    requires Grown(env, later)
    requires Admit(first, env, names) == Success(Some(r))
    requires later.isFile(Candidate(first.input, env)) == env.isFile(Candidate(first.input, env))
    requires later.isFile(r.output)
    requires !IsRemote(second.input) && Paths.Join(env.inputFolder, second.input) == r.output
    requires !ExistingIndex.Exists(names, second.output)
    requires TimeWindow.Duration(second.start, second.end).Success? && !Text.StartsWith(second.output, "-")
    requires !later.isFile(Paths.Join(env.outputFolder, second.output))
    ensures Select([first, second], AdmitIn(env, names)) == Success([r])
    ensures Build(second, later).Ready?
    ensures Select([first, second], AdmitIn(later, names)) == Success([Build(second, later).requester])
  {
    var admit, again := AdmitIn(env, names), AdmitIn(later, names);
    assert !env.isFile(r.output);
    assert Candidate(second.input, env) == r.output;
    AdmitAgain(first, env, later, names);
    AppearedInputAdmitted(second, env, later, names);
    assert admit(first) == Success(Some(r)) && admit(second) == Success(None);
    assert again(first) == Success(None) && again(second) == Success(Some(Build(second, later).requester));
    var r2 := Build(second, later).requester;
    SelectTwo(first, second, admit);
    assert Contribution(Some(r)) + Contribution(None) == [r];
    SelectTwo(first, second, again);
    assert Contribution(None) + Contribution(Some(r2)) == [r2];
  }

  /** The selection of two jobs that are both admitted. */
  lemma SelectTwo(first: Job, second: Job, admit: Job -> Admission)
    requires admit(first).Success? && admit(second).Success?
    ensures Select([first, second], admit) ==
              Success(Contribution(admit(first).value) + Contribution(admit(second).value))
  {
    assert [first, second] == [first] + [second] && [second] == [second] + [];
    var one, two := Contribution(admit(first).value), Contribution(admit(second).value);
    SelectStep(second, [], admit);
    assert two + [] == two;
    assert Select([second], admit) == Success(two);
    SelectStep(first, [second], admit);
    assert Select([first, second], admit) == Prepend(one, Success(two));
  }

  /** In a successful selection every job was admitted, and its request, if any, selected. */
  lemma SelectedEach(jobs: seq<Job>, admit: Job -> Admission, k: int)
    requires Select(jobs, admit).Success?
    requires 0 <= k < |jobs|
    ensures admit(jobs[k]).Success?
    ensures admit(jobs[k]).value.Some? ==> admit(jobs[k]).value.value in Select(jobs, admit).value
  {
    SelectFails(jobs, admit);
    if admit(jobs[k]).value.Some? {
      SelectComplete(jobs, admit, k);
    }
  }

  /** `AdmitAgain`, for a job whose request, if any, is among `selected`. */
  lemma RerunOne(job: Job, env: Env, later: Env, names: seq<string>, selected: seq<Requester>)
    requires Admit(job, env, names).Success?
    requires Grown(env, later)
    requires later.isFile(Candidate(job.input, env)) == env.isFile(Candidate(job.input, env))
    requires Admit(job, env, names).value.Some? ==> Admit(job, env, names).value.value in selected
    requires forall r :: r in selected ==> later.isFile(r.output)
    ensures Admit(job, later, names) == Success(None)
  {
    AdmitAgain(job, env, later, names);
  }

  /** No line of `ls` is a stop line. */
  predicate StopFree(ls: seq<Parser.Line>)
  {
    forall k :: 0 <= k < |ls| ==> !ls[k].Stop?
  }

  /** With no stop line in `pre`, the jobs of `pre + post` are those of `pre` then those of `post`. */
  lemma {:induction false} JobsAppend(pre: seq<Parser.Line>, post: seq<Parser.Line>)
    requires StopFree(pre)
    ensures Jobs(pre + post) == Jobs(pre) + Jobs(post)
  {
    if |pre| > 0 {
      var all := pre + post;
      assert all[0] == pre[0] && all[1..] == pre[1..] + post;
      assert StopFree(pre[1..]) by {
        assert forall k :: 0 <= k < |pre[1..]| ==> pre[1..][k] == pre[k + 1];
      }
      JobsAppend(pre[1..], post);
      if pre[0].Fields? {
        var x, y, z := [pre[0].job], Jobs(pre[1..]), Jobs(post);
        assert x + (y + z) == (x + y) + z;
      }
    } else {
      assert pre + post == post;
    }
  }

  /** Classifying lines one by one commutes with concatenation. */
  lemma ClassifiedAppend(a: seq<string>, b: seq<string>)
    ensures Classified(a + b) == Classified(a) + Classified(b)
  {
    var ab, x, y := Classified(a + b), Classified(a), Classified(b);
    forall k | 0 <= k < |a + b|
      ensures ab[k] == (x + y)[k]
    {
      if k < |a| {
        assert (a + b)[k] == a[k];
      } else {
        assert (a + b)[k] == b[k - |a|];
      }
    }
  }

  /** Nothing after the first stop line is read. */
  lemma StopCutsOff(pre: seq<string>, stop: string, post: seq<string>)
    requires forall k :: 0 <= k < |pre| ==> !Parser.Classify(pre[k]).Stop?
    requires Parser.Classify(stop).Stop?
    ensures Args(pre + [stop] + post) == Args(pre)
  {
    var tail := [stop] + post;
    assert pre + [stop] + post == pre + tail;
    ClassifiedAppend(pre, tail);
    JobsAppend(Classified(pre), Classified(tail));
    assert Classified(tail)[0] == Parser.Classify(stop);
    assert Jobs(Classified(pre)) + [] == Jobs(Classified(pre));
  }

  /** A comment or malformed line can be removed without changing the jobs. */
  lemma SkippedLineIgnored(pre: seq<string>, line: string, post: seq<string>)
    requires Parser.Classify(line).Comment? || Parser.Classify(line).Malformed?
    ensures Args(pre + [line] + post) == Args(pre + post)
  {
    var one := Classified([line]);
    assert one[0] == Parser.Classify(line);
    ClassifiedAppend(pre, [line]);
    ClassifiedAppend(pre + [line], post);
    ClassifiedAppend(pre, post);
    JobsSkip(Classified(pre), one[0], Classified(post));
    assert Classified(pre) + one == Classified(pre) + [one[0]];
  }

  /** A comment or malformed line anywhere contributes no job. */
  lemma {:induction false} JobsSkip(pre: seq<Parser.Line>, line: Parser.Line, post: seq<Parser.Line>)
    requires line.Comment? || line.Malformed?
    ensures Jobs(pre + [line] + post) == Jobs(pre + post)
  {
    if |pre| > 0 {
      assert (pre + [line] + post)[0] == pre[0] && (pre + [line] + post)[1..] == pre[1..] + [line] + post;
      assert (pre + post)[0] == pre[0] && (pre + post)[1..] == pre[1..] + post;
      JobsSkip(pre[1..], line, post);
    } else {
      assert pre + [line] + post == [line] + post;
      assert ([line] + post)[0] == line && ([line] + post)[1..] == post;
      assert pre + post == post;
    }
  }
}
