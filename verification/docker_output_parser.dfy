/** `DockerBuildOutputParser` and the two documents it updates in place. Each
    method is proved to change the objects exactly as the value-level model in
    `BuildLog` says, so the properties proved there hold of the objects. */
module DockerOutputParser {
  import opened PyStr
  import opened BuildLog

  /** The fields of a `Deploy Candidate Build Step` document the parser uses. */
  class BuildStep {
    const stepSlug: string
    var stepIndex: Option<StepIndex>
    var command: string
    var status: Status
    var output: string
    var cached: bool
    var hash: Option<string>
    var duration: Option<real>

    /** The values of the step's mutable fields. */
    function Record(): StepRecord
      reads this
    {
      StepRecord(stepIndex, command, status, output, cached, hash, duration)
    }

    constructor (slug: string, index: Option<StepIndex>, cmd: string)
      ensures stepSlug == slug
      ensures Record() == StepRecord(index, cmd, Pending, [], false, None, None)
    {
      stepSlug := slug;
      stepIndex := index;
      command := cmd;
      status := Pending;
      output := [];
      cached := false;
      hash := None;
      duration := None;
    }

    /** The branches of `_update_dc_build_step`, applied to this step. What
        they raise is returned. */
    method Update(split: IndexSplit, parseFloat: string -> Option<real>) returns (error: Option<Error>)
      modifies this
      ensures (Record(), error) == UpdateRecord(old(Record()), split, parseFloat)
    {
      var line := split.line;
      error := None;
      if split.isUnusual {
        output := output + line + "\n";
      } else if StartsWith(line, "sha256:") {
        hash := Some(Drop(line, 7));
      } else if StartsWith(line, "DONE") {
        error := Done(line, parseFloat);
      } else {
        Other(line);
      }
    }

    /** A `DONE` line: the status first, then the duration. */
    method Done(line: string, parseFloat: string -> Option<real>) returns (error: Option<Error>)
      modifies this
      ensures (Record(), error) == DoneRecord(old(Record()), line, parseFloat)
    {
      status := Success;
      error := None;
      var words := Words(line);
      if |words| < 2 {
        error := Some(MissingDuration);
      } else {
        match parseFloat(DropLast(words[1]))
        case None =>
          error := Some(MalformedDuration);
        case Some(seconds) =>
          duration := Some(seconds);
      }
    }

    /** A `CACHED` line, an `ERROR` line or any other line. */
    method Other(line: string)
      modifies this
      ensures Record() == OtherRecord(old(Record()), line)
    {
      if line == "CACHED" {
        status := Success;
        cached := true;
      } else if StartsWith(line, "ERROR") {
        status := Failure;
        output := output + Drop(line, 7) + "\n";
      } else {
        output := output + AfterFirst(line, ' ') + "\n";
      }
    }

    /** The step's part of `_add_step_to_steps_dict`: its index, command,
        status and output are set for the step that starts. */
    method Start(index: StepIndex, start: StartLine)
      modifies this
      ensures Record() == StartRecord(old(Record()), index, start)
    {
      stepIndex := Some(index);
      command := start.command;
      status := Running;
      output := [];
      if start.stageSlug == "apps" {
        command := "bench get-app " + start.stepSlug;
      }
    }
  }

  /** The fields of a `Deploy Candidate` document the parser uses. */
  class DeployCandidate {
    const buildSteps: seq<BuildStep>
    var buildOutput: string
    var dockerImageId: Option<string>

    constructor (steps: seq<BuildStep>)
      ensures buildSteps == steps && buildOutput == [] && dockerImageId == None
    {
      buildSteps := steps;
      buildOutput := [];
      dockerImageId := None;
    }
  }

  /** `{bs.step_index: bs for bs in build_steps}`: each step under the index it
      has now, a later step replacing an earlier one with the same index
      (`IndexMapLastWins`). A step without an index is left out: no line can
      carry that key. */
  function IndexMap(bs: seq<BuildStep>): (r: map<StepIndex, BuildStep>)
    reads bs
    ensures forall i | i in r :: r[i] in bs && r[i].stepIndex == Some(i)
    ensures forall j | 0 <= j < |bs| && bs[j].stepIndex.Some? :: bs[j].stepIndex.value in r
    decreases |bs|
  {
    if bs == [] then map[]
    else
      var init := bs[..|bs| - 1];
      var r := IndexMap(init);
      var b := bs[|bs| - 1];
      assert forall j | 0 <= j < |bs| - 1 :: bs[j] == init[j];
      if b.stepIndex.Some? then r[b.stepIndex.value := b] else r
  }

  /** The step under an index is the last step that has it. */
  lemma {:induction false} IndexMapLastWins(bs: seq<BuildStep>, j: nat)
    requires j < |bs| && bs[j].stepIndex.Some?
    requires forall l | j < l < |bs| :: bs[l].stepIndex != bs[j].stepIndex
    ensures IndexMap(bs)[bs[j].stepIndex.value] == bs[j]
    decreases |bs|
  {
    if j < |bs| - 1 {
      var init := bs[..|bs| - 1];
      assert init[j] == bs[j];
      IndexMapLastWins(init, j);
    }
  }

  /** `{bs.step_slug: bs for bs in build_steps}`, a later step winning
      (`SlugMapLastWins`). */
  function SlugMap(bs: seq<BuildStep>): (r: map<string, BuildStep>)
    ensures forall s | s in r :: r[s] in bs && r[s].stepSlug == s
    ensures forall j | 0 <= j < |bs| :: bs[j].stepSlug in r
    decreases |bs|
  {
    if bs == [] then map[]
    else
      var init := bs[..|bs| - 1];
      var r := SlugMap(init);
      var b := bs[|bs| - 1];
      assert forall j | 0 <= j < |bs| - 1 :: bs[j] == init[j];
      r[b.stepSlug := b]
  }

  /** The step under a slug is the last step that has it. */
  lemma {:induction false} SlugMapLastWins(bs: seq<BuildStep>, j: nat)
    requires j < |bs|
    requires forall l | j < l < |bs| :: bs[l].stepSlug != bs[j].stepSlug
    ensures SlugMap(bs)[bs[j].stepSlug] == bs[j]
    decreases |bs|
  {
    if j < |bs| - 1 {
      var init := bs[..|bs| - 1];
      assert init[j] == bs[j];
      SlugMapLastWins(init, j);
    }
  }

  class DockerBuildOutputParser {
    const dc: DeployCandidate
    const env: Env
    /** Built once, from the step indexes and slugs the steps have at construction. */
    const stepsByIndex: map<StepIndex, BuildStep>
    const stepsBySlug: map<string, BuildStep>
    var lines: seq<string>
    var steps: map<StepIndex, BuildStep>

    /** Every step the parser refers to belongs to the candidate, and `steps`
        gets an int key before any tuple key. */
    ghost predicate Valid()
      reads this, dc
    {
      && (forall i | i in steps :: steps[i] in dc.buildSteps)
      && (forall i | i in stepsByIndex :: stepsByIndex[i] in dc.buildSteps)
      && (forall s | s in stepsBySlug :: stepsBySlug[s] in dc.buildSteps)
      && WellKeyed(steps.Keys)
    }

    /** The build steps' records, by step. */
    function Records(): map<BuildStep, StepRecord>
      reads dc.buildSteps
    {
      map b | b in dc.buildSteps :: b.Record()
    }

    /** The whole state as a value of the model. */
    function State(): (m: Model<BuildStep>)
      reads this, dc, dc.buildSteps
    {
      Model(lines, steps, stepsByIndex, stepsBySlug, Records(), dc.dockerImageId, dc.buildOutput)
    }

    lemma ValidState()
      requires Valid()
      ensures Inv(State())
    {
    }

    /** `__init__`: no lines, no steps, and the two lookup maps. */
    constructor (dc: DeployCandidate, env: Env)
      ensures this.dc == dc && this.env == env && Valid()
      ensures lines == [] && steps == map[]
      ensures stepsByIndex == IndexMap(dc.buildSteps) && stepsBySlug == SlugMap(dc.buildSteps)
    {
      var byIndex := IndexMap(dc.buildSteps);
      var bySlug := SlugMap(dc.buildSteps);
      this.dc := dc;
      this.env := env;
      stepsByIndex := byIndex;
      stepsBySlug := bySlug;
      lines := [];
      steps := map[];
    }

    /** `parse`: every line in turn, then `_end_parsing`. */
    method Parse(output: seq<string>)
      requires Valid()
      modifies this, dc, dc.buildSteps
      ensures Valid()
      ensures State() == EndParsing(ApplyAll(old(State()), output, env))
    {
      ValidState();
      var i := 0;
      while i < |output|
        invariant 0 <= i <= |output|
        invariant Valid()
        invariant State() == ApplyAll(old(State()), output[..i], env)
      {
        ParseLineHandleExc(output[i]);
        PrefixOfLonger(output, i);
        i := i + 1;
      }
      WholePrefix(output);
      EndParsingStep();
    }

    /** `_parse_line_handle_exc`: whatever `_parse_line` raises is swallowed,
        and what it changed before raising stays changed. */
    method ParseLineHandleExc(raw: string)
      requires Valid()
      modifies this, dc, dc.buildSteps
      ensures Valid()
      ensures State() == ApplyLine(old(State()), raw, env).0
    {
      var _ := ParseLine(raw);
    }

    /** `_end_parsing` without the save: the log, lines joined with nothing between. */
    method EndParsingStep()
      modifies dc
      ensures State() == EndParsing(old(State()))
      ensures dc.buildOutput == JoinWith(lines, "")
    {
      dc.buildOutput := JoinWith(lines, "");
    }

    /** `_parse_line`: how it ended is returned instead of raised. */
    method ParseLine(raw: string) returns (outcome: LineOutcome)
      requires Valid()
      modifies this, dc, dc.buildSteps
      ensures Valid()
      ensures (State(), outcome) == ApplyLine(old(State()), raw, env)
    {
      ValidState();
      ghost var m0 := State();
      var text := Normalize(raw);
      if text == [] {
        return Blank;
      }
      lines := lines + [text];
      ghost var m1 := m0.(lines := m0.lines + [text]);
      assert State() == m1;
      match SplitIndex(steps.Keys, text)
      case Err(e) =>
        outcome := Raised(e);
        assert ApplyLine(m0, raw, env) == (m1, Raised(e));
      case Ok(split) =>
        assert ApplyLine(m0, raw, env) == Dispatch(m1, split, env);
        outcome := DispatchLine(split);
    }

    /** The dispatch at the end of `_parse_line`: an image line, a line of a
        step already started, or a line that may start one. */
    method DispatchLine(split: IndexSplit) returns (outcome: LineOutcome)
      requires Valid() && (steps.Keys == {} ==> split.index.Num?)
      modifies this, dc, dc.buildSteps
      ensures Valid()
      ensures (State(), outcome) == Dispatch(old(State()), split, env)
    {
      if StartsWith(split.line, "writing image") {
        outcome := SetDockerImageId(split.line);
      } else if split.index in steps {
        outcome := UpdateBuildStep(split);
      } else {
        outcome := AddStepToStepsDict(split);
      }
    }

    /** `_set_docker_image_id` */
    method SetDockerImageId(line: string) returns (outcome: LineOutcome)
      requires Valid()
      modifies dc
      ensures Valid()
      ensures (State(), outcome) == ApplyImage(old(State()), line)
    {
      match ImageId(line)
      case Err(e) =>
        outcome := Raised(e);
      case Ok(id) =>
        dc.dockerImageId := Some(id);
        outcome := Parsed;
    }

    /** `_update_dc_build_step`: the rules in order, on the step found in the
        construction-time map. */
    method UpdateBuildStep(split: IndexSplit) returns (outcome: LineOutcome)
      requires Valid()
      modifies dc.buildSteps
      ensures Valid()
      ensures (State(), outcome) == ApplyUpdate(old(State()), split, env)
    {
      if split.index !in stepsByIndex {
        return Parsed;
      }
      outcome := UpdateFoundStep(stepsByIndex[split.index], split);
    }

    /** The update of one step of the candidate. */
    method UpdateFoundStep(step: BuildStep, split: IndexSplit) returns (outcome: LineOutcome)
      requires Valid() && step in dc.buildSteps
      modifies dc.buildSteps
      ensures Valid()
      ensures (State(), outcome) == UpdateStep(old(State()), step, split, env)
    {
      ValidState();
      var error := step.Update(split, env.parseFloat);
      outcome := if error.Some? then Raised(error.value) else Parsed;
      assert Records() == old(Records())[step := step.Record()];
    }

    /** `_add_step_to_steps_dict` */
    method AddStepToStepsDict(split: IndexSplit) returns (outcome: LineOutcome)
      requires Valid() && (steps.Keys == {} ==> split.index.Num?)
      modifies this, dc.buildSteps
      ensures Valid()
      ensures (State(), outcome) == ApplyStart(old(State()), split, env)
    {
      ValidState();
      ghost var m0 := State();
      outcome := Parsed;
      match ParseStartLine(split.line, env.dockerFlags)
      case Err(e) =>
        outcome := Raised(e);
        assert ApplyStart(m0, split, env) == (m0, outcome);
      case Ok(None) =>
        assert ApplyStart(m0, split, env) == (m0, outcome);
      case Ok(Some(start)) =>
        if start.stepSlug !in stepsBySlug {
          assert ApplyStart(m0, split, env) == (m0, outcome);
        } else {
          RegisterStep(split.index, start);
          assert ApplyStart(m0, split, env) == (State(), outcome);
        }
    }

    /** The start of a step found by its slug: the step is started and
        registered in `steps` under the line's index. */
    method RegisterStep(index: StepIndex, start: StartLine)
      requires Valid() && (steps.Keys == {} ==> index.Num?) && start.stepSlug in stepsBySlug
      modifies this, dc.buildSteps
      ensures Valid()
      ensures var k := stepsBySlug[start.stepSlug];
        State() == old(State()).(steps := old(steps)[index := k], records := old(Records())[k := StartRecord(old(k.Record()), index, start)])
    {
      var step := stepsBySlug[start.stepSlug];
      step.Start(index, start);
      steps := steps[index := step];
      assert Records() == old(Records())[step := step.Record()];
      assert index in steps.Keys;
    }
  }
}
