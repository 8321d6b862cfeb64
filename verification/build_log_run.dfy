/** Properties of the line model: how a line is split from its index, what one
    line can change, and what a whole run of `parse` leaves behind. */
module BuildLogRun {
  import opened PyStr
  import opened BuildLog

  // ---- the index split ----

  /** A split that found an index came from a line made of a space-free token,
      a run of spaces and the remainder, where the token without its first
      character is an int literal. */
  lemma SplitIndexIndexed(keys: set<StepIndex>, text: string)
    requires WellKeyed(keys) && text != [] && Trimmed(text)
    requires SplitIndex(keys, text).Ok? && !SplitIndex(keys, text).value.isUnusual
    ensures var r := SplitIndex(keys, text).value;
      exists tok, gap :: (text == tok + gap + r.line && tok != [] && NoSpace(tok)
        && gap != [] && AllSpace(gap) && ParseInt(Drop(tok, 1)) == Some(r.index.n))
  {
    var r := SplitIndex(keys, text).value;
    var tok := SplitOnce(text)[0];
    SplitOnceRejoin(text);
    var gap :| gap != [] && AllSpace(gap) && text == tok + gap + r.line;
  }

  /** Conversely, every such line is split at its first run of spaces. */
  lemma SplitIndexNumbered(keys: set<StepIndex>, tok: string, gap: string, rest: string)
    requires WellKeyed(keys)
    requires tok != [] && NoSpace(tok) && gap != [] && AllSpace(gap) && rest != [] && !IsSpace(rest[0])
    requires ParseInt(Drop(tok, 1)).Some?
    ensures SplitIndex(keys, tok + gap + rest) == Ok(IndexSplit(Num(ParseInt(Drop(tok, 1)).value), rest, false))
  {
    SplitOnceOf(tok, gap, rest);
  }

  /** BuildKit's prefix `#N ` gives index N, whatever steps are known. */
  lemma SplitIndexBuildKit(keys: set<StepIndex>, n: nat, rest: string)
    requires WellKeyed(keys) && rest != [] && !IsSpace(rest[0])
    ensures SplitIndex(keys, "#" + Decimal(n) + " " + rest) == Ok(IndexSplit(Num(n), rest, false))
  {
    var tok := "#" + Decimal(n);
    assert AllSpace(" ");
    assert NoSpace(tok) by {
      DecimalIsBody(n);
      forall i | 0 <= i < |tok| ensures !IsSpace(tok[i]) {
        if i > 0 { assert tok[i] == Decimal(n)[i - 1]; }
      }
    }
    assert ParseInt(Drop(tok, 1)) == Some(n) by {
      assert Drop(tok, 1) == Decimal(n);
      ParseIntDecimal(n);
    }
    SplitIndexNumbered(keys, tok, " ", rest);
  }

  // ---- recording lines ----

  /** The normalised, non-blank lines of a run, in input order. */
  function Kept(raws: seq<string>): (kept: seq<string>)
    ensures |kept| <= |raws|
    ensures forall i | 0 <= i < |kept| :: kept[i] != [] && Trimmed(kept[i])
    decreases |raws|
  {
    if raws == [] then []
    else
      var text := Normalize(raws[|raws| - 1]);
      Kept(raws[..|raws| - 1]) + if text == [] then [] else [text]
  }

  /** A run appends the kept lines, in order, and nothing else. */
  lemma {:induction false} RunRecordsLines<K>(m: Model<K>, raws: seq<string>, env: Env)
    requires Inv(m)
    ensures ApplyAll(m, raws, env).lines == m.lines + Kept(raws)
    decreases |raws|
  {
    if raws != [] {
      var init := raws[..|raws| - 1];
      var last := raws[|raws| - 1];
      var before := ApplyAll(m, init, env);
      RunRecordsLines(m, init, env);
      assert ApplyAll(m, raws, env) == ApplyLine(before, last, env).0;
      var text := Normalize(last);
      var kept := if text == [] then [] else [text];
      assert Kept(raws) == Kept(init) + kept;
      assert ApplyLine(before, last, env).0.lines == before.lines + kept;
      AppendAssoc(m.lines, Kept(init), kept);
    } else {
      assert m.lines + [] == m.lines;
    }
  }

  /** `parse`: the stored build output is every line recorded, those from
      before and then the kept lines of this run, joined with nothing between. */
  lemma ParseStoresOutput<K>(m: Model<K>, raws: seq<string>, env: Env)
    requires Inv(m)
    ensures EndParsing(ApplyAll(m, raws, env)).buildOutput == JoinWith(m.lines + Kept(raws), "")
  {
    RunRecordsLines(m, raws, env);
  }

  /** Lines are applied one after another and none stops the rest: a run over
      `a + b` is the run over `b` from where the run over `a` ended. */
  lemma {:induction false} RunComposes<K>(m: Model<K>, a: seq<string>, b: seq<string>, env: Env)
    requires Inv(m)
    ensures ApplyAll(m, a + b, env) == ApplyAll(ApplyAll(m, a, env), b, env)
    decreases |b|
  {
    if b == [] {
      assert a + b == a;
    } else {
      var b0 := b[..|b| - 1];
      assert (a + b)[..|a + b| - 1] == a + b0;
      RunComposes(m, a, b0, env);
    }
  }

  /** With no step started yet, a line without an index raises, and then it
      has only been recorded. */
  lemma UnattributedLine<K>(m: Model<K>, raw: string, env: Env)
    requires Inv(m)
    ensures ApplyLine(m, raw, env).1 == Raised(NoStepToAttribute)
      <==> Normalize(raw) != [] && m.steps.Keys == {} && SplitIndex({}, Normalize(raw)).Err?
    ensures ApplyLine(m, raw, env).1 == Raised(NoStepToAttribute)
      ==> ApplyLine(m, raw, env).0 == m.(lines := m.lines + [Normalize(raw)])
  {
    var text := Normalize(raw);
    if text != [] {
      var m1 := m.(lines := m.lines + [text]);
      match SplitIndex(m.steps.Keys, text)
      case Err(e) =>
        assert ApplyLine(m, raw, env) == (m1, Raised(e));
      case Ok(split) =>
        assert ApplyLine(m, raw, env).1 != Raised(NoStepToAttribute);
    }
  }

  // ---- which path a line takes ----

  /** Everything `_add_step_to_steps_dict` needs to start a step: a line that
      is not an image line, an index not yet in `steps`, a start line it
      accepts, and a known step slug. */
  ghost predicate StartsStep<K>(m: Model<K>, split: IndexSplit, env: Env) {
    && !StartsWith(split.line, "writing image")
    && split.index !in m.steps
    && ParseStartLine(split.line, env.dockerFlags).Ok?
    && ParseStartLine(split.line, env.dockerFlags).value.Some?
    && ParseStartLine(split.line, env.dockerFlags).value.value.stepSlug in m.stepsBySlug
  }

  /** The state after a step start: the step is registered under the line's
      index and its record is restarted. */
  ghost function Started<K>(m: Model<K>, split: IndexSplit, env: Env): Model<K>
    requires Inv(m) && StartsStep(m, split, env)
  {
    var start := ParseStartLine(split.line, env.dockerFlags).value.value;
    var k := m.stepsBySlug[start.stepSlug];
    m.(steps := m.steps[split.index := k], records := m.records[k := StartRecord(m.records[k], split.index, start)])
  }

  /** A line changes `steps` exactly when it starts a step, and then it does
      nothing else. */
  lemma StepStart<K>(m: Model<K>, split: IndexSplit, env: Env)
    requires Inv(m) && (m.steps.Keys == {} ==> split.index.Num?)
    ensures Dispatch(m, split, env).0.steps != m.steps <==> StartsStep(m, split, env)
    ensures StartsStep(m, split, env) ==> Dispatch(m, split, env) == (Started(m, split, env), Parsed)
  {
    var r := Dispatch(m, split, env);
    if !StartsWith(split.line, "writing image") && split.index !in m.steps {
      assert r == ApplyStart(m, split, env);
      match ParseStartLine(split.line, env.dockerFlags)
      case Err(e) =>
      case Ok(None) =>
      case Ok(Some(start)) =>
        if start.stepSlug in m.stepsBySlug {
          assert split.index in r.0.steps;
        }
    }
  }

  /** An unindexed line never reaches the update rules: its tuple index is not
      a key of `steps`, so the `is_unusual` rule of `_update_dc_build_step`
      cannot fire, and such a line changes no step unless it starts one. */
  lemma UnindexedLineNeverUpdates<K>(m: Model<K>, raw: string, env: Env)
    requires Inv(m) && Normalize(raw) != []
    requires SplitIndex(m.steps.Keys, Normalize(raw)).Ok? && SplitIndex(m.steps.Keys, Normalize(raw)).value.isUnusual
    ensures SplitIndex(m.steps.Keys, Normalize(raw)).value.index !in m.steps
    ensures var split := SplitIndex(m.steps.Keys, Normalize(raw)).value;
      ApplyLine(m, raw, env).0.records == m.records || StartsStep(m, split, env)
  {
    var split := SplitIndex(m.steps.Keys, Normalize(raw)).value;
    var m1 := m.(lines := m.lines + [Normalize(raw)]);
    assert ApplyLine(m, raw, env) == Dispatch(m1, split, env);
    NewIndexOnlyStarts(m1, split, env);
    assert StartsStep(m1, split, env) == StartsStep(m, split, env);
  }

  /** A line whose index is not in `steps` changes no step unless it starts one. */
  lemma NewIndexOnlyStarts<K>(m: Model<K>, split: IndexSplit, env: Env)
    requires Inv(m) && (m.steps.Keys == {} ==> split.index.Num?) && split.index !in m.steps
    ensures Dispatch(m, split, env).0.records == m.records || StartsStep(m, split, env)
  {
    if !StartsWith(split.line, "writing image") && !StartsStep(m, split, env) {
      assert Dispatch(m, split, env) == ApplyStart(m, split, env);
    }
  }

  /** A line whose index is already in `steps` updates the step that had that
      index when the parser was built, found in `stepsByIndex`, not the step
      `steps` maps it to; without such a step the line changes nothing. */
  lemma UpdateTargetsConstructionMap<K>(m: Model<K>, split: IndexSplit, env: Env)
    requires Inv(m) && !StartsWith(split.line, "writing image") && split.index in m.steps
    ensures Dispatch(m, split, env).0.steps == m.steps
    ensures Dispatch(m, split, env).0.imageId == m.imageId
    ensures split.index !in m.stepsByIndex ==> Dispatch(m, split, env) == (m, Parsed)
    ensures split.index in m.stepsByIndex ==>
      var k := m.stepsByIndex[split.index];
      Dispatch(m, split, env).0.records == m.records[k := UpdateRecord(m.records[k], split, env.parseFloat).0]
  {
    assert Dispatch(m, split, env) == ApplyUpdate(m, split, env);
  }

  /** A DONE line for a known step leaves it at Success even when its duration
      is missing or malformed and the line raises. */
  lemma DoneSetsSuccess<K>(m: Model<K>, split: IndexSplit, env: Env)
    requires Inv(m) && split.index in m.steps && split.index in m.stepsByIndex && !split.isUnusual
    requires StartsWith(split.line, "DONE")
    ensures Dispatch(m, split, env).0.records[m.stepsByIndex[split.index]].status == Success
    ensures Dispatch(m, split, env).1.Raised? ==> Dispatch(m, split, env).1.error in {MissingDuration, MalformedDuration}
  {
    assert !StartsWith(split.line, "writing image") by {
      assert split.line[0] == 'D';
    }
    assert Dispatch(m, split, env) == ApplyUpdate(m, split, env);
  }

  /** An image line sets the candidate's image id, or raises; either way no
      step and no other field changes. */
  lemma ImageLineOnlySetsImage<K>(m: Model<K>, split: IndexSplit, env: Env)
    requires Inv(m) && (m.steps.Keys == {} ==> split.index.Num?) && StartsWith(split.line, "writing image")
    ensures var id := ImageId(split.line);
      Dispatch(m, split, env) == if id.Ok? then (m.(imageId := Some(id.value)), Parsed) else (m, Raised(id.error))
  {
    assert Dispatch(m, split, env) == ApplyImage(m, split.line);
  }

  // ---- build-step output ----

  /** During updates a step's output only grows; only a step start resets it. */
  lemma OutputGrowsUnlessStarted<K>(m: Model<K>, split: IndexSplit, env: Env)
    requires Inv(m) && (m.steps.Keys == {} ==> split.index.Num?)
    ensures forall k | k in m.records ::
      StartsWith(Dispatch(m, split, env).0.records[k].output, m.records[k].output) || StartsStep(m, split, env)
  {
    var r := Dispatch(m, split, env);
    if !StartsWith(split.line, "writing image") && split.index !in m.steps && !StartsStep(m, split, env) {
      assert r == ApplyStart(m, split, env);
      assert r.0.records == m.records;
    }
  }

  /** The line is non-blank, split, and starts a step. */
  ghost predicate LineStartsStep<K>(m: Model<K>, raw: string, env: Env)
    requires Inv(m)
  {
    Normalize(raw) != [] && SplitIndex(m.steps.Keys, Normalize(raw)).Ok?
      && StartsStep(m, SplitIndex(m.steps.Keys, Normalize(raw)).value, env)
  }

  /** The same for a whole line: outputs only grow unless the line starts a
      step, and `steps` changes only then. */
  lemma LineOutputGrows<K>(m: Model<K>, raw: string, env: Env)
    requires Inv(m) && !LineStartsStep(m, raw, env)
    ensures ApplyLine(m, raw, env).0.steps == m.steps
    ensures forall k | k in m.records :: StartsWith(ApplyLine(m, raw, env).0.records[k].output, m.records[k].output)
  {
    var text := Normalize(raw);
    var r := ApplyLine(m, raw, env).0;
    if text != [] && SplitIndex(m.steps.Keys, text).Ok? {
      var split := SplitIndex(m.steps.Keys, text).value;
      var m1 := m.(lines := m.lines + [text]);
      assert !StartsStep(m1, split, env);
      DispatchKeepsSteps(m, m1, split, env);
      assert r == Dispatch(m1, split, env).0;
    } else {
      assert r.steps == m.steps && r.records == m.records;
      forall k | k in m.records
        ensures StartsWith(r.records[k].output, m.records[k].output)
      {
        WholePrefix(m.records[k].output);
      }
    }
  }

  /** Dispatching a line that starts no step, after it has been recorded. */
  lemma DispatchKeepsSteps<K>(m: Model<K>, m1: Model<K>, split: IndexSplit, env: Env)
    requires Inv(m1) && (m1.steps.Keys == {} ==> split.index.Num?) && !StartsStep(m1, split, env)
    requires m1.steps == m.steps && m1.records == m.records
    ensures Dispatch(m1, split, env).0.steps == m.steps
    ensures forall k | k in m.records :: StartsWith(Dispatch(m1, split, env).0.records[k].output, m.records[k].output)
  {
    StepStart(m1, split, env);
    OutputGrowsUnlessStarted(m1, split, env);
  }

  /** No line of the run starts a step. */
  ghost predicate NoStepStarted<K>(m: Model<K>, raws: seq<string>, env: Env)
    requires Inv(m)
    decreases |raws|
  {
    raws == [] ||
      (NoStepStarted(m, raws[..|raws| - 1], env)
        && !LineStartsStep(ApplyAll(m, raws[..|raws| - 1], env), raws[|raws| - 1], env))
  }

  /** Over a run that starts no step, `steps` stays as it was and every step's
      output only grows. */
  lemma {:induction false} OutputGrowsOverRun<K>(m: Model<K>, raws: seq<string>, env: Env)
    requires Inv(m) && NoStepStarted(m, raws, env)
    ensures ApplyAll(m, raws, env).steps == m.steps
    ensures forall k | k in m.records :: StartsWith(ApplyAll(m, raws, env).records[k].output, m.records[k].output)
    decreases |raws|
  {
    if raws != [] {
      var init := raws[..|raws| - 1];
      var before := ApplyAll(m, init, env);
      OutputGrowsOverRun(m, init, env);
      LineOutputGrows(before, raws[|raws| - 1], env);
      assert ApplyAll(m, raws, env) == ApplyLine(before, raws[|raws| - 1], env).0;
      forall k | k in m.records
        ensures StartsWith(ApplyAll(m, raws, env).records[k].output, m.records[k].output)
      {
        StartsWithTrans(ApplyAll(m, raws, env).records[k].output, before.records[k].output, m.records[k].output);
      }
    }
  }
}
