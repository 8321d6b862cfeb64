/** What `DockerBuildOutputParser` does with one line of `docker build` output,
    stated on values. The parser object in `DockerOutputParser` is proved to
    change its state exactly as `ApplyLine` says; the lemmas about runs of lines
    are in `BuildLogRun`.

    The model is generic in `K`, the identity of a build-step record: the parser
    keeps references to the candidate's build-step documents, so the state is a
    set of maps to those identities plus one `StepRecord` per identity. */
module BuildLog {
  import opened PyStr
  import Ansi

  /** A key of the parser's `steps` dict. A `#N` prefix gives the int `N`; a line
      without one is keyed by the one-element tuple `(largest key,)`, which is
      `Fallback(largest key)` here and is never equal to an int. */
  datatype StepIndex = Num(n: int) | Fallback(top: int)

  /** The dict `_get_step_index_split` returns. */
  datatype IndexSplit = IndexSplit(index: StepIndex, line: string, isUnusual: bool)

  datatype Status = Pending | Running | Success | Failure

  /** The exceptions a line can raise; `_parse_line_handle_exc` swallows all of them. */
  datatype Error =
    | NoStepToAttribute      // IndexError: `sorted(self.steps)[-1]` with no steps yet
    | UnorderableStepKeys    // TypeError: `sorted` over both int and tuple keys
    | MissingImageToken      // IndexError: `line.split()[2]`
    | MissingImageDigest     // IndexError: `.split(":")[1]`
    | MissingDuration        // IndexError: `line.split()[1]` on a DONE line
    | MalformedDuration      // ValueError: `float(...)` on a DONE line
    | MissingClosingBracket  // IndexError: `line.split("]", maxsplit=1)[1]`
    | DockerfileUnparsable   // `dockerfile.parse_string(name)[0]` raised
    | MissingSlugSeparator   // ValueError: unpacking `group(1).split("-", maxsplit=1)`

  datatype Result<T> = Ok(value: T) | Err(error: Error)

  /** How `_parse_line` ended: on a blank line, normally, or by raising. */
  datatype LineOutcome = Blank | Parsed | Raised(error: Error)

  /** The fields of a build-step document that the parser reads or writes. */
  datatype StepRecord = StepRecord(
    stepIndex: Option<StepIndex>,
    command: string,
    status: Status,
    output: string,
    cached: bool,
    hash: Option<string>,
    duration: Option<real>)

  /** Code outside the parser: Python's `float()` on a duration text, and the
      flags `dockerfile.parse_string(name)[0].flags` reports (`None` when that
      call raises). */
  datatype Env = Env(parseFloat: string -> Option<real>, dockerFlags: string -> Option<seq<string>>)

  /** The parser's state together with the fields of the candidate and of its
      build steps that the parser changes. */
  datatype Model<K> = Model(
    lines: seq<string>,
    steps: map<StepIndex, K>,
    stepsByIndex: map<StepIndex, K>,
    stepsBySlug: map<string, K>,
    records: map<K, StepRecord>,
    imageId: Option<string>,
    buildOutput: string)

  /** Every key of `steps` can be compared with the others by `sorted` unless
      none of them is an int; the first key is always an int, so this holds. */
  ghost predicate WellKeyed(keys: set<StepIndex>) {
    keys == {} || exists k | k in keys :: k.Num?
  }

  /** Every step the maps refer to has a record. */
  ghost predicate Inv<K>(m: Model<K>) {
    && m.steps.Values <= m.records.Keys
    && m.stepsByIndex.Values <= m.records.Keys
    && m.stepsBySlug.Values <= m.records.Keys
    && WellKeyed(m.steps.Keys)
  }

  /** `ansi_escape(raw_line).strip()` */
  function Normalize(raw: string): (text: string)
    ensures Trimmed(text) && |text| <= |raw|
    ensures text == [] <==> AllSpace(Ansi.AnsiEscape(raw))
    ensures Ansi.ESC !in raw ==> text == Strip(raw)
  {
    Strip(Ansi.AnsiEscape(raw))
  }

  // ---- _get_step_index_split ----

  function NumKeys(keys: set<StepIndex>): set<int> {
    set k | k in keys && k.Num? :: k.n
  }

  lemma MaxExists(s: set<int>, w: int)
    requires w in s
    ensures exists m :: m in s && forall x | x in s :: x <= m
  {
    var m := Max(s, w);
  }

  /** A largest element of `s`, found by discarding smaller witnesses. */
  lemma {:induction false} Max(s: set<int>, w: int) returns (m: int)
    requires w in s
    ensures m in s && forall x | x in s :: x <= m
    decreases |s|
  {
    m := w;
    if y :| y in s && y > w {
      var rest := s - {w};
      m := Max(rest, y);
      forall x | x in s
        ensures x <= m
      {
        if x != w {
          assert x in rest;
        }
      }
    }
  }

  /** The largest element of a set that holds `w`. */
  function MaxOf(s: set<int>, ghost w: int): (m: int)
    requires w in s
    ensures m in s && forall x | x in s :: x <= m
  {
    MaxExists(s, w);
    var m :| m in s && forall x | x in s :: x <= m;
    m
  }

  /** `(sorted(self.steps)[-1],)`: the largest key, as a tuple. With no steps
      `sorted(...)[-1]` raises IndexError; with an int key and a tuple key,
      `sorted` raises TypeError. The result is never a key itself. */
  function FallbackIndex(keys: set<StepIndex>): (r: Result<StepIndex>)
    requires WellKeyed(keys)
    ensures r.Ok? <==> keys != {} && forall k | k in keys :: k.Num?
    ensures r.Ok? ==> r.value.Fallback? && Num(r.value.top) in keys
    ensures r.Ok? ==> forall k | k in keys :: k.Num? && k.n <= r.value.top
    ensures r.Ok? ==> r.value !in keys
    ensures r == Err(NoStepToAttribute) <==> keys == {}
    ensures r.Err? && keys != {} ==> r.error == UnorderableStepKeys
  {
    if keys == {} then Err(NoStepToAttribute)
    else if exists k | k in keys :: k.Fallback? then Err(UnorderableStepKeys)
    else
      var top := MaxOf(NumKeys(keys), var k :| k in keys && k.Num?; k.n);
      assert forall k | k in keys :: k.Num? && k.n in NumKeys(keys);
      Ok(Fallback(top))
  }

  /** `_get_step_index_split`: a line `#N rest` gives index `N` and line `rest`;
      any other line keeps its whole text, is marked unusual and gets the
      fallback index, which is not a key of `steps`. */
  function SplitIndex(keys: set<StepIndex>, text: string): (r: Result<IndexSplit>)
    requires WellKeyed(keys)
    ensures r.Ok? ==> (r.value.isUnusual <==> r.value.index.Fallback?)
    ensures r.Ok? && r.value.isUnusual ==> r.value.line == text && r.value.index !in keys
    ensures r.Ok? && r.value.isUnusual ==> FallbackIndex(keys) == Ok(r.value.index)
    ensures r.Ok? && !r.value.isUnusual ==> |SplitOnce(text)| == 2 && r.value.line == SplitOnce(text)[1]
    ensures r.Ok? && !r.value.isUnusual ==> ParseInt(Drop(SplitOnce(text)[0], 1)) == Some(r.value.index.n)
    ensures r.Err? ==> FallbackIndex(keys) == Err(r.error)
  {
    var parts := SplitOnce(text);
    var number := if |parts| == 2 then ParseInt(Drop(parts[0], 1)) else None;
    if number.Some? then
      Ok(IndexSplit(Num(number.value), parts[1], false))
    else
      match FallbackIndex(keys)
      case Err(e) => Err(e)
      case Ok(index) => Ok(IndexSplit(index, text, true))
  }

  // ---- the stage marker: re.search("`#stage-(.*)`", name) ----

  const Marker: string := "`#stage-"
  const Backtick: char := '`'

  /** `name[p..e+1]` is a match of `` `#stage-(.*)` ``: the marker at `p`, a
      backtick at `e`, and no newline between them (`.` does not match one). */
  ghost predicate MarkerAt(name: string, p: int, e: int) {
    && 0 <= p && p + |Marker| <= e < |name|
    && name[p..p + |Marker|] == Marker
    && name[e] == Backtick
    && forall i | p + |Marker| <= i < e :: name[i] != '\n'
  }

  /** The position of the first newline at or after `from`, or the length. */
  function LineEnd(name: string, from: nat): (e: nat)
    requires from <= |name|
    ensures from <= e <= |name|
    ensures forall i | from <= i < e :: name[i] != '\n'
    ensures e < |name| ==> name[e] == '\n'
    decreases |name| - from
  {
    if from == |name| || name[from] == '\n' then from else LineEnd(name, from + 1)
  }

  /** The position of the last backtick in `name[lo..hi]`, if any. */
  function LastBacktick(name: string, lo: nat, hi: nat): (r: Option<nat>)
    requires lo <= hi <= |name|
    ensures r.Some? ==> lo <= r.value < hi && name[r.value] == Backtick
    ensures r.Some? ==> forall i | r.value < i < hi :: name[i] != Backtick
    ensures r.None? ==> forall i | lo <= i < hi :: name[i] != Backtick
    decreases hi
  {
    if hi == lo then None
    else if name[hi - 1] == Backtick then Some(hi - 1)
    else LastBacktick(name, lo, hi - 1)
  }

  /** A match at `p` cannot run past the end of the line the marker is on. */
  lemma MarkerWithinLine(name: string, p: int, e: int)
    requires MarkerAt(name, p, e)
    ensures e < LineEnd(name, p + |Marker|)
  {
  }

  /** The leftmost match at or after `p`, and for it the rightmost closing
      backtick, as the backtracking matcher finds them. */
  function FindMarker(name: string, p: nat): (r: Option<(nat, nat)>)
    requires p <= |name|
    ensures r.Some? ==> p <= r.value.0 && MarkerAt(name, r.value.0, r.value.1)
    ensures r.Some? ==> forall e | MarkerAt(name, r.value.0, e) :: e <= r.value.1
    ensures r.Some? ==> forall q, e | p <= q < r.value.0 :: !MarkerAt(name, q, e)
    ensures r.None? ==> forall q, e | p <= q :: !MarkerAt(name, q, e)
    decreases |name| - p
  {
    if p + |Marker| > |name| then None
    else if name[p..p + |Marker|] == Marker then
      var eol := LineEnd(name, p + |Marker|);
      match LastBacktick(name, p + |Marker|, eol)
      case Some(e) =>
        assert forall e' | MarkerAt(name, p, e') :: e' <= e by {
          forall e' | MarkerAt(name, p, e') ensures e' <= e {
            MarkerWithinLine(name, p, e');
          }
        }
        Some((p, e))
      case None =>
        assert forall e' :: !MarkerAt(name, p, e') by {
          forall e' | MarkerAt(name, p, e') ensures false {
            MarkerWithinLine(name, p, e');
          }
        }
        FindMarker(name, p + 1)
    else
      FindMarker(name, p + 1)
  }

  // ---- get_name_and_slugs ----

  /** What a step-start line yields: the display command and the two slugs. */
  datatype StartLine = StartLine(command: string, stageSlug: string, stepSlug: string)

  /** The string clean-up of `get_name_and_slugs`: drop every copy of the
      matched marker, strip, turn each run of three spaces into a shell line
      continuation, and cut the leading `RUN `. */
  function CleanCommand(name: string, marker: string): string {
    Drop(Replace(Strip(RemoveAll(name, marker)), "   ", " \\\n  "), 4)
  }

  /** `str.replace` is `join` after `split`, so the clean-up is, step by step:
      split at the marker and join with nothing, strip, split at three spaces
      and join with a line continuation, drop four characters. */
  lemma CleanCommandSteps(name: string, marker: string)
    requires marker != []
    ensures CleanCommand(name, marker)
      == Drop(JoinWith(SplitOn(Strip(JoinWith(SplitOn(name, marker), [])), "   "), " \\\n  "), 4)
  {
    ReplaceIsJoinOfSplit(name, marker, []);
    ReplaceIsJoinOfSplit(Strip(Replace(name, marker, [])), "   ", " \\\n  ");
  }

  /** A name with no copy of the marker and no run of three spaces keeps its
      text: the command is the stripped name without its first four
      characters (`RUN `). */
  lemma CleanCommandPlain(name: string, marker: string)
    requires marker != [] && !Occurs(name, marker) && !Occurs(Strip(name), "   ")
    ensures CleanCommand(name, marker) == Drop(Strip(name), 4)
  {
    ReplaceAbsent(name, marker, []);
    ReplaceAbsent(Strip(name), "   ", " \\\n  ");
  }

  /** `get_name_and_slugs(name, match)` for the match `name[p..e+1]`: the first
      reported Dockerfile flag is removed first, then the clean-up; the captured
      group splits at its first `-` into stage slug and step slug. */
  function NameAndSlugs(name: string, p: nat, e: nat, dockerFlags: string -> Option<seq<string>>): (r: Result<StartLine>)
    requires p + |Marker| <= e < |name|
    ensures r.Ok? ==> name[p + |Marker|..e] == r.value.stageSlug + "-" + r.value.stepSlug
    ensures r.Ok? ==> '-' !in r.value.stageSlug
    ensures r.Err? <==> dockerFlags(name).None? || '-' !in name[p + |Marker|..e]
    ensures r.Err? && dockerFlags(name).None? ==> r.error == DockerfileUnparsable
    ensures r.Err? ==> r.error == DockerfileUnparsable || r.error == MissingSlugSeparator
    ensures r.Ok? ==> var flags := dockerFlags(name).value;
      r.value.command == CleanCommand(if flags != [] then RemoveAll(name, flags[0]) else name, name[p..e + 1])
  {
    match dockerFlags(name)
    case None => Err(DockerfileUnparsable)
    case Some(flags) =>
      var unflagged := if flags != [] then RemoveAll(name, flags[0]) else name;
      var command := CleanCommand(unflagged, name[p..e + 1]);
      match SplitFirst(name[p + |Marker|..e], '-')
      case None => Err(MissingSlugSeparator)
      case Some(slugs) => Ok(StartLine(command, slugs.0, slugs.1))
  }

  /** `line.split("]", maxsplit=1)[1].strip()`: the stripped text after the
      first `]`. */
  function RunText(line: string): (name: string)
    requires ']' in line
    ensures Trimmed(name)
    ensures |name| < |line|
  {
    var parts := SplitFirst(line, ']').value;
    Strip(parts.1)
  }

  /** The checks `_add_step_to_steps_dict` makes before touching any step: the
      line starts `[stage-`, the text after its first `]` starts `RUN` once
      stripped, and it carries a stage marker. `Ok(None)` is a line it ignores. */
  function ParseStartLine(line: string, dockerFlags: string -> Option<seq<string>>): (r: Result<Option<StartLine>>)
    ensures r.Ok? && r.value.Some? ==> StartsWith(line, "[stage-")
    ensures r.Ok? && r.value.Some? ==> ']' in line && StartsWith(RunText(line), "RUN")
    ensures r == Err(MissingClosingBracket) <==> StartsWith(line, "[stage-") && ']' !in line
    ensures r.Err? ==> r.error in {MissingClosingBracket, DockerfileUnparsable, MissingSlugSeparator}
  {
    if !StartsWith(line, "[stage-") then Ok(None)
    else
      match SplitFirst(line, ']')
      case None => Err(MissingClosingBracket)
      case Some(parts) =>
        var name := RunText(line);
        if !StartsWith(name, "RUN") then Ok(None)
        else
          match FindMarker(name, 0)
          case None => Ok(None)
          case Some(span) =>
            match NameAndSlugs(name, span.0, span.1, dockerFlags)
            case Err(e) => Err(e)
            case Ok(start) => Ok(Some(start))
  }

  /** A line is ignored exactly when one of the checks fails; a line that passes
      them all is what `get_name_and_slugs` makes of the leftmost marker match,
      and a started step always had a match. */
  lemma ParseStartLineSteps(line: string, dockerFlags: string -> Option<seq<string>>)
    ensures ParseStartLine(line, dockerFlags) == Ok(None) <==>
      || !StartsWith(line, "[stage-")
      || (']' in line && (!StartsWith(RunText(line), "RUN") || FindMarker(RunText(line), 0).None?))
    ensures var r := ParseStartLine(line, dockerFlags);
      r.Ok? && r.value.Some? ==> ']' in line && FindMarker(RunText(line), 0).Some?
    ensures StartsWith(line, "[stage-") && ']' in line && StartsWith(RunText(line), "RUN") && FindMarker(RunText(line), 0).Some? ==>
      (var r := ParseStartLine(line, dockerFlags);
       var span := FindMarker(RunText(line), 0).value;
       var named := NameAndSlugs(RunText(line), span.0, span.1, dockerFlags);
       (r.Ok? <==> named.Ok?) && (r.Ok? ==> r.value == Some(named.value)) && (r.Err? ==> r.error == named.error))
  {
    if StartsWith(line, "[stage-") && ']' in line {
      var name := RunText(line);
      if StartsWith(name, "RUN") && FindMarker(name, 0).Some? {
        var span := FindMarker(name, 0).value;
        var named := NameAndSlugs(name, span.0, span.1, dockerFlags);
        assert ParseStartLine(line, dockerFlags) == if named.Ok? then Ok(Some(named.value)) else Err(named.error);
      }
    }
  }

  /** The fields `_add_step_to_steps_dict` sets on the step it starts. */
  function StartRecord(rec: StepRecord, index: StepIndex, start: StartLine): (r: StepRecord)
    ensures r.stepIndex == Some(index) && r.status == Running && r.output == []
    ensures r.command == if start.stageSlug == "apps" then "bench get-app " + start.stepSlug else start.command
    ensures r.cached == rec.cached && r.hash == rec.hash && r.duration == rec.duration
  {
    var command := if start.stageSlug == "apps" then "bench get-app " + start.stepSlug else start.command;
    rec.(stepIndex := Some(index), command := command, status := Running, output := [])
  }

  // ---- _update_dc_build_step ----

  /** The rules of `_update_dc_build_step`, tried in order on the step found.
      The error, if any, comes from a DONE line whose duration is missing or is
      not a float; the status has been set to Success by then. */
  function UpdateRecord(rec: StepRecord, split: IndexSplit, parseFloat: string -> Option<real>): (res: (StepRecord, Option<Error>))
    ensures res.0.stepIndex == rec.stepIndex && res.0.command == rec.command
    ensures StartsWith(res.0.output, rec.output)
    ensures res.0.status == rec.status || res.0.status == Success || res.0.status == Failure
    ensures res.0.cached ==> rec.cached || split.line == "CACHED"
    ensures res.0.hash != rec.hash ==> !split.isUnusual && StartsWith(split.line, "sha256:")
    ensures res.0.duration != rec.duration ==> !split.isUnusual && StartsWith(split.line, "DONE")
    ensures res.0.status != rec.status ==> !split.isUnusual
    ensures res.0.status != rec.status ==> StartsWith(split.line, "DONE") || split.line == "CACHED" || StartsWith(split.line, "ERROR")
    ensures res.1.Some? ==> res.1.value == MissingDuration || res.1.value == MalformedDuration
    ensures res.1.Some? ==> res.0.status == Success && StartsWith(split.line, "DONE")
    ensures !split.isUnusual && StartsWith(split.line, "DONE") ==> res.0.status == Success
    ensures split.isUnusual ==> res == (rec.(output := rec.output + split.line + "\n"), None)
    ensures !split.isUnusual && StartsWith(split.line, "sha256:") ==>
      && res.1.None? && res.0 == rec.(hash := res.0.hash)
      && res.0.hash.Some? && split.line == "sha256:" + res.0.hash.value
    ensures !split.isUnusual && !StartsWith(split.line, "sha256:") && StartsWith(split.line, "DONE") ==>
      res == DoneRecord(rec, split.line, parseFloat)
    ensures !split.isUnusual && !StartsWith(split.line, "sha256:") && !StartsWith(split.line, "DONE") ==>
      res == (OtherRecord(rec, split.line), None)
  {
    var line := split.line;
    if split.isUnusual then
      (rec.(output := rec.output + line + "\n"), None)
    else if StartsWith(line, "sha256:") then
      assert line[0] == 's';
      (rec.(hash := Some(Drop(line, 7))), None)
    else if StartsWith(line, "DONE") then
      DoneRecord(rec, line, parseFloat)
    else
      (OtherRecord(rec, line), None)
  }

  /** A `DONE <seconds>s` line: the step succeeded; the duration is the second
      word without its last character, read as a float. The status is set
      before the duration is read, so it stays set when that raises. */
  function DoneRecord(rec: StepRecord, line: string, parseFloat: string -> Option<real>): (res: (StepRecord, Option<Error>))
    ensures res.0 == rec.(status := Success, duration := res.0.duration)
    ensures res.1 == Some(MissingDuration) <==> |Words(line)| < 2
    ensures res.1.None? <==> |Words(line)| >= 2 && parseFloat(DropLast(Words(line)[1])).Some?
    ensures res.1.None? ==> res.0.duration == parseFloat(DropLast(Words(line)[1]))
    ensures res.1.Some? ==> res.0.duration == rec.duration
  {
    var done := rec.(status := Success);
    var words := Words(line);
    if |words| < 2 then (done, Some(MissingDuration))
    else
      match parseFloat(DropLast(words[1]))
      case None => (done, Some(MalformedDuration))
      case Some(seconds) => (done.(duration := Some(seconds)), None)
  }

  /** The lines after the first three rules: `CACHED`, `ERROR ...`, and any
      other line, whose text after its first space joins the output. */
  function OtherRecord(rec: StepRecord, line: string): (r: StepRecord)
    ensures line == "CACHED" ==> r == rec.(status := Success, cached := true)
    ensures line != "CACHED" && StartsWith(line, "ERROR") ==>
      r == rec.(status := Failure, output := rec.output + Drop(line, 7) + "\n")
    ensures line != "CACHED" && !StartsWith(line, "ERROR") ==>
      r == rec.(output := rec.output + AfterFirst(line, ' ') + "\n")
    ensures r.stepIndex == rec.stepIndex && r.command == rec.command && r.hash == rec.hash
    ensures r.duration == rec.duration && StartsWith(r.output, rec.output)
  {
    if line == "CACHED" then
      rec.(status := Success, cached := true)
    else if StartsWith(line, "ERROR") then
      rec.(status := Failure, output := rec.output + Drop(line, 7) + "\n")
    else
      rec.(output := rec.output + AfterFirst(line, ' ') + "\n")
  }

  // ---- _set_docker_image_id ----

  /** `line.split()[2].split(":")[1]`: the text between the first and the second
      colon of the third word. */
  function ImageId(line: string): (r: Result<string>)
    ensures r.Ok? <==> |Words(line)| >= 3 && ':' in Words(line)[2]
    ensures r.Ok? ==> ':' !in r.value
    ensures r.Err? ==> r.error == (if |Words(line)| < 3 then MissingImageToken else MissingImageDigest)
  {
    var words := Words(line);
    if |words| < 3 then Err(MissingImageToken)
    else
      var fields := SplitOn(words[2], [':']);
      SplitOnCharPieces(words[2], ':');
      if ':' !in words[2] then
        NoSeparatorSplit(words[2], ':');
        Err(MissingImageDigest)
      else
        SplitAtFirst(words[2], ':');
        Ok(fields[1])
  }

  /** Where the image id sits in the third word: it is what is left after
      the first colon, cut at the next colon if there is one. */
  lemma ImageIdBetweenColons(line: string)
    requires ImageId(line).Ok?
    ensures var rest := SplitFirst(Words(line)[2], ':').value.1;
      ImageId(line).value == if ':' in rest then SplitFirst(rest, ':').value.0 else rest
  {
    var word := Words(line)[2];
    SplitAtFirst(word, ':');
    SplitHead(SplitFirst(word, ':').value.1, ':');
  }

  lemma {:induction false} NoSeparatorSplit(s: string, c: char)
    requires c !in s
    ensures SplitOn(s, [c]) == [s]
    decreases |s|
  {
    if s != [] {
      NoSeparatorSplit(s[1..], c);
      assert [s[0]] + s[1..] == s;
    }
  }

  /** `s.split(c)` is the text before the first `c` followed by the split of
      the text after it. */
  lemma {:induction false} SplitAtFirst(s: string, c: char)
    requires c in s
    ensures SplitFirst(s, c).Some?
    ensures SplitOn(s, [c]) == [SplitFirst(s, c).value.0] + SplitOn(SplitFirst(s, c).value.1, [c])
    decreases |s|
  {
    if s[0] != c {
      assert c in s[1..];
      SplitAtFirst(s[1..], c);
    }
  }

  /** The first field of `s.split(c)` is the text before the first `c`, or all
      of `s` when there is none. */
  lemma {:induction false} SplitHead(s: string, c: char)
    ensures SplitOn(s, [c])[0] == if c in s then SplitFirst(s, c).value.0 else s
    decreases |s|
  {
    if s != [] && s[0] != c {
      SplitHead(s[1..], c);
      assert c in s <==> c in s[1..] by {
        assert s == [s[0]] + s[1..];
      }
    }
  }

  // ---- one line ----

  /** What no line changes: the construction-time maps, the set of build
      steps and the stored build output; `steps` only gains keys. */
  ghost predicate Evolves<K>(m: Model<K>, m': Model<K>) {
    && Inv(m')
    && m'.stepsByIndex == m.stepsByIndex && m'.stepsBySlug == m.stepsBySlug
    && m'.records.Keys == m.records.Keys && m'.buildOutput == m.buildOutput
    && m.steps.Keys <= m'.steps.Keys
  }

  /** `_set_docker_image_id`: only the candidate's image id can change. */
  ghost function ApplyImage<K>(m: Model<K>, line: string): (res: (Model<K>, LineOutcome))
    requires Inv(m)
    ensures Evolves(m, res.0) && res.0.lines == m.lines && res.1 != Blank
    ensures res.0.steps == m.steps && res.0.records == m.records
    ensures res.1 != Raised(NoStepToAttribute) && res.1 != Raised(UnorderableStepKeys)
  {
    match ImageId(line)
    case Err(e) => (m, Raised(e))
    case Ok(id) => (m.(imageId := Some(id)), Parsed)
  }

  /** `_update_dc_build_step`: the step is looked up in `stepsByIndex`, the map
      built when the parser was created, not in `steps`. */
  ghost function ApplyUpdate<K>(m: Model<K>, split: IndexSplit, env: Env): (res: (Model<K>, LineOutcome))
    requires Inv(m)
    ensures Evolves(m, res.0) && res.0.lines == m.lines && res.1 != Blank
    ensures res.0.steps == m.steps
    ensures res.1 != Raised(NoStepToAttribute) && res.1 != Raised(UnorderableStepKeys)
    ensures forall k | k in m.records :: StartsWith(res.0.records[k].output, m.records[k].output)
    ensures split.index in m.stepsByIndex ==>
      res.0.records[m.stepsByIndex[split.index]] == UpdateRecord(m.records[m.stepsByIndex[split.index]], split, env.parseFloat).0
    ensures res.1.Raised? ==> res.1.error == MissingDuration || res.1.error == MalformedDuration
    ensures res.0.imageId == m.imageId
    ensures forall k | k in m.records && (split.index in m.stepsByIndex ==> k != m.stepsByIndex[split.index]) ::
      res.0.records[k] == m.records[k]
  {
    if split.index !in m.stepsByIndex then (m, Parsed)
    else UpdateStep(m, m.stepsByIndex[split.index], split, env)
  }

  /** The rules of `_update_dc_build_step` applied to the record of step `k`;
      no other record changes. */
  ghost function UpdateStep<K>(m: Model<K>, k: K, split: IndexSplit, env: Env): (res: (Model<K>, LineOutcome))
    requires Inv(m) && k in m.records
    ensures Evolves(m, res.0) && res.0.lines == m.lines && res.1 != Blank
    ensures res.0.steps == m.steps
    ensures res.1 != Raised(NoStepToAttribute) && res.1 != Raised(UnorderableStepKeys)
    ensures forall k' | k' in m.records :: StartsWith(res.0.records[k'].output, m.records[k'].output)
    ensures res.0.records[k] == UpdateRecord(m.records[k], split, env.parseFloat).0
    ensures res.1.Raised? ==> res.1.error == MissingDuration || res.1.error == MalformedDuration
    ensures res.0.imageId == m.imageId
    ensures forall k' | k' in m.records && k' != k :: res.0.records[k'] == m.records[k']
  {
    var updated := UpdateRecord(m.records[k], split, env.parseFloat);
    (m.(records := m.records[k := updated.0]), if updated.1.Some? then Raised(updated.1.value) else Parsed)
  }

  /** `_add_step_to_steps_dict`: the step is found by its slug in `stepsBySlug`,
      started, and registered in `steps` under the line's index, which is the
      tuple index when the line had no `#N` prefix. */
  ghost function ApplyStart<K>(m: Model<K>, split: IndexSplit, env: Env): (res: (Model<K>, LineOutcome))
    requires Inv(m) && (m.steps.Keys == {} ==> split.index.Num?)
    ensures Evolves(m, res.0) && res.0.lines == m.lines && res.1 != Blank
    ensures res.1 != Raised(NoStepToAttribute) && res.1 != Raised(UnorderableStepKeys)
    ensures res.0.imageId == m.imageId
    ensures var parsed := ParseStartLine(split.line, env.dockerFlags);
      forall k | k in m.records && !StartsOn(m, parsed, k) :: res.0.records[k] == m.records[k]
  {
    StartParsed(m, split.index, ParseStartLine(split.line, env.dockerFlags))
  }

  /** The checks passed and named the step whose record is `k`. */
  ghost predicate StartsOn<K>(m: Model<K>, parsed: Result<Option<StartLine>>, k: K) {
    parsed.Ok? && parsed.value.Some? && parsed.value.value.stepSlug in m.stepsBySlug
      && m.stepsBySlug[parsed.value.value.stepSlug] == k
  }

  /** What the checks of a step-start line lead to: the error they raise, nothing,
      or the start of the step the slug names, when there is one. */
  ghost function StartParsed<K>(m: Model<K>, index: StepIndex, parsed: Result<Option<StartLine>>): (res: (Model<K>, LineOutcome))
    requires Inv(m) && (m.steps.Keys == {} ==> index.Num?)
    requires parsed.Err? ==> parsed.error != NoStepToAttribute && parsed.error != UnorderableStepKeys
    ensures Evolves(m, res.0) && res.0.lines == m.lines && res.1 != Blank
    ensures res.1 != Raised(NoStepToAttribute) && res.1 != Raised(UnorderableStepKeys)
    ensures res.0.imageId == m.imageId
    ensures forall k | k in m.records && !StartsOn(m, parsed, k) :: res.0.records[k] == m.records[k]
  {
    match parsed
    case Err(e) => (m, Raised(e))
    case Ok(None) => (m, Parsed)
    case Ok(Some(start)) =>
      if start.stepSlug !in m.stepsBySlug then (m, Parsed)
      else (StartStep(m, index, start), Parsed)
  }

  /** The step named by the slug is started and registered in `steps` under `index`. */
  ghost function StartStep<K>(m: Model<K>, index: StepIndex, start: StartLine): (m': Model<K>)
    requires Inv(m) && (m.steps.Keys == {} ==> index.Num?) && start.stepSlug in m.stepsBySlug
    ensures Evolves(m, m') && m'.lines == m.lines && m'.imageId == m.imageId
    ensures forall k | k in m.records && k != m.stepsBySlug[start.stepSlug] :: m'.records[k] == m.records[k]
  {
    var k := m.stepsBySlug[start.stepSlug];
    var rec := StartRecord(m.records[k], index, start);
    RegisterEvolves(m, index, k, rec);
    m.(steps := m.steps[index := k], records := m.records[k := rec])
  }

  lemma RegisterEvolves<K>(m: Model<K>, index: StepIndex, k: K, rec: StepRecord)
    requires Inv(m) && k in m.records && (m.steps.Keys == {} ==> index.Num?)
    ensures Evolves(m, m.(steps := m.steps[index := k], records := m.records[k := rec]))
  {
    var m' := m.(steps := m.steps[index := k], records := m.records[k := rec]);
    assert index in m'.steps.Keys;
    if m.steps.Keys != {} {
      var j :| j in m.steps.Keys && j.Num?;
      assert j in m'.steps.Keys;
    }
  }

  /** The rest of `_parse_line` once the line is recorded and split: an image
      line, an update of a step whose index is known, or a candidate step start. */
  ghost function Dispatch<K>(m: Model<K>, split: IndexSplit, env: Env): (res: (Model<K>, LineOutcome))
    requires Inv(m) && (m.steps.Keys == {} ==> split.index.Num?)
    ensures Evolves(m, res.0) && res.0.lines == m.lines && res.1 != Blank
    ensures res.1 != Raised(NoStepToAttribute) && res.1 != Raised(UnorderableStepKeys)
  {
    if StartsWith(split.line, "writing image") then ApplyImage(m, split.line)
    else if split.index in m.steps then ApplyUpdate(m, split, env)
    else ApplyStart(m, split, env)
  }

  /** `_parse_line` on one raw line: the normalised text is appended to `lines`
      before anything can raise; then the line is split and dispatched. Whatever
      a raise leaves behind stays, since the caller only swallows the exception. */
  ghost function ApplyLine<K>(m: Model<K>, raw: string, env: Env): (res: (Model<K>, LineOutcome))
    requires Inv(m)
    ensures Evolves(m, res.0)
    ensures res.1 == Blank <==> Normalize(raw) == []
    ensures Normalize(raw) == [] ==> res.0 == m
    ensures Normalize(raw) != [] ==> res.0.lines == m.lines + [Normalize(raw)]
  {
    var text := Normalize(raw);
    if text == [] then (m, Blank)
    else
      var m1 := m.(lines := m.lines + [text]);
      match SplitIndex(m.steps.Keys, text)
      case Err(e) => (m1, Raised(e))
      case Ok(split) => Dispatch(m1, split, env)
  }

  /** The loop of `parse`: every line in order, whatever became of the ones before. */
  ghost function ApplyAll<K>(m: Model<K>, raws: seq<string>, env: Env): (r: Model<K>)
    requires Inv(m)
    ensures Evolves(m, r)
    decreases |raws|
  {
    if raws == [] then m
    else ApplyLine(ApplyAll(m, raws[..|raws| - 1], env), raws[|raws| - 1], env).0
  }

  /** `_end_parsing` without the save: the whole log, lines joined with nothing between. */
  ghost function EndParsing<K>(m: Model<K>): (r: Model<K>)
    ensures r.buildOutput == JoinWith(m.lines, "")
    ensures r.(buildOutput := m.buildOutput) == m
  {
    m.(buildOutput := JoinWith(m.lines, ""))
  }
}
