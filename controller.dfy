/**
 * The controller of the conditional-copy tool: it reads the destination
 * and the targets out of an instruction text, and copies each target into
 * the destination directory when no file of that name is there yet.
 *
 * `Controller::new`, `targets` and `target_list` are pure and are modelled
 * as functions over the lines of the text. `copy_all_targets` is the method
 * `CopyAllTargets`, which changes a `FileSystem` step by step and is proved
 * to do what the function `CopyAll` says; the properties of a pass are
 * lemmas about `CopyAll`.
 */
module CcController {
  import opened Options
  import opened Sequences
  import opened Text
  import opened Paths
  import opened FileSystem

  /** A controller: the instruction text and the destination read from it once. */
  datatype Controller = Controller(content: string, destination: Path)

  const DestinationHeader: string := "[destination]"
  const TargetsHeader: string := "[targets]"

  predicate IsNotDestinationHeader(line: string)
  {
    line != DestinationHeader
  }

  predicate IsNotTargetsHeader(line: string)
  {
    line != TargetsHeader
  }

  /** Any line starting with '[' ends the list of targets, recognised header or not. */
  predicate IsNotSectionStart(line: string)
  {
    !(|line| > 0 && line[0] == '[')
  }

  predicate IsNonEmpty(line: string)
  {
    line != ""
  }

  // ---------------------------------------------------------------------
  // Instruction parser
  // ---------------------------------------------------------------------


  /**
   * Scanning for a header stops exactly at the first line equal to it
   * (and runs to the end when there is none).
   */
  lemma {:induction false} SkipToHeader(lines: seq<string>, header: string, isNotHeader: string -> bool)
    requires forall line :: isNotHeader(line) <==> line != header
    ensures SkipWhile(lines, isNotHeader) == lines[IndexOf(lines, header)..]
    decreases |lines|
  {
    if lines != [] && lines[0] != header {
      SkipToHeader(lines[1..], header, isNotHeader);
      assert lines[1..][IndexOf(lines[1..], header)..] == lines[IndexOf(lines, header)..];
    }
  }

  /**
   * The pipeline of `Controller::new` up to its `unwrap`: the line right
   * after the first "[destination]" line, if there is one.
   */
  function DestinationLine(lines: seq<string>): (r: Option<string>)
    ensures var i := IndexOf(lines, DestinationHeader);
            r == if i + 1 < |lines| then Some(lines[i + 1]) else None
  {
    SkipToHeader(lines, DestinationHeader, IsNotDestinationHeader);
    Next(Skip(SkipWhile(lines, IsNotDestinationHeader), 1))
  }

  /** Only the first "[destination]" line counts: the destination is the line after it. */
  lemma DestinationAfterFirstHeader(pre: seq<string>, rest: seq<string>)
    requires DestinationHeader !in pre
    ensures DestinationLine(pre + [DestinationHeader] + rest) == Next(rest)
  {
    assert pre + [DestinationHeader] + rest == pre + ([DestinationHeader] + rest);
    SkipWhilePrefix(pre, [DestinationHeader] + rest, IsNotDestinationHeader);
    assert Skip([DestinationHeader] + rest, 1) == rest;
  }

  /**
   * `Controller::new`. None stands for the panic of its `unwrap`: no line
   * equals "[destination]", or the first such line is the last line. An
   * empty line after the header is an empty destination, not a failure.
   */
  function New(instructions: string): (r: Option<Controller>)
    ensures var lines := Lines(instructions);
            var i := IndexOf(lines, DestinationHeader);
            && (r.Some? <==> i + 1 < |lines|)
            && (r.Some? ==> r.value == Controller(instructions, Path(lines[i + 1])))
  {
    match DestinationLine(Lines(instructions))
    case None => None
    case Some(line) => Some(Controller(instructions, Path(line)))
  }

  /** The pipeline of `Controller::targets`. */
  function TargetLines(lines: seq<string>): (r: seq<string>)
    ensures forall k :: 0 <= k < |r| ==> IsNonEmpty(r[k]) && IsNotSectionStart(r[k])
  {
    Filter(TakeWhile(Skip(SkipWhile(lines, IsNotTargetsHeader), 1), IsNotSectionStart), IsNonEmpty)
  }

  /** `Controller::targets`: non-empty lines of the instruction text, none starting with '['. */
  function Targets(c: Controller): (r: seq<string>)
    ensures forall k :: 0 <= k < |r| ==>
              r[k] in Lines(c.content) && IsNonEmpty(r[k]) && IsNotSectionStart(r[k])
  {
    TargetLines(Lines(c.content))
  }

  /** `.map(PathBuf::from).collect()`: one path per line, in the same order. */
  function ToPaths(lines: seq<string>): (r: seq<Path>)
    ensures |r| == |lines|
    ensures forall k :: 0 <= k < |r| ==> r[k] == Path(lines[k])
  {
    if lines == [] then [] else [Path(lines[0])] + ToPaths(lines[1..])
  }

  /** `Controller::target_list`: one path per target, in order, each a non-empty line of the text. */
  function TargetList(c: Controller): (r: seq<Path>)
    ensures |r| == |Targets(c)|
    ensures forall k :: 0 <= k < |r| ==>
              r[k] == Path(Targets(c)[k]) && r[k].text != "" && r[k].text in Lines(c.content)
  {
    ToPaths(Targets(c))
  }

  /**
   * The targets are the non-empty lines after the first "[targets]" line,
   * up to (not including) the first later line that starts with '['; with
   * no "[targets]" line there are none.
   */
  lemma TargetsAreFirstSection(lines: seq<string>)
    ensures TargetsHeader !in lines ==> TargetLines(lines) == []
    ensures var i := IndexOf(lines, TargetsHeader);
            i < |lines| ==>
              var rest := lines[i + 1..];
              var k := FirstFailing(rest, IsNotSectionStart);
              TargetLines(lines) == Filter(rest[..k], IsNonEmpty)
  {
    SkipToHeader(lines, TargetsHeader, IsNotTargetsHeader);
    var i := IndexOf(lines, TargetsHeader);
    if i < |lines| {
      var rest := lines[i + 1..];
      assert Skip(lines[i..], 1) == rest;
      TakeWhileToFirstFailing(rest, IsNotSectionStart);
    }
  }

  /**
   * Only the first "[targets]" line counts: what precedes it plays no
   * part, and the targets are read from the lines after it.
   */
  lemma TargetsAfterFirstHeader(pre: seq<string>, section: seq<string>)
    requires TargetsHeader !in pre
    ensures TargetLines(pre + [TargetsHeader] + section) ==
              Filter(TakeWhile(section, IsNotSectionStart), IsNonEmpty)
  {
    assert pre + [TargetsHeader] + section == pre + ([TargetsHeader] + section);
    SkipWhilePrefix(pre, [TargetsHeader] + section, IsNotTargetsHeader);
    assert Skip([TargetsHeader] + section, 1) == section;
  }

  /** Targets keep document order: they are a subsequence of the lines after the header. */
  lemma TargetsAreSubsequence(lines: seq<string>)
    requires TargetsHeader in lines
    ensures IsSubsequence(TargetLines(lines), lines[IndexOf(lines, TargetsHeader) + 1..])
  {
    TargetsAreFirstSection(lines);
    var rest := lines[IndexOf(lines, TargetsHeader) + 1..];
    var k := FirstFailing(rest, IsNotSectionStart);
    FilterIsSubsequence(rest[..k], IsNonEmpty);
    SubsequenceOfPrefix(TargetLines(lines), rest, k);
  }

  /**
   * A line is a target exactly when it is non-empty and lies between the
   * "[targets]" header and the first later line starting with '['.
   */
  lemma TargetsMembership(lines: seq<string>)
    requires TargetsHeader in lines
    ensures var rest := lines[IndexOf(lines, TargetsHeader) + 1..];
            var k := FirstFailing(rest, IsNotSectionStart);
            forall line :: line in TargetLines(lines) <==> line in rest[..k] && line != ""
  {
    TargetsAreFirstSection(lines);
  }

  /**
   * The target list is not deduplicated: a line occurring several times in
   * the section is a target as many times, an empty line never.
   */
  lemma TargetsKeepDuplicates(lines: seq<string>)
    requires TargetsHeader in lines
    ensures var rest := lines[IndexOf(lines, TargetsHeader) + 1..];
            var k := FirstFailing(rest, IsNotSectionStart);
            forall line :: multiset(TargetLines(lines))[line] == if line != "" then multiset(rest[..k])[line] else 0
  {
    var i := IndexOf(lines, TargetsHeader);
    var rest := lines[i + 1..];
    assert lines == lines[..i] + [TargetsHeader] + rest;
    TargetsAfterFirstHeader(lines[..i], rest);
    TakeWhileToFirstFailing(rest, IsNotSectionStart);
    NonEmptyCount(TargetLines(lines), rest[..FirstFailing(rest, IsNotSectionStart)]);
  }

  /** How often each line occurs once the empty lines are filtered out. */
  lemma NonEmptyCount(kept: seq<string>, section: seq<string>)
    requires kept == Filter(section, IsNonEmpty)
    ensures forall line :: multiset(kept)[line] == if line != "" then multiset(section)[line] else 0
  {
    FilterCount(section, IsNonEmpty);
  }

  // ---------------------------------------------------------------------
  // Copy pass
  // ---------------------------------------------------------------------

  /**
   * Where a pass stops with a panic: the `unwrap`s of `create_dir`,
   * `file_name`, `File::create` and `copy`, and the two `todo!`s.
   */
  datatype Halt =
    | CreateDirFailed   // create_dir(..).unwrap()
    | SourceNotOpened   // todo!: a target that does not open
    | NoFileName        // file_name().unwrap()
    | CreateFailed      // File::create(..).unwrap()
    | CopyFailed        // copy(..).unwrap()
    | AlreadyExists     // todo!: no rule for a file that is already there

  /** `Ok(())`, the only value `copy_all_targets` returns, or a panic. */
  datatype Outcome = Completed | Panicked(halt: Halt)

  /** The filesystem after a pass, or a part of one, and how it ended. */
  datatype Pass = Pass(state: FsState, outcome: Outcome)

  /**
   * The path a target is copied to: the destination directory pushed with
   * the target's file name; None where `file_name` is None.
   */
  function Candidate(dest: Path, target: Path): (r: Option<Path>)
    ensures r.Some? <==> FileName(target).Some?
    ensures r.Some? ==> FileName(r.value) == FileName(target)
    ensures r.Some? ==> Segments(r.value) == Segments(dest) + [FileName(target).value]
    ensures r.Some? ==> r.value != dest
  {
    match FileName(target)
    case None => None
    case Some(n) =>
      PushSegments(dest, n);
      FileNameOfPush(dest, n);
      PushLonger(dest, n);
      Some(Push(dest, Path(n)))
  }

  /** Opening the path fails with a kind other than NotFound, whatever the path holds. */
  predicate ProbeFails(s: FsState, p: Path)
  {
    p in s.denied || p in s.faulty
  }

  /**
   * The NotFound arm of a turn: create the candidate `c`, then copy the
   * target over it.
   */
  function Deliver(s: FsState, target: Path, c: Path): (r: Pass)
    requires target != c
    ensures r.outcome in {Completed, Panicked(CreateFailed), Panicked(CopyFailed)}
    // when each ending happens, for a source that opens and a candidate that is no directory
    ensures c !in s.dirs && s.Open(target) == Opened ==>
              (r.outcome == Completed <==> c !in s.readOnly && target in s.files)
    // `create` fails: nothing changed; `copy` fails: an empty file is left at `c`
    ensures r.outcome == Panicked(CreateFailed) ==> r.state == s
    ensures r.outcome == Panicked(CopyFailed) ==> r.state == s.(files := s.files[c := []])
    // completed: the candidate holds the target's bytes, and nothing else changed
    ensures r.outcome == Completed ==>
              target in s.files && r.state == s.(files := s.files[c := s.files[target]])
  {
    match s.CreateFile(c)
    case None => Pass(s, Panicked(CreateFailed))
    case Some(created) =>
      match created.Copy(target, c)
      case None => Pass(created, Panicked(CopyFailed))
      case Some(copied) => Pass(copied, Completed)
  }

  /**
   * One turn of the loop of `copy_all_targets`. A Completed outcome means
   * the loop goes on to the next target.
   */
  function Step(s: FsState, dest: Path, target: Path): (r: Pass)
    // the source does not open: halt, before the destination is looked at
    ensures s.Open(target) != Opened ==> r == Pass(s, Panicked(SourceNotOpened))
    // no file name: halt
    ensures s.Open(target) == Opened && FileName(target).None? ==> r == Pass(s, Panicked(NoFileName))
    ensures s.Open(target) == Opened && Candidate(dest, target).Some? ==>
              var c := Candidate(dest, target).value;
              // a file or directory of that name is there: halt, nothing changed
              && (s.Open(c) == Opened ==> r == Pass(s, Panicked(AlreadyExists)))
              // the probe is refused: nothing happens, the loop goes on
              && (ProbeFails(s, c) ==> r == Pass(s, Completed))
              // the name is free: the candidate is created and the target copied over it
              && (s.Open(c) == NotFound ==> r == Deliver(s, target, c))
  {
    if s.Open(target) != Opened then Pass(s, Panicked(SourceNotOpened))
    else match Candidate(dest, target)
      case None => Pass(s, Panicked(NoFileName))
      case Some(c) =>
        match s.Open(c)
        case Opened => Pass(s, Panicked(AlreadyExists))
        case PermissionDenied => Pass(s, Completed)
        case OtherError => Pass(s, Completed)
        case NotFound => Deliver(s, target, c)
  }

  /** The loop of `copy_all_targets`: the targets in order, stopping at the first panic. */
  function RunTargets(s: FsState, dest: Path, targets: seq<Path>): (r: Pass)
    ensures r.outcome != Panicked(CreateDirFailed)
    decreases |targets|
  {
    if targets == [] then Pass(s, Completed)
    else
      var p := Step(s, dest, targets[0]);
      if p.outcome.Panicked? then p else RunTargets(p.state, dest, targets[1..])
  }

  /**
   * Running the loop over `a + b` runs it over `a`, and then over `b` only
   * when no turn of `a` panicked: the loop stops at the first panic, and
   * its outcome and final state are those of the turn that panicked.
   */
  lemma {:induction false} RunTargetsAppend(s: FsState, dest: Path, a: seq<Path>, b: seq<Path>)
    ensures var p := RunTargets(s, dest, a);
            RunTargets(s, dest, a + b) == if p.outcome.Panicked? then p else RunTargets(p.state, dest, b)
    decreases |a|
  {
    if a == [] {
      assert a + b == b;
    } else {
      assert (a + b)[0] == a[0] && (a + b)[1..] == a[1..] + b;
      var first := Step(s, dest, a[0]);
      if !first.outcome.Panicked? {
        RunTargetsAppend(first.state, dest, a[1..], b);
      }
    }
  }

  /**
   * `copy_all_targets` as a function of the filesystem before the pass:
   * the destination directory is created first when there are targets and
   * it does not exist, then the targets are processed.
   */
  function CopyAll(s: FsState, dest: Path, targets: seq<Path>): (r: Pass)
    ensures targets == [] ==> r == Pass(s, Completed)
    ensures r.outcome == Panicked(CreateDirFailed) <==>
              |targets| > 0 && !s.Exists(dest) && dest in s.readOnly
  {
    if |targets| > 0 && !s.Exists(dest) then
      match s.CreateDir(dest)
      case None => Pass(s, Panicked(CreateDirFailed))
      case Some(created) => RunTargets(created, dest, targets)
    else RunTargets(s, dest, targets)
  }

  /**
   * `r` is `s` with files possibly added: every other part of the state is
   * the same, and every file of `s` is still there with the same bytes.
   */
  predicate Extends(s: FsState, r: FsState)
  {
    && r.(files := s.files) == s
    && forall p :: p in s.files ==> p in r.files && r.files[p] == s.files[p]
  }

  /** A path that opens keeps opening once files are added. */
  lemma OpenedStaysOpened(s: FsState, r: FsState, p: Path)
    requires Extends(s, r) && s.Open(p) == Opened
    ensures r.Open(p) == Opened
  {
  }

  /** Delivering to a free candidate only adds that one file. */
  lemma DeliverFrame(s: FsState, target: Path, c: Path)
    requires target != c && c !in s.files
    ensures var r := Deliver(s, target, c).state;
            && Extends(s, r)
            && (forall p :: p in r.files && p !in s.files ==> p == c)
            && (s.Valid() ==> r.Valid())
  {
  }

  /** One turn only ever adds the target's candidate, which was not there before. */
  lemma StepFrame(s: FsState, dest: Path, target: Path)
    ensures var r := Step(s, dest, target).state;
            && Extends(s, r)
            && (forall p :: p in r.files && p !in s.files ==> Candidate(dest, target) == Some(p))
            && (s.Valid() ==> r.Valid())
  {
    if s.Open(target) == Opened && Candidate(dest, target).Some? {
      var c := Candidate(dest, target).value;
      if s.Open(c) == NotFound {
        DeliverFrame(s, target, c);
      }
    }
  }

  /**
   * The targets loop never touches directories or what the system refuses,
   * never changes a file that was there, and only adds files at candidates
   * of the targets.
   */
  lemma {:induction false} RunTargetsFrame(s: FsState, dest: Path, targets: seq<Path>)
    ensures var r := RunTargets(s, dest, targets).state;
            && Extends(s, r)
            && (forall p :: p in r.files && p !in s.files ==>
                  exists t :: t in targets && Candidate(dest, t) == Some(p))
            && (s.Valid() ==> r.Valid())
    decreases |targets|
  {
    if targets != [] {
      var step := Step(s, dest, targets[0]);
      StepFrame(s, dest, targets[0]);
      if !step.outcome.Panicked? {
        var r := RunTargets(step.state, dest, targets[1..]).state;
        RunTargetsFrame(step.state, dest, targets[1..]);
        forall p | p in r.files && p !in s.files
          ensures exists t :: t in targets && Candidate(dest, t) == Some(p)
        {
          if p in step.state.files {
            assert targets[0] in targets;
          } else {
            var t :| t in targets[1..] && Candidate(dest, t) == Some(p);
            assert t in targets;
          }
        }
      }
    }
  }

  /**
   * What a pass does to the filesystem as a whole. With no targets it
   * changes nothing. The destination directory is created exactly when
   * there are targets and it does not exist; the pass stops at once when
   * that creation fails. Files already there keep their bytes, and the
   * only files added are candidates of targets.
   */
  lemma CopyAllEffects(s: FsState, dest: Path, targets: seq<Path>)
    ensures targets == [] ==> CopyAll(s, dest, targets) == Pass(s, Completed)
    ensures var r := CopyAll(s, dest, targets);
            && (r.outcome == Panicked(CreateDirFailed) <==>
                  |targets| > 0 && !s.Exists(dest) && dest in s.readOnly)
            && r.state.dirs == (if |targets| > 0 && !s.Exists(dest) && dest !in s.readOnly
                                then s.dirs + {dest} else s.dirs)
            && r.state.(files := s.files, dirs := s.dirs) == s
            && (forall p :: p in s.files ==> p in r.state.files && r.state.files[p] == s.files[p])
            && (forall p :: p in r.state.files && p !in s.files ==>
                  exists t :: t in targets && Candidate(dest, t) == Some(p))
            && (s.Valid() ==> r.state.Valid())
  {
    if |targets| > 0 && !s.Exists(dest) && dest !in s.readOnly {
      RunTargetsFrame(s.CreateDir(dest).value, dest, targets);
    } else {
      RunTargetsFrame(s, dest, targets);
    }
  }

  /**
   * What a completed pass guarantees for target `t`, judged against the
   * filesystem `s` before the pass and `r` after it: `t` opens, has a
   * file name, and either the probe of its candidate is refused or the
   * candidate was free before and now holds the bytes `t` had.
   */
  predicate Delivered(s: FsState, r: FsState, dest: Path, t: Path)
  {
    && r.Open(t) == Opened
    && Candidate(dest, t).Some?
    && var c := Candidate(dest, t).value;
       ProbeFails(s, c) || (!s.Exists(c) && t in s.files && c in r.files && r.files[c] == s.files[t])
  }

  /** A turn that completes delivers its target. */
  lemma StepDelivers(s: FsState, dest: Path, t: Path)
    requires Step(s, dest, t).outcome == Completed
    ensures Delivered(s, Step(s, dest, t).state, dest, t)
  {
    StepFrame(s, dest, t);
  }

  /** Adding files later keeps a delivery. */
  lemma DeliveredLater(s: FsState, r: FsState, r': FsState, dest: Path, t: Path)
    requires Delivered(s, r, dest, t) && Extends(r, r')
    ensures Delivered(s, r', dest, t)
  {
    OpenedStaysOpened(r, r', t);
  }

  /**
   * A delivery judged after a completed turn holds judged before it too:
   * the one file the turn added is the candidate of its own target, and
   * that candidate's candidate is itself, which was not free after the turn.
   */
  lemma DeliveredEarlier(s: FsState, dest: Path, t0: Path, r: FsState, t: Path)
    requires Step(s, dest, t0).outcome == Completed
    requires Delivered(Step(s, dest, t0).state, r, dest, t)
    ensures Delivered(s, r, dest, t)
  {
    var s1 := Step(s, dest, t0).state;
    StepFrame(s, dest, t0);
    var c := Candidate(dest, t).value;
    if !ProbeFails(s, c) && s1 != s {
      var c0 := Candidate(dest, t0).value;
      assert s.Open(c0) == NotFound;
      assert t != c0;
    }
  }

  /** Every target of a completed loop is delivered. */
  lemma {:induction false} CompletedRunDelivers(s: FsState, dest: Path, targets: seq<Path>)
    requires RunTargets(s, dest, targets).outcome == Completed
    ensures forall t :: t in targets ==> Delivered(s, RunTargets(s, dest, targets).state, dest, t)
    decreases |targets|
  {
    if targets != [] {
      var t0 := targets[0];
      var s1 := Step(s, dest, t0).state;
      var r := RunTargets(s1, dest, targets[1..]).state;
      assert RunTargets(s, dest, targets) == RunTargets(s1, dest, targets[1..]);
      StepDelivers(s, dest, t0);
      RunTargetsFrame(s1, dest, targets[1..]);
      DeliveredLater(s, s1, r, dest, t0);
      CompletedRunDelivers(s1, dest, targets[1..]);
      forall t | t in targets[1..]
        ensures Delivered(s, r, dest, t)
      {
        DeliveredEarlier(s, dest, t0, r, t);
      }
      assert forall t :: t in targets ==> t == t0 || t in targets[1..];
    }
  }

  /** Every target of a completed pass is delivered. */
  lemma CompletedPassDelivers(s: FsState, dest: Path, targets: seq<Path>)
    requires CopyAll(s, dest, targets).outcome == Completed
    ensures forall t :: t in targets ==> Delivered(s, CopyAll(s, dest, targets).state, dest, t)
  {
    if |targets| > 0 && !s.Exists(dest) {
      var s1 := s.CreateDir(dest).value;
      CompletedRunDelivers(s1, dest, targets);
      var r := CopyAll(s, dest, targets).state;
      forall t | t in targets
        ensures Delivered(s, r, dest, t)
      {
        assert Delivered(s1, r, dest, t);
      }
    } else {
      CompletedRunDelivers(s, dest, targets);
    }
  }

  /** The candidate of `t` can be written to: the probe of it is not refused. */
  predicate Copyable(s: FsState, dest: Path, t: Path)
  {
    Candidate(dest, t).Some? && !ProbeFails(s, Candidate(dest, t).value)
  }

  /**
   * A loop over targets that all open, whose copyable candidates all exist
   * already, changes nothing, and halts at the first copyable one.
   */
  lemma {:induction false} RerunTargets(s: FsState, dest: Path, targets: seq<Path>)
    requires forall t :: t in targets ==>
               s.Open(t) == Opened && Candidate(dest, t).Some? &&
               (Copyable(s, dest, t) ==> Candidate(dest, t).value in s.files)
    ensures RunTargets(s, dest, targets) ==
              Pass(s, if exists t :: t in targets && Copyable(s, dest, t) then Panicked(AlreadyExists) else Completed)
    decreases |targets|
  {
    if targets != [] {
      var t0 := targets[0];
      assert t0 in targets;
      if !Copyable(s, dest, t0) {
        assert Step(s, dest, t0) == Pass(s, Completed);
        forall t | t in targets[1..]
          ensures s.Open(t) == Opened && Candidate(dest, t).Some? &&
                  (Copyable(s, dest, t) ==> Candidate(dest, t).value in s.files)
        {
          assert t in targets;
        }
        RerunTargets(s, dest, targets[1..]);
        if exists t :: t in targets && Copyable(s, dest, t) {
          var t :| t in targets && Copyable(s, dest, t);
          assert t in targets[1..];
        }
      }
    }
  }

  /**
   * A second pass with the same targets over what a completed pass left
   * changes nothing, and halts on the "already exists" `todo!` as soon as
   * one target was copied: without an update rule the pass is not
   * idempotent.
   */
  lemma SecondPassHalts(s: FsState, dest: Path, targets: seq<Path>)
    requires CopyAll(s, dest, targets).outcome == Completed
    ensures var after := CopyAll(s, dest, targets).state;
            CopyAll(after, dest, targets) ==
              Pass(after, if exists t :: t in targets && Copyable(s, dest, t)
                          then Panicked(AlreadyExists) else Completed)
  {
    var after := CopyAll(s, dest, targets).state;
    CopyAllEffects(s, dest, targets);
    CompletedPassDelivers(s, dest, targets);
    if |targets| > 0 {
      assert targets[0] in targets;
      assert after.Exists(dest);
    }
    forall t | t in targets
      ensures Copyable(after, dest, t) == Copyable(s, dest, t)
      ensures after.Open(t) == Opened && Candidate(dest, t).Some? &&
              (Copyable(after, dest, t) ==> Candidate(dest, t).value in after.files)
    {
      assert Delivered(s, after, dest, t);
    }
    RerunTargets(after, dest, targets);
    assert (exists t :: t in targets && Copyable(s, dest, t)) == (exists t :: t in targets && Copyable(after, dest, t));
  }

  /** `Controller::copy_all_targets`, on the filesystem `fs`. */
  method CopyAllTargets(c: Controller, fs: FileSystem) returns (outcome: Outcome)
    modifies fs
    ensures Pass(fs.State(), outcome) == CopyAll(old(fs.State()), c.destination, TargetList(c))
  {
    var destinationDir := c.destination;
    var destinationDirExists := fs.Exists(destinationDir);
    var targets := TargetList(c);

    if |targets| > 0 && !destinationDirExists {
      var ok := fs.CreateDir(destinationDir);
      if !ok {
        return Panicked(CreateDirFailed);
      }
    }

    ghost var start := fs.State();
    for i := 0 to |targets|
      invariant RunTargets(fs.State(), destinationDir, targets[i..]) == RunTargets(start, destinationDir, targets)
      invariant start == old(fs.State()) || (|targets| > 0 && start == old(fs.State()).CreateDir(destinationDir).value)
      invariant CopyAll(old(fs.State()), destinationDir, targets) == RunTargets(start, destinationDir, targets)
    {
      var target := targets[i];
      ghost var before := fs.State();
      assert targets[i..][0] == target && targets[i..][1..] == targets[i + 1..];

      if fs.Open(target) != Opened {
        return Panicked(SourceNotOpened);
      }
      var name := FileName(target);
      if name.None? {
        return Panicked(NoFileName);
      }
      var destination := Push(destinationDir, Path(name.value));
      assert Candidate(destinationDir, target) == Some(destination);

      match fs.Open(destination)
      case Opened =>
        return Panicked(AlreadyExists);
      case PermissionDenied =>
      case OtherError =>
      case NotFound =>
        var created := fs.CreateFile(destination);
        if !created {
          return Panicked(CreateFailed);
        }
        var copied := fs.Copy(target, destination);
        if !copied {
          return Panicked(CopyFailed);
        }
      assert Step(before, destinationDir, target) == Pass(fs.State(), Completed);
    }
    outcome := Completed;
  }
}
