/** `tail()`: the generator that follows the audit log file. Each call to
    `Step` is one pass of the generator's loops: an open attempt when no file
    is open, otherwise one `readline()` and what follows from it. The file
    system is an input per step. */
module LogFollowing {
  import opened Wrappers

  /** Empty reads tolerated before the file's identity is checked (`counter > 600`). */
  const IdleLimit: nat := 600

  /** What the log path names at one moment: nothing (`open`/`os.stat` raise),
      or a file with an inode and its lines. */
  datatype FileAtPath = Missing | Present(inode: int, lines: seq<string>)

  /** The outside world during one step: the file at the log path, the lines
      written to the open file since the previous step, and whether
      `readline()` raises (an undecodable byte, an I/O error). */
  datatype Env = Env(atPath: FileAtPath, appended: seq<string>, readFails: bool)

  /** `isOpen`: inside the `with` block; `lines`: the open file's content;
      `pos`: the lines `readline()` has consumed; `fileIndex`: the inode
      recorded at open; `counter`: the consecutive empty reads. */
  datatype FollowState = FollowState(isOpen: bool, lines: seq<string>, pos: nat, fileIndex: int, counter: nat)

  datatype StepResult = StepResult(next: FollowState, line: Option<string>)

  const Initial: FollowState := FollowState(false, [], 0, 0, 0)

  ghost predicate Inv(s: FollowState)
  {
    && s.pos <= |s.lines|
    && s.counter <= IdleLimit + 1
    && (s.isOpen ==> s.counter <= IdleLimit)
  }

  /** One pass of `tail`'s loops.
      Closed: `open` and `os.stat` at lines 141-143; a missing file raises
      and the outer loop tries again. Open: `readline()` at line 145; a line
      is yielded; an empty read increments the counter and, past the limit,
      compares inodes (lines 149-152); a changed inode breaks out to reopen;
      any exception leaves the `with` block, caught at line 157. */
  function Step(s: FollowState, e: Env): (r: StepResult)
    requires Inv(s)
    ensures Inv(r.next)
    // Only an open handle yields, and then the next unread line, leaving the counter as it was.
    ensures r.line.Some? ==>
      && s.isOpen && r.next.isOpen
      && r.next.lines == s.lines + e.appended
      && s.pos < |r.next.lines| && r.line.value == r.next.lines[s.pos]
      && r.next.pos == s.pos + 1
      && r.next.counter == s.counter && r.next.fileIndex == s.fileIndex
    // Every open starts at the beginning of the file at the path, with a zero counter.
    ensures !s.isOpen && r.next.isOpen ==>
      && e.atPath.Present?
      && r.next == FollowState(true, e.atPath.lines, 0, e.atPath.inode, 0)
    ensures !s.isOpen ==> r.line == None && (r.next.isOpen <==> e.atPath.Present?)
  {
    if !s.isOpen then
      match e.atPath
      case Missing => StepResult(s, None)
      case Present(inode, lines) => StepResult(FollowState(true, lines, 0, inode, 0), None)
    else
      var lines := s.lines + e.appended;
      if e.readFails then
        StepResult(s.(isOpen := false, lines := lines), None)
      else if s.pos < |lines| then
        StepResult(s.(lines := lines, pos := s.pos + 1), Some(lines[s.pos]))
      else
        var counter := s.counter + 1;
        var idle := s.(lines := lines, counter := counter);
        if counter <= IdleLimit then StepResult(idle, None)
        else match e.atPath
          case Missing => StepResult(idle.(isOpen := false), None)
          case Present(inode, _) =>
            if inode != s.fileIndex then StepResult(idle.(isOpen := false), None)
            else StepResult(idle.(counter := 0), None)
  }

  /** An empty read below the limit changes nothing but the counter. */
  lemma EmptyReadOnlyCounts(s: FollowState, e: Env)
    requires Inv(s) && s.isOpen && !e.readFails
    requires e.appended == [] && s.pos == |s.lines| && s.counter < IdleLimit
    ensures Step(s, e) == StepResult(s.(counter := s.counter + 1), None)
  {
  }

  /** The identity check: at the limit, an unchanged inode resets the counter
      and the file stays open; a changed or missing one ends the open. */
  lemma IdleCheck(s: FollowState, e: Env)
    requires Inv(s) && s.isOpen && !e.readFails
    requires e.appended == [] && s.pos == |s.lines| && s.counter == IdleLimit
    ensures e.atPath.Present? && e.atPath.inode == s.fileIndex ==>
      Step(s, e) == StepResult(s.(counter := 0), None)
    ensures !(e.atPath.Present? && e.atPath.inode == s.fileIndex) ==>
      Step(s, e) == StepResult(s.(isOpen := false, counter := IdleLimit + 1), None)
  {
  }

  /** A raising `readline()` ends the open, whatever else holds. */
  lemma ReadFailureReopens(s: FollowState, e: Env)
    requires Inv(s) && s.isOpen && e.readFails
    ensures !Step(s, e).next.isOpen && Step(s, e).line == None
  {
  }

  datatype RunResult = RunResult(state: FollowState, emitted: seq<string>)

  /** The state after a sequence of steps and the lines yielded on the way. */
  function Run(s: FollowState, envs: seq<Env>): (r: RunResult)
    requires Inv(s)
    ensures Inv(r.state)
    decreases |envs|
  {
    if envs == [] then RunResult(s, [])
    else
      var before := Run(s, envs[..|envs| - 1]);
      var step := Step(before.state, envs[|envs| - 1]);
      RunResult(step.next, before.emitted + ToSeq(step.line))
  }

  /** A run over one more step of `envs` is the shorter run followed by that step. */
  lemma RunPrefixStep(s: FollowState, envs: seq<Env>, i: nat)
    requires Inv(s) && i < |envs|
    ensures var before := Run(s, envs[..i]);
      var step := Step(before.state, envs[i]);
      Run(s, envs[..i + 1]) == RunResult(step.next, before.emitted + ToSeq(step.line))
  {
    assert envs[..i + 1][..i] == envs[..i];
  }

  /** The file stays open throughout the run, so it is never reopened. */
  ghost predicate StaysOpen(s: FollowState, envs: seq<Env>)
    requires Inv(s)
    decreases |envs|
  {
    s.isOpen && (envs == [] || (StaysOpen(s, envs[..|envs| - 1]) && Run(s, envs).state.isOpen))
  }

  /** One step that keeps the file open extends the yielded slice by the line it yields. */
  lemma StepExtendsSlice(p: FollowState, e: Env, start: nat, emitted: seq<string>)
    requires Inv(p) && p.isOpen && Step(p, e).next.isOpen
    requires start <= p.pos && emitted == p.lines[start..p.pos]
    ensures var r := Step(p, e);
      && p.lines <= r.next.lines
      && p.pos <= r.next.pos
      && r.next.fileIndex == p.fileIndex
      && emitted + ToSeq(r.line) == r.next.lines[start..r.next.pos]
  {
    var r := Step(p, e);
    assert p.lines <= r.next.lines;
    assert r.next.lines[start..p.pos] == emitted;
    if r.line.Some? {
      assert r.next.lines[start..r.next.pos] == r.next.lines[start..p.pos] + [r.line.value];
    }
  }

  /** Within one open the follower yields the file's lines in file order, each
      exactly once: what it has yielded is precisely the slice of the file
      between the starting position and the current one, and the file's
      content only grows. */
  lemma {:induction false} InOrderExactlyOnce(s: FollowState, envs: seq<Env>)
    requires Inv(s) && StaysOpen(s, envs)
    ensures var r := Run(s, envs);
      && s.lines <= r.state.lines
      && s.pos <= r.state.pos
      && r.state.fileIndex == s.fileIndex
      && r.emitted == r.state.lines[s.pos..r.state.pos]
    decreases |envs|
  {
    if envs != [] {
      var prefix := envs[..|envs| - 1];
      InOrderExactlyOnce(s, prefix);
      var before := Run(s, prefix);
      StepExtendsSlice(before.state, envs[|envs| - 1], s.pos, before.emitted);
    }
  }

  /** Rotation: once an idle follower sees another inode, or no file, at the
      path it drops the old file; the next step that finds a file opens it from
      its first line with the counter at zero, and nothing is yielded meanwhile. */
  lemma RotationReopensFromStart(s: FollowState, e1: Env, e2: Env)
    requires Inv(s) && s.isOpen && s.pos == |s.lines| && s.counter == IdleLimit
    requires e1.appended == [] && !e1.readFails
    requires !(e1.atPath.Present? && e1.atPath.inode == s.fileIndex)
    requires e2.atPath.Present?
    ensures Run(s, [e1, e2]) == RunResult(FollowState(true, e2.atPath.lines, 0, e2.atPath.inode, 0), [])
  {
    var closed := s.(isOpen := false, counter := IdleLimit + 1);
    assert [e1, e2][..1] == [e1];
    assert [e1][..0] == [];
    assert Run(s, [e1]) == RunResult(closed, []) by {
      IdleCheck(s, e1);
    }
  }

  /** The generator's local state, updated step by step. */
  class LogFollower {
    var isOpen: bool
    var lines: seq<string>
    var pos: nat
    var fileIndex: int
    var counter: nat

    function State(): FollowState
      reads this
    {
      FollowState(isOpen, lines, pos, fileIndex, counter)
    }

    ghost predicate Valid()
      reads this
    {
      Inv(State())
    }

    constructor ()
      ensures Valid() && State() == Initial
    {
      isOpen, lines, pos, fileIndex, counter := false, [], 0, 0, 0;
    }

    /** Advance the generator by one pass; `line` is what it yields, if anything. */
    method Next(e: Env) returns (line: Option<string>)
      requires Valid()
      modifies this
      ensures Valid()
      ensures StepResult(State(), line) == Step(old(State()), e)
    {
      line := None;
      if !isOpen {
        match e.atPath {
          case Missing =>
          case Present(inode, content) =>
            isOpen, lines, pos, fileIndex, counter := true, content, 0, inode, 0;
        }
        return;
      }
      lines := lines + e.appended;
      if e.readFails {
        isOpen := false;
      } else if pos < |lines| {
        line := Some(lines[pos]);
        pos := pos + 1;
      } else {
        counter := counter + 1;
        if counter > IdleLimit {
          match e.atPath {
            case Missing =>
              isOpen := false;
            case Present(inode, _) =>
              if inode != fileIndex {
                isOpen := false;
              } else {
                counter := 0;
              }
          }
        }
      }
    }
  }
}
