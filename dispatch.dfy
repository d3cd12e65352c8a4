/** `replicate()`: each line `tail()` yields is filtered by the marker,
    decoded, and routed by its operation to `replicate_secret` or
    `delete_secret`; every failure drops the line and the loop goes on. */
module Dispatch {
  import opened Wrappers
  import opened PyStrings
  import opened SecretsManager
  import opened Replication
  import opened LogFollowing

  /** What `json.loads(line)` gives, as far as the dispatcher looks at it: the
      `Operation` and `Path` keys, each None when absent. */
  datatype AuditRecord = AuditRecord(operation: Option<string>, path: Option<string>)

  /** `json.loads`: None when the line is not a JSON object (the call raises). */
  type Decoder = string -> Option<AuditRecord>

  datatype Action = Ignore | Upsert(path: string) | Remove(path: string)

  /** The two readings of the marker test at line 166. As written,
      `line.contains(MATCH)` calls a method Python's `str` does not have: it
      raises AttributeError for every line and the bare `except` at line 173
      drops the line. Intended is `MATCH in line`. */
  datatype MarkerTest = AsWritten | Intended

  /** The outcome of the marker test; None when it raises. */
  function MarkerTestResult(test: MarkerTest, marker: string, line: string): Option<bool>
  {
    match test
    case AsWritten => None
    case Intended => Some(Contains(line, marker))
  }

  /** Where the body of `replicate`'s loop sends one line. */
  function Route(test: MarkerTest, cfg: Config, decode: Decoder, line: string): (a: Action)
    ensures test == AsWritten ==> a == Ignore
    ensures !Contains(line, cfg.marker) ==> a == Ignore
    ensures a.Upsert? <==>
      && test == Intended && Contains(line, cfg.marker)
      && decode(line).Some?
      && decode(line).value.operation in {Some("create"), Some("update")}
      && decode(line).value.path.Some?
    ensures a.Remove? <==>
      && test == Intended && Contains(line, cfg.marker)
      && decode(line).Some?
      && decode(line).value.operation == Some("delete")
      && decode(line).value.path.Some?
    ensures !a.Ignore? ==> decode(line).Some? && decode(line).value.path == Some(a.path)
  {
    match MarkerTestResult(test, cfg.marker, line)
    case None => Ignore
    case Some(marked) =>
      if !marked then Ignore
      else match decode(line)
        case None => Ignore
        case Some(record) =>
          match record.operation
          case None => Ignore
          case Some(op) =>
            if op != "create" && op != "update" && op != "delete" then Ignore
            else match record.path
              case None => Ignore
              case Some(path) => if op == "delete" then Remove(path) else Upsert(path)
  }

  /** The store after the loop body handles one line. */
  function ApplyLine(test: MarkerTest, cfg: Config, source: SourceStore, decode: Decoder,
                     st: StoreState, line: string): (r: StoreState)
    requires WellFormed(st.secrets)
    ensures WellFormed(r.secrets)
  {
    match Route(test, cfg, decode, line)
    case Ignore => st
    case Upsert(path) => ReplicateSpec(cfg, source, st, path)
    case Remove(path) => DeleteSpec(st, path)
  }

  /** The store after the loop body handles each line in turn. */
  function ProcessLines(test: MarkerTest, cfg: Config, source: SourceStore, decode: Decoder,
                        st: StoreState, lines: seq<string>): (r: StoreState)
    requires WellFormed(st.secrets)
    ensures WellFormed(r.secrets)
    decreases |lines|
  {
    if lines == [] then st
    else ApplyLine(test, cfg, source, decode,
                   ProcessLines(test, cfg, source, decode, st, lines[..|lines| - 1]),
                   lines[|lines| - 1])
  }

  /** The body of `replicate`'s loop for one line, with the intended marker test. */
  method HandleLine(cfg: Config, source: SourceStore, decode: Decoder, store: TargetStore, line: string)
    requires store.Valid()
    modifies store
    ensures store.Valid()
    ensures store.State() == ApplyLine(Intended, cfg, source, decode, old(store.State()), line)
  {
    var action := Route(Intended, cfg, decode, line);
    match action {
      case Ignore =>
      case Upsert(path) => ReplicateSecret(cfg, source, store, path);
      case Remove(path) => DeleteSecret(store, path);
    }
  }

  /** One iteration of `for line in tail(): ...`: advance the follower by one
      step and handle the line it yields, if any. */
  method Pump(cfg: Config, source: SourceStore, decode: Decoder,
              follower: LogFollower, store: TargetStore, e: Env) returns (line: Option<string>)
    requires follower.Valid() && store.Valid()
    modifies follower, store
    ensures follower.Valid() && store.Valid()
    ensures StepResult(follower.State(), line) == Step(old(follower.State()), e)
    ensures store.State() == if line.Some? then ApplyLine(Intended, cfg, source, decode, old(store.State()), line.value)
                             else old(store.State())
  {
    line := follower.Next(e);
    if line.Some? {
      HandleLine(cfg, source, decode, store, line.value);
    }
  }

  /** `for line in tail(): ...` over a finite stretch of the follower's steps:
      every line the follower yields is handled, in order, before the next
      step. */
  method Replicate(cfg: Config, source: SourceStore, decode: Decoder,
                   follower: LogFollower, store: TargetStore, envs: seq<Env>)
    requires follower.Valid() && store.Valid()
    modifies follower, store
    ensures follower.Valid() && store.Valid()
    ensures var run := Run(old(follower.State()), envs);
      && follower.State() == run.state
      && store.State() == ProcessLines(Intended, cfg, source, decode, old(store.State()), run.emitted)
  {
    ghost var f0, st0 := follower.State(), store.State();
    ghost var emitted: seq<string> := [];
    var i := 0;
    while i < |envs|
      invariant 0 <= i <= |envs|
      invariant follower.Valid() && store.Valid()
      invariant Run(f0, envs[..i]) == RunResult(follower.State(), emitted)
      invariant store.State() == ProcessLines(Intended, cfg, source, decode, st0, emitted)
    {
      RunPrefixStep(f0, envs, i);
      var line := Pump(cfg, source, decode, follower, store, envs[i]);
      if line.Some? {
        ProcessLinesSnoc(Intended, cfg, source, decode, st0, emitted, line.value);
        emitted := emitted + [line.value];
      } else {
        assert emitted + ToSeq(line) == emitted;
      }
      i := i + 1;
    }
    assert envs[..|envs|] == envs;
  }

  // Properties of the dispatch loop.

  /** One more line continues from the store the earlier lines left. */
  lemma ProcessLinesSnoc(test: MarkerTest, cfg: Config, source: SourceStore, decode: Decoder,
                         st: StoreState, xs: seq<string>, line: string)
    requires WellFormed(st.secrets)
    ensures ProcessLines(test, cfg, source, decode, st, xs + [line])
         == ApplyLine(test, cfg, source, decode, ProcessLines(test, cfg, source, decode, st, xs), line)
  {
    assert (xs + [line])[..|xs|] == xs;
  }

  /** Handling lines is sequential: a longer stream continues from the
      store the shorter one left. */
  lemma {:induction false} ProcessLinesAppend(test: MarkerTest, cfg: Config, source: SourceStore, decode: Decoder,
                                              st: StoreState, xs: seq<string>, ys: seq<string>)
    requires WellFormed(st.secrets)
    ensures ProcessLines(test, cfg, source, decode, st, xs + ys)
         == ProcessLines(test, cfg, source, decode, ProcessLines(test, cfg, source, decode, st, xs), ys)
    decreases |ys|
  {
    if ys == [] {
      assert xs + ys == xs;
    } else {
      var ys' := ys[..|ys| - 1];
      assert (xs + ys)[..|xs + ys| - 1] == xs + ys';
      assert (xs + ys)[|xs + ys| - 1] == ys[|ys| - 1];
      ProcessLinesAppend(test, cfg, source, decode, st, xs, ys');
    }
  }

  /** A line the dispatcher ignores (no marker, undecodable, a missing key, an
      unknown operation) can be removed from the stream without changing the
      outcome: the lines after it are handled exactly as if it were absent. */
  lemma IgnoredLineIsTransparent(test: MarkerTest, cfg: Config, source: SourceStore, decode: Decoder,
                                 st: StoreState, xs: seq<string>, junk: string, ys: seq<string>)
    requires WellFormed(st.secrets)
    requires Route(test, cfg, decode, junk) == Ignore
    ensures ProcessLines(test, cfg, source, decode, st, xs + [junk] + ys)
         == ProcessLines(test, cfg, source, decode, st, xs + ys)
  {
    ProcessLinesAppend(test, cfg, source, decode, st, xs + [junk], ys);
    ProcessLinesAppend(test, cfg, source, decode, st, xs, [junk]);
    ProcessLinesAppend(test, cfg, source, decode, st, xs, ys);
    assert [junk][..0] == [];
  }

  /** A corrupt line between two good ones does not keep the second from being handled. */
  lemma MalformedLineResilience(cfg: Config, source: SourceStore, decode: Decoder,
                                st: StoreState, good1: string, junk: string, good2: string)
    requires WellFormed(st.secrets)
    requires decode(junk).None?
    ensures ProcessLines(Intended, cfg, source, decode, st, [good1, junk, good2])
         == ApplyLine(Intended, cfg, source, decode, ApplyLine(Intended, cfg, source, decode, st, good1), good2)
  {
    IgnoredLineIsTransparent(Intended, cfg, source, decode, st, [good1], junk, [good2]);
    assert [good1] + [junk] + [good2] == [good1, junk, good2];
    assert [good1] + [good2] == [good1, good2];
    assert [good1, good2][..1] == [good1];
    assert [good1][..0] == [];
    var s1 := ApplyLine(Intended, cfg, source, decode, st, good1);
    assert ProcessLines(Intended, cfg, source, decode, st, [good1]) == s1;
    assert ProcessLines(Intended, cfg, source, decode, st, [good1, good2])
        == ApplyLine(Intended, cfg, source, decode, s1, good2);
  }

  /** A line without the marker never reaches the dispatcher, whatever it decodes to. */
  lemma UnmarkedLineHasNoEffect(test: MarkerTest, cfg: Config, source: SourceStore, decode: Decoder,
                                st: StoreState, line: string)
    requires WellFormed(st.secrets)
    requires !Contains(line, cfg.marker)
    ensures ApplyLine(test, cfg, source, decode, st, line) == st
  {
  }

  /** As written, the loop never dispatches: the store ends as it started,
      for every stream of lines. */
  lemma {:induction false} AsWrittenDispatchesNothing(cfg: Config, source: SourceStore, decode: Decoder,
                                                      st: StoreState, lines: seq<string>)
    requires WellFormed(st.secrets)
    ensures ProcessLines(AsWritten, cfg, source, decode, st, lines) == st
    decreases |lines|
  {
    if lines != [] {
      AsWrittenDispatchesNothing(cfg, source, decode, st, lines[..|lines| - 1]);
    }
  }

  // A worked example: one create line, then two identical delete lines.

  const ExamplePath: string := DefaultConfig.marker + "/db/password"
  const CreateLine: string := "{\"Operation\":\"create\",\"Path\":\"" + ExamplePath + "\"}"
  const DeleteLine: string := "{\"Operation\":\"delete\",\"Path\":\"" + ExamplePath + "\"}"

  function ExampleDecoder(): Decoder
  {
    l => if l == CreateLine then Some(AuditRecord(Some("create"), Some(ExamplePath)))
         else if l == DeleteLine then Some(AuditRecord(Some("delete"), Some(ExamplePath)))
         else None
  }

  function ExampleSource(): SourceStore
  {
    p => if p == ExamplePath then Some("s3cr3t") else None
  }

  lemma ExampleLinesAreMarked()
    ensures Contains(CreateLine, DefaultConfig.marker) && Contains(DeleteLine, DefaultConfig.marker)
    ensures CreateLine != DeleteLine
  {
    var m := DefaultConfig.marker;
    var head := "{\"Operation\":\"create\",\"Path\":\"";
    assert CreateLine == head + (m + "/db/password\"}");
    assert CreateLine[|head|..|head| + |m|] == m;
    OccursImpliesContains(CreateLine, m, |head|);
    assert DeleteLine[|head|..|head| + |m|] == m;
    OccursImpliesContains(DeleteLine, m, |head|);
    assert CreateLine[14] != DeleteLine[14];
  }

  lemma ExampleCreateLine(st: StoreState)
    requires WellFormed(st.secrets) && ExamplePath !in st.secrets
    ensures ApplyLine(Intended, DefaultConfig, ExampleSource(), ExampleDecoder(), st, CreateLine)
         == StoreState(st.secrets[ExamplePath := RecordOf(ExampleRequest)], st.issued + [Create(ExampleRequest)])
  {
    ExampleLinesAreMarked();
    assert Route(Intended, DefaultConfig, ExampleDecoder(), CreateLine) == Upsert(ExamplePath);
    ReplicateCreatesMissing(DefaultConfig, ExampleSource(), st, ExamplePath);
  }

  lemma ExampleDeleteLine(st: StoreState)
    requires WellFormed(st.secrets)
    ensures ApplyLine(Intended, DefaultConfig, ExampleSource(), ExampleDecoder(), st, DeleteLine)
         == DeleteSpec(st, ExamplePath)
  {
    ExampleLinesAreMarked();
    assert Route(Intended, DefaultConfig, ExampleDecoder(), DeleteLine) == Remove(ExamplePath);
  }

  /** The create request the example's create line leads to. */
  const ExampleRequest: CreateRequest :=
    CreateRequest(ExamplePath, "vaultsync managed", "s3cr3t", None, [Replica("us-east-2", None)], true)

  lemma ExampleAfterDelete(st: StoreState)
    requires WellFormed(st.secrets) && ExamplePath !in st.secrets
    ensures var s1 := StoreState(st.secrets[ExamplePath := RecordOf(ExampleRequest)], st.issued + [Create(ExampleRequest)]);
      ApplyLine(Intended, DefaultConfig, ExampleSource(), ExampleDecoder(), s1, DeleteLine)
      == StoreState(st.secrets, st.issued + [Create(ExampleRequest), Delete(ArnOf(ExamplePath), true)])
  {
    var s1 := StoreState(st.secrets[ExamplePath := RecordOf(ExampleRequest)], st.issued + [Create(ExampleRequest)]);
    ExampleDeleteLine(s1);
    DeleteRemovesExisting(s1, ExamplePath);
    assert s1.secrets - {ExamplePath} == st.secrets;
  }

  /** With the default settings and no record for the path: the create line
      issues one create of the value with a replica in the backup region; the
      first delete line issues one forced delete of the new ARN; the second
      delete line issues nothing. */
  lemma ExampleScenario(st: StoreState)
    requires WellFormed(st.secrets) && ExamplePath !in st.secrets
    ensures ProcessLines(Intended, DefaultConfig, ExampleSource(), ExampleDecoder(), st, [CreateLine])
         == StoreState(st.secrets[ExamplePath := RecordOf(ExampleRequest)], st.issued + [Create(ExampleRequest)])
    ensures ProcessLines(Intended, DefaultConfig, ExampleSource(), ExampleDecoder(), st,
                         [CreateLine, DeleteLine, DeleteLine])
         == StoreState(st.secrets, st.issued + [Create(ExampleRequest), Delete(ArnOf(ExamplePath), true)])
  {
    var cfg, source, decode := DefaultConfig, ExampleSource(), ExampleDecoder();
    var s1 := StoreState(st.secrets[ExamplePath := RecordOf(ExampleRequest)], st.issued + [Create(ExampleRequest)]);
    var s2 := StoreState(st.secrets, st.issued + [Create(ExampleRequest), Delete(ArnOf(ExamplePath), true)]);
    ExampleCreateLine(st);
    ExampleAfterDelete(st);
    ExampleDeleteLine(s2);
    DeleteMissingIsNoop(s2, ExamplePath);
    ProcessLinesSnoc(Intended, cfg, source, decode, st, [], CreateLine);
    assert [] + [CreateLine] == [CreateLine];
    ProcessLinesSnoc(Intended, cfg, source, decode, st, [CreateLine], DeleteLine);
    assert [CreateLine] + [DeleteLine] == [CreateLine, DeleteLine];
    ProcessLinesSnoc(Intended, cfg, source, decode, st, [CreateLine, DeleteLine], DeleteLine);
    assert [CreateLine, DeleteLine] + [DeleteLine] == [CreateLine, DeleteLine, DeleteLine];
  }

  /** The marker test as written drops the example's create line, which the
      intended test dispatches as a create. */
  lemma AsWrittenDropsExampleLine(st: StoreState)
    requires WellFormed(st.secrets) && ExamplePath !in st.secrets
    ensures ApplyLine(AsWritten, DefaultConfig, ExampleSource(), ExampleDecoder(), st, CreateLine) == st
    ensures ApplyLine(Intended, DefaultConfig, ExampleSource(), ExampleDecoder(), st, CreateLine) != st
  {
    ExampleCreateLine(st);
  }
}
