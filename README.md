# vault2secretsmanager in Dafny

A model of the replicator that follows HashiCorp Vault's audit log and mirrors
secret changes into AWS Secrets Manager, together with the two parsing helpers
of its `setup.py`.

- `wrappers.dfy`, module `Wrappers`: `Option`, the stand-in for `None` and for calls that raise.
- `py_strings.dfy`, module `PyStrings`: the Python `str` operations the code uses
  (`startswith`, `in`, `lower`, `split`) over `seq<char>`. It also defines
  `Join`, which the code never calls, as the inverse that `Split` is proved against.
- `secrets_manager.dfy`, module `SecretsManager`: the target store. Class
  `TargetStore` holds a map from secret name to record (ARN, value,
  description, KMS key, replica regions with their KMS keys, overwrite flag).
  It also keeps the list of write requests issued to it. Its three write
  calls (`create_secret`, `update_secret`, `delete_secret`) are specified by
  the pure transition `Apply`. `list_secrets` changes nothing, and its
  result is specified by the pure exact-name `Lookup`.
- `replication.dfy`, module `Replication`: `get_secret_id`, `replicate_secret`
  (with the in-place construction of the create kwargs) and `delete_secret`.
  They are methods on the store, each specified by a pure function
  (`SecretId`, `ReplicateSpec`, `DeleteSpec`). Lemmas cover the upsert, the
  idempotent delete and the ordering of events. The Vault client is a
  function from path to `Option<value>` (None when the read raises).
  The environment settings are an immutable `Config`.
- `log_following.dfy`, module `LogFollowing`: the `tail` generator as a state
  machine (`Step`) and class `LogFollower`. The state is the open flag, the
  open file's lines, the read position, the inode recorded at open and the
  idle counter. The file system is an input per step.
- `dispatch.dfy`, module `Dispatch`: the loop body of `replicate` (marker test,
  decode, route by operation) and the loop itself. The loop drives a
  `LogFollower` and a `TargetStore` over a finite run of follower steps.
- `package_setup.dfy`, module `PackageSetup`: `get_changelog` (`GetChangelog`)
  and `get_requirements` (`GetRequirements`), each with lemmas about it.

Three behaviours of the code a reader might not expect:
- The code's version extraction `line.split(']')[0].split('[')[1]` stops at the
  next `[` as well as at the first `]`. So the result is the text between the
  first `[` and the next bracket of either kind. It is exactly the text between
  the brackets only when no second `[` comes first (`VersionBetweenBrackets`).
- A log file that cannot be opened is retried at once by the outer loop, with
  no backoff (only empty reads sleep).
- Every reopen starts from the first line of the file at the path.

## Model

| member | source | states |
|---|---|---|
| `SecretsManager.TargetStore.ListSecrets` | vault2secretsmanager/__init__.py:64-71 | the lookup returns the one record stored under the name, or nothing; it changes nothing in the store |
| `SecretsManager.Apply` | vault2secretsmanager/__init__.py:93-131 | each issued write is logged. An accepted create adds exactly the requested record, an update changes only the value of the ARN's record, and a forced delete removes that record. A refused write changes no record. Well-formedness (each record carries its name's ARN) is kept. |
| `SecretsManager.TargetStore.CreateSecret` | vault2secretsmanager/__init__.py:114 | the store's new state is `Apply` of the create request; the result says whether the name was free |
| `SecretsManager.TargetStore.UpdateSecret` | vault2secretsmanager/__init__.py:93-96 | the store's new state is `Apply` of the update; the result says whether the ARN exists |
| `SecretsManager.TargetStore.DeleteSecret` | vault2secretsmanager/__init__.py:128-131 | the store's new state is `Apply` of the delete; the result says whether it was forced and the ARN exists |
| `SecretsManager.Lookup` | vault2secretsmanager/__init__.py:64-71 | the name-filtered listing holds at most one record; it holds one exactly when the name is stored, and then it is that name's record (exact-name matching, see "Left out") |
| `Replication.SecretId` | vault2secretsmanager/__init__.py:72-74 | under the exact-name `Lookup`, the ARN is non-empty exactly when the name is stored, and then it is that record's ARN |
| `Replication.GetSecretId` | vault2secretsmanager/__init__.py:54-74 | returns the first looked-up record's ARN, or `''` for an empty lookup; no modifies clause, so it changes nothing |
| `Replication.BuildCreateKwargs` | vault2secretsmanager/__init__.py:98-112 | the request sets Name to the secret name and Description to `vaultsync managed`. SecretString is the fetched value, and it holds exactly one replica, in the backup region, with ForceOverwriteReplicaSecret true. A top-level KmsKeyId is present exactly when PRIMARY_KMS is non-empty, and equals it. The replica KmsKeyId is present exactly when BACKUP_KMS is non-empty, and equals it. |
| `Replication.ReplicateSpec` | vault2secretsmanager/__init__.py:77-115 | the pure reference for `replicate_secret`: no change when the read raises, else an update or a create, which keeps every record carrying its name's ARN; the branches are stated by the three lemmas below |
| `Replication.ReplicateSecret` | vault2secretsmanager/__init__.py:77-115 | the store's new state is `ReplicateSpec` of the old one |
| `Replication.ReplicateReadFailureIsNoop` | vault2secretsmanager/__init__.py:88 | a Vault read that raises leaves the store and its request log unchanged |
| `Replication.ReplicateUpdatesExisting` | vault2secretsmanager/__init__.py:92-96 | for a name the lookup finds, exactly one update of that ARN with the fetched value is issued. No record is created, and description, KMS key and replicas stay as they were. Other records are untouched. |
| `Replication.ReplicateCreatesMissing` | vault2secretsmanager/__init__.py:97-114 | for a name the lookup does not find, exactly one create with the built kwargs is issued, and the new record holds the value, the managed description and the backup-region replica |
| `Replication.SpecsAffectOnlyTheirName` | vault2secretsmanager/__init__.py:90-131 | under the exact-name `Lookup`, replicating or deleting one name leaves every other name's presence and record unchanged |
| `Replication.UpsertIsIdempotent` | vault2secretsmanager/__init__.py:90-114 | a second create/update event for the same name takes the update branch. The name set is the original plus that name, and, under the exact-name `Lookup`, the one record holds the latest value. |
| `Replication.DeleteSpec` | vault2secretsmanager/__init__.py:118-132 | the pure reference for `delete_secret`: a forced delete of the ARN found, or no call; records keep their names' ARNs; the branches are stated by the three lemmas below |
| `Replication.DeleteSecret` | vault2secretsmanager/__init__.py:118-132 | the store's new state is `DeleteSpec` of the old one |
| `Replication.DeleteRemovesExisting` | vault2secretsmanager/__init__.py:125-131 | for a stored name, exactly one delete of its ARN with ForceDeleteWithoutRecovery true is issued and the record is gone |
| `Replication.DeleteMissingIsNoop` | vault2secretsmanager/__init__.py:125-126 | for a name the lookup does not find, no call is made and the store is unchanged |
| `Replication.DeleteIsIdempotent` | vault2secretsmanager/__init__.py:125-131 | a repeated delete after the first changes nothing further |
| `Replication.CreateUpdateDeleteInOrder` | vault2secretsmanager/__init__.py:90-131 | create, update, delete of one new path leave the records as they started; a create, an update and a forced delete are issued in that order |
| `LogFollowing.Step` | vault2secretsmanager/__init__.py:139-158 | the counter never exceeds 601, and never exceeds 600 while open. A yield is the next unread line of the open file, advances the position by one and leaves the counter as it was. Every open starts at line 0 of the file at the path, with counter 0 and its inode recorded. A missing file stays closed. |
| `LogFollowing.EmptyReadOnlyCounts` | vault2secretsmanager/__init__.py:146-153 | an empty read below the limit only increments the counter |
| `LogFollowing.IdleCheck` | vault2secretsmanager/__init__.py:149-152 | at the limit, an unchanged inode resets the counter and keeps the file open; a changed inode, or a stat that raises, ends the open |
| `LogFollowing.ReadFailureReopens` | vault2secretsmanager/__init__.py:156-158 | a `readline` that raises ends the open, to be reopened by the outer loop |
| `LogFollowing.Run` | vault2secretsmanager/__init__.py:139-158 | every state reached by a run of steps keeps the counter bound |
| `LogFollowing.InOrderExactlyOnce` | vault2secretsmanager/__init__.py:144-154 | while the file stays open, the lines yielded are exactly the file's lines from the start position to the current one, in file order and each once; the content only grows |
| `LogFollowing.RotationReopensFromStart` | vault2secretsmanager/__init__.py:139-152 | an idle follower at the limit that sees another inode, or no file, closes; the next step that finds a file opens it at its first line with counter 0, and nothing is yielded meanwhile |
| `LogFollowing.LogFollower.constructor` | vault2secretsmanager/__init__.py:135-139 | a new follower has no file open and a zero counter |
| `LogFollowing.LogFollower.Next` | vault2secretsmanager/__init__.py:139-158 | the fields and the yielded line are exactly those `Step` gives for the old fields |
| `Dispatch.Route` | vault2secretsmanager/__init__.py:166-171 | with the intended marker test, a line routes to replicate exactly when it has the marker, decodes, is `create`/`update` and has a Path. It routes to delete exactly when the same holds for `delete`. The routed path is the decoded Path. Anything else, and every line under the as-written test, is ignored. |
| `Dispatch.ApplyLine` | vault2secretsmanager/__init__.py:165-174 | the pure reference for one loop body: the store `Route` selects (unchanged, `ReplicateSpec` or `DeleteSpec` of the path), keeping records well formed |
| `Dispatch.ProcessLines` | vault2secretsmanager/__init__.py:164-174 | the pure reference for the loop: `ApplyLine` over the lines in order; its composition is `ProcessLinesAppend` |
| `Dispatch.HandleLine` | vault2secretsmanager/__init__.py:165-174 | the store's new state is the one `ApplyLine` gives for the line |
| `Dispatch.Pump` | vault2secretsmanager/__init__.py:164-171 | the follower takes exactly one `Step`, and the store changes by handling the yielded line, or not at all when nothing is yielded |
| `Dispatch.Replicate` | vault2secretsmanager/__init__.py:164-174 | after a run of follower steps, the follower is in the state `Run` gives, and the store is the result of handling the yielded lines one by one in order |
| `Dispatch.ProcessLinesAppend` | vault2secretsmanager/__init__.py:164-174 | handling `xs + ys` equals handling `ys` from the store `xs` left |
| `Dispatch.IgnoredLineIsTransparent` | vault2secretsmanager/__init__.py:165-174 | an ignored line (no marker, undecodable, missing key, other operation) can be removed from the stream without changing the outcome |
| `Dispatch.MalformedLineResilience` | vault2secretsmanager/__init__.py:167-174 | an undecodable line between two lines does not keep the second from being handled |
| `Dispatch.UnmarkedLineHasNoEffect` | vault2secretsmanager/__init__.py:166 | a line without the marker leaves the store unchanged, whatever it decodes to |
| `Dispatch.AsWrittenDispatchesNothing` | vault2secretsmanager/__init__.py:166-174 | with `line.contains(MATCH)` as written, no stream of lines changes the store |
| `Dispatch.AsWrittenDropsExampleLine` | vault2secretsmanager/__init__.py:166 | the example create line is dropped as written, but changes the store under the intended test |
| `Dispatch.ExampleScenario` | vault2secretsmanager/__init__.py:164-174 | with the defaults, a create line issues one create (value, managed description, `us-east-2` replica, no KMS keys). A delete line then issues one forced delete, and a repeated delete line issues nothing. |
| `PyStrings.Contains` | vault2secretsmanager/__init__.py:166 | `sub in s`: the empty string is in every string, and a contained string is no longer than the one holding it |
| `PyStrings.Lower` | setup.py:23 | `s.lower()`: same length, each character folded by `LowerChar` |
| `PyStrings.Split` | setup.py:24-25 | `s.split(sep)` never returns an empty list; its pieces and inverse are stated by `SplitPieces`, `SplitJoin` and `JoinSplit` |
| `PyStrings.ContainsIffOccurs` | vault2secretsmanager/__init__.py:166 | the recursive substring test agrees with "occurs as a slice at some index", both ways |
| `PyStrings.SplitJoin` | setup.py:42 | joining the pieces of a split with its separator gives the input back |
| `PyStrings.SplitPieces` | setup.py:24-25 | no piece holds the separator; there is more than one piece exactly when the separator occurs |
| `PackageSetup.GetChangelog` | setup.py:10-26 | the result is `unknown` or the version of some release heading, and contains no bracket; which heading is stated by `ChangelogIsFirstRelease` and `ChangelogWithoutRelease` |
| `PackageSetup.VersionOf` | setup.py:24-25 | for a `## [` line the index `[1]` exists; the result is the text after `## [` up to the next `[` or `]`, and contains neither bracket |
| `PackageSetup.VersionBetweenBrackets` | setup.py:24-25 | when no `[` precedes the first `]`, the result is exactly the text between `## [` and that `]` |
| `PackageSetup.ChangelogIsFirstRelease` | setup.py:21-25 | the result is the version of the first line that starts with `## [` and lacks `unreleased` in lower case |
| `PackageSetup.ChangelogWithoutRelease` | setup.py:26 | with no such line the result is `unknown` |
| `PackageSetup.NonReleaseLineIsIgnored` | setup.py:22-23 | removing a line that is not a release heading never changes the result |
| `PackageSetup.UnreleasedHeadingIsSkipped` | setup.py:23 | a line holding `unreleased` in any letter case is not a release heading |
| `PackageSetup.FirstReleaseWins` | setup.py:21-25 | lines appended after a release heading do not change the result |
| `PackageSetup.GetRequirements` | setup.py:37-42 | the list is never empty, and it has one entry exactly when the content holds no newline |
| `PackageSetup.RequirementsRoundTrip` | setup.py:42 | joining the entries with newlines reproduces the content, and no entry holds a newline |
| `PyStrings.JoinSplit` | setup.py:42 | splitting the join of separator-free pieces gives the pieces back |
| `PackageSetup.RequirementsFromJoined` | setup.py:42 | joining separator-free entries with newlines and reading them back gives the same entries |
| `PackageSetup.RequirementsTrailingNewline` | setup.py:42 | a trailing newline yields one final empty entry |

## Findings

| source | as written | input that shows it | evidently intended | confidence | as-written member | corrected member |
|---|---|---|---|---|---|---|
| vault2secretsmanager/__init__.py:166 | `line.contains(MATCH)`: `str` has no `contains` method, so every line raises AttributeError, the bare `except` at line 173 swallows it, and nothing is ever replicated or deleted | `{"Operation":"create","Path":"awssecretsmanager/db/password"}` | `MATCH in line` | not executed; high | `Dispatch.AsWrittenDropsExampleLine` | `Dispatch.Route` |

`Dispatch.AsWrittenDispatchesNothing` proves that the as-written test leaves the
store unchanged for every stream. `Dispatch.Replicate` and `Dispatch.HandleLine`
use the intended test.

## Left out

- `setup()` (vault2secretsmanager/__init__.py:177-217): interactive prompts, writing the systemd unit and running `systemctl`. This is input and output only.
- `_options` and `main` (vault2secretsmanager/__init__.py:39-51, 220-228): argument parsing and dispatch through `globals()`.
- The environment reads at import (vault2secretsmanager/__init__.py:19-25) become the immutable `Replication.Config`, with the defaults in `DefaultConfig`. `VAULT_URL`, `VAULT_TOKEN` and `LOG_FILE` only address the collaborators, which are parameters here.
- The boto3 and hvac clients: the target store is `SecretsManager.TargetStore`, and the Vault read is a function from path to an optional value. Network failures of the target store are not modelled. The store refuses only what the service itself refuses: an existing name on create, an unknown ARN on update or delete.
- SecretsManager.TargetStore.ListSecrets: AWS's `name` filter is a prefix match that may return other secrets. The model's lookup returns only the record stored under exactly that name. So `get_secret_id` choosing another secret's ARN is not captured. Only the first results page exists, so pagination is not modelled.
- Replication.SpecsAffectOnlyTheirName: holds only for the exact-name lookup. With AWS's prefix filter, a delete event for `db` when only `db/password` exists would make `get_secret_id('db')` return `db/password`'s ARN, and `delete_secret` would force-delete that secret. The same restriction applies to `Replication.SecretId` and `Replication.UpsertIsIdempotent`.
- SecretsManager.ArnOf: real ARNs carry region, account and a random suffix. Here the ARN is a fixed prefix plus the name, so a re-created secret gets the same ARN again.
- SecretsManager.Apply: a delete with a recovery window is refused rather than scheduled, because the code always forces it.
- The return value of `read_secret_version`, a response dict passed as `SecretString`, is treated as an opaque string.
- `json.loads` is the abstract `Dispatch.Decoder`. A value that is not a JSON object, or a key holding a non-string, is folded into the decoder's `None` / missing key.
- Dispatch.Replicate: the Vault contents are one fixed function for the whole run, not a snapshot per event. The lemmas on `ReplicateSpec` allow a different source per call (`UpsertIsIdempotent`).
- `tail` runs forever. `Dispatch.Replicate` and `LogFollowing.Run` cover any finite prefix of its steps.
- `time.sleep(0.1)`: only the idle counter is modelled. `os.stat(...).st_ino` is the inode in `LogFollowing.FileAtPath`, supplied per step.
- `open` and `os.stat` at lines 141-142 are taken from one view of the file system. A change between the two calls is not modelled.
- `readline()` returning a partial last line without its newline is not modelled: the unit of reading is a whole line.
- A rotator truncating the open file in place (rather than replacing it) is not modelled. The open file only grows.
- Logging via `LOG.debug(json.dumps(response))` is left out.
- PyStrings.LowerChar: only ASCII letters are folded. Python's Unicode `lower()` of other characters is not modelled.
- In `setup.py`: opening `CHANGELOG.md`, `README.md` and `requirements.txt`, `get_readme`, and the `setuptools.setup` call (setup.py:45-78) are left out. The changelog is given as its sequence of lines, and the requirements file as its content.
