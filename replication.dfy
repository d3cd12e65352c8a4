/** The replication decisions of `vault2secretsmanager/__init__.py`:
    `get_secret_id`, `replicate_secret` and `delete_secret`, over the target
    store model and a source store given as a function from path to value. */
module Replication {
  import opened Wrappers
  import opened SecretsManager

  /** The settings the module reads from the environment once, at import. */
  datatype Config = Config(marker: string, backupRegion: string, primaryKms: string, backupKms: string)

  /** The defaults used when the environment variables are unset. */
  const DefaultConfig: Config := Config("awssecretsmanager", "us-east-2", "", "")

  const ManagedDescription: string := "vaultsync managed"

  /** `vault.secrets.kv.read_secret_version(path=...)`: None when the read raises. */
  type SourceStore = string -> Option<string>

  /** The first-or-empty choice of `get_secret_id` over a lookup result. */
  function FirstArn(list: seq<SecretRecord>): string
  {
    if |list| > 0 then list[0].arn else ""
  }

  /** What `get_secret_id(name)` returns for a store holding `secrets`, under
      the exact-name `Lookup` of the store model. */
  function SecretId(secrets: map<string, SecretRecord>, name: string): (arn: string)
    requires WellFormed(secrets)
    ensures arn != "" <==> name in secrets
    ensures name in secrets ==> arn == secrets[name].arn == ArnOf(name)
  {
    FirstArn(Lookup(secrets, name))
  }

  /** `get_secret_id`: look the name up and take the first record's ARN, or ''. */
  method GetSecretId(store: TargetStore, name: string) returns (arn: string)
    requires store.Valid()
    ensures arn == SecretId(store.secrets, name)
    ensures var list := Lookup(store.secrets, name);
      (|list| > 0 ==> arn == list[0].arn) && (|list| == 0 ==> arn == "")
  {
    var list := store.ListSecrets(name);
    if |list| > 0 {
      arn := list[0].arn;
    } else {
      arn := "";
    }
  }

  /** The create request `replicate_secret` sends, as a value. */
  function CreateKwargs(cfg: Config, name: string, value: string): CreateRequest
  {
    CreateRequest(
      name, ManagedDescription, value,
      if cfg.primaryKms != "" then Some(cfg.primaryKms) else None,
      [Replica(cfg.backupRegion, if cfg.backupKms != "" then Some(cfg.backupKms) else None)],
      true)
  }

  /** The kwargs dict of `replicate_secret`: built with its fixed keys, then
      given a top-level `KmsKeyId` and a replica `KmsKeyId` in place when
      the corresponding settings are non-empty. */
  method BuildCreateKwargs(cfg: Config, name: string, value: string) returns (kwargs: CreateRequest)
    ensures kwargs.name == name
    ensures kwargs.description == "vaultsync managed"
    ensures kwargs.secretString == value
    ensures |kwargs.addReplicaRegions| == 1
    ensures kwargs.addReplicaRegions[0].region == cfg.backupRegion
    ensures kwargs.forceOverwriteReplicaSecret
    ensures kwargs.kmsKeyId.Some? <==> cfg.primaryKms != ""
    ensures kwargs.kmsKeyId.Some? ==> kwargs.kmsKeyId.value == cfg.primaryKms
    ensures kwargs.addReplicaRegions[0].kmsKeyId.Some? <==> cfg.backupKms != ""
    ensures kwargs.addReplicaRegions[0].kmsKeyId.Some? ==>
      kwargs.addReplicaRegions[0].kmsKeyId.value == cfg.backupKms
    ensures kwargs == CreateKwargs(cfg, name, value)
  {
    kwargs := CreateRequest(name, ManagedDescription, value, None, [Replica(cfg.backupRegion, None)], true);
    if cfg.primaryKms != "" {
      kwargs := kwargs.(kmsKeyId := Some(cfg.primaryKms));
    }
    if cfg.backupKms != "" {
      kwargs := kwargs.(addReplicaRegions := [kwargs.addReplicaRegions[0].(kmsKeyId := Some(cfg.backupKms))]);
    }
  }

  /** The store after `replicate_secret(name)`: nothing when the source read
      raises; an update of the value when the lookup finds an ARN; a create
      otherwise. */
  function ReplicateSpec(cfg: Config, source: SourceStore, st: StoreState, name: string): (r: StoreState)
    requires WellFormed(st.secrets)
    ensures WellFormed(r.secrets)
  {
    match source(name)
    case None => st
    case Some(value) =>
      var arn := SecretId(st.secrets, name);
      if arn != "" then Apply(st, Update(arn, value))
      else Apply(st, Create(CreateKwargs(cfg, name, value)))
  }

  /** The store after `delete_secret(name)`: a forced delete of the ARN the
      lookup finds, and no call at all when it finds none. */
  function DeleteSpec(st: StoreState, name: string): (r: StoreState)
    requires WellFormed(st.secrets)
    ensures WellFormed(r.secrets)
  {
    var arn := SecretId(st.secrets, name);
    if arn != "" then Apply(st, Delete(arn, true)) else st
  }

  method ReplicateSecret(cfg: Config, source: SourceStore, store: TargetStore, name: string)
    requires store.Valid()
    modifies store
    ensures store.Valid()
    ensures store.State() == ReplicateSpec(cfg, source, old(store.State()), name)
  {
    var secretValue := source(name);
    if secretValue.None? {
      return;
    }
    var arn := GetSecretId(store, name);
    if arn != "" {
      var _ := store.UpdateSecret(arn, secretValue.value);
    } else {
      var kwargs := BuildCreateKwargs(cfg, name, secretValue.value);
      var _ := store.CreateSecret(kwargs);
    }
  }

  method DeleteSecret(store: TargetStore, name: string)
    requires store.Valid()
    modifies store
    ensures store.Valid()
    ensures store.State() == DeleteSpec(old(store.State()), name)
  {
    var arn := GetSecretId(store, name);
    if arn != "" {
      var _ := store.DeleteSecret(arn, true);
    }
  }

  // Properties of the replication decisions.

  /** A read that raises ends `replicate_secret` before any store call. */
  lemma ReplicateReadFailureIsNoop(cfg: Config, source: SourceStore, st: StoreState, name: string)
    requires WellFormed(st.secrets)
    requires source(name).None?
    ensures ReplicateSpec(cfg, source, st, name) == st
  {
  }

  /** An existing name gets exactly one update of its value and nothing else:
      no record is created and description, keys and replicas stay as they were. */
  lemma ReplicateUpdatesExisting(cfg: Config, source: SourceStore, st: StoreState, name: string)
    requires WellFormed(st.secrets)
    requires name in st.secrets && source(name).Some?
    ensures var r := ReplicateSpec(cfg, source, st, name);
      && r.issued == st.issued + [Update(st.secrets[name].arn, source(name).value)]
      && r.secrets.Keys == st.secrets.Keys
      && r.secrets[name] == st.secrets[name].(value := source(name).value)
      && (forall n :: n in st.secrets && n != name ==> r.secrets[n] == st.secrets[n])
  {
    assert NameOfArn(st.secrets, ArnOf(name)) == Some(name);
  }

  /** A missing name gets exactly one create, built as `BuildCreateKwargs`
      states, and the new record holds what that request asked for. */
  lemma ReplicateCreatesMissing(cfg: Config, source: SourceStore, st: StoreState, name: string)
    requires WellFormed(st.secrets)
    requires name !in st.secrets && source(name).Some?
    ensures var r := ReplicateSpec(cfg, source, st, name);
      var request := CreateKwargs(cfg, name, source(name).value);
      && r.issued == st.issued + [Create(request)]
      && r.secrets == st.secrets[name := RecordOf(request)]
      && r.secrets[name].value == source(name).value
      && r.secrets[name].description == ManagedDescription
      && r.secrets[name].replicas == [Replica(cfg.backupRegion, request.addReplicaRegions[0].kmsKeyId)]
  {
  }

  /** `replicate_secret(name)` and `delete_secret(name)` leave every other name
      alone. This rests on the exact-name `Lookup` of the store model: AWS's
      prefix-matching name filter could hand `get_secret_id` another secret's ARN. */
  lemma SpecsAffectOnlyTheirName(cfg: Config, source: SourceStore, st: StoreState, name: string, other: string)
    requires WellFormed(st.secrets)
    requires other != name
    ensures var r := ReplicateSpec(cfg, source, st, name);
      (other in r.secrets <==> other in st.secrets) && (other in st.secrets ==> r.secrets[other] == st.secrets[other])
    ensures var r := DeleteSpec(st, name);
      (other in r.secrets <==> other in st.secrets) && (other in st.secrets ==> r.secrets[other] == st.secrets[other])
  {
    if name in st.secrets {
      assert NameOfArn(st.secrets, ArnOf(name)) == Some(name);
    }
  }

  /** Idempotent upsert: after a second create/update event for the same name,
      which takes the update branch, exactly that one record exists for the
      name and it holds the value of the latest read. "One record" rests on
      the exact-name `Lookup` of the store model. */
  lemma UpsertIsIdempotent(cfg: Config, first: SourceStore, second: SourceStore, st: StoreState, name: string)
    requires WellFormed(st.secrets)
    requires first(name).Some? && second(name).Some?
    ensures var s1 := ReplicateSpec(cfg, first, st, name);
      var s2 := ReplicateSpec(cfg, second, s1, name);
      && name in s2.secrets
      && s2.secrets.Keys == s1.secrets.Keys == st.secrets.Keys + {name}
      && s2.secrets[name] == s1.secrets[name].(value := second(name).value)
      && s2.issued == s1.issued + [Update(ArnOf(name), second(name).value)]
  {
    var s1 := ReplicateSpec(cfg, first, st, name);
    if name in st.secrets {
      ReplicateUpdatesExisting(cfg, first, st, name);
    } else {
      ReplicateCreatesMissing(cfg, first, st, name);
    }
    ReplicateUpdatesExisting(cfg, second, s1, name);
  }

  /** A delete of an existing name issues one forced delete of its ARN and removes it. */
  lemma DeleteRemovesExisting(st: StoreState, name: string)
    requires WellFormed(st.secrets)
    requires name in st.secrets
    ensures var r := DeleteSpec(st, name);
      r.issued == st.issued + [Delete(ArnOf(name), true)] && r.secrets == st.secrets - {name}
  {
    assert NameOfArn(st.secrets, ArnOf(name)) == Some(name);
  }

  /** A delete of a name the lookup does not find makes no store call. */
  lemma DeleteMissingIsNoop(st: StoreState, name: string)
    requires WellFormed(st.secrets)
    requires name !in st.secrets
    ensures DeleteSpec(st, name) == st
  {
  }

  /** Idempotent delete: repeating a delete changes nothing further. */
  lemma DeleteIsIdempotent(st: StoreState, name: string)
    requires WellFormed(st.secrets)
    ensures DeleteSpec(DeleteSpec(st, name), name) == DeleteSpec(st, name)
  {
    if name in st.secrets {
      DeleteRemovesExisting(st, name);
    }
  }

  /** Ordering: create, update, delete of one path applied in that order leave
      the path absent and every other record untouched, with the three
      requests issued in order. */
  lemma CreateUpdateDeleteInOrder(cfg: Config, source: SourceStore, st: StoreState, name: string)
    requires WellFormed(st.secrets)
    requires name !in st.secrets && source(name).Some?
    ensures var s1 := ReplicateSpec(cfg, source, st, name);
      var s2 := ReplicateSpec(cfg, source, s1, name);
      var s3 := DeleteSpec(s2, name);
      && s3.secrets == st.secrets
      && s3.issued == st.issued + [Create(CreateKwargs(cfg, name, source(name).value)),
                                   Update(ArnOf(name), source(name).value),
                                   Delete(ArnOf(name), true)]
  {
    var s1 := ReplicateSpec(cfg, source, st, name);
    ReplicateCreatesMissing(cfg, source, st, name);
    var s2 := ReplicateSpec(cfg, source, s1, name);
    ReplicateUpdatesExisting(cfg, source, s1, name);
    DeleteRemovesExisting(s2, name);
    assert s2.secrets - {name} == st.secrets;
  }
}
