/** The target secret store (AWS Secrets Manager as the boto3 client sees it),
    reduced to the four calls the replicator makes. Secrets are keyed by name;
    every write request the client issues is also recorded, so that what the
    replicator asks for can be stated exactly. */
module SecretsManager {
  import opened Wrappers
  import opened PyStrings

  /** An entry of `AddReplicaRegions`; `kmsKeyId` is None when the key is absent. */
  datatype Replica = Replica(region: string, kmsKeyId: Option<string>)

  /** The keyword arguments of `create_secret`; an Option field is None when the
      key is absent from the kwargs dict. */
  datatype CreateRequest = CreateRequest(
    name: string,
    description: string,
    secretString: string,
    kmsKeyId: Option<string>,
    addReplicaRegions: seq<Replica>,
    forceOverwriteReplicaSecret: bool)

  /** What the store holds for one secret name. */
  datatype SecretRecord = SecretRecord(
    arn: string,
    value: string,
    description: string,
    kmsKeyId: Option<string>,
    replicas: seq<Replica>,
    forceOverwrite: bool)

  /** A state-changing request issued to the store. */
  datatype Write =
    | Create(request: CreateRequest)
    | Update(secretId: string, secretString: string)
    | Delete(secretId: string, forceDeleteWithoutRecovery: bool)

  /** The store's contents and the write requests issued to it so far. */
  datatype StoreState = StoreState(secrets: map<string, SecretRecord>, issued: seq<Write>)

  const ArnPrefix: string := "arn:aws:secretsmanager:secret:"

  /** The identifier the store gives a secret it creates under `name`. */
  function ArnOf(name: string): string
  {
    ArnPrefix + name
  }

  /** Every record carries the identifier of its own name. */
  ghost predicate WellFormed(secrets: map<string, SecretRecord>)
  {
    forall n :: n in secrets ==> secrets[n].arn == ArnOf(n)
  }

  /** `list_secrets(Filters=[{'Key': 'name', 'Values': [name]}])['SecretList']`
      in this store model: the record stored under `name`, if any. */
  function Lookup(secrets: map<string, SecretRecord>, name: string): (list: seq<SecretRecord>)
    ensures |list| <= 1
    ensures |list| == 1 <==> name in secrets
    ensures |list| == 1 ==> list[0] == secrets[name]
  {
    if name in secrets then [secrets[name]] else []
  }

  /** The name whose record has identifier `arn`, if any. */
  function NameOfArn(secrets: map<string, SecretRecord>, arn: string): (n: Option<string>)
    requires WellFormed(secrets)
    ensures n.Some? <==> exists m :: m in secrets && secrets[m].arn == arn
    ensures n.Some? ==> n.value in secrets && secrets[n.value].arn == arn
  {
    if StartsWith(arn, ArnPrefix) && arn[|ArnPrefix|..] in secrets then
      assert arn == ArnOf(arn[|ArnPrefix|..]);
      Some(arn[|ArnPrefix|..])
    else
      assert forall m :: m in secrets ==> secrets[m].arn != arn by {
        forall m | m in secrets ensures secrets[m].arn != arn {
          assert (ArnPrefix + m)[|ArnPrefix|..] == m;
        }
      }
      None
  }

  /** The record `create_secret` stores for a request. */
  function RecordOf(request: CreateRequest): SecretRecord
  {
    SecretRecord(ArnOf(request.name), request.secretString, request.description,
                 request.kmsKeyId, request.addReplicaRegions, request.forceOverwriteReplicaSecret)
  }

  /** Whether the store carries out a write (otherwise it raises):
      creating an existing name raises ResourceExistsException, updating or
      deleting an unknown identifier raises ResourceNotFoundException, and a
      delete with a recovery window is not part of this model. */
  predicate Accepts(secrets: map<string, SecretRecord>, w: Write)
    requires WellFormed(secrets)
  {
    match w
    case Create(request) => request.name !in secrets
    case Update(id, _) => NameOfArn(secrets, id).Some?
    case Delete(id, force) => force && NameOfArn(secrets, id).Some?
  }

  /** The store after it receives write request `w`. */
  function Apply(st: StoreState, w: Write): (r: StoreState)
    requires WellFormed(st.secrets)
    ensures WellFormed(r.secrets)
    ensures r.issued == st.issued + [w]
    ensures !Accepts(st.secrets, w) ==> r.secrets == st.secrets
    ensures w.Create? && Accepts(st.secrets, w) ==>
      r.secrets == st.secrets[w.request.name := RecordOf(w.request)]
    ensures w.Update? && Accepts(st.secrets, w) ==>
      var n := NameOfArn(st.secrets, w.secretId).value;
      r.secrets == st.secrets[n := st.secrets[n].(value := w.secretString)]
    ensures w.Delete? && Accepts(st.secrets, w) ==>
      r.secrets == st.secrets - {NameOfArn(st.secrets, w.secretId).value}
  {
    var secrets :=
      if !Accepts(st.secrets, w) then st.secrets
      else match w
        case Create(request) => st.secrets[request.name := RecordOf(request)]
        case Update(id, value) =>
          var n := NameOfArn(st.secrets, id).value;
          st.secrets[n := st.secrets[n].(value := value)]
        case Delete(id, _) => st.secrets - {NameOfArn(st.secrets, id).value};
    StoreState(secrets, st.issued + [w])
  }

  /** The boto3 `secretsmanager` client together with the service behind it. */
  class TargetStore {
    var secrets: map<string, SecretRecord>
    var issued: seq<Write>

    ghost predicate Valid()
      reads this
    {
      WellFormed(secrets)
    }

    function State(): StoreState
      reads this
    {
      StoreState(secrets, issued)
    }

    constructor (initial: map<string, SecretRecord>)
      requires WellFormed(initial)
      ensures Valid()
      ensures State() == StoreState(initial, [])
    {
      secrets := initial;
      issued := [];
    }

    /** `list_secrets` with a name filter; reads the store and changes nothing. */
    method ListSecrets(name: string) returns (list: seq<SecretRecord>)
      requires Valid()
      ensures list == Lookup(secrets, name)
      ensures forall k :: 0 <= k < |list| ==> list[k] in secrets.Values
    {
      list := [];
      if name in secrets {
        list := [secrets[name]];
      }
    }

    method CreateSecret(request: CreateRequest) returns (ok: bool)
      requires Valid()
      modifies this
      ensures Valid()
      ensures ok == Accepts(old(secrets), Create(request))
      ensures State() == Apply(old(State()), Create(request))
    {
      issued := issued + [Create(request)];
      ok := request.name !in secrets;
      if ok {
        secrets := secrets[request.name := RecordOf(request)];
      }
    }

    method UpdateSecret(secretId: string, secretString: string) returns (ok: bool)
      requires Valid()
      modifies this
      ensures Valid()
      ensures ok == Accepts(old(secrets), Update(secretId, secretString))
      ensures State() == Apply(old(State()), Update(secretId, secretString))
    {
      issued := issued + [Update(secretId, secretString)];
      var n := NameOfArn(secrets, secretId);
      ok := n.Some?;
      if ok {
        secrets := secrets[n.value := secrets[n.value].(value := secretString)];
      }
    }

    method DeleteSecret(secretId: string, forceDeleteWithoutRecovery: bool) returns (ok: bool)
      requires Valid()
      modifies this
      ensures Valid()
      ensures ok == Accepts(old(secrets), Delete(secretId, forceDeleteWithoutRecovery))
      ensures State() == Apply(old(State()), Delete(secretId, forceDeleteWithoutRecovery))
    {
      issued := issued + [Delete(secretId, forceDeleteWithoutRecovery)];
      var n := NameOfArn(secrets, secretId);
      ok := forceDeleteWithoutRecovery && n.Some?;
      if ok {
        secrets := secrets - {n.value};
      }
    }
  }
}
