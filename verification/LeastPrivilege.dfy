/**
 What a credential must hold for one root field, field by field: the scope check, the role
 checks and the extra conditions of `config/graphql/automation.py` read as one set of scopes.
 */
module LeastPrivilege {
  import opened Wrappers
  import opened GraphQL
  import opened AutomationCredentials
  import opened Automation
  import opened Footprint
  import DeployedPolicy

  predicate IsListed(g: Gate, call: Call) {
    call.parent in g.tables.operations && call.name in g.tables.operations[call.parent]
  }

  function PolicyOf(g: Gate, call: Call): Policy
    requires IsListed(g, call)
  {
    g.tables.operations[call.parent][call.name]
  }

  /** All scopes that a listed root field needs with its actual arguments. */
  function NeededScopes(g: Gate, call: Call): set<Scope>
    requires IsListed(g, call)
  {
    {PolicyOf(g, call).scope} +
    (if call.name != "installAuthorityPack" then {}
     else if Truthy(GetArgument(call.arguments, "publish")) then {CorpusCreate, CorpusConfigure, CorpusPublish}
     else {CorpusCreate, CorpusConfigure})
  }

  /** The corpus that a listed root field names in its arguments. */
  function NamedCorpus(g: Gate, call: Call): Option<nat>
    requires IsListed(g, call)
  {
    match PolicyOf(g, call).corpusArgument
    case None => None
    case Some(name) =>
      if GetArgument(call.arguments, name) == Null then None else CorpusPk(GetArgument(call.arguments, name), g.decode)
  }

  /** What a credential must hold for the call, if there is a credential. */
  predicate Covers(g: Gate, credential: Option<Credential>, call: Call)
    requires IsListed(g, call)
  {
    credential.Some? ==>
      && NeededScopes(g, call) <= credential.value.scopes
      && (credential.value.corpusIds.Some? ==>
            && NamedCorpus(g, call).Some? && NamedCorpus(g, call).value in credential.value.corpusIds.value
            && call.name != "installAuthorityPack")
  }

  /**
   A root field is permitted exactly when it is listed, the credential, if there is one, holds all
   its scopes, a credential bound to some corpuses is used on one of them (and never to install a
   pack), and the user has the role.
   */
  lemma PrivilegeIsExact(g: Gate, user: User, schema: Schema, call: Call)
    requires call.root && call.name in schema.FieldsOf(call.parent)
    ensures Permitted(g, user, schema, call) <==>
            && IsListed(g, call) && Covers(g, user.credential, call)
            && (PolicyOf(g, call).scope == AuthorityAdmin ==> user.authenticated && user.superuser)
            && (PolicyOf(g, call).scope in {PipelineRead, PipelineConfigure} ==> user.superuser)
  {
    if IsListed(g, call) {
      assert PolicyOf(g, call).scope in NeededScopes(g, call);
      if call.name == "installAuthorityPack" {
        assert {CorpusCreate, CorpusConfigure} <= NeededScopes(g, call);
      }
    }
  }

  /* ---------- With the tables of the source ---------- */

  const ON_ONE_CORPUS: set<string> := {"corpus", "corpuses", "updateCorpus", "updateCorpusDescription",
    "setCorpusVisibility", "reEmbedCorpus"}

  lemma QueryArguments(name: string)
    requires name in DeployedPolicy.QUERIES
    ensures DeployedPolicy.QUERIES[name].corpusArgument.Some? <==> name == "corpus" || name == "corpuses"
  {
  }

  lemma MutationArguments(name: string)
    requires name in DeployedPolicy.MUTATIONS
    ensures DeployedPolicy.MUTATIONS[name].corpusArgument.Some? <==>
            name == "updateCorpus" || name == "updateCorpusDescription" || name == "setCorpusVisibility" ||
              name == "reEmbedCorpus"
  {
  }

  lemma ListedIn(call: Call, decode: RelayDecoder)
    requires IsListed(Gate(DeployedPolicy.TABLES, decode), call)
    ensures PolicyOf(Gate(DeployedPolicy.TABLES, decode), call).corpusArgument.Some? ==> call.name in ON_ONE_CORPUS
  {
    if call.parent == "Query" {
      assert DeployedPolicy.TABLES.operations[call.parent] == DeployedPolicy.QUERIES;
      QueryArguments(call.name);
    } else {
      assert DeployedPolicy.TABLES.operations[call.parent] == DeployedPolicy.MUTATIONS;
      MutationArguments(call.name);
    }
  }

  /** A credential bound to some corpuses reaches six root fields only. */
  lemma BoundCredentialsReach(decode: RelayDecoder, user: User, schema: Schema, call: Call)
    requires user.credential.Some? && user.credential.value.corpusIds.Some?
    requires call.root && Permitted(Gate(DeployedPolicy.TABLES, decode), user, schema, call)
    ensures call.name in ON_ONE_CORPUS
  {
    var g := Gate(DeployedPolicy.TABLES, decode);
    PrivilegeIsExact(g, user, schema, call);
    ListedIn(call, decode);
  }

  /**
   Installing an authority pack takes an unbound credential of a superuser with three scopes, and a
   fourth to publish.
   */
  lemma InstallNeeds(decode: RelayDecoder, user: User, schema: Schema, arguments: map<string, Value>)
    requires user.credential.Some? && "installAuthorityPack" in schema.FieldsOf("Mutation")
    ensures var scopes := user.credential.value.scopes;
            var call := Call(true, "Mutation", "installAuthorityPack", arguments);
            Permitted(Gate(DeployedPolicy.TABLES, decode), user, schema, call) <==>
            && AuthorityAdmin in scopes && CorpusCreate in scopes && CorpusConfigure in scopes
            && (Truthy(GetArgument(arguments, "publish")) ==> CorpusPublish in scopes)
            && user.credential.value.corpusIds.None? && user.authenticated && user.superuser
  {
    var g, call := Gate(DeployedPolicy.TABLES, decode), Call(true, "Mutation", "installAuthorityPack", arguments);
    InstallIsListed(g, call);
    PrivilegeIsExact(g, user, schema, call);
  }

  lemma InstallIsListed(g: Gate, call: Call)
    requires g.tables == DeployedPolicy.TABLES && call.parent == "Mutation" && call.name == "installAuthorityPack"
    ensures IsListed(g, call) && PolicyOf(g, call) == Policy(AuthorityAdmin, None)
  {
    assert DeployedPolicy.TABLES.operations["Mutation"] == DeployedPolicy.MUTATIONS;
  }
}
