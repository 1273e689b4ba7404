/** Credentials and the shared scope check (`users/services/automation_credentials.py`). */
module AutomationCredentials {
  import opened Wrappers
  import opened GraphQL
  import Decimals

  datatype Scope =
    | CorpusRead | CorpusCreate | CorpusConfigure | CorpusPublish | DocumentImport
    | IngestionRead | IngestionRepair | AuthorityAdmin | PipelineRead | PipelineConfigure

  /** `corpusIds` is None for a credential that is good for all corpuses. */
  datatype Credential = Credential(scopes: set<Scope>, corpusIds: Option<set<nat>>)

  datatype User = User(credential: Option<Credential>, authenticated: bool, superuser: bool)

  /** `from_global_id`: the type name and key of a Relay id, or None where it raises. */
  type RelayDecoder = string -> Option<(string, string)>

  predicate IsDigits(s: string) {
    s != "" && Decimals.AreDigits(s)
  }

  function Str(value: Value): string {
    match value
    case Null => "None"
    case Flag(on) => if on then "True" else "False"
    case Text(text) => text
  }

  /** A raw primary key or a correctly typed Relay id; None where the source raises PermissionDenied. */
  function CorpusPk(value: Value, decode: RelayDecoder): Option<nat> {
    var text := Str(value);
    if IsDigits(text) then Some(Decimals.Value(text))
    else match decode(text)
         case None => None
         case Some((typeName, pk)) =>
           if typeName == "CorpusType" && IsDigits(pk) then Some(Decimals.Value(pk)) else None
  }

  /** `require_scope`: true where the source returns, false where it raises. */
  predicate RequireScope(decode: RelayDecoder, user: User, scope: Scope, corpusId: Value) {
    match user.credential
    case None => true
    case Some(credential) =>
      && scope in credential.scopes
      && match credential.corpusIds
         case None => true
         case Some(ids) =>
           && corpusId != Null
           && CorpusPk(corpusId, decode).Some?
           && CorpusPk(corpusId, decode).value in ids
  }

  predicate IsAuthorityAdmin(user: User) {
    user.authenticated && user.superuser
  }

  /** `stronger` may do whatever `weaker` may: more scopes, more corpuses, more roles. */
  predicate AtLeast(stronger: User, weaker: User) {
    && (weaker.authenticated ==> stronger.authenticated)
    && (weaker.superuser ==> stronger.superuser)
    && (stronger.credential.Some? ==>
          && weaker.credential.Some?
          && weaker.credential.value.scopes <= stronger.credential.value.scopes
          && (stronger.credential.value.corpusIds.Some? ==>
                && weaker.credential.value.corpusIds.Some?
                && weaker.credential.value.corpusIds.value <= stronger.credential.value.corpusIds.value))
  }
}

/**
 The operation policy (`config/graphql/automation.py`): the walk over the whole
 selected operation that runs before any resolver. The three allow tables are a
 parameter, so that what is proved holds of any tables; `DeployedPolicy` has the
 ones in the source.
 */
module Automation {
  import opened Wrappers
  import opened GraphQL
  import opened Fragments
  import opened AutomationCredentials

  datatype Policy = Policy(scope: Scope, corpusArgument: Option<string>)

  datatype Tables = Tables(
    operations: map<string, map<string, Policy>>,
    corpusFields: set<string>,
    objectFields: map<string, set<string>>)

  datatype Gate = Gate(tables: Tables, decode: RelayDecoder)

  function GetArgument(arguments: map<string, Value>, name: string): Value {
    if name in arguments then arguments[name] else Null
  }

  predicate Truthy(value: Value) {
    match value
    case Null => false
    case Flag(on) => on
    case Text(text) => text != ""
  }

  /** What the source demands of one root field with its actual arguments. */
  predicate RootAllowed(g: Gate, user: User, parent: string, name: string, arguments: map<string, Value>) {
    && parent in g.tables.operations
    && name in g.tables.operations[parent]
    && var Policy(scope, corpusArgument) := g.tables.operations[parent][name];
       && RequireScope(g.decode, user, scope,
            if corpusArgument.Some? then GetArgument(arguments, corpusArgument.value) else Null)
       && (scope == AuthorityAdmin ==> IsAuthorityAdmin(user))
       && (scope == PipelineRead || scope == PipelineConfigure ==> user.superuser)
       && (name == "installAuthorityPack" ==>
             && RequireScope(g.decode, user, CorpusCreate, Null)
             && RequireScope(g.decode, user, CorpusConfigure, Null)
             && (Truthy(GetArgument(arguments, "publish")) ==> RequireScope(g.decode, user, CorpusPublish, Null)))
  }

  predicate MetadataAllowed(g: Gate, parent: string, name: string) {
    parent == "CorpusType" ==> name in g.tables.corpusFields
  }

  predicate EdgeAllowed(g: Gate, parent: string, name: string) {
    parent in g.tables.objectFields && name in g.tables.objectFields[parent]
  }

  /**
   `_check` on the fields collected from one merged selection set: true where it
   returns, false where it raises PermissionDenied. One group of fields with the
   same response key is one entry of the grouped field set.
   */
  predicate Check(g: Gate, user: User, c: Context, parent: string, selections: seq<Selection>, root: bool)
    requires Acyclic(c.fragments)
    decreases Height(c, selections), 0
  {
    forall group | group in Groups(Fields(c, parent, selections)) ::
      GroupIsLower(c, parent, selections, group);
      CheckGroup(g, user, c, parent, group, root)
  }

  predicate CheckGroup(g: Gate, user: User, c: Context, parent: string, group: seq<FieldNode>, root: bool)
    requires Acyclic(c.fragments)
    requires group != []
    decreases Height(c, Merged(group)), 1
  {
    var node := group[0];
    if node.name == "__typename" then true
    else if node.name !in c.schema.FieldsOf(parent) then false
    else
      var field := c.schema.FieldsOf(parent)[node.name];
      && (if root then RootAllowed(g, user, parent, node.name, ArgumentValues(field, node, c.variables))
          else MetadataAllowed(g, parent, node.name))
      && ((exists selected :: selected in group && selected.selections != []) ==>
            && (root || EdgeAllowed(g, parent, node.name))
            && Check(g, user, c, field.typeName, Merged(group), false))
  }

  function ContextOf(schema: Schema, document: Document, variables: map<string, Value>): Context {
    Context(schema, FragmentMap(document.fragments), variables)
  }

  predicate HasFragmentVariables(fragments: map<string, Fragment>) {
    exists f :: f in fragments && fragments[f].hasVariables
  }

  /** `_check_operation`. */
  predicate CheckOperation(g: Gate, user: User, schema: Schema, document: Document, operation: Operation,
                           variables: map<string, Value>)
    requires Acyclic(FragmentMap(document.fragments))
  {
    var c := ContextOf(schema, document, variables);
    && !HasFragmentVariables(c.fragments)
    && operation.kind in schema.roots
    && Check(g, user, c, schema.roots[operation.kind], operation.selections, true)
  }
}
