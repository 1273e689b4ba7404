/**
 The policy on operations with one field, in terms of what the caller writes: the literals and
 variables of its arguments, its directives, the scopes and corpuses of the credential and the
 roles of the user.
 */
module OneFieldOperations {
  import opened Wrappers
  import opened GraphQL
  import opened Fragments
  import opened AutomationCredentials
  import opened Automation
  import opened ClosedOperations
  import opened CheckGrowth
  import Decimals
  import DeployedPolicy
  import LeastPrivilege
  import Footprint
  import OperationSafety

  /* ---------- Type conditions ---------- */

  /** A fragment applies to an object exactly if the object's type is its condition or a possible type of it. */
  lemma FragmentsApplyExactly(schema: Schema, condition: Option<string>, typeName: string)
    requires typeName in schema.types && schema.types[typeName].ObjectType?
    ensures schema.Matches(condition, typeName) <==>
            (condition.Some? ==> typeName in schema.RuntimeTypes(condition.value))
    ensures condition.Some? ==>
            (typeName in schema.RuntimeTypes(condition.value) <==>
             condition.value in schema.types &&
             (condition.value == typeName ||
              (schema.types[condition.value].AbstractType? && typeName in schema.types[condition.value].possible)))
  {
  }

  /* ---------- Values and corpuses ---------- */

  /** The value that a declared parameter gets. */
  function Actual(field: FieldDefinition, node: FieldNode, variables: map<string, Value>, p: string): Option<Value> {
    if p !in field.parameters then None
    else if p in node.arguments && node.arguments[p].Literal? then Some(node.arguments[p].value)
    else if p in node.arguments && node.arguments[p].name in variables then Some(variables[node.arguments[p].name])
    else if p in field.defaults then Some(field.defaults[p])
    else None
  }

  /** The text is the number of one of these corpuses, or a Relay id of one. */
  ghost predicate ReadsIn(text: string, decode: RelayDecoder, ids: set<nat>) {
    exists digits: string ::
      && digits != "" && Decimals.AreDigits(digits) && Decimals.Value(digits) in ids
      && (text == digits ||
          (!(text != "" && Decimals.AreDigits(text)) && decode(text) == Some(("CorpusType", digits))))
  }

  ghost predicate NamesOneOf(value: Option<Value>, decode: RelayDecoder, ids: set<nat>) {
    match value
    case Some(Text(text)) => ReadsIn(text, decode, ids)
    case Some(Flag(on)) => ReadsIn(if on then "True" else "False", decode, ids)
    case _ => false
  }

  lemma CorpusIsNamed(value: Value, decode: RelayDecoder, ids: set<nat>)
    ensures value != Null && CorpusPk(value, decode).Some? && CorpusPk(value, decode).value in ids <==>
            NamesOneOf(Some(value), decode, ids)
  {
    if value != Null {
      var text := match value case Text(t) => t case Flag(on) => if on then "True" else "False" case Null => "";
      if CorpusPk(value, decode).Some? && CorpusPk(value, decode).value in ids {
        var digits := if IsDigits(text) then text else decode(text).value.1;
        assert digits != "" && Decimals.AreDigits(digits) && Decimals.Value(digits) in ids;
      }
    }
  }

  /** A number as it is printed names its corpus, and no other. */
  lemma PrintedCorpusIsNamed(decode: RelayDecoder, n: nat, ids: set<nat>)
    ensures NamesOneOf(Some(Text(Decimals.Show(n))), decode, ids) <==> n in ids
  {
    var text := Decimals.Show(n);
    Decimals.ValueOfShow(n);
    if n in ids {
      assert text != "" && Decimals.AreDigits(text) && Decimals.Value(text) in ids;
    }
  }

  predicate IsOn(value: Option<Value>) {
    value == Some(Flag(true)) || (value.Some? && value.value.Text? && value.value.text != "")
  }

  /* ---------- One field ---------- */

  lemma OneField(g: Gate, user: User, c: Context, parent: string, node: FieldNode, root: bool)
    requires Acyclic(c.fragments)
    ensures Check(g, user, c, parent, [Field(node)], root) <==>
            IsLeftOut(node.directives, c.variables) || CheckGroup(g, user, c, parent, [node], root)
  {
    var selections := [Field(node)];
    LeftOutExactly(node.directives, c.variables);
    assert selections[1..] == [];
    if IsLeftOut(node.directives, c.variables) {
      assert Collect(c, parent, selections, {}).0 == [];
      assert Groups([]) == [];
    } else {
      assert Collect(c, parent, selections, {}).0 == [node];
      GroupsOfTwo(node, node.(alias := Some(node.Key() + "'")));
      CheckIsAllChecked(g, user, c, parent, selections, root);
      assert [[node]][0] == [node];
    }
  }

  /** One field of one object below the root, with what it selects. */
  lemma NestedFieldNeeds(g: Gate, user: User, c: Context, parent: string, node: FieldNode)
    requires Acyclic(c.fragments)
    ensures Check(g, user, c, parent, [Field(node)], false) <==>
            || IsLeftOut(node.directives, c.variables)
            || node.name == "__typename"
            || (&& parent in c.schema.types && node.name in c.schema.types[parent].fields
                && (parent == "CorpusType" ==> node.name in g.tables.corpusFields)
                && (node.selections != [] ==>
                      && parent in g.tables.objectFields && node.name in g.tables.objectFields[parent]
                      && Check(g, user, c, c.schema.types[parent].fields[node.name].typeName, node.selections, false)))
  {
    OneField(g, user, c, parent, node, false);
    MergedAlone(node);
    assert node in [node];
  }

  /** What the credential, if there is one, and the user must have for an entry of the allow table. */
  ghost predicate MayUse(user: User, policy: Policy, named: Option<Value>, decode: RelayDecoder) {
    && (user.credential.Some? ==>
          && policy.scope in user.credential.value.scopes
          && (user.credential.value.corpusIds.Some? ==>
                NamesOneOf(named, decode, user.credential.value.corpusIds.value)))
    && (policy.scope == AuthorityAdmin ==> user.authenticated && user.superuser)
    && (policy.scope == PipelineRead || policy.scope == PipelineConfigure ==> user.superuser)
  }

  lemma OneRootField(g: Gate, user: User, schema: Schema, document: Document, operation: Operation,
                     variables: map<string, Value>, node: FieldNode, parent: string)
    requires Acyclic(FragmentMap(document.fragments)) && operation.selections == [Field(node)]
    requires operation.kind in schema.roots && schema.roots[operation.kind] == parent
    requires parent in schema.types && node.name in schema.types[parent].fields && node.name != "__typename"
    ensures var c := ContextOf(schema, document, variables);
            var field := schema.types[parent].fields[node.name];
            CheckOperation(g, user, schema, document, operation, variables) <==>
            && !HasFragmentVariables(c.fragments)
            && (IsLeftOut(node.directives, variables) ||
                (&& RootAllowed(g, user, parent, node.name, ArgumentValues(field, node, variables))
                 && (node.selections != [] ==> Check(g, user, c, field.typeName, node.selections, false))))
  {
    OneField(g, user, ContextOf(schema, document, variables), parent, node, true);
    MergedAlone(node);
    assert node in [node];
  }

  /**
   `__schema` and `__type` are denied whatever the credential: an executor resolves them on the query
   root, but they are no fields of that type.
   */
  lemma IntrospectionIsDenied(g: Gate, user: User, schema: Schema, document: Document, operation: Operation,
                              variables: map<string, Value>, node: FieldNode, parent: string)
    requires Acyclic(FragmentMap(document.fragments)) && operation.selections == [Field(node)]
    requires operation.kind == Query && Query in schema.roots && schema.roots[Query] == parent
    requires node.name in schema.introspection && node.name != "__typename"
    requires parent in schema.types ==> node.name !in schema.types[parent].fields
    requires !IsLeftOut(node.directives, variables)
    ensures !CheckOperation(g, user, schema, document, operation, variables)
    ensures exists call :: call in OperationSafety.OperationCalls(schema, document, operation, variables) &&
              call.root && call.parent == parent && call.name == node.name
  {
    var c := ContextOf(schema, document, variables);
    OneField(g, user, c, parent, node, true);
    LeftOutExactly(node.directives, variables);
    var call := Footprint.CallOf(c, parent, node, true);
    assert call in Footprint.CallsField(c, parent, node, true);
    assert call in Footprint.CallsOne(c, parent, Field(node), true);
    assert call in Footprint.Calls(c, parent, operation.selections, true);
  }

  lemma ScopeNeeds(decode: RelayDecoder, user: User, scope: Scope, value: Option<Value>)
    ensures RequireScope(decode, user, scope, value.GetOr(Null)) <==>
            (user.credential.Some? ==>
               && scope in user.credential.value.scopes
               && (user.credential.value.corpusIds.Some? ==>
                     NamesOneOf(value, decode, user.credential.value.corpusIds.value)))
  {
    if user.credential.Some? && user.credential.value.corpusIds.Some? {
      CorpusIsNamed(value.GetOr(Null), decode, user.credential.value.corpusIds.value);
    }
  }

  lemma ActualIsGot(field: FieldDefinition, node: FieldNode, variables: map<string, Value>, p: string)
    ensures GetArgument(ArgumentValues(field, node, variables), p) == Actual(field, node, variables, p).GetOr(Null)
  {
    ArgumentsExactly(field, node, variables, p);
  }

  /** An operation with one root field, other than the one that installs a pack. */
  lemma OneRootFieldNeeds(g: Gate, user: User, schema: Schema, document: Document, operation: Operation,
                          variables: map<string, Value>, node: FieldNode, parent: string, policy: Policy)
    requires Acyclic(FragmentMap(document.fragments)) && operation.selections == [Field(node)]
    requires operation.kind in schema.roots && schema.roots[operation.kind] == parent
    requires parent in schema.types && node.name in schema.types[parent].fields
    requires node.name != "__typename" && node.name != "installAuthorityPack"
    requires parent in g.tables.operations && node.name in g.tables.operations[parent]
    requires g.tables.operations[parent][node.name] == policy
    ensures var c := ContextOf(schema, document, variables);
            var field := schema.types[parent].fields[node.name];
            CheckOperation(g, user, schema, document, operation, variables) <==>
            && !HasFragmentVariables(c.fragments)
            && (IsLeftOut(node.directives, variables) ||
                (&& MayUse(user, policy, if policy.corpusArgument.None? then None
                                  else Actual(field, node, variables, policy.corpusArgument.value), g.decode)
                 && (node.selections != [] ==> Check(g, user, c, field.typeName, node.selections, false))))
  {
    var field := schema.types[parent].fields[node.name];
    var named := if policy.corpusArgument.None? then None
                 else Actual(field, node, variables, policy.corpusArgument.value);
    OneRootField(g, user, schema, document, operation, variables, node, parent);
    if policy.corpusArgument.Some? {
      ActualIsGot(field, node, variables, policy.corpusArgument.value);
    }
    ScopeNeeds(g.decode, user, policy.scope, named);
    assert RootAllowed(g, user, parent, node.name, ArgumentValues(field, node, variables)) <==>
           MayUse(user, policy, named, g.decode);
  }

  predicate MayInstall(user: User, publish: Option<Value>) {
    && user.authenticated && user.superuser
    && (user.credential.Some? ==>
          && user.credential.value.corpusIds.None?
          && {AuthorityAdmin, CorpusCreate, CorpusConfigure} <= user.credential.value.scopes
          && (IsOn(publish) ==> CorpusPublish in user.credential.value.scopes))
  }

  lemma InstallAllowed(g: Gate, user: User, field: FieldDefinition, node: FieldNode, variables: map<string, Value>)
    requires g.tables == DeployedPolicy.TABLES && node.name == "installAuthorityPack"
    ensures RootAllowed(g, user, "Mutation", node.name, ArgumentValues(field, node, variables)) <==>
            MayInstall(user, Actual(field, node, variables, "publish"))
  {
    ActualIsGot(field, node, variables, "publish");
    LeastPrivilege.InstallIsListed(g, Footprint.Call(true, "Mutation", "installAuthorityPack", map[]));
  }

  /**
   Installing an authority pack, with the tables of the source: an unbound credential of a superuser
   with three scopes, and with a fourth if `publish` is given as true, as a literal, by a variable or
   by default.
   */
  lemma InstallOperationNeeds(decode: RelayDecoder, user: User, schema: Schema, document: Document,
                              operation: Operation, variables: map<string, Value>, node: FieldNode)
    requires Acyclic(FragmentMap(document.fragments)) && operation.selections == [Field(node)]
    requires operation.kind in schema.roots && schema.roots[operation.kind] == "Mutation"
    requires "Mutation" in schema.types && "installAuthorityPack" in schema.types["Mutation"].fields
    requires node.name == "installAuthorityPack"
    ensures var g := Gate(DeployedPolicy.TABLES, decode);
            var c := ContextOf(schema, document, variables);
            var field := schema.types["Mutation"].fields["installAuthorityPack"];
            CheckOperation(g, user, schema, document, operation, variables) <==>
            && !HasFragmentVariables(c.fragments)
            && (IsLeftOut(node.directives, variables) ||
                (&& MayInstall(user, Actual(field, node, variables, "publish"))
                 && (node.selections != [] ==> Check(g, user, c, field.typeName, node.selections, false))))
  {
    var g := Gate(DeployedPolicy.TABLES, decode);
    OneRootField(g, user, schema, document, operation, variables, node, "Mutation");
    InstallAllowed(g, user, schema.types["Mutation"].fields[node.name], node, variables);
  }
}
