/**
 The part of GraphQL that the automation policy and the executor share: the
 abstract syntax of an operation, the schema, directive and type conditions,
 coerced arguments, and field collection (GraphQL specification, October 2021,
 section 6.3.2), as graphql-core provides them to `config/graphql/automation.py`.
 */
module GraphQL {
  import opened Wrappers

  /* ---------- Operations and fragments ---------- */

  /** A coerced argument or variable value. */
  datatype Value = Null | Flag(on: bool) | Text(text: string)

  /** An argument as it is written in a document. */
  datatype Argument = Literal(value: Value) | Variable(name: string)

  /** The `if` argument of one `@skip` or `@include`. */
  datatype Test = Absent | Constantly(on: bool) | FromVariable(name: string)

  datatype Directives = Directives(skipIf: Test, includeIf: Test)

  /** No directives. */
  const PLAIN := Directives(Absent, Absent)

  datatype FieldNode = FieldNode(
    alias: Option<string>,
    name: string,
    arguments: map<string, Argument>,
    directives: Directives,
    selections: seq<Selection>)
  {
    /** The response key: the alias if there is one, else the name. */
    function Key(): string {
      alias.GetOr(name)
    }
  }

  datatype Selection =
    | Field(node: FieldNode)
    | Inline(on: Option<string>, directives: Directives, body: seq<Selection>)
    | Spread(fragment: string, directives: Directives)

  datatype Fragment = Fragment(name: string, on: string, selections: seq<Selection>, hasVariables: bool)

  datatype OperationType = Query | Mutation | Subscription

  datatype Operation = Operation(name: Option<string>, kind: OperationType, selections: seq<Selection>)

  datatype Document = Document(operations: seq<Operation>, fragments: seq<Fragment>)

  /* ---------- Schema ---------- */

  /** `typeName` is the named type of the field, in so many levels of lists. */
  datatype FieldDefinition = FieldDefinition(
    typeName: string, lists: nat, parameters: set<string>, defaults: map<string, Value>)

  datatype TypeDefinition =
    | ObjectType(fields: map<string, FieldDefinition>)
    | AbstractType(fields: map<string, FieldDefinition>, possible: set<string>)

  /** Named types that are not listed are leaf types: scalars and enums. */
  datatype Schema = Schema(
    types: map<string, TypeDefinition>,
    introspection: map<string, FieldDefinition>,
    roots: map<OperationType, string>)
  {
    /** `parent.fields` */
    function FieldsOf(parent: string): map<string, FieldDefinition> {
      if parent in types then types[parent].fields else map[]
    }

    /** The field an executor resolves: a declared one, or `__schema` / `__type` on the query root. */
    function Lookup(parent: string, name: string): Option<FieldDefinition> {
      if Query in roots && roots[Query] == parent && name in introspection then Some(introspection[name])
      else if name in FieldsOf(parent) then Some(FieldsOf(parent)[name])
      else None
    }

    predicate IsComposite(typeName: string) {
      typeName in types
    }

    predicate IsObject(typeName: string) {
      typeName in types && types[typeName].ObjectType?
    }

    /** The object types a value of this type may have when it is executed. */
    function RuntimeTypes(typeName: string): set<string> {
      if typeName !in types then {}
      else match types[typeName]
           case ObjectType(_) => {typeName}
           case AbstractType(_, possible) => possible
    }

    /** Whether a fragment with this type condition applies to values of type `typeName`. */
    predicate Matches(condition: Option<string>, typeName: string) {
      match condition
      case None => true
      case Some(on) =>
        on == typeName ||
        (on in types && types[on].AbstractType? && typeName in types[on].possible)
    }
  }

  /** What collection and execution of one operation read: schema, fragments and coerced variables. */
  datatype Context = Context(schema: Schema, fragments: map<string, Fragment>, variables: map<string, Value>)

  /** `node.name.value` to definition; a later definition of the same name wins, as in a Python dict. */
  function FragmentMap(definitions: seq<Fragment>): map<string, Fragment> {
    if definitions == [] then map[]
    else
      var last := definitions[|definitions| - 1];
      FragmentMap(definitions[..|definitions| - 1])[last.name := last]
  }

  /* ---------- Directives and arguments ---------- */

  predicate Holds(test: Test, variables: map<string, Value>)
    requires !test.Absent?
  {
    match test
    case Constantly(on) => on
    case FromVariable(name) => name in variables && variables[name] == Flag(true)
  }

  /** `should_include_node`: `@skip` wins over `@include`. */
  predicate Included(directives: Directives, variables: map<string, Value>) {
    && (directives.skipIf.Absent? || !Holds(directives.skipIf, variables))
    && (directives.includeIf.Absent? || Holds(directives.includeIf, variables))
  }

  /** `get_argument_values`: declared parameters only, absent variables fall back to the default. */
  function ArgumentValues(field: FieldDefinition, node: FieldNode, variables: map<string, Value>): map<string, Value> {
    map p | p in field.parameters && (Given(node, p, variables) || p in field.defaults)
      :: if Given(node, p, variables) then Evaluate(node.arguments[p], variables) else field.defaults[p]
  }

  predicate Given(node: FieldNode, parameter: string, variables: map<string, Value>) {
    && parameter in node.arguments
    && (node.arguments[parameter].Variable? ==> node.arguments[parameter].name in variables)
  }

  function Evaluate(argument: Argument, variables: map<string, Value>): Value
    requires argument.Variable? ==> argument.name in variables
  {
    match argument
    case Literal(v) => v
    case Variable(name) => variables[name]
  }

  /* ---------- Field collection ---------- */

  /**
   CollectFields on one selection set. The result lists the collected field nodes
   in order together with the names of the fragments visited so far; a fragment
   that was visited already is not entered again.
   */
  function Collect(c: Context, parent: string, selections: seq<Selection>, visited: set<string>)
    : (r: (seq<FieldNode>, set<string>))
    ensures visited <= r.1
    decreases c.fragments.Keys - visited, selections
  {
    if selections == [] then ([], visited)
    else
      var first := CollectOne(c, parent, selections[0], visited);
      var rest := Collect(c, parent, selections[1..], first.1);
      (first.0 + rest.0, rest.1)
  }

  function CollectOne(c: Context, parent: string, selection: Selection, visited: set<string>)
    : (r: (seq<FieldNode>, set<string>))
    ensures visited <= r.1
    decreases c.fragments.Keys - visited, selection
  {
    match selection
    case Field(node) =>
      if Included(node.directives, c.variables) then ([node], visited) else ([], visited)
    case Inline(on, directives, body) =>
      if !Included(directives, c.variables) || !c.schema.Matches(on, parent) then ([], visited)
      else Collect(c, parent, body, visited)
    case Spread(name, directives) =>
      if name in visited || !Included(directives, c.variables) || !Applies(c, parent, name) then ([], visited)
      else Collect(c, parent, c.fragments[name].selections, visited + {name})
  }

  /** The named fragment exists and its type condition admits `parent`. */
  predicate Applies(c: Context, parent: string, name: string) {
    name in c.fragments && c.schema.Matches(Some(c.fragments[name].on), parent)
  }

  /** The fields one selection set contributes to an object of type `parent`. */
  function Fields(c: Context, parent: string, selections: seq<Selection>): seq<FieldNode> {
    Collect(c, parent, selections, {}).0
  }

  function WithKey(fields: seq<FieldNode>, key: string): (r: seq<FieldNode>)
    ensures forall f :: f in r <==> f in fields && f.Key() == key
  {
    if fields == [] then []
    else if fields[0].Key() == key then [fields[0]] + WithKey(fields[1..], key)
    else WithKey(fields[1..], key)
  }

  function WithoutKey(fields: seq<FieldNode>, key: string): (r: seq<FieldNode>)
    ensures |r| <= |fields|
    ensures forall f :: f in r <==> f in fields && f.Key() != key
  {
    if fields == [] then []
    else if fields[0].Key() == key then WithoutKey(fields[1..], key)
    else [fields[0]] + WithoutKey(fields[1..], key)
  }

  /** The grouped field set: one non-empty group per response key, in order of first appearance. */
  function Groups(fields: seq<FieldNode>): (r: seq<seq<FieldNode>>)
    ensures forall g :: g in r ==> g != []
    ensures forall g, f :: g in r && f in g ==> f in fields
    ensures forall f :: f in fields ==> exists g :: g in r && f in g
    decreases |fields|
  {
    if fields == [] then []
    else
      var key := fields[0].Key();
      assert fields[0] in WithKey(fields, key);
      var rest := Groups(WithoutKey(fields[1..], key));
      var r := [WithKey(fields, key)] + rest;
      assert forall f :: f in fields ==> exists g :: g in r && f in g by {
        forall f | f in fields ensures exists g :: g in r && f in g {
          if f.Key() == key {
            assert r[0] == WithKey(fields, key) && r[0] in r;
          } else {
            assert f in fields[1..];
            var g :| g in rest && f in g;
            assert g in r;
          }
        }
      }
      r
  }

  /** MergeSelectionSets (section 6.4.3): the selections of all fields of one group. */
  function Merged(group: seq<FieldNode>): seq<Selection> {
    if group == [] then [] else group[0].selections + Merged(group[1..])
  }
}
