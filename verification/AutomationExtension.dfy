/**
 `AutomationScopeExtension.on_execute`, and what it means for a server: over any run
 of requests, a denied operation leaves no trace in the store, and every call in its
 history made for a credential belongs to an operation all of whose calls are permitted.
 */
module AutomationExtension {
  import opened Wrappers
  import opened GraphQL
  import opened Fragments
  import opened AutomationCredentials
  import opened Automation
  import opened Footprint
  import opened Executor
  import opened OperationSafety

  /** What `context.result` is set to; None leaves the operation to be executed. */
  datatype Outcome = Denied | VariableErrors(errors: seq<string>)

  type Coercion = Operation -> Result<map<string, Value>, seq<string>>

  /** A parsed and validated request; `coerce` is `get_variable_values` on its raw variables. */
  datatype Request = Request(user: User, document: Document, operationName: Option<string>, coerce: Coercion)

  /** `get_operation_ast`: the named operation, or the only one. */
  function SelectOperation(operations: seq<Operation>, name: Option<string>): Option<Operation> {
    match name
    case None => if |operations| == 1 then Some(operations[0]) else None
    case Some(_) =>
      if operations == [] then None
      else if operations[0].name == name then Some(operations[0])
      else SelectOperation(operations[1..], name)
  }

  /** The verdict on a request, before anything of it is executed. */
  function Verdict(g: Gate, schema: Schema, request: Request): Option<Outcome>
    requires HasNoCycles(request)
  {
    if request.user.credential.None? then None
    else
      match SelectOperation(request.document.operations, request.operationName)
      case None => Some(Denied)
      case Some(operation) =>
        match request.coerce(operation)
        case Err(errors) => Some(VariableErrors(errors))
        case Ok(variables) =>
          if CheckOperation(g, request.user, schema, request.document, operation, variables) then None else Some(Denied)
  }

  class ExecutionContext {
    const request: Request
    var result: Option<Outcome>

    constructor (request: Request)
      ensures this.request == request && result == None
    {
      this.request := request;
      result := None;
    }

    /** The part of `on_execute` before its `yield`. */
    method OnExecute(g: Gate, schema: Schema)
      requires HasNoCycles(request)
      modifies this
      ensures result == (if Verdict(g, schema, request).Some? then Verdict(g, schema, request) else old(result))
    {
      if request.user.credential.Some? {
        var operation := SelectOperation(request.document.operations, request.operationName);
        if operation.None? {
          result := Some(Denied);
        } else {
          var variables := request.coerce(operation.value);
          if variables.Err? {
            result := Some(VariableErrors(variables.error));
          } else {
            var permitted := CheckOperation(g, request.user, schema, request.document, operation.value,
              variables.value);
            if !permitted {
              result := Some(Denied);
            }
          }
        }
      }
    }
  }

  /* ---------- Runs of a server ---------- */

  datatype Entry = Entry(request: Request, call: Call)

  datatype Site<S> = Site(store: S, history: seq<Entry>)

  function Entries(request: Request, log: seq<Call>): seq<Entry> {
    seq(|log|, i requires 0 <= i < |log| => Entry(request, log[i]))
  }

  /** One request: if the extension set a result the operation is not executed. */
  function Serve<S>(g: Gate, schema: Schema, resolvers: Request -> Resolver<S>, site: Site<S>,
                    request: Request): Site<S>
    requires HasNoCycles(request)
  {
    if Verdict(g, schema, request).Some? then site
    else
      var operation := SelectOperation(request.document.operations, request.operationName);
      if operation.None? || request.coerce(operation.value).Err? then site
      else
        var w := ExecuteOperation(schema, request.document, operation.value, request.coerce(operation.value).value,
                                  resolvers(request), World(site.store, []));
        Site(w.store, site.history + Entries(request, w.log))
  }

  function Run<S>(g: Gate, schema: Schema, resolvers: Request -> Resolver<S>, site: Site<S>,
                  requests: seq<Request>): Site<S>
    requires forall i :: 0 <= i < |requests| ==> HasNoCycles(requests[i])
    decreases |requests|
  {
    if requests == [] then site
    else Run(g, schema, resolvers, Serve(g, schema, resolvers, site, requests[0]), requests[1..])
  }

  ghost predicate HasNoCycles(request: Request) {
    Acyclic(FragmentMap(request.document.fragments))
  }

  /** The request passed validation: whatever operation it selects and however its variables are coerced. */
  ghost predicate Validated(schema: Schema, request: Request) {
    && HasNoCycles(request)
    && (var operation := SelectOperation(request.document.operations, request.operationName);
        operation.Some? && request.coerce(operation.value).Ok? ==>
          ValidOperation(schema, request.document, operation.value, request.coerce(operation.value).value))
  }

  ghost predicate AllValidated(schema: Schema, requests: seq<Request>)
    ensures AllValidated(schema, requests) ==> forall i :: 0 <= i < |requests| ==> HasNoCycles(requests[i])
  {
    forall i :: 0 <= i < |requests| ==> Validated(schema, requests[i])
  }

  ghost predicate Runnable(request: Request) {
    var operation := SelectOperation(request.document.operations, request.operationName);
    operation.Some? && request.coerce(operation.value).Ok?
  }

  /** All calls the selected operation can make. */
  ghost function RequestCalls(schema: Schema, request: Request): set<Call>
    requires HasNoCycles(request) && Runnable(request)
  {
    var operation := SelectOperation(request.document.operations, request.operationName).value;
    OperationCalls(schema, request.document, operation, request.coerce(operation).value)
  }

  /** A history entry made for a credential comes from an operation that is permitted as a whole. */
  ghost predicate Justified(g: Gate, schema: Schema, e: Entry) {
    e.request.user.credential.Some? ==>
      && Acyclic(FragmentMap(e.request.document.fragments))
      && Runnable(e.request)
      && e.call in RequestCalls(schema, e.request)
      && AllPermitted(g, e.request.user, schema, RequestCalls(schema, e.request))
  }

  ghost predicate AllJustified(g: Gate, schema: Schema, history: seq<Entry>) {
    forall e :: e in history ==> Justified(g, schema, e)
  }

  /** All or nothing: one call that is not permitted, anywhere in the operation, and nothing at all is resolved. */
  lemma OneBadCallStopsAll<S>(g: Gate, schema: Schema, resolvers: Request -> Resolver<S>, site: Site<S>,
                              request: Request, call: Call)
    requires ConcreteEdges(g, schema) && Validated(schema, request)
    requires request.user.credential.Some? && Runnable(request)
    requires call in RequestCalls(schema, request) && !Permitted(g, request.user, schema, call)
    ensures Serve(g, schema, resolvers, site, request) == site
    ensures Verdict(g, schema, request) == Some(Denied)
  {
    var operation := SelectOperation(request.document.operations, request.operationName).value;
    var variables := request.coerce(operation).value;
    if CheckOperation(g, request.user, schema, request.document, operation, variables) {
      AcceptedIsSafe(g, request.user, schema, request.document, operation, variables, resolvers(request),
        World(site.store, []));
      assert false;
    }
  }

  lemma ServeIsJustified<S>(g: Gate, schema: Schema, resolvers: Request -> Resolver<S>, site: Site<S>, request: Request)
    requires ConcreteEdges(g, schema) && Validated(schema, request)
    requires AllJustified(g, schema, site.history)
    ensures AllJustified(g, schema, Serve(g, schema, resolvers, site, request).history)
    ensures site.history <= Serve(g, schema, resolvers, site, request).history
  {
    if Verdict(g, schema, request).None? && Runnable(request) && request.user.credential.Some? {
      var operation := SelectOperation(request.document.operations, request.operationName).value;
      var variables := request.coerce(operation).value;
      var w := World(site.store, []);
      AcceptedIsSafe(g, request.user, schema, request.document, operation, variables, resolvers(request), w);
      var w' := ExecuteOperation(schema, request.document, operation, variables, resolvers(request), w);
      assert w'.log[0..] == w'.log;
    }
  }

  /** Over every run, every call made for a credential is justified by its whole operation. */
  lemma {:induction false} RunIsJustified<S>(g: Gate, schema: Schema, resolvers: Request -> Resolver<S>,
                                        site: Site<S>, requests: seq<Request>)
    requires ConcreteEdges(g, schema)
    requires AllValidated(schema, requests)
    requires AllJustified(g, schema, site.history)
    ensures AllJustified(g, schema, Run(g, schema, resolvers, site, requests).history)
    ensures site.history <= Run(g, schema, resolvers, site, requests).history
    decreases |requests|
  {
    if requests != [] {
      ServeIsJustified(g, schema, resolvers, site, requests[0]);
      RunIsJustified(g, schema, resolvers, Serve(g, schema, resolvers, site, requests[0]), requests[1..]);
    }
  }

  /** Over every run, a credential bound to some corpuses only ever reaches root fields that name one of them. */
  lemma RunConfinesBoundCallers<S>(g: Gate, schema: Schema, resolvers: Request -> Resolver<S>, store: S,
                                   requests: seq<Request>, e: Entry)
    requires ConcreteEdges(g, schema)
    requires AllValidated(schema, requests)
    requires e in Run(g, schema, resolvers, Site(store, []), requests).history
    requires e.call.root
    requires e.request.user.credential.Some? && e.request.user.credential.value.corpusIds.Some?
    ensures e.call.parent in g.tables.operations && e.call.name in g.tables.operations[e.call.parent]
    ensures var corpus := g.tables.operations[e.call.parent][e.call.name].corpusArgument;
            && corpus.Some?
            && var id := CorpusPk(GetArgument(e.call.arguments, corpus.value), g.decode);
               id.Some? && id.value in e.request.user.credential.value.corpusIds.value
  {
    RunIsJustified(g, schema, resolvers, Site(store, []), requests);
    assert Justified(g, schema, e);
    assert Permitted(g, e.request.user, schema, e.call);
  }
}
