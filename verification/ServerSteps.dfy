/**
 One request at a server, case by case: which operation is selected, what the extension says to it,
 and what is executed; and that lists and groups are executed item by item, in order.
 */
module ServerSteps {
  import opened Wrappers
  import opened GraphQL
  import opened Fragments
  import opened Automation
  import opened Footprint
  import opened Executor
  import opened OperationSafety
  import opened AutomationExtension

  /* ---------- Selection ---------- */

  predicate IsFirstNamed(operations: seq<Operation>, name: Option<string>, i: nat) {
    i < |operations| && operations[i].name == name && forall j :: 0 <= j < i ==> operations[j].name != name
  }

  /** The only operation, or the first with the name that is asked for. */
  predicate Selects(operations: seq<Operation>, name: Option<string>, operation: Operation) {
    if name == None then operations == [operation]
    else exists i :: 0 <= i < |operations| && IsFirstNamed(operations, name, i) && operations[i] == operation
  }

  lemma {:induction false} SelectExactly(operations: seq<Operation>, name: Option<string>, operation: Operation)
    ensures SelectOperation(operations, name) == Some(operation) <==> Selects(operations, name, operation)
  {
    if name == None {
      if |operations| == 1 {
        assert operations == [operations[0]];
      }
    } else if operations != [] {
      if operations[0].name == name {
        assert IsFirstNamed(operations, name, 0);
      } else {
        SelectExactly(operations[1..], name, operation);
        if i :| 0 <= i < |operations| && IsFirstNamed(operations, name, i) && operations[i] == operation {
          assert IsFirstNamed(operations[1..], name, i - 1);
        }
        if i :| 0 <= i < |operations| - 1 && IsFirstNamed(operations[1..], name, i) && operations[1..][i] == operation {
          assert IsFirstNamed(operations, name, i + 1);
        }
      }
    }
  }

  /* ---------- The verdict ---------- */

  /** The request's operation with its variables. */
  predicate IsAsked(request: Request, operation: Operation, variables: map<string, Value>) {
    && Selects(request.document.operations, request.operationName, operation)
    && request.coerce(operation) == Ok(variables)
  }

  /**
   Without a credential there is never a verdict. With one there is none exactly when an operation is
   selected, its variables are well formed and the policy admits it; ill-formed variables are reported,
   and everything else is denied.
   */
  lemma VerdictExactly(g: Gate, schema: Schema, request: Request)
    requires HasNoCycles(request)
    ensures Verdict(g, schema, request) == None <==>
            || request.user.credential == None
            || exists operation, variables :: IsAsked(request, operation, variables) &&
                 CheckOperation(g, request.user, schema, request.document, operation, variables)
    ensures forall errors :: Verdict(g, schema, request) == Some(VariableErrors(errors)) <==>
              && request.user.credential.Some?
              && exists operation :: Selects(request.document.operations, request.operationName, operation) &&
                                     request.coerce(operation) == Err(errors)
  {
    var selected := SelectOperation(request.document.operations, request.operationName);
    forall operation
      ensures selected == Some(operation) <==> Selects(request.document.operations, request.operationName, operation)
    {
      SelectExactly(request.document.operations, request.operationName, operation);
    }
  }

  /* ---------- Serving ---------- */

  /** These calls, in this order, made for this request. */
  ghost predicate AreMadeFor(entries: seq<Entry>, request: Request, log: seq<Call>) {
    |entries| == |log| && forall i :: 0 <= i < |log| ==> entries[i] == Entry(request, log[i])
  }

  /**
   A request is executed exactly when there is no verdict and it asks for an operation; then its calls
   go to the end of the history, in order, and the store is what they leave. Otherwise nothing happens.
   */
  lemma ServeExactly<S>(g: Gate, schema: Schema, resolvers: Request -> Resolver<S>, site: Site<S>, request: Request,
                        operation: Operation, variables: map<string, Value>)
    requires HasNoCycles(request) && IsAsked(request, operation, variables)
    ensures var site' := Serve(g, schema, resolvers, site, request);
            if Verdict(g, schema, request) == None then
              var w := ExecuteOperation(schema, request.document, operation, variables, resolvers(request),
                                        World(site.store, []));
              && site'.store == w.store
              && |site'.history| == |site.history| + |w.log| && site'.history[..|site.history|] == site.history
              && AreMadeFor(site'.history[|site.history|..], request, w.log)
            else site' == site
  {
    SelectExactly(request.document.operations, request.operationName, operation);
  }

  lemma NothingAsked<S>(g: Gate, schema: Schema, resolvers: Request -> Resolver<S>, site: Site<S>, request: Request)
    requires HasNoCycles(request)
    requires forall operation, variables :: !IsAsked(request, operation, variables)
    ensures Serve(g, schema, resolvers, site, request) == site
  {
    var selected := SelectOperation(request.document.operations, request.operationName);
    if selected.Some? && request.coerce(selected.value).Ok? {
      SelectExactly(request.document.operations, request.operationName, selected.value);
      assert IsAsked(request, selected.value, request.coerce(selected.value).value);
    }
  }

  /** A run is one request after the other. */
  lemma {:induction false} RunInOrder<S>(g: Gate, schema: Schema, resolvers: Request -> Resolver<S>, site: Site<S>,
                                        requests: seq<Request>, last: Request)
    requires HasNoCycles(last) && forall i :: 0 <= i < |requests| ==> HasNoCycles(requests[i])
    ensures Run(g, schema, resolvers, site, requests + [last]) ==
            Serve(g, schema, resolvers, Run(g, schema, resolvers, site, requests), last)
    decreases |requests|
  {
    var all := requests + [last];
    if requests == [] {
      assert all == [last] && all[1..] == [];
    } else {
      assert all[0] == requests[0] && all[1..] == requests[1..] + [last];
      RunInOrder(g, schema, resolvers, Serve(g, schema, resolvers, site, requests[0]), requests[1..], last);
    }
  }

  /* ---------- Lists ---------- */

  /** A list is completed item by item, in order. */
  lemma {:induction false} ItemsInOrder<S>(c: Context, resolve: Resolver<S>, w: World<S>, typeName: string,
                                        items: seq<Resolved>, last: Resolved, selections: seq<Selection>)
    requires Acyclic(c.fragments)
    ensures Complete(c, resolve, w, typeName, Many([]), selections) == w
    ensures Complete(c, resolve, w, typeName, Many(items + [last]), selections) ==
            Complete(c, resolve, Complete(c, resolve, w, typeName, Many(items), selections), typeName, last, selections)
    decreases |items|
  {
    var all := items + [last];
    assert all[0] == (if items == [] then last else items[0]);
    var first := Complete(c, resolve, w, typeName, all[0], selections);
    assert CompleteMany(c, resolve, w, typeName, [], selections) == w;
    assert CompleteMany(c, resolve, first, typeName, [], selections) == first;
    if items == [] {
      assert all == [last] && all[1..] == [];
    } else {
      assert all[1..] == items[1..] + [last];
      var w' := Complete(c, resolve, w, typeName, items[0], selections);
      ItemsInOrder(c, resolve, w', typeName, items[1..], last, selections);
    }
  }

  /** An object of an object type is that type, whatever it names itself; of an abstract type, it is what it names. */
  lemma ObjectHasItsType<S>(c: Context, resolve: Resolver<S>, w: World<S>, typeName: string, t: string, id: int,
                            selections: seq<Selection>)
    requires Acyclic(c.fragments)
    ensures Complete(c, resolve, w, typeName, Object(t, id), selections) ==
            if typeName !in c.schema.types then w
            else if c.schema.types[typeName].ObjectType? then
              ExecuteSelections(c, resolve, w, typeName, id, selections, false)
            else if t in c.schema.types[typeName].possible then
              ExecuteSelections(c, resolve, w, t, id, selections, false)
            else w
  {
  }
}
