/**
 One benchmark trial (`_execute_trial` of `compose/accelerated/bench_embed.py`): whatever
 the order in which concurrent requests complete, the trial reports what the sequential
 branch would for the same responses.
 */
module Trials {
  import opened Wrappers
  import opened Sequences
  import opened Sorting
  import opened Payloads
  import opened Words
  import Text

  /** `payload.get("embeddings")` and the request's latency. */
  datatype Response = Response(embeddings: Json, seconds: real)

  /* ---------- A trial ---------- */

  datatype Indexed = Indexed(index: nat, response: Response)

  datatype TrialResult = TrialResult(
    texts: nat, wordTokens: nat, requestSeconds: seq<real>,
    minSquare: Option<real>, maxSquare: Option<real>, wrapped: nat)

  function WordTokens(batches: seq<seq<string>>): nat {
    if batches == [] then 0 else WordTokens(batches[..|batches| - 1]) + BatchTokens(batches[|batches| - 1])
  }

  function BatchTokens(batch: seq<string>): nat {
    if batch == [] then 0 else BatchTokens(batch[..|batch| - 1]) + |SplitWords(batch[|batch| - 1])|
  }

  function Texts(batches: seq<seq<string>>): nat {
    if batches == [] then 0 else Texts(batches[..|batches| - 1]) + |batches[|batches| - 1]|
  }

  /** `min(current, x)` where the start value is an infinity. */
  function Least(current: Option<real>, x: real): Option<real> {
    match current
    case None => Some(x)
    case Some(y) => Some(if x < y then x else y)
  }

  function Greatest(current: Option<real>, x: real): Option<real> {
    match current
    case None => Some(x)
    case Some(y) => Some(if x > y then x else y)
  }

  /** Validating and adding up the responses of batches 0, 1, ... in order. */
  function Totals(batches: seq<seq<string>>, responses: seq<Response>, bounds: Bounds): Result<TrialResult, Error>
    requires |responses| <= |batches|
  {
    if responses == [] then Ok(TrialResult(0, WordTokens(batches), [], None, None, 0))
    else
      var n := |responses| - 1;
      match Totals(batches, responses[..n], bounds)
      case Err(e) => Err(e)
      case Ok(t) =>
        match Validate(responses[n].embeddings, |batches[n]|, bounds)
        case Err(e) => Err(e)
        case Ok(s) =>
          Ok(TrialResult(t.texts + s.count, t.wordTokens, t.requestSeconds + [responses[n].seconds],
                         Least(t.minSquare, s.minSquare), Greatest(t.maxSquare, s.maxSquare), t.wrapped + s.wrapped))
  }

  /* ---------- Sorting responses by index ---------- */

  function IndexOf(x: Indexed): real {
    x.index as real
  }

  /** `sorted(responses)`: the indices are distinct, so nothing else is ever compared. */
  function SortedByIndex(s: seq<Indexed>): seq<Indexed> {
    Sort(IndexOf, s)
  }

  predicate StrictlyAscending(s: seq<Indexed>) {
    forall i, j :: 0 <= i < j < |s| ==> s[i].index < s[j].index
  }

  /** A completion order: every future completes once. */
  predicate IsOrder(order: seq<nat>, n: nat) {
    && |order| == n
    && (forall i :: 0 <= i < n ==> order[i] < n)
    && (forall i, j :: 0 <= i < j < n ==> order[i] != order[j])
  }

  function InOrder(n: nat): (r: seq<nat>)
    ensures |r| == n && forall i :: 0 <= i < n ==> r[i] == i
  {
    seq(n, (i: nat) => i)
  }

  /** Responses as they are appended in some order of indices. */
  function Arrivals(order: seq<nat>, responses: seq<Response>): (r: seq<Indexed>)
    requires forall i :: 0 <= i < |order| ==> order[i] < |responses|
    ensures |r| == |order| && forall i :: 0 <= i < |r| ==> r[i] == Indexed(order[i], responses[order[i]])
  {
    seq(|order|, i requires 0 <= i < |order| => Indexed(order[i], responses[order[i]]))
  }

  lemma SortedKeeps(order: seq<nat>, responses: seq<Response>)
    requires IsOrder(order, |responses|)
    ensures var r := SortedByIndex(Arrivals(order, responses));
            && |r| == |order| && StrictlyAscending(r)
            && forall i :: 0 <= i < |r| ==> r[i] in Arrivals(order, responses)
  {
    var arrivals := Arrivals(order, responses);
    assert HasDistinctKeys(IndexOf, arrivals);
    SortAscends(IndexOf, arrivals);
    SortStrictly(IndexOf, arrivals);
    var r := SortedByIndex(arrivals);
    forall i, j | 0 <= i < j < |r| ensures r[i].index < r[j].index {
      assert IndexOf(r[i]) < IndexOf(r[j]);
    }
  }

  lemma {:induction false} AscendingGrows(s: seq<Indexed>, k: nat)
    requires StrictlyAscending(s) && k < |s|
    ensures k <= s[k].index
  {
    if k > 0 {
      AscendingGrows(s, k - 1);
    }
  }

  lemma {:induction false} AscendingIsBounded(s: seq<Indexed>, k: nat)
    requires StrictlyAscending(s) && k < |s| && forall i :: 0 <= i < |s| ==> s[i].index < |s|
    ensures s[k].index <= k
    decreases |s| - k
  {
    if k < |s| - 1 {
      AscendingIsBounded(s, k + 1);
    }
  }

  /** In whatever order the responses arrive, sorting puts batch k at position k. */
  lemma SortingRestoresBatchOrder(order: seq<nat>, responses: seq<Response>)
    requires IsOrder(order, |responses|)
    ensures var r := SortedByIndex(Arrivals(order, responses));
            |r| == |responses| && forall k :: 0 <= k < |r| ==> r[k] == Indexed(k, responses[k])
  {
    SortedKeeps(order, responses);
    var r := SortedByIndex(Arrivals(order, responses));
    forall k | 0 <= k < |r| ensures r[k].index < |responses| && r[k] == Indexed(r[k].index, responses[r[k].index]) {
      assert r[k] in Arrivals(order, responses);
    }
    forall k | 0 <= k < |r| ensures r[k] == Indexed(k, responses[k]) {
      AscendingGrows(r, k);
      AscendingIsBounded(r, k);
    }
  }

  /* ---------- The trial method ---------- */

  predicate AllAnswered(answers: seq<Result<Response, Error>>) {
    forall i :: 0 <= i < |answers| ==> answers[i].Ok?
  }

  function Answered(answers: seq<Result<Response, Error>>): (r: seq<Response>)
    requires AllAnswered(answers)
    ensures |r| == |answers| && forall i :: 0 <= i < |r| ==> r[i] == answers[i].value
  {
    seq(|answers|, i requires 0 <= i < |answers| => answers[i].value)
  }

  /** The first answer, in this order, that is a failure, is this one. */
  predicate FailsFirstIn(answers: seq<Result<Response, Error>>, order: seq<nat>, e: Error)
    requires forall i :: 0 <= i < |order| ==> order[i] < |answers|
  {
    exists i :: 0 <= i < |order| && answers[order[i]] == Err(e) && forall j :: 0 <= j < i ==> answers[order[j]].Ok?
  }

  /** The sequential branch: one request after the other. */
  method InTurn(answers: seq<Result<Response, Error>>) returns (r: Result<seq<Indexed>, Error>)
    ensures r.Ok? <==> AllAnswered(answers)
    ensures r.Ok? ==> r.value == Arrivals(InOrder(|answers|), Answered(answers))
    ensures r.Err? ==> FailsFirstIn(answers, InOrder(|answers|), r.error)
  {
    var responses: seq<Indexed> := [];
    for index := 0 to |answers|
      invariant |responses| == index && forall k :: 0 <= k < index ==>
                answers[k].Ok? && responses[k] == Indexed(k, answers[k].value)
    {
      match answers[index]
      case Err(e) =>
        assert answers[InOrder(|answers|)[index]] == Err(e);
        return Err(e);
      case Ok(response) => responses := responses + [Indexed(index, response)];
    }
    return Ok(responses);
  }

  /** The concurrent branch: responses as the futures complete. */
  method AsCompleted(answers: seq<Result<Response, Error>>, order: seq<nat>) returns (r: Result<seq<Indexed>, Error>)
    requires IsOrder(order, |answers|)
    ensures r.Ok? <==> AllAnswered(answers)
    ensures r.Ok? ==> r.value == Arrivals(order, Answered(answers))
    ensures r.Err? ==> FailsFirstIn(answers, order, r.error)
  {
    var responses: seq<Indexed> := [];
    for i := 0 to |order|
      invariant |responses| == i
      invariant forall k :: 0 <= k < i ==>
                answers[order[k]].Ok? && responses[k] == Indexed(order[k], answers[order[k]].value)
    {
      match answers[order[i]]
      case Err(e) =>
        assert answers[order[i]] == Err(e);
        return Err(e);
      case Ok(response) => responses := responses + [Indexed(order[i], response)];
    }
    OrderCovers(order, |answers|);
    forall i | 0 <= i < |answers| ensures answers[i].Ok? {
      assert i in order;
      var k :| 0 <= k < |order| && order[k] == i;
    }
    return Ok(responses);
  }

  /**
   `_execute_trial`. `answers[i]` is what `client.embed` does for batch i; `order` is the order in
   which the futures complete, and plays no part when `concurrency` is 1. If all requests are
   answered, the result mentions neither: it is the sequential one.
   */
  method ExecuteTrial(batches: seq<seq<string>>, answers: seq<Result<Response, Error>>, concurrency: nat,
                      order: seq<nat>, bounds: Bounds)
    returns (r: Result<TrialResult, Error>)
    requires |answers| == |batches| && (concurrency != 1 ==> IsOrder(order, |batches|))
    ensures AllAnswered(answers) ==> r == Totals(batches, Answered(answers), bounds)
    ensures !AllAnswered(answers) ==>
              r.Err? && FailsFirstIn(answers, if concurrency == 1 then InOrder(|answers|) else order, r.error)
  {
    var wordTokens := WordTokens(batches);
    var responses;
    if concurrency == 1 {
      responses := InTurn(answers);
    } else {
      responses := AsCompleted(answers, order);
    }
    if responses.Err? {
      return Err(responses.error);
    }
    SortingRestoresBatchOrder(if concurrency == 1 then InOrder(|batches|) else order, Answered(answers));
    var sorted := SortedByIndex(responses.value);
    r := AddUp(batches, sorted, Answered(answers), wordTokens, bounds);
  }

  /** The loop over the sorted responses. */
  method AddUp(batches: seq<seq<string>>, sorted: seq<Indexed>, ghost responses: seq<Response>, wordTokens: nat,
               bounds: Bounds)
    returns (r: Result<TrialResult, Error>)
    requires |responses| == |batches| == |sorted| && wordTokens == WordTokens(batches)
    requires forall k :: 0 <= k < |sorted| ==> sorted[k] == Indexed(k, responses[k])
    ensures r == Totals(batches, responses, bounds)
  {
    var t := TrialResult(0, wordTokens, [], None, None, 0);
    for i := 0 to |sorted|
      invariant Totals(batches, responses[..i], bounds) == Ok(t)
    {
      TakeOne(responses, i);
      var summary := ValidatePayload(sorted[i].response.embeddings, |batches[sorted[i].index]|, bounds);
      match summary
      case Err(e) =>
        TotalsFail(batches, responses, i + 1, bounds);
        return Err(e);
      case Ok(s) =>
        t := TrialResult(t.texts + s.count, t.wordTokens, t.requestSeconds + [sorted[i].response.seconds],
                         Least(t.minSquare, s.minSquare), Greatest(t.maxSquare, s.maxSquare), t.wrapped + s.wrapped);
    }
    TakeAll(responses);
    return Ok(t);
  }

  lemma {:induction false} TotalsFail(batches: seq<seq<string>>, responses: seq<Response>, i: nat, bounds: Bounds)
    requires i <= |responses| <= |batches| && Totals(batches, responses[..i], bounds).Err?
    ensures Totals(batches, responses, bounds) == Totals(batches, responses[..i], bounds)
    decreases |responses|
  {
    if i == |responses| {
      TakeAll(responses);
    } else {
      assert responses[..|responses| - 1][..i] == responses[..i];
      TotalsFail(batches, responses[..|responses| - 1], i, bounds);
    }
  }

  /** Distinct indices below n, n of them: every index occurs. */
  lemma OrderCovers(order: seq<nat>, n: nat)
    requires IsOrder(order, n)
    ensures forall i :: 0 <= i < n ==> i in order
  {
    var blank := seq(n, _ => Response(NotNumeric, 0.0));
    SortingRestoresBatchOrder(order, blank);
    SortedKeeps(order, blank);
    var r := SortedByIndex(Arrivals(order, blank));
    forall i | 0 <= i < n ensures i in order {
      assert r[i].index == i && r[i] in Arrivals(order, blank);
    }
  }

  /* ---------- What a successful trial reports ---------- */

  /** The squared norms of the rows in the responses to the first `upto` batches. */
  ghost predicate HasNorm(responses: seq<Response>, bounds: Bounds, upto: nat, batch: nat, i: nat, square: real) {
    && batch < upto <= |responses| && responses[batch].embeddings.Array?
    && HasSquare(responses[batch].embeddings.items, bounds, i, square)
  }

  ghost predicate IsLeastNorm(responses: seq<Response>, bounds: Bounds, upto: nat, least: real) {
    && (forall batch, i, square :: HasNorm(responses, bounds, upto, batch, i, square) ==> least <= square)
    && exists batch, i :: HasNorm(responses, bounds, upto, batch, i, least)
  }

  ghost predicate IsGreatestNorm(responses: seq<Response>, bounds: Bounds, upto: nat, greatest: real) {
    && (forall batch, i, square :: HasNorm(responses, bounds, upto, batch, i, square) ==> square <= greatest)
    && exists batch, i :: HasNorm(responses, bounds, upto, batch, i, greatest)
  }

  /** The rows in the responses to the first `upto` batches that are lists of one list. */
  function NestedIn(responses: seq<Response>, upto: nat): set<(nat, nat)>
    requires upto <= |responses|
  {
    set batch: nat, i: nat | batch < upto && i < RowCount(responses[batch]) &&
        IsNested(responses[batch].embeddings.items[i]) :: (batch, i)
  }

  function RowCount(response: Response): (n: nat)
    ensures n > 0 ==> response.embeddings.Array? && n == |response.embeddings.items|
  {
    if response.embeddings.Array? then |response.embeddings.items| else 0
  }

  lemma NestedInOneMore(responses: seq<Response>, upto: nat)
    requires 0 < upto <= |responses| && responses[upto - 1].embeddings.Array?
    ensures |NestedIn(responses, upto)| ==
            |NestedIn(responses, upto - 1)| + |NestedRows(responses[upto - 1].embeddings.items)|
  {
    var rows := NestedRows(responses[upto - 1].embeddings.items);
    PairsCount(upto - 1, rows);
    assert NestedIn(responses, upto) == NestedIn(responses, upto - 1) + PairsOf(upto - 1, rows);
    assert NestedIn(responses, upto - 1) !! PairsOf(upto - 1, rows);
  }

  function PairsOf(batch: nat, rows: set<nat>): set<(nat, nat)> {
    set i | i in rows :: (batch, i)
  }

  lemma {:induction false} PairsCount(batch: nat, rows: set<nat>)
    ensures |PairsOf(batch, rows)| == |rows|
  {
    if rows == {} {
      assert PairsOf(batch, rows) == {};
    } else {
      var i :| i in rows;
      PairsCount(batch, rows - {i});
      assert PairsOf(batch, rows) == PairsOf(batch, rows - {i}) + {(batch, i)};
    }
  }

  lemma {:induction false} TrialCounts(batches: seq<seq<string>>, responses: seq<Response>, bounds: Bounds, upto: nat)
    requires |responses| == |batches| && upto <= |responses|
    requires Totals(batches, responses[..upto], bounds).Ok?
    ensures var t := Totals(batches, responses[..upto], bounds).value;
            && t.texts == Texts(batches[..upto])
            && t.wordTokens == WordTokens(batches)
            && |t.requestSeconds| == upto && (forall i :: 0 <= i < upto ==> t.requestSeconds[i] == responses[i].seconds)
            && t.wrapped == |NestedIn(responses, upto)|
  {
    if upto > 0 {
      TakeOne(responses, upto - 1);
      TakeOne(batches, upto - 1);
      TrialCounts(batches, responses, bounds, upto - 1);
      SummaryIsOfRows(responses[upto - 1].embeddings.items, bounds);
      NestedInOneMore(responses, upto);
    }
  }

  lemma {:induction false} TrialNorms(batches: seq<seq<string>>, responses: seq<Response>, bounds: Bounds, upto: nat)
    requires |responses| == |batches| && upto <= |responses|
    requires Totals(batches, responses[..upto], bounds).Ok?
    ensures var t := Totals(batches, responses[..upto], bounds).value;
            && (upto > 0 ==>
                  && t.minSquare.Some? && IsLeastNorm(responses, bounds, upto, t.minSquare.value)
                  && t.maxSquare.Some? && IsGreatestNorm(responses, bounds, upto, t.maxSquare.value)
                  && IsPermitted(t.minSquare.value, bounds) && IsPermitted(t.maxSquare.value, bounds)
                  && t.minSquare.value <= t.maxSquare.value)
            && (upto == 0 ==> t.minSquare.None? && t.maxSquare.None?)
  {
    if upto > 0 {
      TakeOne(responses, upto - 1);
      TrialNorms(batches, responses, bounds, upto - 1);
      var s := RowsSummary(responses[upto - 1].embeddings.items, bounds).value;
      SummaryIsOfRows(responses[upto - 1].embeddings.items, bounds);
      var before := Totals(batches, responses[..upto - 1], bounds).value;
      LeastGrows(responses, bounds, upto, before.minSquare, s.minSquare);
      GreatestGrows(responses, bounds, upto, before.maxSquare, s.maxSquare);
    }
  }

  /**
   As many texts as were sent, one latency for each batch in batch order, how many rows were lists
   of one list, and the least and the greatest norm of all rows of all batches, which are permitted.
   */
  lemma TrialReportsWhatWasSent(batches: seq<seq<string>>, responses: seq<Response>, bounds: Bounds, upto: nat)
    requires |responses| == |batches| && upto <= |responses|
    requires Totals(batches, responses[..upto], bounds).Ok?
    ensures var t := Totals(batches, responses[..upto], bounds).value;
            && t.texts == Texts(batches[..upto])
            && t.wordTokens == WordTokens(batches)
            && |t.requestSeconds| == upto && (forall i :: 0 <= i < upto ==> t.requestSeconds[i] == responses[i].seconds)
            && (upto > 0 ==>
                  && t.minSquare.Some? && IsLeastNorm(responses, bounds, upto, t.minSquare.value)
                  && t.maxSquare.Some? && IsGreatestNorm(responses, bounds, upto, t.maxSquare.value)
                  && IsPermitted(t.minSquare.value, bounds) && IsPermitted(t.maxSquare.value, bounds)
                  && t.minSquare.value <= t.maxSquare.value)
            && (upto == 0 ==> t.minSquare.None? && t.maxSquare.None?)
            && t.wrapped == |NestedIn(responses, upto)|
  {
    TrialCounts(batches, responses, bounds, upto);
    TrialNorms(batches, responses, bounds, upto);
  }

  /** One more batch: its rows, or the rows of the batches before it. */
  lemma NormsOfOneMore(responses: seq<Response>, bounds: Bounds, upto: nat)
    requires 0 < upto <= |responses| && responses[upto - 1].embeddings.Array?
    ensures forall batch, i, square :: HasNorm(responses, bounds, upto, batch, i, square) <==>
              || HasNorm(responses, bounds, upto - 1, batch, i, square)
              || (batch == upto - 1 && HasSquare(responses[upto - 1].embeddings.items, bounds, i, square))
  {
  }

  lemma LeastGrows(responses: seq<Response>, bounds: Bounds, upto: nat, before: Option<real>, least: real)
    requires 0 < upto <= |responses| && responses[upto - 1].embeddings.Array?
    requires var rows := responses[upto - 1].embeddings.items;
             && (forall i, square :: HasSquare(rows, bounds, i, square) ==> least <= square)
             && exists i :: HasSquare(rows, bounds, i, least)
    requires if upto == 1 then before.None? else before.Some? && IsLeastNorm(responses, bounds, upto - 1, before.value)
    ensures IsLeastNorm(responses, bounds, upto, Least(before, least).value)
  {
    NormsOfOneMore(responses, bounds, upto);
    var i :| HasSquare(responses[upto - 1].embeddings.items, bounds, i, least);
    assert HasNorm(responses, bounds, upto, upto - 1, i, least);
    if upto > 1 {
      var batch, j :| HasNorm(responses, bounds, upto - 1, batch, j, before.value);
      assert HasNorm(responses, bounds, upto, batch, j, before.value);
    }
  }

  lemma GreatestGrows(responses: seq<Response>, bounds: Bounds, upto: nat, before: Option<real>, greatest: real)
    requires 0 < upto <= |responses| && responses[upto - 1].embeddings.Array?
    requires var rows := responses[upto - 1].embeddings.items;
             && (forall i, square :: HasSquare(rows, bounds, i, square) ==> square <= greatest)
             && exists i :: HasSquare(rows, bounds, i, greatest)
    requires if upto == 1 then before.None?
             else before.Some? && IsGreatestNorm(responses, bounds, upto - 1, before.value)
    ensures IsGreatestNorm(responses, bounds, upto, Greatest(before, greatest).value)
  {
    NormsOfOneMore(responses, bounds, upto);
    var i :| HasSquare(responses[upto - 1].embeddings.items, bounds, i, greatest);
    assert HasNorm(responses, bounds, upto, upto - 1, i, greatest);
    if upto > 1 {
      var batch, j :| HasNorm(responses, bounds, upto - 1, batch, j, before.value);
      assert HasNorm(responses, bounds, upto, batch, j, before.value);
    }
  }

  /** Response number `k` is the first that is not acceptable, with this error. */
  ghost predicate IsRejected(batches: seq<seq<string>>, responses: seq<Response>, bounds: Bounds, k: nat, e: Error) {
    && k < |responses| <= |batches|
    && Validate(responses[k].embeddings, |batches[k]|, bounds) == Err(e)
    && forall i :: 0 <= i < k ==> IsAcceptable(responses[i].embeddings, |batches[i]|, bounds)
  }

  /** All requests answered: the trial succeeds if and only if every payload is acceptable. */
  lemma TrialSucceedsExactly(batches: seq<seq<string>>, responses: seq<Response>, bounds: Bounds)
    requires |responses| <= |batches|
    ensures Totals(batches, responses, bounds).Ok? <==>
            forall i :: 0 <= i < |responses| ==> IsAcceptable(responses[i].embeddings, |batches[i]|, bounds)
    ensures Totals(batches, responses, bounds).Err? ==>
              exists k: nat :: IsRejected(batches, responses, bounds, k, Totals(batches, responses, bounds).error)
  {
    FirstRejected(batches, responses, bounds);
    if Totals(batches, responses, bounds).Err? {
      var k: nat :| IsRejected(batches, responses, bounds, k, Totals(batches, responses, bounds).error);
      PayloadExactly(responses[k].embeddings, |batches[k]|, bounds);
    }
  }

  lemma {:induction false} FirstRejected(batches: seq<seq<string>>, responses: seq<Response>, bounds: Bounds)
    requires |responses| <= |batches|
    ensures Totals(batches, responses, bounds).Ok? ==>
              forall i :: 0 <= i < |responses| ==> IsAcceptable(responses[i].embeddings, |batches[i]|, bounds)
    ensures Totals(batches, responses, bounds).Err? ==>
              exists k: nat :: IsRejected(batches, responses, bounds, k, Totals(batches, responses, bounds).error)
  {
    if responses != [] {
      var n := |responses| - 1;
      FirstRejected(batches, responses[..n], bounds);
      PayloadExactly(responses[n].embeddings, |batches[n]|, bounds);
      match Totals(batches, responses[..n], bounds)
      case Err(e) =>
        var k: nat :| IsRejected(batches, responses[..n], bounds, k, e);
        assert IsRejected(batches, responses, bounds, k, e);
      case Ok(_) =>
        forall i | 0 <= i < n ensures IsAcceptable(responses[i].embeddings, |batches[i]|, bounds) {
          assert responses[..n][i] == responses[i];
        }
        match Validate(responses[n].embeddings, |batches[n]|, bounds)
        case Err(e) => assert IsRejected(batches, responses, bounds, n, e);
        case Ok(_) =>
    }
  }

  /** A text of so many words counts as so many. */
  lemma WordsAreCounted(words: seq<string>)
    requires AreTokens(words)
    ensures BatchTokens([JoinWords(words)]) == |words|
  {
    SplitJoined(Text.IsSpace, words);
    assert [JoinWords(words)][..0] == [];
  }
}
