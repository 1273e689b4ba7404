/**
 Fair batching of the benchmark (`_expand_samples_for_scenario`, `_make_batches` and
 `benchmark_pair_scenario` of `compose/accelerated/bench_embed.py`).
 */
module Batching {
  import opened Wrappers
  import opened Numbers
  import opened Sequences
  import opened Dataset
  import Payloads
  import Trials

  /* ---------- The expanded size ---------- */

  function CeilDiv(x: nat, b: nat): nat
    requires b > 0
  {
    (x + b - 1) / b
  }

  function Target(count: nat, batchSize: nat, concurrency: nat, minBatches: nat): nat
    requires batchSize > 0
  {
    CeilDiv(Max(count, batchSize * concurrency * minBatches), batchSize) * batchSize
  }

  lemma CeilBounds(x: nat, b: nat)
    requires b > 0
    ensures x <= CeilDiv(x, b) * b
    ensures x > 0 ==> CeilDiv(x, b) > 0 && (CeilDiv(x, b) - 1) * b < x
  {
    var y := x + b - 1;
    assert y == b * (y / b) + y % b;
    assert (y / b - 1) * b == b * (y / b) - b;
  }

  lemma ProductIsMonotone(a: nat, c: nat, b: nat)
    requires a <= c
    ensures a * b <= c * b
  {
  }

  lemma MultipleHasNoRemainder(a: nat, b: nat)
    requires b > 0
    ensures (a * b) % b == 0 && (a * b) / b == a
  {
    Unique(a * b, b, a, 0);
  }

  /** `q` is the least number of batches, so `q * b` is the least multiple. */
  lemma NoSmallerMultiple(x: nat, b: nat, q: nat, k: nat)
    requires q > 0 ==> (q - 1) * b < x
    requires x <= k * b
    ensures q * b <= k * b
  {
    if k < q {
      ProductIsMonotone(k, q - 1, b);
    } else {
      ProductIsMonotone(q, k, b);
    }
  }

  lemma LeastMultiple(x: nat, b: nat, other: nat)
    requires b > 0
    ensures CeilDiv(x, b) * b >= x && (CeilDiv(x, b) * b) % b == 0
    ensures other % b == 0 && other >= x ==> other >= CeilDiv(x, b) * b
  {
    CeilBounds(x, b);
    MultipleHasNoRemainder(CeilDiv(x, b), b);
    if x == 0 {
      Unique(b - 1, b, 0, b - 1);
    }
    if other % b == 0 && other >= x {
      Quotient(other, b);
      NoSmallerMultiple(x, b, CeilDiv(x, b), other / b);
    }
  }

  lemma Quotient(t: nat, b: nat)
    requires b > 0
    ensures t == (t / b) * b + t % b
  {
  }

  /** The expanded size is the least multiple of the batch size that covers both demands. */
  lemma TargetIsLeast(count: nat, batchSize: nat, concurrency: nat, minBatches: nat, other: nat)
    requires batchSize > 0
    ensures var target := Target(count, batchSize, concurrency, minBatches);
            && target % batchSize == 0
            && target >= count && target >= batchSize * concurrency * minBatches
            && (other % batchSize == 0 && other >= count && other >= batchSize * concurrency * minBatches ==>
              other >= target)
  {
    LeastMultiple(Max(count, batchSize * concurrency * minBatches), batchSize, other);
  }

  /* ---------- Expansion ---------- */

  function Expand(samples: seq<TextSample>, target: nat): (e: seq<TextSample>)
    requires |samples| > 0
    ensures |e| == target && forall i :: 0 <= i < target ==> e[i] == samples[i % |samples|]
  {
    seq(target, i requires 0 <= i => samples[i % |samples|])
  }

  /** How often position `p` of the samples is taken by the first `target` indices. */
  function Taken(n: nat, target: nat, p: nat): nat
    requires n > 0
  {
    if target == 0 then 0 else Taken(n, target - 1, p) + if (target - 1) % n == p then 1 else 0
  }

  /** Quotient and remainder are unique. */
  lemma Unique(t: nat, n: nat, q: nat, r: nat)
    requires n > 0 && t == q * n + r && r < n
    ensures t / n == q && t % n == r
  {
    var q', r' := t / n, t % n;
    assert t == q' * n + r';
    assert (q' + 1) * n == q' * n + n && (q + 1) * n == q * n + n;
    if q' < q {
      ProductIsMonotone(q' + 1, q, n);
    } else if q < q' {
      ProductIsMonotone(q + 1, q', n);
    }
  }

  lemma Successor(t: nat, n: nat)
    requires n > 0
    ensures (t + 1) / n == (if t % n == n - 1 then t / n + 1 else t / n)
    ensures (t + 1) % n == (if t % n == n - 1 then 0 else t % n + 1)
  {
    var q, r := t / n, t % n;
    assert t == q * n + r;
    if r == n - 1 {
      assert (q + 1) * n == q * n + n;
      Unique(t + 1, n, q + 1, 0);
    } else {
      Unique(t + 1, n, q, r + 1);
    }
  }

  lemma {:induction false} TakenIs(n: nat, target: nat, p: nat)
    requires n > 0 && p < n
    ensures Taken(n, target, p) == target / n + if p < target % n then 1 else 0
  {
    if target == 0 {
      Unique(0, n, 0, 0);
    } else {
      TakenIs(n, target - 1, p);
      Successor(target - 1, n);
    }
  }

  /** Samples are repeated equally often, up to one. */
  lemma RepetitionIsEven(n: nat, target: nat, p: nat, p': nat)
    requires n > 0 && p < n && p' < n
    ensures Taken(n, target, p) <= Taken(n, target, p') + 1
    ensures target >= n ==> Taken(n, target, p) > 0
  {
    TakenIs(n, target, p);
    TakenIs(n, target, p');
    if target / n == 0 {
      ZeroQuotient(target, n);
    }
  }

  lemma ZeroQuotient(t: nat, n: nat)
    requires n > 0 && t / n == 0
    ensures t < n
  {
    Quotient(t, n);
  }

  /** No sample is listed twice. */
  predicate AreDistinct(samples: seq<TextSample>) {
    forall i, j :: 0 <= i < j < |samples| ==> samples[i] != samples[j]
  }

  lemma RemainderIsBelow(t: nat, n: nat)
    requires n > 0
    ensures t % n < n
  {
  }

  lemma ExpandStep(samples: seq<TextSample>, target: nat)
    requires |samples| > 0 && target > 0
    ensures (target - 1) % |samples| < |samples|
    ensures Expand(samples, target) == Expand(samples, target - 1) + [samples[(target - 1) % |samples|]]
  {
    RemainderIsBelow(target - 1, |samples|);
  }

  /** The expanded list has each sample as often as its position is taken. */
  lemma {:induction false} ExpandedCounts(samples: seq<TextSample>, target: nat, p: nat)
    requires p < |samples| && AreDistinct(samples)
    ensures multiset(Expand(samples, target))[samples[p]] == Taken(|samples|, target, p)
  {
    if target == 0 {
      assert Expand(samples, 0) == [];
    } else {
      var q := (target - 1) % |samples|;
      ExpandStep(samples, target);
      ExpandedCounts(samples, target - 1, p);
      assert samples[q] == samples[p] <==> q == p;
    }
  }

  /** So distinct samples are repeated equally often, up to one, and none is left out of a list of their length. */
  lemma ExpansionIsEven(samples: seq<TextSample>, target: nat, p: nat, p': nat)
    requires p < |samples| && p' < |samples| && AreDistinct(samples)
    ensures multiset(Expand(samples, target))[samples[p]] <= multiset(Expand(samples, target))[samples[p']] + 1
    ensures target >= |samples| ==> samples[p] in multiset(Expand(samples, target))
  {
    ExpandedCounts(samples, target, p);
    ExpandedCounts(samples, target, p');
    RepetitionIsEven(|samples|, target, p, p');
  }

  /* ---------- Batches ---------- */

  function TextsOf(samples: seq<TextSample>): (t: seq<string>)
    ensures |t| == |samples| && forall i :: 0 <= i < |t| ==> t[i] == samples[i].text
  {
    seq(|samples|, i requires 0 <= i < |samples| => samples[i].text)
  }

  function Rotated<T>(s: seq<T>, rotation: nat): seq<T> {
    if s == [] then [] else s[rotation % |s|..] + s[..rotation % |s|]
  }

  function Chunks(texts: seq<string>, size: nat, index: nat): seq<seq<string>>
    requires size > 0
    decreases |texts| - index
  {
    if index >= |texts| then []
    else [texts[index..if index + size <= |texts| then index + size else |texts|]] + Chunks(texts, size, index + size)
  }

  function MakeBatches(samples: seq<TextSample>, batchSize: nat, rotation: nat): seq<seq<string>>
    requires batchSize > 0
  {
    Chunks(TextsOf(Rotated(samples, rotation)), batchSize, 0)
  }

  function Flatten(batches: seq<seq<string>>): seq<string> {
    if batches == [] then [] else batches[0] + Flatten(batches[1..])
  }

  lemma FlattenCons(first: seq<string>, rest: seq<seq<string>>)
    ensures Flatten([first] + rest) == first + Flatten(rest)
  {
    assert ([first] + rest)[1..] == rest;
  }

  lemma {:induction false} FlattenChunks(texts: seq<string>, size: nat, index: nat)
    requires size > 0
    ensures Flatten(Chunks(texts, size, index)) == if index <= |texts| then texts[index..] else []
    decreases |texts| - index
  {
    if index < |texts| {
      FlattenChunks(texts, size, index + size);
      var end := if index + size <= |texts| then index + size else |texts|;
      FlattenCons(texts[index..end], Chunks(texts, size, index + size));
      assert texts[index..end] + texts[end..] == texts[index..];
    }
  }

  lemma {:induction false} ChunksAreFull(texts: seq<string>, size: nat, index: nat, n: nat)
    requires size > 0 && index + n * size == |texts|
    ensures |Chunks(texts, size, index)| == n
    ensures forall k :: 0 <= k < n ==> |Chunks(texts, size, index)[k]| == size
    decreases n
  {
    if n > 0 {
      assert (n - 1) * size == n * size - size;
      ProductIsMonotone(0, n - 1, size);
      ChunksAreFull(texts, size, index + size, n - 1);
    } else {
      assert n * size == 0;
    }
  }

  lemma SameWhenRotated<T>(s: seq<T>, o: nat)
    requires o <= |s|
    ensures multiset(s[o..] + s[..o]) == multiset(s)
  {
    assert s[..o] + s[o..] == s;
  }

  lemma RotatedAt(samples: seq<TextSample>, rotation: nat, k: nat)
    requires k < |samples|
    ensures |Rotated(samples, rotation)| == |samples|
    ensures Rotated(samples, rotation)[k] == samples[(rotation + k) % |samples|]
  {
    var n := |samples|;
    var q, o := rotation / n, rotation % n;
    assert rotation == q * n + o;
    if o + k < n {
      Unique(rotation + k, n, q, o + k);
    } else {
      assert (q + 1) * n == q * n + n;
      Unique(rotation + k, n, q + 1, o + k - n);
    }
  }

  /**
   Batches of an expanded list: all full, as many in every rotation, in the order of the cyclic
   shift, and with the same texts in every rotation.
   */
  lemma BatchesAreFair(samples: seq<TextSample>, batchSize: nat, rotation: nat)
    requires batchSize > 0 && |samples| % batchSize == 0
    ensures var batches := MakeBatches(samples, batchSize, rotation);
            && |batches| == |samples| / batchSize
            && (forall k :: 0 <= k < |batches| ==> |batches[k]| == batchSize)
            && |Flatten(batches)| == |samples|
            && (forall k :: 0 <= k < |samples| ==> Flatten(batches)[k] == samples[(rotation + k) % |samples|].text)
            && multiset(Flatten(batches)) == multiset(TextsOf(samples))
  {
    var texts := TextsOf(Rotated(samples, rotation));
    assert |Rotated(samples, rotation)| == |samples|;
    ChunksAreFull(texts, batchSize, 0, |samples| / batchSize);
    FlattenChunks(texts, batchSize, 0);
    assert texts[0..] == texts;
    forall k | 0 <= k < |samples| ensures texts[k] == samples[(rotation + k) % |samples|].text {
      RotatedAt(samples, rotation, k);
    }
    if samples != [] {
      var o := rotation % |samples|;
      assert texts == TextsOf(samples)[o..] + TextsOf(samples)[..o];
      SameWhenRotated(TextsOf(samples), o);
    }
  }

  /* ---------- Word counts do not depend on the rotation ---------- */

  lemma {:induction false} BatchTokensConcat(a: seq<string>, b: seq<string>)
    ensures Trials.BatchTokens(a + b) == Trials.BatchTokens(a) + Trials.BatchTokens(b)
    decreases |b|
  {
    if b == [] {
      assert a + b == a;
    } else {
      assert (a + b)[..|a + b| - 1] == a + b[..|b| - 1];
      BatchTokensConcat(a, b[..|b| - 1]);
    }
  }

  lemma {:induction false} FlattenSnoc(batches: seq<seq<string>>)
    requires batches != []
    ensures Flatten(batches) == Flatten(batches[..|batches| - 1]) + batches[|batches| - 1]
  {
    var init := batches[..|batches| - 1];
    if |batches| == 1 {
      assert batches[1..] == [] && init == [];
    } else {
      FlattenSnoc(batches[1..]);
      assert batches[1..][..|batches| - 2] == init[1..];
      Parts(batches[0], Flatten(init[1..]), batches[|batches| - 1]);
    }
  }

  lemma {:induction false} CountsOfFlat(batches: seq<seq<string>>)
    ensures Trials.WordTokens(batches) == Trials.BatchTokens(Flatten(batches))
    ensures Trials.Texts(batches) == |Flatten(batches)|
  {
    if batches != [] {
      var init := batches[..|batches| - 1];
      CountsOfFlat(init);
      FlattenSnoc(batches);
      BatchTokensConcat(Flatten(init), batches[|batches| - 1]);
    }
  }

  lemma RotatedTokens(texts: seq<string>, o: nat)
    requires o <= |texts|
    ensures Trials.BatchTokens(texts[o..] + texts[..o]) == Trials.BatchTokens(texts)
  {
    assert texts == texts[..o] + texts[o..];
    BatchTokensConcat(texts[o..], texts[..o]);
    BatchTokensConcat(texts[..o], texts[o..]);
  }

  lemma TextsOfRotated(samples: seq<TextSample>, rotation: nat)
    ensures var texts := TextsOf(samples);
            TextsOf(Rotated(samples, rotation)) ==
            if samples == [] then texts else texts[rotation % |samples|..] + texts[..rotation % |samples|]
  {
  }

  lemma RotationKeepsTokens(samples: seq<TextSample>, batchSize: nat, rotation: nat)
    requires batchSize > 0
    ensures Trials.WordTokens(MakeBatches(samples, batchSize, rotation)) == Trials.BatchTokens(TextsOf(samples))
    ensures Trials.Texts(MakeBatches(samples, batchSize, rotation)) == |samples|
  {
    var rotated := TextsOf(Rotated(samples, rotation));
    CountsOfFlat(MakeBatches(samples, batchSize, rotation));
    FlattenChunks(rotated, batchSize, 0);
    assert rotated[0..] == rotated;
    TextsOfRotated(samples, rotation);
    if samples != [] {
      RotatedTokens(TextsOf(samples), rotation % |samples|);
    }
  }

  /* ---------- Pairs of endpoints ---------- */

  datatype Side = Baseline | Candidate

  /** What the endpoint answers to request `i` of a run, and in which order a run's requests complete. */
  datatype Endpoints = Endpoints(
    answer: (Side, nat, nat, seq<string>) -> Result<Trials.Response, Payloads.Error>,
    order: (Side, nat) -> seq<nat>)

  datatype Settings = Settings(batchSize: nat, concurrency: nat, minBatches: nat, warmups: nat, trials: nat,
                               bounds: Payloads.Bounds)

  predicate Acceptable(s: Settings) {
    s.batchSize > 0
  }

  function Expanded(samples: seq<TextSample>, s: Settings): seq<TextSample>
    requires |samples| > 0 && Acceptable(s)
  {
    Expand(samples, Target(|samples|, s.batchSize, s.concurrency, s.minBatches))
  }

  function Answers(ends: Endpoints, side: Side, run: nat, batches: seq<seq<string>>)
    : (r: seq<Result<Trials.Response, Payloads.Error>>)
    ensures |r| == |batches| && forall i :: 0 <= i < |r| ==> r[i] == ends.answer(side, run, i, batches[i])
  {
    seq(|batches|, i requires 0 <= i < |batches| => ends.answer(side, run, i, batches[i]))
  }

  /** In one run, futures complete once each. */
  ghost predicate OrdersAre(ends: Endpoints, run: nat, n: nat) {
    Trials.IsOrder(ends.order(Baseline, run), n) && Trials.IsOrder(ends.order(Candidate, run), n)
  }

  ghost predicate AllOrdersAre(ends: Endpoints, runs: nat, n: nat) {
    forall run :: 0 <= run < runs ==> OrdersAre(ends, run, n)
  }

  /** What one run reports, if it succeeds; batches are those of the run's rotation whatever the endpoint. */
  function RunOf(expanded: seq<TextSample>, s: Settings, ends: Endpoints, side: Side,
                 run: nat): Option<Trials.TrialResult>
    requires Acceptable(s)
  {
    var batches := MakeBatches(expanded, s.batchSize, run);
    var answers := Answers(ends, side, run, batches);
    if Trials.AllAnswered(answers) && Trials.Totals(batches, Trials.Answered(answers), s.bounds).Ok?
    then Some(Trials.Totals(batches, Trials.Answered(answers), s.bounds).value)
    else None
  }

  /** Which endpoint goes first. */
  function OrderOf(index: nat): seq<Side> {
    if index % 2 == 0 then [Baseline, Candidate] else [Candidate, Baseline]
  }

  /** The endpoints of `n` pairs of trials. */
  function Alternating(n: nat): seq<Side> {
    if n == 0 then [] else Alternating(n - 1) + OrderOf(n - 1)
  }

  /** The reports of both endpoints, and which endpoint each was from, in the order in which they came. */
  datatype Results = Results(baseline: seq<Trials.TrialResult>, candidate: seq<Trials.TrialResult>, log: seq<Side>) {
    function Of(side: Side): seq<Trials.TrialResult> {
      match side
      case Baseline => baseline
      case Candidate => candidate
    }
    function Append(side: Side, r: Trials.TrialResult): Results {
      match side
      case Baseline => this.(baseline := baseline + [r], log := log + [side])
      case Candidate => this.(candidate := candidate + [r], log := log + [side])
    }
  }

  type Outcomes = (Side, nat) -> Option<Trials.TrialResult>

  function OutcomesOf(expanded: seq<TextSample>, s: Settings, ends: Endpoints): Outcomes
    requires Acceptable(s)
  {
    (side: Side, run: nat) => RunOf(expanded, s, ends, side, run)
  }

  /** What the outcome of a run stands for: it is needed only where the run's answers are at hand. */
  ghost predicate Describes(outcome: Outcomes, expanded: seq<TextSample>, s: Settings, ends: Endpoints, run: nat)
    requires Acceptable(s)
  {
    forall side, batches: seq<seq<string>> {:trigger Answers(ends, side, run, batches)} ::
      0 <= |batches| ==> outcome(side, run) == RunOf(expanded, s, ends, side, run)
  }

  lemma OutcomesDescribe(expanded: seq<TextSample>, s: Settings, ends: Endpoints)
    requires Acceptable(s)
    ensures forall run {:trigger Describes(OutcomesOf(expanded, s, ends), expanded, s, ends, run)} :: 0 <= run ==>
            Describes(OutcomesOf(expanded, s, ends), expanded, s, ends, run)
  {
  }

  /** The results of the runs from `first` on. */
  ghost predicate AreRuns(outcome: Outcomes, first: nat, n: nat, results: Results) {
    && |results.baseline| == n && |results.candidate| == n && results.log == Alternating(n)
    && (forall i {:trigger results.baseline[i]} :: 0 <= i < n ==>
      outcome(Baseline, first + i) == Some(results.baseline[i]))
    && (forall i {:trigger results.candidate[i]} :: 0 <= i < n ==>
      outcome(Candidate, first + i) == Some(results.candidate[i]))
  }

  ghost predicate BothSucceed(outcome: Outcomes, run: nat) {
    outcome(Baseline, run).Some? && outcome(Candidate, run).Some?
  }

  /** The runs from `first` up to `upto` succeed. */
  ghost predicate AllSucceed(outcome: Outcomes, first: nat, upto: nat) {
    forall run :: first <= run < upto ==> BothSucceed(outcome, run)
  }

  /** One run against one endpoint. */
  method RunOne(expanded: seq<TextSample>, batches: seq<seq<string>>, s: Settings, ends: Endpoints, side: Side,
                run: nat,
                ghost outcome: Outcomes)
    returns (r: Result<Trials.TrialResult, Payloads.Error>)
    requires Acceptable(s) && batches == MakeBatches(expanded, s.batchSize, run)
    requires s.concurrency != 1 ==> OrdersAre(ends, run, |batches|)
    requires Describes(outcome, expanded, s, ends, run)
    ensures r.Ok? <==> outcome(side, run).Some?
    ensures r.Ok? ==> r.value == outcome(side, run).value
  {
    var answers := Answers(ends, side, run, batches);
    r := Trials.ExecuteTrial(batches, answers, s.concurrency, ends.order(side, run), s.bounds);
  }

  /** One run against both endpoints with the same batches, in the order given by `index`. */
  method RunPair(expanded: seq<TextSample>, s: Settings, ends: Endpoints, run: nat, index: nat, results: Results,
                 ghost outcome: Outcomes)
    returns (r: Result<Results, Payloads.Error>)
    requires Acceptable(s) && |expanded| % s.batchSize == 0
    requires s.concurrency != 1 ==> OrdersAre(ends, run, |expanded| / s.batchSize)
    requires Describes(outcome, expanded, s, ends, run)
    ensures r.Ok? <==> BothSucceed(outcome, run)
    ensures r.Ok? ==>
              && r.value.baseline == results.baseline + [outcome(Baseline, run).value]
              && r.value.candidate == results.candidate + [outcome(Candidate, run).value]
              && r.value.log == results.log + OrderOf(index)
  {
    var batches := MakeBatches(expanded, s.batchSize, run);
    BatchesAreFair(expanded, s.batchSize, run);
    var order := OrderOf(index);
    var now := results;
    for i := 0 to 2
      invariant forall j :: 0 <= j < i ==> outcome(order[j], run).Some?
      invariant i == 0 ==> now == results
      invariant now.log == results.log + order[..i]
      invariant i > 0 ==> now.Of(order[0]) == results.Of(order[0]) + [outcome(order[0], run).value]
      invariant i == 1 ==> now.Of(order[1]) == results.Of(order[1])
      invariant i > 1 ==> now.Of(order[1]) == results.Of(order[1]) + [outcome(order[1], run).value]
    {
      var trial := RunOne(expanded, batches, s, ends, order[i], run, outcome);
      match trial
      case Err(e) => return Err(e);
      case Ok(t) => now := now.Append(order[i], t);
    }
    assert order[..2] == order;
    return Ok(now);
  }

  /** The runs from `first` on, `n` of them; the first failing one ends everything. */
  method RunMany(expanded: seq<TextSample>, s: Settings, ends: Endpoints, first: nat, n: nat, ghost outcome: Outcomes)
    returns (r: Result<Results, Payloads.Error>)
    requires Acceptable(s) && |expanded| % s.batchSize == 0
    requires s.concurrency != 1 ==> AllOrdersAre(ends, first + n, |expanded| / s.batchSize)
    requires forall run {:trigger Describes(outcome, expanded, s, ends, run)} :: 0 <= run ==>
             Describes(outcome, expanded, s, ends, run)
    ensures r.Ok? <==> AllSucceed(outcome, first, first + n)
    ensures r.Ok? ==> AreRuns(outcome, first, n, r.value)
  {
    var results := Results([], [], []);
    for i := 0 to n
      invariant AreRuns(outcome, first, i, results)
      invariant AllSucceed(outcome, first, first + i)
    {
      assert s.concurrency != 1 ==> OrdersAre(ends, first + i, |expanded| / s.batchSize);
      var pair := RunPair(expanded, s, ends, first + i, i, results, outcome);
      if pair.Err? {
        assert !BothSucceed(outcome, first + i);
        return Err(pair.error);
      }
      AppendRun(outcome, first, i, results, pair.value);
      results := pair.value;
    }
    return Ok(results);
  }

  lemma AppendRun(outcome: Outcomes, first: nat, n: nat, before: Results, after: Results)
    requires AreRuns(outcome, first, n, before) && AllSucceed(outcome, first, first + n) &&
             BothSucceed(outcome, first + n)
    requires after.baseline == before.baseline + [outcome(Baseline, first + n).value]
    requires after.candidate == before.candidate + [outcome(Candidate, first + n).value]
    requires after.log == before.log + OrderOf(n)
    ensures AreRuns(outcome, first, n + 1, after) && AllSucceed(outcome, first, first + n + 1)
  {
  }

  /**
   `benchmark_pair_scenario`: warm-up runs, then measured ones with the rotation going on. Without
   measured runs there is no median to report.
   */
  method BenchmarkPair(samples: seq<TextSample>, s: Settings, ends: Endpoints)
    returns (r: Result<(Results, Results, seq<seq<Side>>), Payloads.Error>)
    requires |samples| > 0 && Acceptable(s)
    requires s.concurrency != 1 ==> AllOrdersAre(ends, s.warmups + s.trials, |Expanded(samples, s)| / s.batchSize)
    ensures var outcome := OutcomesOf(Expanded(samples, s), s, ends);
            && (r.Ok? <==> s.trials > 0 && AllSucceed(outcome, 0, s.warmups + s.trials))
            && (s.trials == 0 && AllSucceed(outcome, 0, s.warmups) ==> r == Err(Payloads.NothingMeasured))
            && (r.Ok? ==>
                  && AreRuns(outcome, 0, s.warmups, r.value.0)
                  && AreRuns(outcome, s.warmups, s.trials, r.value.1)
                  && |r.value.2| == s.trials && forall t :: 0 <= t < s.trials ==> r.value.2[t] == OrderOf(t))
  {
    var expanded := Expanded(samples, s);
    ghost var outcome := OutcomesOf(expanded, s, ends);
    ExpandedIsFair(samples, s, 0);
    OutcomesDescribe(expanded, s, ends);
    var warm := RunMany(expanded, s, ends, 0, s.warmups, outcome);
    if warm.Err? {
      return Err(warm.error);
    }
    var measured := RunMany(expanded, s, ends, s.warmups, s.trials, outcome);
    if measured.Err? {
      return Err(measured.error);
    }
    if s.trials == 0 {
      return Err(Payloads.NothingMeasured);
    }
    return Ok((warm.value, measured.value, seq(s.trials, (t: nat) => OrderOf(t))));
  }

  /** The expanded list meets the demand of `BatchesAreFair`, so every run has as many batches as the first. */
  lemma ExpandedIsFair(samples: seq<TextSample>, s: Settings, run: nat)
    requires |samples| > 0 && Acceptable(s)
    ensures |Expanded(samples, s)| % s.batchSize == 0 && |Expanded(samples, s)| >= |samples|
    ensures |MakeBatches(Expanded(samples, s), s.batchSize, run)| == |Expanded(samples, s)| / s.batchSize
  {
    TargetIsLeast(|samples|, s.batchSize, s.concurrency, s.minBatches, 0);
    BatchesAreFair(Expanded(samples, s), s.batchSize, run);
  }

  /** Where batch `i` starts. */
  function Offset(i: nat, size: nat): nat {
    i * size
  }

  lemma NextOffset(i: nat, size: nat)
    requires i > 0
    ensures Offset(i, size) == size + Offset(i - 1, size)
  {
  }

  lemma OffsetsFit(i: nat, n: nat, size: nat)
    requires i < n
    ensures Offset(i, size) + size <= Offset(n, size)
  {
    NextOffset(i + 1, size);
    ProductIsMonotone(i + 1, n, size);
  }

  /** Batch `i` of a run: the texts of so many samples, from where the run's rotation puts it, round the list. */
  function BatchAt(expanded: seq<TextSample>, size: nat, run: nat, i: nat): (batch: seq<string>)
    requires |expanded| > 0
    ensures |batch| == size
    ensures forall k :: 0 <= k < size ==> batch[k] == expanded[(run + (Offset(i, size) + k)) % |expanded|].text
  {
    seq(size, k requires 0 <= k => expanded[(run + (Offset(i, size) + k)) % |expanded|].text)
  }

  lemma {:induction false} ChunkAt(texts: seq<string>, size: nat, index: nat, i: nat)
    requires size > 0 && index + Offset(i, size) + size <= |texts|
    ensures i < |Chunks(texts, size, index)|
    ensures Chunks(texts, size, index)[i] == texts[index + Offset(i, size)..index + Offset(i, size) + size]
    decreases i
  {
    if i == 0 {
      assert Offset(0, size) == 0;
    } else {
      NextOffset(i, size);
      ChunkAt(texts, size, index + size, i - 1);
    }
  }

  /** The batches of a run are those, one after the other. */
  lemma BatchesAre(expanded: seq<TextSample>, size: nat, run: nat, i: nat)
    requires size > 0 && |expanded| % size == 0 && i < |expanded| / size
    ensures |MakeBatches(expanded, size, run)| == |expanded| / size
    ensures |expanded| > 0 && MakeBatches(expanded, size, run)[i] == BatchAt(expanded, size, run, i)
  {
    var texts := TextsOf(Rotated(expanded, run));
    BatchesAreFair(expanded, size, run);
    Quotient(|expanded|, size);
    OffsetsFit(i, |expanded| / size, size);
    var at := Offset(i, size);
    assert |texts| == |expanded| && at + size <= |texts|;
    ChunkAt(texts, size, 0, i);
    SliceIsBatch(expanded, texts, size, run, i, at);
  }

  lemma SliceIsBatch(expanded: seq<TextSample>, texts: seq<string>, size: nat, run: nat, i: nat, at: nat)
    requires texts == TextsOf(Rotated(expanded, run)) && |texts| == |expanded| > 0
    requires at == Offset(i, size) && at + size <= |texts|
    ensures texts[at..at + size] == BatchAt(expanded, size, run, i)
  {
    var batch := texts[at..at + size];
    forall k | 0 <= k < size ensures batch[k] == BatchAt(expanded, size, run, i)[k] {
      RotatedAt(expanded, run, at + k);
    }
  }

  /** What the endpoint answers to the requests of a run, each with the batch that the run's rotation puts there. */
  function Asked(expanded: seq<TextSample>, size: nat, ends: Endpoints, side: Side, run: nat)
    : seq<Result<Trials.Response, Payloads.Error>>
    requires size > 0 && |expanded| > 0
  {
    seq(|expanded| / size, i requires 0 <= i < |expanded| / size =>
      ends.answer(side, run, i, BatchAt(expanded, size, run, i)))
  }

  lemma AnswersAre(expanded: seq<TextSample>, size: nat, ends: Endpoints, side: Side, run: nat)
    requires size > 0 && |expanded| > 0 && |expanded| % size == 0
    ensures Answers(ends, side, run, MakeBatches(expanded, size, run)) == Asked(expanded, size, ends, side, run)
  {
    BatchesAreFair(expanded, size, run);
    var batches, asked := MakeBatches(expanded, size, run), Asked(expanded, size, ends, side, run);
    forall i | 0 <= i < |batches| ensures Answers(ends, side, run, batches)[i] == asked[i] {
      BatchesAre(expanded, size, run, i);
    }
  }

  /** The request was answered with an acceptable payload for a full batch. */
  ghost predicate IsGood(s: Settings, answer: Result<Trials.Response, Payloads.Error>) {
    answer.Ok? && Payloads.IsAcceptable(answer.value.embeddings, s.batchSize, s.bounds)
  }

  lemma TrialOfAnswers(s: Settings, batches: seq<seq<string>>, answers: seq<Result<Trials.Response, Payloads.Error>>)
    requires |answers| == |batches| && forall i :: 0 <= i < |batches| ==> |batches[i]| == s.batchSize
    ensures Trials.AllAnswered(answers) && Trials.Totals(batches, Trials.Answered(answers), s.bounds).Ok? <==>
            forall i :: 0 <= i < |answers| ==> IsGood(s, answers[i])
  {
    if Trials.AllAnswered(answers) {
      Trials.TrialSucceedsExactly(batches, Trials.Answered(answers), s.bounds);
    }
  }

  lemma ReportOfAnswers(s: Settings, batches: seq<seq<string>>, answers: seq<Result<Trials.Response, Payloads.Error>>)
    requires |answers| == |batches| && Trials.AllAnswered(answers)
    requires Trials.Totals(batches, Trials.Answered(answers), s.bounds).Ok?
    ensures var t := Trials.Totals(batches, Trials.Answered(answers), s.bounds).value;
            && t.texts == Trials.Texts(batches) && t.wordTokens == Trials.WordTokens(batches)
            && |t.requestSeconds| == |answers|
            && forall i :: 0 <= i < |answers| ==> t.requestSeconds[i] == answers[i].value.seconds
  {
    TakeAll(Trials.Answered(answers));
    TakeAll(batches);
    Trials.TrialCounts(batches, Trials.Answered(answers), s.bounds, |batches|);
  }

  /**
   A run succeeds if and only if the endpoint answers every request, with the batch that the rotation
   of this run puts there, by an acceptable payload.
   */
  lemma RunSucceedsExactly(expanded: seq<TextSample>, s: Settings, ends: Endpoints, side: Side, run: nat)
    requires Acceptable(s) && |expanded| > 0 && |expanded| % s.batchSize == 0
    ensures RunOf(expanded, s, ends, side, run).Some? <==>
            forall i :: 0 <= i < |Asked(expanded, s.batchSize, ends, side, run)| ==>
              IsGood(s, Asked(expanded, s.batchSize, ends, side, run)[i])
  {
    var batches := MakeBatches(expanded, s.batchSize, run);
    BatchesAreFair(expanded, s.batchSize, run);
    AnswersAre(expanded, s.batchSize, ends, side, run);
    TrialOfAnswers(s, batches, Answers(ends, side, run, batches));
  }

  /**
   Every successful run of either endpoint reports the same number of texts and of words, and for
   each request the time that this endpoint took for it in this run.
   */
  lemma RunsAreComparable(expanded: seq<TextSample>, s: Settings, ends: Endpoints, side: Side, run: nat)
    requires Acceptable(s) && |expanded| > 0 && |expanded| % s.batchSize == 0
    requires RunOf(expanded, s, ends, side, run).Some?
    ensures var t := RunOf(expanded, s, ends, side, run).value;
            var asked := Asked(expanded, s.batchSize, ends, side, run);
            && t.texts == |expanded|
            && t.wordTokens == Trials.BatchTokens(TextsOf(expanded))
            && |t.requestSeconds| == |asked| == |expanded| / s.batchSize
            && forall i :: 0 <= i < |asked| ==> asked[i].Ok? && t.requestSeconds[i] == asked[i].value.seconds
  {
    var batches := MakeBatches(expanded, s.batchSize, run);
    ReportOfAnswers(s, batches, Answers(ends, side, run, batches));
    RotationKeepsTokens(expanded, s.batchSize, run);
    BatchesAreFair(expanded, s.batchSize, run);
    AnswersAre(expanded, s.batchSize, ends, side, run);
  }

  /** How many of the first `n` trials `side` starts. */
  function Starts(side: Side, n: nat): nat {
    if n == 0 then 0 else Starts(side, n - 1) + if OrderOf(n - 1)[0] == side then 1 else 0
  }

  /** Each endpoint goes first equally often, up to one. */
  lemma {:induction false} StartsAreFair(n: nat)
    ensures Starts(Baseline, n) + Starts(Candidate, n) == n
    ensures Starts(Candidate, n) <= Starts(Baseline, n) <= Starts(Candidate, n) + 1
    ensures n % 2 == 0 ==> Starts(Baseline, n) == Starts(Candidate, n)
  {
    if n == 1 {
      StartsAreFair(0);
    } else if n > 1 {
      StartsAreFair(n - 2);
    }
  }
}
