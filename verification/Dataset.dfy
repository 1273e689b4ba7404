/**
 The generated benchmark texts (`generate_legal_dataset` of
 `compose/accelerated/bench_embed.py`): filler words walk through the vocabulary with a
 full period, texts have the requested number of words, and no two samples are alike.
 The vocabulary and the random draws are parameters.
 */
module Dataset {
  import opened Wrappers
  import opened Numbers
  import opened Sequences
  import opened Decimals
  import opened Text
  import opened Words

  const VOCABULARY := 64

  datatype BucketSpec = BucketSpec(name: string, wordTokens: int)

  datatype TextSample = TextSample(sampleId: string, bucket: string, wordTokens: int, text: string)

  /** One sample's draws. The source takes the offset below 64 and the half below 32; nothing here needs that. */
  datatype Draw = Draw(offset: nat, half: nat)

  function Stride(d: Draw): nat {
    1 + 2 * d.half
  }

  /** The vocabulary index at a filler position. */
  function WordIndex(d: Draw, position: nat): (i: nat)
    ensures i < VOCABULARY
  {
    (d.offset + position * Stride(d)) % VOCABULARY
  }

  function FirstWord(bucketIndex: nat, sampleIndex: nat): string {
    "section-" + Show(bucketIndex + 1) + "-" + Show(sampleIndex + 1)
  }

  /** The words of one sample after the filler loop has made `n` of them. */
  function SampleWords(words: seq<string>, d: Draw, bucketIndex: nat, sampleIndex: nat, n: nat): seq<string>
    requires |words| == VOCABULARY && n > 0
  {
    if n == 1 then [FirstWord(bucketIndex, sampleIndex)]
    else SampleWords(words, d, bucketIndex, sampleIndex, n - 1) + [words[WordIndex(d, n - 2)]]
  }

  function SampleOf(words: seq<string>, spec: BucketSpec, d: Draw, bucketIndex: nat, sampleIndex: nat): TextSample
    requires |words| == VOCABULARY && spec.wordTokens > 0
  {
    TextSample(spec.name + "-" + Pad(sampleIndex, 4), spec.name, spec.wordTokens,
               JoinWords(SampleWords(words, d, bucketIndex, sampleIndex, spec.wordTokens)))
  }

  datatype Error = NotPositive | LengthDrifted

  predicate IsVocabulary(words: seq<string>) {
    |words| == VOCABULARY && AreTokens(words)
  }

  /** The draws for sample `i` of bucket `b`. */
  type Draws = (nat, nat) -> Draw

  /** The first `n` samples of bucket `b`. */
  function BucketSamples(words: seq<string>, spec: BucketSpec, draws: Draws, b: nat, n: nat): seq<TextSample>
    requires |words| == VOCABULARY && (n > 0 ==> spec.wordTokens > 0)
  {
    if n == 0 then []
    else BucketSamples(words, spec, draws, b, n - 1) + [SampleOf(words, spec, draws(b, n - 1), b, n - 1)]
  }

  predicate ArePositive(specs: seq<BucketSpec>) {
    forall b :: 0 <= b < |specs| ==> specs[b].wordTokens > 0
  }

  /** The samples of the first `n` buckets. */
  function AllSamples(words: seq<string>, specs: seq<BucketSpec>, perBucket: nat, draws: Draws, n: nat): seq<TextSample>
    requires |words| == VOCABULARY && n <= |specs| && ArePositive(specs[..n])
  {
    if n == 0 then []
    else
      assert specs[..n][n - 1] == specs[n - 1] && specs[..n][..n - 1] == specs[..n - 1];
      AllSamples(words, specs, perBucket, draws, n - 1) + BucketSamples(words, specs[n - 1], draws, n - 1, perBucket)
  }

  /* ---------- The generator ---------- */

  /**
   One sample. A bucket of no positive length makes the source's own length check fail, as the
   first word alone is too long.
   */
  method WriteSample(words: seq<string>, bucket: BucketSpec, draw: Draw, bucketIndex: nat, sampleIndex: nat)
    returns (r: Result<TextSample, Error>)
    requires IsVocabulary(words)
    ensures bucket.wordTokens <= 0 ==> r == Err(LengthDrifted)
    ensures bucket.wordTokens > 0 ==> r == Ok(SampleOf(words, bucket, draw, bucketIndex, sampleIndex))
  {
    var sampleWords := ["section-" + Show(bucketIndex + 1) + "-" + Show(sampleIndex + 1)];
    var stride := 1 + 2 * draw.half;
    while |sampleWords| < bucket.wordTokens
      invariant |sampleWords| > 0 && (bucket.wordTokens > 0 ==> |sampleWords| <= bucket.wordTokens)
      invariant sampleWords == SampleWords(words, draw, bucketIndex, sampleIndex, |sampleWords|)
      decreases bucket.wordTokens - |sampleWords|
    {
      var position := |sampleWords| - 1;
      sampleWords := sampleWords + [words[(draw.offset + position * stride) % |words|]];
    }
    var text := JoinWords(sampleWords);
    SampleHasItsLength(words, draw, bucketIndex, sampleIndex, |sampleWords|);
    if |SplitWords(text)| != bucket.wordTokens {
      return Err(LengthDrifted);
    }
    return Ok(TextSample(bucket.name + "-" + Pad(sampleIndex, 4), bucket.name, bucket.wordTokens, text));
  }

  /** `generate_legal_dataset`. */
  method Generate(words: seq<string>, specs: seq<BucketSpec>, textsPerBucket: int, draws: Draws)
    returns (r: Result<seq<TextSample>, Error>)
    requires IsVocabulary(words)
    ensures textsPerBucket <= 0 <==> r == Err(NotPositive)
    ensures textsPerBucket > 0 ==> (ArePositive(specs) <==> r.Ok?)
    ensures r.Ok? ==>
              && ArePositive(specs[..|specs|])
              && r.value == AllSamples(words, specs, textsPerBucket, draws, |specs|)
  {
    if textsPerBucket <= 0 {
      return Err(NotPositive);
    }
    var samples: seq<TextSample> := [];
    for bucketIndex := 0 to |specs|
      invariant ArePositive(specs[..bucketIndex])
      invariant samples == AllSamples(words, specs, textsPerBucket, draws, bucketIndex)
    {
      var bucket := specs[bucketIndex];
      ghost var before := samples;
      for sampleIndex := 0 to textsPerBucket
        invariant sampleIndex > 0 ==> bucket.wordTokens > 0
        invariant samples == before + BucketSamples(words, bucket, draws, bucketIndex, sampleIndex)
      {
        var sample := WriteSample(words, bucket, draws(bucketIndex, sampleIndex), bucketIndex, sampleIndex);
        if sample.Err? {
          return Err(LengthDrifted);
        }
        Parts(before, BucketSamples(words, bucket, draws, bucketIndex, sampleIndex), [sample.value]);
        samples := samples + [sample.value];
      }
      TakeOne(specs, bucketIndex);
    }
    TakeAll(specs);
    return Ok(samples);
  }

  /* ---------- Lengths ---------- */

  lemma {:induction false} ShownIsToken(s: string)
    requires AreDigits(s)
    ensures forall i :: 0 <= i < |s| ==> !IsSpace(s[i])
  {
  }

  lemma FirstWordIsToken(b: nat, i: nat)
    ensures IsToken(FirstWord(b, i))
  {
    ShownIsToken(Show(b + 1));
    ShownIsToken(Show(i + 1));
    assert forall k :: 0 <= k < |"section-"| ==> !IsSpace("section-"[k]);
    assert !IsSpace('-');
  }

  lemma {:induction false} SampleWordsAreTokens(words: seq<string>, d: Draw, b: nat, i: nat, n: nat)
    requires IsVocabulary(words) && n > 0
    ensures |SampleWords(words, d, b, i, n)| == n && AreTokens(SampleWords(words, d, b, i, n))
    ensures SampleWords(words, d, b, i, n)[0] == FirstWord(b, i)
    ensures forall k :: 1 <= k < n ==> SampleWords(words, d, b, i, n)[k] == words[WordIndex(d, k - 1)]
  {
    FirstWordIsToken(b, i);
    if n > 1 {
      SampleWordsAreTokens(words, d, b, i, n - 1);
    }
  }

  /** Every text has exactly the requested number of words. */
  lemma SampleHasItsLength(words: seq<string>, d: Draw, b: nat, i: nat, n: nat)
    requires IsVocabulary(words) && n > 0
    ensures SplitWords(JoinWords(SampleWords(words, d, b, i, n))) == SampleWords(words, d, b, i, n)
    ensures |SampleWords(words, d, b, i, n)| == n
  {
    SampleWordsAreTokens(words, d, b, i, n);
    SplitJoined(IsSpace, SampleWords(words, d, b, i, n));
  }

  /* ---------- Distinct samples ---------- */

  lemma FirstWordIsInjective(b: nat, i: nat, b': nat, i': nat)
    requires FirstWord(b, i) == FirstWord(b', i')
    ensures b == b' && i == i'
  {
    var x, y := Show(b + 1) + "-" + Show(i + 1), Show(b' + 1) + "-" + Show(i' + 1);
    assert FirstWord(b, i) == "section-" + x && FirstWord(b', i') == "section-" + y;
    assert ("section-" + x)[8..] == x && ("section-" + y)[8..] == y;
    DigitsEndAtSeparator(Show(b + 1), Show(i + 1), Show(b' + 1), Show(i' + 1), '-');
    ShowIsInjective(b + 1, b' + 1);
    ShowIsInjective(i + 1, i' + 1);
  }

  /** Samples at different places have different texts. */
  lemma TextsDiffer(words: seq<string>, d: Draw, b: nat, i: nat, n: nat, d': Draw, b': nat, i': nat, n': nat)
    requires IsVocabulary(words) && n > 0 && n' > 0
    requires JoinWords(SampleWords(words, d, b, i, n)) == JoinWords(SampleWords(words, d', b', i', n'))
    ensures b == b' && i == i'
  {
    SampleHasItsLength(words, d, b, i, n);
    SampleHasItsLength(words, d', b', i', n');
    SampleWordsAreTokens(words, d, b, i, n);
    SampleWordsAreTokens(words, d', b', i', n');
    FirstWordIsInjective(b, i, b', i');
  }

  predicate DistinctNames(specs: seq<BucketSpec>) {
    forall i, j :: 0 <= i < j < |specs| ==> specs[i].name != specs[j].name
  }

  /** Samples at different places share neither id nor text. */
  lemma SamplesDiffer(words: seq<string>, specs: seq<BucketSpec>, draws: Draws, b: nat, i: nat, b': nat, i': nat)
    requires IsVocabulary(words) && DistinctNames(specs)
    requires b < |specs| && b' < |specs| && specs[b].wordTokens > 0 && specs[b'].wordTokens > 0
    requires b != b' || i != i'
    ensures var s, s' := SampleOf(words, specs[b], draws(b, i), b, i),
            SampleOf(words, specs[b'], draws(b', i'), b', i');
            s.sampleId != s'.sampleId && s.text != s'.text
  {
    var s, s' := SampleOf(words, specs[b], draws(b, i), b, i), SampleOf(words, specs[b'], draws(b', i'), b', i');
    if s.sampleId == s'.sampleId {
      DigitsStartAtSeparator(specs[b].name, Pad(i, 4), specs[b'].name, Pad(i', 4), '-');
      PadIsInjective(i, i', 4);
    }
    if s.text == s'.text {
      TextsDiffer(words, draws(b, i), b, i, specs[b].wordTokens, draws(b', i'), b', i', specs[b'].wordTokens);
    }
  }

  /** The sample is the one at some place in the first `n` buckets. */
  ghost predicate IsAt(words: seq<string>, specs: seq<BucketSpec>, draws: Draws, s: TextSample, b: nat, i: nat)
    requires |words| == VOCABULARY
  {
    b < |specs| && specs[b].wordTokens > 0 && s == SampleOf(words, specs[b], draws(b, i), b, i)
  }

  lemma {:induction false} InBucket(words: seq<string>, specs: seq<BucketSpec>, draws: Draws, b: nat, n: nat, k: nat)
    requires |words| == VOCABULARY && b < |specs| && specs[b].wordTokens > 0 && k < n
    ensures |BucketSamples(words, specs[b], draws, b, n)| == n
    ensures IsAt(words, specs, draws, BucketSamples(words, specs[b], draws, b, n)[k], b, k)
  {
    BucketLength(words, specs[b], draws, b, n - 1);
    if k < n - 1 {
      InBucket(words, specs, draws, b, n - 1, k);
    }
  }

  lemma {:induction false} BucketLength(words: seq<string>, spec: BucketSpec, draws: Draws, b: nat, n: nat)
    requires |words| == VOCABULARY && spec.wordTokens > 0
    ensures |BucketSamples(words, spec, draws, b, n)| == n
  {
    if n > 0 {
      BucketLength(words, spec, draws, b, n - 1);
    }
  }

  /** Where sample number `k` comes from. */
  lemma {:induction false} PlaceOf(words: seq<string>, specs: seq<BucketSpec>, perBucket: nat, draws: Draws, n: nat,
                                   k: nat)
    returns (b: nat, i: nat)
    requires IsVocabulary(words) && n <= |specs| && ArePositive(specs[..n])
    requires k < |AllSamples(words, specs, perBucket, draws, n)|
    ensures b < n && i < perBucket && k == b * perBucket + i
    ensures IsAt(words, specs, draws, AllSamples(words, specs, perBucket, draws, n)[k], b, i)
  {
    TakeOne(specs, n - 1);
    assert specs[..n][n - 1] == specs[n - 1];
    AllLength(words, specs, perBucket, draws, n - 1);
    BucketLength(words, specs[n - 1], draws, n - 1, perBucket);
    if k < |AllSamples(words, specs, perBucket, draws, n - 1)| {
      b, i := PlaceOf(words, specs, perBucket, draws, n - 1, k);
    } else {
      b, i := n - 1, k - |AllSamples(words, specs, perBucket, draws, n - 1)|;
      InBucket(words, specs, draws, b, perBucket, i);
    }
  }

  lemma NextProduct(n: nat, m: nat)
    requires n > 0
    ensures n * m == (n - 1) * m + m
  {
  }

  lemma {:induction false} AllLength(words: seq<string>, specs: seq<BucketSpec>, perBucket: nat, draws: Draws, n: nat)
    requires IsVocabulary(words) && n <= |specs| && ArePositive(specs[..n])
    ensures |AllSamples(words, specs, perBucket, draws, n)| == n * perBucket
  {
    if n > 0 {
      TakeOne(specs, n - 1);
      assert specs[..n][n - 1] == specs[n - 1];
      AllLength(words, specs, perBucket, draws, n - 1);
      BucketLength(words, specs[n - 1], draws, n - 1, perBucket);
      NextProduct(n, perBucket);
    }
  }

  /** No two samples of the data set share an id or a text. */
  lemma SamplesAreDistinct(words: seq<string>, specs: seq<BucketSpec>, perBucket: nat, draws: Draws, k: nat, k': nat)
    requires IsVocabulary(words) && DistinctNames(specs) && ArePositive(specs[..|specs|])
    requires k < k' < |AllSamples(words, specs, perBucket, draws, |specs|)|
    ensures var all := AllSamples(words, specs, perBucket, draws, |specs|);
            all[k].sampleId != all[k'].sampleId && all[k].text != all[k'].text
  {
    var b, i := PlaceOf(words, specs, perBucket, draws, |specs|, k);
    var b', i' := PlaceOf(words, specs, perBucket, draws, |specs|, k');
    SamplesDiffer(words, specs, draws, b, i, b', i');
  }

  /* ---------- The full-period walk ---------- */

  /** `d` can be halved `n` times. */
  predicate Halves(d: nat, n: nat) {
    n == 0 || (d % 2 == 0 && Halves(d / 2, n - 1))
  }

  lemma {:induction false} MultipleHalves(k: nat, n: nat)
    ensures Halves(Power(2, n) * k, n)
  {
    if n > 0 {
      Doubled(Power(2, n - 1), k);
      MultipleHalves(k, n - 1);
    }
  }

  lemma Doubled(a: nat, k: nat)
    ensures (2 * a) * k % 2 == 0 && (2 * a) * k / 2 == a * k
  {
    assert (2 * a) * k == 2 * (a * k);
  }

  lemma {:induction false} HalvesIsLarge(d: nat, n: nat)
    requires d > 0 && Halves(d, n)
    ensures d >= Power(2, n)
  {
    if n > 0 {
      HalvesIsLarge(d / 2, n - 1);
    }
  }

  lemma SixthPower()
    ensures Power(2, 6) == VOCABULARY
  {
    assert Power(2, 3) == 8;
  }

  /** An odd factor contributes no factor of two. */
  lemma {:induction false} OddFactor(d: nat, odd: nat, n: nat)
    requires odd % 2 == 1 && Halves(d * odd, n)
    ensures Halves(d, n)
  {
    if n > 0 {
      EvenProduct(d, odd);
      var e := d / 2;
      assert d * odd == 2 * (e * odd) by { assert d == 2 * e; assert (2 * e) * odd == 2 * (e * odd); }
      OddFactor(e, odd, n - 1);
    }
  }

  lemma OddTimesOdd(a: nat, b: nat)
    requires a % 2 == 1 && b % 2 == 1
    ensures (a * b) % 2 == 1
  {
    var x, y := a / 2, b / 2;
    assert a == 2 * x + 1 && b == 2 * y + 1;
    assert (2 * x + 1) * (2 * y + 1) == 2 * (2 * (x * y) + x + y) + 1;
  }

  lemma EvenProduct(a: nat, b: nat)
    requires b % 2 == 1 && (a * b) % 2 == 0
    ensures a % 2 == 0
  {
    if a % 2 == 1 {
      OddTimesOdd(a, b);
    }
  }

  lemma Spread(offset: nat, i: nat, j: nat, stride: nat)
    ensures (offset + j * stride) - (offset + i * stride) == (j - i) * stride
  {
  }

  lemma MoreIsMore(i: nat, stride: nat)
    ensures i * stride >= 0
  {
  }

  /** Positions less than 64 apart hit different words. */
  lemma PositionsDiffer(d: Draw, i: nat, j: nat)
    requires i < j < i + VOCABULARY
    ensures WordIndex(d, i) != WordIndex(d, j)
  {
    var stride := Stride(d);
    var a, b := d.offset + i * stride, d.offset + j * stride;
    Spread(d.offset, i, j, stride);
    if a % VOCABULARY == b % VOCABULARY {
      MoreIsMore(j - i, stride);
      SixthPower();
      MultipleHalves(b / VOCABULARY - a / VOCABULARY, 6);
      OddFactor(j - i, stride, 6);
      HalvesIsLarge(j - i, 6);
    }
  }

  function Below(n: nat): (s: set<nat>)
    ensures |s| == n && forall x: nat :: x in s <==> x < n
  {
    if n == 0 then {} else Below(n - 1) + {n - 1}
  }

  lemma {:induction false} SameSize(a: set<nat>, b: set<nat>)
    requires a <= b && |a| == |b|
    ensures a == b
  {
    if a == {} {
      assert b == {};
    } else {
      var x :| x in a;
      assert a == (a - {x}) + {x} && b == (b - {x}) + {x};
      SameSize(a - {x}, b - {x});
    }
  }

  /** The words that a walk hits at the positions from `start` up to `start + n`. */
  function Hits(walk: nat -> nat, start: nat, n: nat): set<nat> {
    if n == 0 then {} else Hits(walk, start, n - 1) + {walk(start + n - 1)}
  }

  /** A word that is hit is hit at some position. */
  lemma {:induction false} HitAt(walk: nat -> nat, start: nat, n: nat, w: nat) returns (i: nat)
    requires w in Hits(walk, start, n)
    ensures start <= i < start + n && walk(i) == w
  {
    if w == walk(start + n - 1) {
      i := start + n - 1;
    } else {
      i := HitAt(walk, start, n - 1, w);
    }
  }

  /** A walk that repeats nothing hits as many words as it has positions. */
  lemma {:induction false} HitsCount(walk: nat -> nat, start: nat, n: nat)
    requires forall i, j :: start <= i < j < start + n ==> walk(i) != walk(j)
    ensures |Hits(walk, start, n)| == n
  {
    if n > 0 {
      HitsCount(walk, start, n - 1);
      if walk(start + n - 1) in Hits(walk, start, n - 1) {
        var i := HitAt(walk, start, n - 1, walk(start + n - 1));
      }
    }
  }

  lemma {:induction false} HitsStayBelow(walk: nat -> nat, start: nat, n: nat, bound: nat)
    requires forall i :: start <= i < start + n ==> walk(i) < bound
    ensures Hits(walk, start, n) <= Below(bound)
  {
    if n > 0 {
      HitsStayBelow(walk, start, n - 1, bound);
      assert walk(start + n - 1) in Below(bound);
    }
  }

  /** Any 64 consecutive positions hit each word of the vocabulary exactly once. */
  lemma WalkHasFullPeriod(d: Draw, start: nat, w: nat) returns (i: nat)
    requires w < VOCABULARY
    ensures start <= i < start + VOCABULARY && WordIndex(d, i) == w
    ensures forall j :: start <= j < start + VOCABULARY && WordIndex(d, j) == w ==> j == i
  {
    var walk := (position: nat) => WordIndex(d, position);
    forall i, j | start <= i < j < start + VOCABULARY ensures walk(i) != walk(j) {
      PositionsDiffer(d, i, j);
    }
    i := HitOnce(walk, start, w);
    forall j | start <= j < start + VOCABULARY && WordIndex(d, j) == w ensures j == i {
      assert walk(j) == w;
    }
  }

  /** A walk through the vocabulary without repetition in 64 steps hits each word once. */
  lemma HitOnce(walk: nat -> nat, start: nat, w: nat) returns (i: nat)
    requires w < VOCABULARY
    requires forall i :: start <= i < start + VOCABULARY ==> walk(i) < VOCABULARY
    requires forall i, j :: start <= i < j < start + VOCABULARY ==> walk(i) != walk(j)
    ensures start <= i < start + VOCABULARY && walk(i) == w
    ensures forall j :: start <= j < start + VOCABULARY && walk(j) == w ==> j == i
  {
    HitsCount(walk, start, VOCABULARY);
    HitsStayBelow(walk, start, VOCABULARY, VOCABULARY);
    SameSize(Hits(walk, start, VOCABULARY), Below(VOCABULARY));
    assert w in Below(VOCABULARY);
    i := HitAt(walk, start, VOCABULARY, w);
  }
}
