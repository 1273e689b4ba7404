/**
 Validation of one response (`validate_embedding_payload` of `compose/accelerated/bench_embed.py`):
 which payloads are accepted, what is measured of them, and which error the others give. Norms are
 compared by their squares.
 */
module Payloads {
  import opened Wrappers
  import opened Sequences
  import opened Norms

  /** A value of a JSON response, as far as validation tells values apart. */
  datatype Json = Finite(x: real) | NonFinite | NotNumeric | Array(items: seq<Json>)

  datatype Error =
    | RequestFailed | NoEmbeddings | WrongCount
    | RowNotArray | WrongDimension | ValueNotNumeric | ValueNotFinite | NormOutside
    | NothingMeasured

  datatype Bounds = Bounds(dimension: nat, minNorm: real, maxNorm: real)

  datatype Summary = Summary(count: nat, minSquare: real, maxSquare: real, wrapped: nat)

  /* ---------- Validation of one payload ---------- */

  /** A row, unwrapped if it is a list with one list in it. */
  function Unwrapped(row: Json): Json
    requires row.Array?
  {
    if |row.items| == 1 && row.items[0].Array? then row.items[0] else row
  }

  function IsWrapped(row: Json): nat
    requires row.Array?
  {
    if |row.items| == 1 && row.items[0].Array? then 1 else 0
  }

  function Square(x: real): real {
    x * x
  }

  /** The sum of squares of the values, or the first value that is no finite number. */
  function SquareSum(items: seq<Json>): Result<real, Error> {
    if items == [] then Ok(0.0)
    else
      match SquareSum(items[..|items| - 1])
      case Err(e) => Err(e)
      case Ok(sum) =>
        match items[|items| - 1]
        case Finite(x) => Ok(sum + Square(x))
        case NonFinite => Err(ValueNotFinite)
        case _ => Err(ValueNotNumeric)
  }

  /** The squared norm of one valid row. */
  function RowSquare(row: Json, bounds: Bounds): Result<real, Error> {
    if !row.Array? then Err(RowNotArray)
    else if |Unwrapped(row).items| != bounds.dimension then Err(WrongDimension)
    else
      match SquareSum(Unwrapped(row).items)
      case Err(e) => Err(e)
      case Ok(square) =>
        if square < Square(bounds.minNorm) || square > Square(bounds.maxNorm) then Err(NormOutside)
        else Ok(square)
  }

  /** The rows, in order: the first invalid row is the error. */
  function RowsSummary(rows: seq<Json>, bounds: Bounds): Result<Summary, Error> {
    if rows == [] then Ok(Summary(0, 0.0, 0.0, 0))
    else
      match RowsSummary(rows[..|rows| - 1], bounds)
      case Err(e) => Err(e)
      case Ok(s) =>
        var row := rows[|rows| - 1];
        match RowSquare(row, bounds)
        case Err(e) => Err(e)
        case Ok(square) =>
          Ok(Summary(s.count + 1,
                     if s.count == 0 || square < s.minSquare then square else s.minSquare,
                     if s.count == 0 || square > s.maxSquare then square else s.maxSquare,
                     s.wrapped + IsWrapped(row)))
  }

  /** `validate_embedding_payload`, without the vectors and the mean. */
  function Validate(embeddings: Json, expectedCount: nat, bounds: Bounds): Result<Summary, Error> {
    if !embeddings.Array? then Err(NoEmbeddings)
    else if |embeddings.items| != expectedCount then Err(WrongCount)
    else
      match RowsSummary(embeddings.items, bounds)
      case Err(e) => Err(e)
      case Ok(s) => if s.count == 0 then Err(NoEmbeddings) else Ok(s)
  }

  /** The loop over the values of one row. */
  method ValidateRow(row: Json, bounds: Bounds) returns (r: Result<real, Error>)
    ensures r == RowSquare(row, bounds)
  {
    if !row.Array? {
      return Err(RowNotArray);
    }
    var items := row.items;
    if |items| == 1 && items[0].Array? {
      items := items[0].items;
    }
    if |items| != bounds.dimension {
      return Err(WrongDimension);
    }
    var sum := 0.0;
    for k := 0 to |items|
      invariant SquareSum(items[..k]) == Ok(sum)
    {
      SquareStep(items, k);
      match items[k]
      case Finite(x) => sum := sum + Square(x);
      case NonFinite =>
        SquareFails(items, k + 1);
        return Err(ValueNotFinite);
      case _ =>
        SquareFails(items, k + 1);
        return Err(ValueNotNumeric);
    }
    TakeAll(items);
    if sum < Square(bounds.minNorm) || sum > Square(bounds.maxNorm) {
      return Err(NormOutside);
    }
    return Ok(sum);
  }

  /** The loop over the rows. */
  method ValidatePayload(embeddings: Json, expectedCount: nat, bounds: Bounds) returns (r: Result<Summary, Error>)
    ensures r == Validate(embeddings, expectedCount, bounds)
  {
    if !embeddings.Array? {
      return Err(NoEmbeddings);
    }
    var rows := embeddings.items;
    if |rows| != expectedCount {
      return Err(WrongCount);
    }
    var s := Summary(0, 0.0, 0.0, 0);
    for i := 0 to |rows|
      invariant RowsSummary(rows[..i], bounds) == Ok(s)
    {
      RowsStep(rows, i, bounds);
      var row := rows[i];
      var square := ValidateRow(row, bounds);
      match square
      case Err(e) =>
        RowsFail(rows, i + 1, bounds);
        return Err(e);
      case Ok(sum) =>
        s := Summary(s.count + 1,
                     if s.count == 0 || sum < s.minSquare then sum else s.minSquare,
                     if s.count == 0 || sum > s.maxSquare then sum else s.maxSquare,
                     s.wrapped + IsWrapped(row));
    }
    TakeAll(rows);
    if s.count == 0 {
      return Err(NoEmbeddings);
    }
    return Ok(s);
  }

  lemma SquareStep(items: seq<Json>, k: nat)
    requires k < |items| && SquareSum(items[..k]).Ok?
    ensures SquareSum(items[..k + 1]) ==
            match items[k]
            case Finite(x) => Ok(SquareSum(items[..k]).value + Square(x))
            case NonFinite => Err(ValueNotFinite)
            case _ => Err(ValueNotNumeric)
  {
    TakeOne(items, k);
  }

  /** An error in a prefix is the error of the whole. */
  lemma {:induction false} SquareFails(items: seq<Json>, k: nat)
    requires k <= |items| && SquareSum(items[..k]).Err?
    ensures SquareSum(items) == SquareSum(items[..k])
    decreases |items|
  {
    if k == |items| {
      TakeAll(items);
    } else {
      assert items[..|items| - 1][..k] == items[..k];
      SquareFails(items[..|items| - 1], k);
    }
  }

  lemma RowsStep(rows: seq<Json>, i: nat, bounds: Bounds)
    requires i < |rows| && RowsSummary(rows[..i], bounds).Ok?
    ensures RowsSummary(rows[..i + 1], bounds) ==
            match RowSquare(rows[i], bounds)
            case Err(e) => Err(e)
            case Ok(square) =>
              var s := RowsSummary(rows[..i], bounds).value;
              Ok(Summary(s.count + 1,
                         if s.count == 0 || square < s.minSquare then square else s.minSquare,
                         if s.count == 0 || square > s.maxSquare then square else s.maxSquare,
                         s.wrapped + IsWrapped(rows[i])))
  {
    TakeOne(rows, i);
  }

  lemma {:induction false} RowsFail(rows: seq<Json>, i: nat, bounds: Bounds)
    requires i <= |rows| && RowsSummary(rows[..i], bounds).Err?
    ensures RowsSummary(rows, bounds) == RowsSummary(rows[..i], bounds)
    decreases |rows|
  {
    if i == |rows| {
      TakeAll(rows);
    } else {
      assert rows[..|rows| - 1][..i] == rows[..i];
      RowsFail(rows[..|rows| - 1], i, bounds);
    }
  }

  /* ---------- What a valid row is ---------- */

  /** The row is a list of these items, or a list of one list of them. */
  predicate Holds(row: Json, items: seq<Json>) {
    || row == Array([Array(items)])
    || (row == Array(items) && !(|items| == 1 && items[0].Array?))
  }

  /** These are the finite numbers of the items, one after the other. */
  predicate AreFinites(items: seq<Json>, xs: seq<real>) {
    |items| == |xs| && forall i :: 0 <= i < |xs| ==> items[i] == Finite(xs[i])
  }

  /** The row has as many values as it should, all finite, with this squared norm. */
  ghost predicate Measures(row: Json, dimension: nat, square: real) {
    exists items: seq<Json>, xs: seq<real> ::
      Holds(row, items) && AreFinites(items, xs) && |xs| == dimension && square == Dot(xs, xs)
  }

  predicate IsPermitted(square: real, bounds: Bounds) {
    bounds.minNorm * bounds.minNorm <= square <= bounds.maxNorm * bounds.maxNorm
  }

  /** Item number `k` is the first that is no finite number. */
  predicate IsFirstBad(items: seq<Json>, k: nat) {
    k < |items| && !items[k].Finite? && forall i :: 0 <= i < k ==> items[i].Finite?
  }

  function ErrorOf(item: Json): Error {
    if item.NonFinite? then ValueNotFinite else ValueNotNumeric
  }

  /** What is wrong with the items of a row. */
  ghost predicate ItemsFail(items: seq<Json>, bounds: Bounds, e: Error) {
    if |items| != bounds.dimension then e == WrongDimension
    else
      || (exists k: nat :: IsFirstBad(items, k) && e == ErrorOf(items[k]))
      || (e == NormOutside && exists xs: seq<real> :: AreFinites(items, xs) && !IsPermitted(Dot(xs, xs), bounds))
  }

  /** What is wrong with the row. */
  ghost predicate RowFails(row: Json, bounds: Bounds, e: Error) {
    if !row.Array? then e == RowNotArray
    else exists items: seq<Json> :: Holds(row, items) && ItemsFail(items, bounds, e)
  }

  lemma HoldsUnwrapped(row: Json, items: seq<Json>)
    ensures Holds(row, items) <==> row.Array? && items == Unwrapped(row).items
  {
    if row.Array? && |row.items| == 1 && row.items[0].Array? {
      assert row == Array([row.items[0]]);
    }
  }

  /** The numbers of the items, where they are numbers. */
  function Numbers(items: seq<Json>): (xs: seq<real>)
    ensures |xs| == |items| && forall i :: 0 <= i < |xs| && items[i].Finite? ==> xs[i] == items[i].x
  {
    seq(|items|, i requires 0 <= i < |items| => if items[i].Finite? then items[i].x else 0.0)
  }

  lemma NumbersAre(items: seq<Json>, xs: seq<real>)
    ensures AreFinites(items, xs) <==> (forall i :: 0 <= i < |items| ==> items[i].Finite?) && xs == Numbers(items)
  {
  }

  lemma NumbersSnoc(items: seq<Json>)
    requires items != [] && items[|items| - 1].Finite?
    ensures Numbers(items) == Numbers(items[..|items| - 1]) + [items[|items| - 1].x]
  {
  }

  /** The loop over the values measures their dot product, or stops at the first that is no finite number. */
  lemma {:induction false} SquareSumIs(items: seq<Json>) returns (k: nat)
    ensures k <= |items| && forall i :: 0 <= i < k ==> items[i].Finite?
    ensures k < |items| ==> !items[k].Finite?
    ensures SquareSum(items) ==
            if k < |items| then Err(ErrorOf(items[k])) else Ok(Dot(Numbers(items), Numbers(items)))
  {
    if items == [] {
      k := 0;
    } else {
      var init, x := items[..|items| - 1], items[|items| - 1];
      k := SquareSumIs(init);
      if k == |init| && x.Finite? {
        k := |items|;
        NumbersSnoc(items);
        DotConcat(Numbers(init), [x.x]);
        DotOfOne(x.x);
      }
    }
  }

  lemma MeasuresNumbers(row: Json, dimension: nat, square: real)
    ensures Measures(row, dimension, square) <==>
            && row.Array? && |Unwrapped(row).items| == dimension
            && (forall i :: 0 <= i < dimension ==> Unwrapped(row).items[i].Finite?)
            && square == Dot(Numbers(Unwrapped(row).items), Numbers(Unwrapped(row).items))
  {
    if Measures(row, dimension, square) {
      var items: seq<Json>, xs: seq<real> :|
        Holds(row, items) && AreFinites(items, xs) && |xs| == dimension && square == Dot(xs, xs);
      HoldsUnwrapped(row, items);
      NumbersAre(items, xs);
    }
    if row.Array? {
      var items := Unwrapped(row).items;
      HoldsUnwrapped(row, items);
      NumbersAre(items, Numbers(items));
    }
  }

  lemma FailsUnwrapped(row: Json, bounds: Bounds, e: Error)
    requires row.Array?
    ensures RowFails(row, bounds, e) <==> ItemsFail(Unwrapped(row).items, bounds, e)
  {
    HoldsUnwrapped(row, Unwrapped(row).items);
    if RowFails(row, bounds, e) {
      var items: seq<Json> :| Holds(row, items) && ItemsFail(items, bounds, e);
      HoldsUnwrapped(row, items);
    }
  }

  lemma ItemsFailBy(items: seq<Json>, bounds: Bounds, e: Error, k: nat)
    requires |items| == bounds.dimension && k <= |items| && forall i :: 0 <= i < k ==> items[i].Finite?
    requires k < |items| ==> !items[k].Finite?
    ensures ItemsFail(items, bounds, e) <==>
            if k < |items| then e == ErrorOf(items[k])
            else e == NormOutside && !IsPermitted(Dot(Numbers(items), Numbers(items)), bounds)
  {
    if k < |items| {
      assert IsFirstBad(items, k);
    } else {
      NumbersAre(items, Numbers(items));
    }
    if xs: seq<real> :| AreFinites(items, xs) && !IsPermitted(Dot(xs, xs), bounds) {
      NumbersAre(items, xs);
    }
  }

  lemma PermittedSquare(square: real, bounds: Bounds)
    ensures IsPermitted(square, bounds) <==> Square(bounds.minNorm) <= square <= Square(bounds.maxNorm)
  {
  }

  lemma RowByItems(row: Json, bounds: Bounds, k: nat)
    requires row.Array? && |Unwrapped(row).items| == bounds.dimension && k <= bounds.dimension
    requires var items := Unwrapped(row).items;
             SquareSum(items) ==
             if k < |items| then Err(ErrorOf(items[k])) else Ok(Dot(Numbers(items), Numbers(items)))
    ensures var items := Unwrapped(row).items;
            var square := Dot(Numbers(items), Numbers(items));
            RowSquare(row, bounds) ==
            if k < |items| then Err(ErrorOf(items[k]))
            else if IsPermitted(square, bounds) then Ok(square) else Err(NormOutside)
  {
    var items := Unwrapped(row).items;
    PermittedSquare(Dot(Numbers(items), Numbers(items)), bounds);
  }

  /**
   A row is valid if and only if it has the right number of values, all finite, with a norm that is
   permitted; the square of that norm is reported. Any other row gives the error of what is wrong
   with it.
   */
  lemma RowExactly(row: Json, bounds: Bounds, square: real, e: Error)
    ensures RowSquare(row, bounds) == Ok(square) <==>
            Measures(row, bounds.dimension, square) && IsPermitted(square, bounds)
    ensures RowSquare(row, bounds) == Err(e) <==> RowFails(row, bounds, e)
  {
    MeasuresNumbers(row, bounds.dimension, square);
    if row.Array? {
      var items := Unwrapped(row).items;
      FailsUnwrapped(row, bounds, e);
      if |items| == bounds.dimension {
        var k := SquareSumIs(items);
        ItemsFailBy(items, bounds, e, k);
        RowByItems(row, bounds, k);
      }
    }
  }

  /* ---------- What a valid payload is ---------- */

  /** The row is an array of the right number of finite values with a permitted norm. */
  ghost predicate IsValidRow(row: Json, bounds: Bounds) {
    exists square :: Measures(row, bounds.dimension, square) && IsPermitted(square, bounds)
  }

  lemma ValidRowExactly(row: Json, bounds: Bounds)
    ensures RowSquare(row, bounds).Ok? <==> IsValidRow(row, bounds)
    ensures RowSquare(row, bounds).Ok? ==>
              forall square :: Measures(row, bounds.dimension, square) <==> RowSquare(row, bounds) == Ok(square)
  {
    if RowSquare(row, bounds).Ok? {
      var it := RowSquare(row, bounds).value;
      RowExactly(row, bounds, it, NormOutside);
      MeasuresNumbers(row, bounds.dimension, it);
      forall square ensures Measures(row, bounds.dimension, square) <==> square == it {
        MeasuresNumbers(row, bounds.dimension, square);
      }
    }
    if IsValidRow(row, bounds) {
      var square :| Measures(row, bounds.dimension, square) && IsPermitted(square, bounds);
      RowExactly(row, bounds, square, NormOutside);
    }
  }

  predicate IsNested(row: Json) {
    row.Array? && |row.items| == 1 && row.items[0].Array?
  }

  /** Which rows are lists of one list. */
  function NestedRows(rows: seq<Json>): set<nat> {
    set i: nat | i < |rows| && IsNested(rows[i])
  }

  lemma NestedSnoc(rows: seq<Json>, n: nat)
    requires |rows| == n + 1 && rows[n].Array?
    ensures |NestedRows(rows)| == |NestedRows(rows[..n])| + IsWrapped(rows[n])
  {
    var before := NestedRows(rows[..n]);
    assert NestedRows(rows) == before + if IsNested(rows[n]) then {n} else {};
    assert n !in before;
  }

  /** The squared norms of rows that are valid. */
  predicate AreSquares(rows: seq<Json>, bounds: Bounds, squares: seq<real>) {
    |squares| == |rows| && forall i :: 0 <= i < |rows| ==> RowSquare(rows[i], bounds) == Ok(squares[i])
  }

  lemma {:induction false} SummaryOfSquares(rows: seq<Json>, bounds: Bounds) returns (squares: seq<real>)
    requires RowsSummary(rows, bounds).Ok?
    ensures AreSquares(rows, bounds, squares)
    ensures var s := RowsSummary(rows, bounds).value;
            && s.count == |rows| && s.wrapped == |NestedRows(rows)|
            && (forall i :: 0 <= i < |rows| ==> s.minSquare <= squares[i] <= s.maxSquare)
            && (rows != [] ==> s.minSquare in squares && s.maxSquare in squares)
  {
    if rows == [] {
      assert NestedRows(rows) == {};
      squares := [];
    } else {
      var n := |rows| - 1;
      squares := SummaryOfSquares(rows[..n], bounds);
      NestedSnoc(rows, n);
      squares := squares + [RowSquare(rows[n], bounds).value];
    }
  }

  /** Row number `i` has this squared norm. */
  ghost predicate HasSquare(rows: seq<Json>, bounds: Bounds, i: nat, square: real) {
    i < |rows| && Measures(rows[i], bounds.dimension, square)
  }

  lemma SquaresAreMeasured(rows: seq<Json>, bounds: Bounds, squares: seq<real>, i: nat)
    requires AreSquares(rows, bounds, squares) && i < |rows|
    ensures IsValidRow(rows[i], bounds) && IsPermitted(squares[i], bounds)
    ensures forall square :: HasSquare(rows, bounds, i, square) <==> square == squares[i]
  {
    ValidRowExactly(rows[i], bounds);
    RowExactly(rows[i], bounds, squares[i], NormOutside);
  }

  /**
   The summary of a valid payload counts every row and every wrapped one; its norm bounds are the
   least and the greatest norm of its rows, which all lie within the permitted ones.
   */
  lemma SummaryIsOfRows(rows: seq<Json>, bounds: Bounds)
    requires RowsSummary(rows, bounds).Ok?
    ensures var s := RowsSummary(rows, bounds).value;
            && s.count == |rows| && s.wrapped == |NestedRows(rows)|
            && (forall i :: 0 <= i < |rows| ==> IsValidRow(rows[i], bounds))
            && (forall i, square :: HasSquare(rows, bounds, i, square) ==> s.minSquare <= square <= s.maxSquare)
            && (rows != [] ==>
                  && (exists i :: HasSquare(rows, bounds, i, s.minSquare))
                  && (exists i :: HasSquare(rows, bounds, i, s.maxSquare))
                  && IsPermitted(s.minSquare, bounds) && IsPermitted(s.maxSquare, bounds)
                  && s.minSquare <= s.maxSquare)
  {
    var squares := SummaryOfSquares(rows, bounds);
    var s := RowsSummary(rows, bounds).value;
    forall i: nat | i < |rows|
      ensures IsValidRow(rows[i], bounds) && IsPermitted(squares[i], bounds)
      ensures forall square :: HasSquare(rows, bounds, i, square) <==> square == squares[i]
    {
      SquaresAreMeasured(rows, bounds, squares, i);
    }
    if rows != [] {
      var least: nat :| least < |squares| && squares[least] == s.minSquare;
      var greatest: nat :| greatest < |squares| && squares[greatest] == s.maxSquare;
      assert HasSquare(rows, bounds, least, s.minSquare) && HasSquare(rows, bounds, greatest, s.maxSquare);
    }
  }

  /** Row number `i` is the first that is not valid, and this is what is wrong with it. */
  ghost predicate FailsFirst(rows: seq<Json>, bounds: Bounds, i: nat, e: Error) {
    i < |rows| && RowFails(rows[i], bounds, e) && forall j :: 0 <= j < i ==> IsValidRow(rows[j], bounds)
  }

  lemma {:induction false} RowsFailExactly(rows: seq<Json>, bounds: Bounds)
    ensures RowsSummary(rows, bounds).Ok? ==> forall i :: 0 <= i < |rows| ==> IsValidRow(rows[i], bounds)
    ensures RowsSummary(rows, bounds).Err? ==>
              exists i: nat :: FailsFirst(rows, bounds, i, RowsSummary(rows, bounds).error)
  {
    if rows != [] {
      var n := |rows| - 1;
      RowsFailExactly(rows[..n], bounds);
      match RowsSummary(rows[..n], bounds)
      case Err(e) =>
        var i: nat :| FailsFirst(rows[..n], bounds, i, e);
        assert FailsFirst(rows, bounds, i, e);
      case Ok(_) =>
        ValidRowExactly(rows[n], bounds);
        forall j | 0 <= j < n ensures IsValidRow(rows[j], bounds) {
          assert rows[..n][j] == rows[j];
        }
        if RowSquare(rows[n], bounds).Err? {
          var e := RowSquare(rows[n], bounds).error;
          RowExactly(rows[n], bounds, 0.0, e);
          assert FailsFirst(rows, bounds, n, e);
        }
    }
  }

  /** The payload is a non-empty list of the expected number of rows, all valid. */
  ghost predicate IsAcceptable(embeddings: Json, expectedCount: nat, bounds: Bounds) {
    exists rows :: embeddings == Array(rows) && |rows| == expectedCount > 0 &&
                     forall row :: row in rows ==> IsValidRow(row, bounds)
  }

  /**
   A payload is accepted if and only if it is a non-empty list of as many rows as texts were sent,
   all valid; otherwise the error is that of the list, or of the first row that is not valid.
   */
  lemma PayloadExactly(embeddings: Json, expectedCount: nat, bounds: Bounds)
    ensures match Validate(embeddings, expectedCount, bounds)
            case Ok(_) => IsAcceptable(embeddings, expectedCount, bounds)
            case Err(e) =>
              && !IsAcceptable(embeddings, expectedCount, bounds)
              && if !embeddings.Array? then e == NoEmbeddings
                 else if |embeddings.items| != expectedCount then e == WrongCount
                 else if expectedCount == 0 then e == NoEmbeddings
                 else exists i: nat :: FailsFirst(embeddings.items, bounds, i, e)
  {
    if embeddings.Array? && |embeddings.items| == expectedCount {
      var rows := embeddings.items;
      RowsFailExactly(rows, bounds);
      if RowsSummary(rows, bounds).Ok? {
        SummaryIsOfRows(rows, bounds);
        assert embeddings == Array(rows);
      } else {
        var i: nat :| FailsFirst(rows, bounds, i, RowsSummary(rows, bounds).error);
        FailsIsNotValid(rows[i], bounds, RowsSummary(rows, bounds).error);
        assert rows[i] in rows;
      }
    }
  }

  lemma FailsIsNotValid(row: Json, bounds: Bounds, e: Error)
    requires RowFails(row, bounds, e)
    ensures !IsValidRow(row, bounds)
  {
    RowExactly(row, bounds, 0.0, e);
    ValidRowExactly(row, bounds);
  }
}
