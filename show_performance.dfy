/**
 * The counting behind `cog_psy_game/show_performance.py`: history rows are
 * folded into per-term `(correct, total)` counters, each term gets a success
 * rate, and an overall rate is computed from the counters.
 *
 * Reading the file and skipping its header belong to the CSV library; the
 * rows arrive here as lists of fields. Percentages are reals, not floats.
 */
module ShowPerformance {
  import opened Text
  import opened Wrappers

  /** A counter of `term_data`: the correct attempts and all attempts at one term. */
  datatype Counter = Counter(correct: nat, total: nat)

  /** A data row unpacked as `term, _, is_correct`; the middle field is the time. */
  datatype HistoryRow = HistoryRow(term: string, time: string, isCorrect: string)

  /** What `process_csv_data` returns: `terms`, `success_rates`, `total_success_rate`. */
  datatype Performance = Performance(terms: seq<string>, successRates: map<string, real>, totalSuccessRate: real)

  /** Unpacking the row at this index into three names fails (Python's `ValueError`). */
  datatype RowError = UnpackError(row: nat)

  // ---------------------------------------------------------------------------
  // calculate_success_rate
  // ---------------------------------------------------------------------------

  /** `calculate_success_rate`: the percentage of correct attempts, 0 when there are none. */
  function SuccessRate(correct: nat, total: nat): (rate: real)
    ensures && (total == 0 ==> rate == 0.0)
            && (total > 0 ==> rate * total as real == correct as real * 100.0)
            && (correct <= total ==> 0.0 <= rate <= 100.0)
  {
    if total == 0 then 0.0 else correct as real / total as real * 100.0
  }

  // ---------------------------------------------------------------------------
  // Reading a field as a boolean
  // ---------------------------------------------------------------------------

  /** `is_correct.lower() == "true"`. */
  predicate IsTrueField(s: string) {
    Lower(s) == "true"
  }

  /** The field counts as correct exactly when it spells `true` in any mix of cases. */
  lemma TrueFieldSpellings(s: string)
    ensures IsTrueField(s) <==>
      && |s| == 4
      && (s[0] == 't' || s[0] == 'T') && (s[1] == 'r' || s[1] == 'R')
      && (s[2] == 'u' || s[2] == 'U') && (s[3] == 'e' || s[3] == 'E')
  {
    if |s| == 4 {
      LowerCharIs(s[0], 't');
      LowerCharIs(s[1], 'r');
      LowerCharIs(s[2], 'u');
      LowerCharIs(s[3], 'e');
      assert Lower(s) == [Lower(s)[0], Lower(s)[1], Lower(s)[2], Lower(s)[3]];
    }
  }

  // ---------------------------------------------------------------------------
  // Independent counts over the rows
  // ---------------------------------------------------------------------------

  /** 1 for a row whose third field reads as true, 0 otherwise. */
  function Credit(row: HistoryRow): nat {
    if IsTrueField(row.isCorrect) then 1 else 0
  }

  /** The number of rows about `term`. */
  function Occurrences(rows: seq<HistoryRow>, term: string): (n: nat)
    ensures n <= |rows|
  {
    if rows == [] then 0
    else Occurrences(rows[..|rows| - 1], term) + (if rows[|rows| - 1].term == term then 1 else 0)
  }

  /** The number of rows about `term` that read as correct; never more than its rows. */
  function Successes(rows: seq<HistoryRow>, term: string): (n: nat)
    ensures n <= Occurrences(rows, term)
  {
    if rows == [] then 0
    else Successes(rows[..|rows| - 1], term) + (if rows[|rows| - 1].term == term then Credit(rows[|rows| - 1]) else 0)
  }

  /** The number of rows, over all terms, that read as correct. */
  function CountTrue(rows: seq<HistoryRow>): (n: nat)
    ensures n <= |rows|
  {
    if rows == [] then 0 else CountTrue(rows[..|rows| - 1]) + Credit(rows[|rows| - 1])
  }

  // ---------------------------------------------------------------------------
  // The fold of process_csv_data, row by row
  // ---------------------------------------------------------------------------

  /** The counter a row about `term` finds: the stored one, or `(0, 0)` from the default factory. */
  function Current(data: map<string, Counter>, term: string): Counter {
    if term in data then data[term] else Counter(0, 0)
  }

  /** `term_data` after one more row: its term's counter gains the row's credit and one attempt. */
  function Count(data: map<string, Counter>, row: HistoryRow): map<string, Counter> {
    var c := Current(data, row.term);
    data[row.term := Counter(c.correct + Credit(row), c.total + 1)]
  }

  /** The loop's in-place bump of a counter is one `Count` step. */
  lemma CountIs(data: map<string, Counter>, row: HistoryRow, c: Counter, credit: nat)
    requires c == Current(data, row.term) && credit == Credit(row)
    ensures data[row.term := Counter(c.correct + credit, c.total + 1)] == Count(data, row)
  {
  }

  /** `term_data` after the rows. */
  function Tally(rows: seq<HistoryRow>): map<string, Counter> {
    if rows == [] then map[] else Count(Tally(rows[..|rows| - 1]), rows[|rows| - 1])
  }

  /** The keys of `term_data` in insertion order, which is the order of the dictionary's values. */
  function KeyOrder(rows: seq<HistoryRow>): seq<string> {
    if rows == [] then []
    else
      var prev := KeyOrder(rows[..|rows| - 1]);
      var t := rows[|rows| - 1].term;
      if t in prev then prev else prev + [t]
  }

  /** One more row appends its term, bumps its counter, and adds its term to the key order if new. */
  lemma FoldStep(rows: seq<HistoryRow>, row: HistoryRow)
    ensures && Terms(rows + [row]) == Terms(rows) + [row.term]
            && Tally(rows + [row]) == Count(Tally(rows), row)
            && KeyOrder(rows + [row]) == KeyOrder(rows) + (if row.term in Tally(rows) then [] else [row.term])
  {
    assert (rows + [row])[..|rows|] == rows;
    KeyOrderSpec(rows);
  }

  /** Every term of the rows has a counter, and it holds that term's successes and occurrences. */
  lemma {:induction false} TallyCounts(rows: seq<HistoryRow>, term: string)
    ensures && (term in Tally(rows) <==> Occurrences(rows, term) > 0)
            && (term in Tally(rows) ==> Tally(rows)[term] == Counter(Successes(rows, term), Occurrences(rows, term)))
  {
    if rows != [] {
      TallyCounts(rows[..|rows| - 1], term);
    }
  }

  /** The key order lists each key of `term_data` exactly once. */
  lemma {:induction false} KeyOrderSpec(rows: seq<HistoryRow>)
    ensures (forall t :: t in KeyOrder(rows) <==> t in Tally(rows)) && Distinct(KeyOrder(rows))
  {
    if rows != [] {
      var prev := KeyOrder(rows[..|rows| - 1]);
      var t := rows[|rows| - 1].term;
      KeyOrderSpec(rows[..|rows| - 1]);
      if t !in prev {
        DistinctSnoc(prev, t);
      }
    }
  }

  /** No element occurs twice. */
  predicate Distinct(xs: seq<string>) {
    forall i, j :: 0 <= i < j < |xs| ==> xs[i] != xs[j]
  }

  /** A new element keeps a sequence distinct. */
  lemma DistinctSnoc(xs: seq<string>, x: string)
    requires Distinct(xs) && x !in xs
    ensures Distinct(xs + [x])
  {
    var ys := xs + [x];
    forall i, j | 0 <= i < j < |ys|
      ensures ys[i] != ys[j]
    {
      if j == |xs| {
        assert ys[i] == xs[i];
      }
    }
  }

  // ---------------------------------------------------------------------------
  // Sums over the dictionary's values
  // ---------------------------------------------------------------------------

  /**
   * The counters of `keys`, added component-wise: the `sum(...)` expressions
   * over `term_data.values()` when `keys` is the key order.
   */
  function SumCounters(keys: seq<string>, data: map<string, Counter>): Counter
    requires forall t :: t in keys ==> t in data
  {
    if keys == [] then Counter(0, 0)
    else
      var s := SumCounters(keys[..|keys| - 1], data);
      var c := data[keys[|keys| - 1]];
      Counter(s.correct + c.correct, s.total + c.total)
  }

  /** The sum only depends on the counters of the keys summed over. */
  lemma {:induction false} SumAgrees(keys: seq<string>, data: map<string, Counter>, other: map<string, Counter>)
    requires forall t :: t in keys ==> t in data && t in other && data[t] == other[t]
    ensures SumCounters(keys, data) == SumCounters(keys, other)
  {
    if keys != [] {
      SumAgrees(keys[..|keys| - 1], data, other);
    }
  }

  /** Adding one row to a key that occurs once in the sum adds that row to the sum. */
  lemma {:induction false} SumCount(keys: seq<string>, data: map<string, Counter>, row: HistoryRow)
    requires Distinct(keys) && row.term in keys
    requires forall t :: t in keys ==> t in data
    ensures var s, s' := SumCounters(keys, data), SumCounters(keys, Count(data, row));
      s' == Counter(s.correct + Credit(row), s.total + 1)
  {
    var init := keys[..|keys| - 1];
    var last := keys[|keys| - 1];
    assert Distinct(init);
    if last == row.term {
      assert row.term !in init;
      SumAgrees(init, data, Count(data, row));
    } else {
      assert row.term in init by {
        var i :| 0 <= i < |keys| && keys[i] == row.term;
        assert i < |keys| - 1;
        assert init[i] == row.term;
      }
      SumCount(init, data, row);
    }
  }

  /**
   * Summed over all keys, the counters hold every row once: the totals add up
   * to the number of rows and the correct counts to the rows read as true.
   */
  lemma {:induction false} TallySums(rows: seq<HistoryRow>)
    ensures && (forall t :: t in KeyOrder(rows) ==> t in Tally(rows))
            && SumCounters(KeyOrder(rows), Tally(rows)) == Counter(CountTrue(rows), |rows|)
  {
    KeyOrderSpec(rows);
    if rows != [] {
      var init, row := rows[..|rows| - 1], rows[|rows| - 1];
      assert rows == init + [row];
      FoldStep(init, row);
      TallySums(init);
      KeyOrderSpec(init);
      SumStep(KeyOrder(init), Tally(init), row);
    }
  }

  /** Counting one more row adds that row to the sum over the (possibly extended) key order. */
  lemma SumStep(keys: seq<string>, data: map<string, Counter>, row: HistoryRow)
    requires Distinct(keys) && forall t :: t in keys <==> t in data
    ensures var keys' := keys + (if row.term in data then [] else [row.term]);
      && (forall t :: t in keys' ==> t in Count(data, row))
      && SumCounters(keys', Count(data, row))
         == Counter(SumCounters(keys, data).correct + Credit(row), SumCounters(keys, data).total + 1)
  {
    if row.term in data {
      assert keys + [] == keys;
      SumCount(keys, data, row);
    } else {
      var keys' := keys + [row.term];
      assert keys'[..|keys|] == keys;
      SumAgrees(keys, data, Count(data, row));
    }
  }

  // ---------------------------------------------------------------------------
  // The results
  // ---------------------------------------------------------------------------

  /** The term of every row, in row order, duplicates included. */
  function Terms(rows: seq<HistoryRow>): seq<string> {
    seq(|rows|, i requires 0 <= i < |rows| => rows[i].term)
  }

  /** `success_rates`: each counted term mapped to its rate. */
  function Rates(data: map<string, Counter>): map<string, real> {
    map t | t in data :: SuccessRate(data[t].correct, data[t].total)
  }

  /**
   * Lines 39-46 of `process_csv_data` as intended, given the terms, the
   * counters and the dictionary's key order: the overall rate is the summed
   * correct counts over the summed totals.
   */
  function Finish(terms: seq<string>, data: map<string, Counter>, keys: seq<string>): Performance
    requires forall t :: t in keys ==> t in data
  {
    var totalCorrect := SumCounters(keys, data).correct;
    var totalCount := SumCounters(keys, data).total;
    Performance(terms, Rates(data), SuccessRate(totalCorrect, totalCount))
  }

  /**
   * Lines 39-46 as written. The generator meant to sum the correct counts
   * unpacks each `(correct, total)` as `_, correct` and so sums the totals:
   * the overall rate is taken of the total count over itself.
   */
  function FinishAsWritten(terms: seq<string>, data: map<string, Counter>, keys: seq<string>): Performance
    requires forall t :: t in keys ==> t in data
  {
    var totalCorrect := SumCounters(keys, data).total;
    var totalCount := SumCounters(keys, data).total;
    Performance(terms, Rates(data), SuccessRate(totalCorrect, totalCount))
  }

  /** The result of `process_csv_data` on rows that all unpack, overall rate corrected. */
  function Summary(rows: seq<HistoryRow>): Performance {
    KeyOrderSpec(rows);
    Finish(Terms(rows), Tally(rows), KeyOrder(rows))
  }

  /** The result of `process_csv_data` on rows that all unpack, as written. */
  function SummaryAsWritten(rows: seq<HistoryRow>): Performance {
    KeyOrderSpec(rows);
    FinishAsWritten(Terms(rows), Tally(rows), KeyOrder(rows))
  }

  /** Every term has a rate, in 0..100, equal to its own successes over its own occurrences. */
  lemma RatesPerTerm(rows: seq<HistoryRow>, term: string)
    ensures && (term in Summary(rows).successRates <==> Occurrences(rows, term) > 0)
            && (term in Summary(rows).successRates ==>
                  && Summary(rows).successRates[term] == SuccessRate(Successes(rows, term), Occurrences(rows, term))
                  && 0.0 <= Summary(rows).successRates[term] <= 100.0)
  {
    TallyCounts(rows, term);
  }

  /** The terms are listed once per row, in row order. */
  lemma TermsPerRow(rows: seq<HistoryRow>)
    ensures && |Summary(rows).terms| == |rows|
            && forall i :: 0 <= i < |rows| ==> Summary(rows).terms[i] == rows[i].term
  {
  }

  /** The overall rate is the rows read as true over all rows, a percentage. */
  lemma OverallRate(rows: seq<HistoryRow>)
    ensures && Summary(rows).totalSuccessRate == SuccessRate(CountTrue(rows), |rows|)
            && 0.0 <= Summary(rows).totalSuccessRate <= 100.0
  {
    TallySums(rows);
  }

  /**
   * As written, the terms and per-term rates are the intended ones, but the
   * overall rate is 100 whenever there is a row, whatever the answers.
   */
  lemma OverallAsWrittenIsAllOrNothing(rows: seq<HistoryRow>)
    ensures && SummaryAsWritten(rows).terms == Summary(rows).terms
            && SummaryAsWritten(rows).successRates == Summary(rows).successRates
            && SummaryAsWritten(rows).totalSuccessRate == if rows == [] then 0.0 else 100.0
  {
    TallySums(rows);
    if rows != [] {
      FullRate(|rows|);
    }
  }

  /** All attempts correct is a rate of 100. */
  lemma FullRate(n: nat)
    requires n > 0
    ensures SuccessRate(n, n) == 100.0
  {
    assert n as real / n as real == 1.0;
  }

  /** One wrong answer: reported as 100% overall as written, 0% once corrected. */
  lemma OneWrongAnswer()
    ensures var rows := [HistoryRow("Memory", "2024-01-01 10:00:00", "False")];
      SummaryAsWritten(rows).totalSuccessRate == 100.0 && Summary(rows).totalSuccessRate == 0.0
  {
    var rows := [HistoryRow("Memory", "2024-01-01 10:00:00", "False")];
    OverallAsWrittenIsAllOrNothing(rows);
    OverallRate(rows);
    assert !IsTrueField("False") by {
      TrueFieldSpellings("False");
    }
    assert CountTrue(rows) == CountTrue([]) + Credit(rows[0]);
  }

  // ---------------------------------------------------------------------------
  // process_csv_data
  // ---------------------------------------------------------------------------

  /** The unpacked form of a row with exactly three fields. */
  function Unpack(fields: seq<string>): HistoryRow
    requires |fields| == 3
  {
    HistoryRow(fields[0], fields[1], fields[2])
  }

  /**
   * `process_csv_data` over the data rows (header already skipped). The loop
   * appends each row's term to `terms` and bumps its counter in `term_data`;
   * a row without exactly three fields stops it with an unpacking error. The
   * overall rate is computed as intended (`Finish`, not `FinishAsWritten`).
   */
  method ProcessCsvData(table: seq<seq<string>>) returns (r: Result<Performance, RowError>)
    ensures && (r.Success? <==> forall i :: 0 <= i < |table| ==> |table[i]| == 3)
            && (r.Failure? ==>
                  && r.error.row < |table| && |table[r.error.row]| != 3
                  && forall i :: 0 <= i < r.error.row ==> |table[i]| == 3)
            && (r.Success? ==>
                  var rows := seq(|table|, i requires 0 <= i < |table| && |table[i]| == 3 => Unpack(table[i]));
                  r.value == Summary(rows))
  {
    var termData: map<string, Counter> := map[];
    var order: seq<string> := [];
    var terms: seq<string> := [];
    ghost var rows: seq<HistoryRow> := [];
    for k := 0 to |table|
      invariant && |rows| == k && (forall i :: 0 <= i < k ==> |table[i]| == 3 && rows[i] == Unpack(table[i]))
                && terms == Terms(rows) && termData == Tally(rows) && order == KeyOrder(rows)
    {
      if |table[k]| != 3 {
        return Failure(UnpackError(k));
      }
      var row := Unpack(table[k]);
      terms, termData, order := AddRow(row, terms, termData, order, rows);
      rows := rows + [row];
    }
    assert rows == seq(|table|, i requires 0 <= i < |table| && |table[i]| == 3 => Unpack(table[i]));
    KeyOrderSpec(rows);
    r := Success(Finish(terms, termData, order));
  }

  /**
   * One pass of the loop body of `process_csv_data` over an unpacked row:
   * its term is appended to `terms`, and its counter in `term_data` (created
   * at `(0, 0)`, and so entering the key order, if missing) gains the row's
   * credit and one attempt.
   */
  method AddRow(row: HistoryRow, terms: seq<string>, termData: map<string, Counter>, order: seq<string>, ghost rows: seq<HistoryRow>)
    returns (terms': seq<string>, termData': map<string, Counter>, order': seq<string>)
    requires terms == Terms(rows) && termData == Tally(rows) && order == KeyOrder(rows)
    ensures terms' == Terms(rows + [row]) && termData' == Tally(rows + [row]) && order' == KeyOrder(rows + [row])
  {
    var term, isCorrect := row.term, row.isCorrect;
    terms' := terms + [term];
    var c := if term in termData then termData[term] else Counter(0, 0);
    order' := order;
    if term !in termData {
      order' := order + [term];
    }
    var credit := if IsTrueField(isCorrect) then 1 else 0;
    CountIs(termData, row, c, credit);
    termData' := termData[term := Counter(c.correct + credit, c.total + 1)];
    FoldStep(rows, row);
  }

}
