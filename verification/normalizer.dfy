/**
  The row loop of `get_cert_report`: one pass over the report's rows, each a
  map from column name to text, threading the anonymisation counter, parsing
  the award and expiration dates, deriving the last certification date and
  classifying the row as `New` or `Recertified`.

  Python raises on the first bad row and returns nothing; here that is a
  `Failure` carrying the error of that row.
 */
module Normalizer {
  import opened Wrappers
  import opened Decimal
  import opened Calendar
  import opened DateText

  /** One report row as `csv.DictReader` yields it: column name to cell text. */
  type Row = map<string, string>

  const WorkEmail: string := "Work Email"
  const UserName: string := "User Name"
  const AwardDate: string := "Award Date"
  const ExpirationDate: string := "Expiration Date"
  const RecertificationDate: string := "Recertification Date"
  const Recertified: string := "Recertified"
  const LastCertificationDate: string := "Last Certification Date"

  /** The value the portal shows in place of a hidden e-mail address. */
  const RedactedEmail: string := "xxxxxx"

  const StatusNew: string := "New"
  const StatusRecertified: string := "Recertified"

  /** The columns anonymisation writes. */
  const IdentityColumns: set<string> := {WorkEmail, UserName}

  /** The columns classification writes. */
  const DerivedColumns: set<string> := {RecertificationDate, Recertified, LastCertificationDate}

  /** The only columns normalisation writes. */
  const Touched: set<string> := IdentityColumns + DerivedColumns

  /** Two rows that agree outside `columns`: same other keys, same text under them. */
  predicate AgreeOutside(row: Row, out: Row, columns: set<string>) {
    row - columns == out - columns
  }

  lemma AgreeOutsideWiden(a: Row, b: Row, c: Row, s: set<string>, t: set<string>)
    requires AgreeOutside(a, b, s) && AgreeOutside(b, c, t)
    ensures AgreeOutside(a, c, s + t)
  {
    assert a - (s + t) == (a - s) - t;
    assert b - (s + t) == (b - s) - t;
    assert b - (s + t) == (b - t) - s;
    assert c - (s + t) == (c - t) - s;
  }

  lemma AgreeOutsideAt(a: Row, b: Row, columns: set<string>, key: string)
    requires AgreeOutside(a, b, columns) && key !in columns
    ensures key in a <==> key in b
    ensures key in a ==> a[key] == b[key]
  {
    assert key in a <==> key in a - columns;
    assert key in b <==> key in b - columns;
    if key in a {
      assert (a - columns)[key] == a[key] && (b - columns)[key] == b[key];
    }
  }

  /** Why the whole report fails. */
  datatype Error =
    | MissingColumn(row: nat, column: string)   // KeyError on `row[column]`
    | MalformedDate(row: nat, column: string)   // ValueError from strptime
    | YearOutOfRange(row: nat)                  // ValueError: expiration year minus 3 is below 1

  /** `'unknown-{}'.format(i)`. */
  function Placeholder(i: nat): string {
    "unknown-" + Show(i)
  }

  lemma PlaceholderInjective(i: nat, j: nat)
    requires Placeholder(i) == Placeholder(j)
    ensures i == j
  {
    assert Placeholder(i)[8..] == Show(i);
    assert Placeholder(j)[8..] == Show(j);
    ShowInjective(i, j);
  }

  predicate IsRedacted(row: Row) {
    WorkEmail in row && row[WorkEmail] == RedactedEmail
  }

  /** Number of rows whose e-mail is redacted. */
  function CountRedacted(rows: seq<Row>): nat {
    if |rows| == 0 then 0
    else (if IsRedacted(rows[0]) then 1 else 0) + CountRedacted(rows[1..])
  }

  lemma {:induction false} CountRedactedSnoc(rows: seq<Row>, row: Row)
    ensures CountRedacted(rows + [row]) == CountRedacted(rows) + (if IsRedacted(row) then 1 else 0)
    decreases |rows|
  {
    if |rows| > 0 {
      assert (rows + [row])[1..] == rows[1..] + [row];
      CountRedactedSnoc(rows[1..], row);
    }
  }

  // ---------------------------------------------------------------------
  // One row

  /** `datetime.strptime(row[column], '%m/%d/%Y')`. */
  function ReadDate(row: Row, idx: nat, column: string): Result<Date, Error> {
    if column !in row then Failure(MissingColumn(idx, column))
    else
      match Parse(row[column])
      case None => Failure(MalformedDate(idx, column))
      case Some(d) => Success(d)
  }

  /**
    The error, if any, that row `idx` raises, found by checking it in the
    order Python evaluates it: the e-mail lookup, the award date, the
    expiration date, then the three-year shift.
   */
  function RowFault(row: Row, idx: nat): Option<Error> {
    if WorkEmail !in row then Some(MissingColumn(idx, WorkEmail))
    else if AwardDate !in row then Some(MissingColumn(idx, AwardDate))
    else if Parse(row[AwardDate]).None? then Some(MalformedDate(idx, AwardDate))
    else if ExpirationDate !in row then Some(MissingColumn(idx, ExpirationDate))
    else if Parse(row[ExpirationDate]).None? then Some(MalformedDate(idx, ExpirationDate))
    else if Parse(row[ExpirationDate]).value.year <= 3 then Some(YearOutOfRange(idx))
    else None
  }

  /** A row `RowFault` accepts carries both dates. */
  predicate HasDates(row: Row) {
    && AwardDate in row && Parse(row[AwardDate]).Some?
    && ExpirationDate in row && Parse(row[ExpirationDate]).Some?
  }

  function AwardOf(row: Row): Date
    requires HasDates(row)
  {
    Parse(row[AwardDate]).value
  }

  /** The last certification date of a row: its expiration date three calendar years back. */
  function LastCertificationOf(row: Row): Date
    requires HasDates(row)
  {
    ThreeYearsBefore(Parse(row[ExpirationDate]).value)
  }

  /** Identity columns of a normalised row, and the counter after it. */
  predicate IdentityKept(row: Row, counter: nat, out: Row, next: nat) {
    && WorkEmail in row && WorkEmail in out
    && (IsRedacted(row) ==>
          && out[WorkEmail] == Placeholder(counter)
          && UserName in out && out[UserName] == Placeholder(counter)
          && next == counter + 1)
    && (!IsRedacted(row) ==>
          && out[WorkEmail] == row[WorkEmail]
          && (UserName in out <==> UserName in row)
          && (UserName in row ==> out[UserName] == row[UserName])
          && next == counter)
  }

  /** Every column normalisation does not write is present in `out` exactly when in `row`, with the same text. */
  predicate OthersUnchanged(row: Row, out: Row) {
    AgreeOutside(row, out, Touched)
  }

  /** The derived date columns and the classification. */
  predicate Classified(row: Row, out: Row)
    requires HasDates(row)
  {
    var last := LastCertificationOf(row);
    && last.Valid()
    && LastCertificationDate in out && out[LastCertificationDate] == Format(last)
    && Recertified in out
    && (out[Recertified] == StatusNew || out[Recertified] == StatusRecertified)
    && (out[Recertified] == StatusNew <==> last == AwardOf(row))
    && (last != AwardOf(row) ==>
          RecertificationDate in out && out[RecertificationDate] == out[LastCertificationDate])
    && (last == AwardOf(row) ==>
          && (RecertificationDate in out <==> RecertificationDate in row)
          && (RecertificationDate in row ==> out[RecertificationDate] == row[RecertificationDate]))
  }

  /** The written column names are pairwise distinct and distinct from the date columns. */
  lemma ColumnsDistinct()
    ensures WorkEmail != UserName
    ensures WorkEmail != AwardDate && WorkEmail != ExpirationDate
    ensures UserName != AwardDate && UserName != ExpirationDate
    ensures RecertificationDate != Recertified && RecertificationDate != LastCertificationDate
    ensures Recertified != LastCertificationDate
    ensures AwardDate !in Touched && ExpirationDate !in Touched
  {
    assert WorkEmail[0] != UserName[0] && WorkEmail[0] != AwardDate[0];
    assert |WorkEmail| != |ExpirationDate| && |UserName| != |AwardDate| && |UserName| != |ExpirationDate|;
    assert |RecertificationDate| != |Recertified| && |RecertificationDate| != |LastCertificationDate|;
    assert |Recertified| != |LastCertificationDate|;
    assert |AwardDate| != |RecertificationDate| && |AwardDate| != |Recertified| && |AwardDate| != |LastCertificationDate|;
    assert |ExpirationDate| != |RecertificationDate| && |ExpirationDate| != |Recertified| && |ExpirationDate| != |LastCertificationDate|;
  }

  /** The redaction branch of `get_cert_report`: a redacted row gets `unknown-<counter>` as both e-mail and user name. */
  function Anonymise(row: Row, counter: nat): Row
    requires WorkEmail in row
  {
    if IsRedacted(row) then row[WorkEmail := Placeholder(counter)][UserName := Placeholder(counter)] else row
  }

  lemma AnonymiseSpec(row: Row, counter: nat)
    requires WorkEmail in row
    ensures var out := Anonymise(row, counter);
      && WorkEmail in out
      && (IsRedacted(row) ==>
            out[WorkEmail] == Placeholder(counter) && UserName in out && out[UserName] == Placeholder(counter))
      && (!IsRedacted(row) ==> out == row)
      && AgreeOutside(row, out, IdentityColumns)
  {
    ColumnsDistinct();
  }

  /** The classification step of `get_cert_report`: write the classification and the derived date columns. */
  function Stamp(row: Row, award: Date, last: Date): Row
    requires last.Valid()
  {
    var text := Format(last);
    var classified :=
      if last != award then row[RecertificationDate := text][Recertified := StatusRecertified]
      else row[Recertified := StatusNew];
    classified[LastCertificationDate := text]
  }

  lemma StampSpec(row: Row, award: Date, last: Date)
    requires last.Valid()
    ensures var out := Stamp(row, award, last);
      && LastCertificationDate in out && out[LastCertificationDate] == Format(last)
      && Recertified in out && (out[Recertified] == StatusNew || out[Recertified] == StatusRecertified)
      && (out[Recertified] == StatusNew <==> last == award)
      && (last != award ==> RecertificationDate in out && out[RecertificationDate] == Format(last))
      && (last == award ==> (RecertificationDate in out <==> RecertificationDate in row))
      && (last == award && RecertificationDate in row ==> out[RecertificationDate] == row[RecertificationDate])
      && AgreeOutside(row, out, DerivedColumns)
  {
    ColumnsDistinct();
  }

  datatype Step = Step(row: Row, counter: nat)

  /** One iteration of `get_cert_report`'s loop body, given the counter before the row. */
  function NormalizeRow(row: Row, idx: nat, counter: nat): (r: Result<Step, Error>)
    ensures r.Success? ==> r.value.counter == counter + (if IsRedacted(row) then 1 else 0)
  {
    if WorkEmail !in row then Failure(MissingColumn(idx, WorkEmail))
    else
      var named := Anonymise(row, counter);
      var next := if IsRedacted(row) then counter + 1 else counter;
      var award :- ReadDate(named, idx, AwardDate);
      var expiry :- ReadDate(named, idx, ExpirationDate);
      match ShiftYears(expiry, -3)
      case None => Failure(YearOutOfRange(idx))
      case Some(last) => Success(Step(Stamp(named, award, last), next))
  }

  /**
    What one iteration does: it fails exactly on a faulty row, with that
    row's fault; otherwise it anonymises a redacted row, leaves every other
    column alone, and writes the derived dates and the classification.
   */
  lemma NormalizeRowSpec(row: Row, idx: nat, counter: nat)
    ensures var r := NormalizeRow(row, idx, counter);
      && (r.Failure? <==> RowFault(row, idx).Some?)
      && (r.Failure? ==> Some(r.error) == RowFault(row, idx))
      && (r.Success? ==>
            && HasDates(row)
            && IdentityKept(row, counter, r.value.row, r.value.counter)
            && OthersUnchanged(row, r.value.row)
            && Classified(row, r.value.row))
  {
    if WorkEmail in row {
      ColumnsDistinct();
      var named := Anonymise(row, counter);
      AnonymiseSpec(row, counter);
      AgreeOutsideAt(row, named, IdentityColumns, AwardDate);
      AgreeOutsideAt(row, named, IdentityColumns, ExpirationDate);
      if HasDates(row) {
        var award := Parse(row[AwardDate]).value;
        var expiry := Parse(row[ExpirationDate]).value;
        SubtractThreeYears(expiry);
        if expiry.year > 3 {
          var last := ThreeYearsBefore(expiry);
          assert NormalizeRow(row, idx, counter) == Success(Step(Stamp(named, award, last), if IsRedacted(row) then counter + 1 else counter));
          StampSpec(named, award, last);
          AgreeOutsideWiden(row, named, Stamp(named, award, last), IdentityColumns, DerivedColumns);
        }
      }
    }
  }

  // ---------------------------------------------------------------------
  // The whole report

  /** The rows normalised so far and the counter's value after them. */
  datatype Batch = Batch(rows: seq<Row>, counter: nat)

  /** The loop body's shape: a row, its index and the counter before it, to the normalised row and the counter after it. */
  type RowStep = (Row, nat, nat) -> Result<Step, Error>

  /** A loop body that advances the counter by one on redacted rows and leaves it alone otherwise. */
  ghost predicate CountsRedacted(step: RowStep) {
    forall row: Row, idx: nat, c: nat :: step(row, idx, c).Success? ==>
      step(row, idx, c).value.counter == c + (if IsRedacted(row) then 1 else 0)
  }

  /** A loop body that fails exactly on the rows `RowFault` rejects, with that fault. */
  ghost predicate FailsOnFaults(step: RowStep) {
    forall row: Row, idx: nat, c: nat ::
      && (step(row, idx, c).Failure? <==> RowFault(row, idx).Some?)
      && (step(row, idx, c).Failure? ==> Some(step(row, idx, c).error) == RowFault(row, idx))
  }

  lemma NormalizeRowSteps()
    ensures CountsRedacted(NormalizeRow) && FailsOnFaults(NormalizeRow)
  {
    forall row: Row, idx: nat, c: nat
      ensures && (NormalizeRow(row, idx, c).Failure? <==> RowFault(row, idx).Some?)
              && (NormalizeRow(row, idx, c).Failure? ==> Some(NormalizeRow(row, idx, c).error) == RowFault(row, idx))
    {
      NormalizeRowSpec(row, idx, c);
    }
  }

  /**
    The loop from row `k` on, starting with the given counter: the first
    failing row fails the whole pass, otherwise every row is stepped in
    order with the counter threaded through.
   */
  function Fold(step: RowStep, rows: seq<Row>, k: nat, counter: nat): (r: Result<Batch, Error>)
    requires k <= |rows|
    ensures r.Success? ==> |r.value.rows| == |rows| - k
    decreases |rows| - k
  {
    if k == |rows| then Success(Batch([], counter))
    else
      match step(rows[k], k, counter)
      case Failure(e) => Failure(e)
      case Success(s) =>
        match Fold(step, rows, k + 1, s.counter)
        case Failure(e) => Failure(e)
        case Success(rest) => Success(Batch([s.row] + rest.rows, rest.counter))
  }

  /** `get_cert_report` without the download: all rows normalised, or the first bad row's error. */
  function Normalize(rows: seq<Row>): (r: Result<seq<Row>, Error>)
    ensures r.Success? ==> |r.value| == |rows|
  {
    match Fold(NormalizeRow, rows, 0, 0)
    case Failure(e) => Failure(e)
    case Success(b) => Success(b.rows)
  }

  /** A successful pass from row `k` is row `k` stepped, followed by a successful pass from row `k + 1`. */
  lemma FoldUnfold(step: RowStep, rows: seq<Row>, k: nat, counter: nat)
    requires k < |rows| && Fold(step, rows, k, counter).Success?
    ensures var one := step(rows[k], k, counter);
      && one.Success?
      && var rest := Fold(step, rows, k + 1, one.value.counter);
      && rest.Success?
      && Fold(step, rows, k, counter).value == Batch([one.value.row] + rest.value.rows, rest.value.counter)
  {
  }

  lemma CountRedactedFrom(rows: seq<Row>, k: nat, j: nat)
    requires k < j <= |rows|
    ensures CountRedacted(rows[k..j]) == (if IsRedacted(rows[k]) then 1 else 0) + CountRedacted(rows[k + 1..j])
  {
    assert rows[k..j][1..] == rows[k + 1..j];
  }

  /** The counter ends at its start plus the number of redacted rows: it moves only on anonymisation. */
  lemma {:induction false} FoldCounter(step: RowStep, rows: seq<Row>, k: nat, counter: nat)
    requires CountsRedacted(step)
    requires k <= |rows| && Fold(step, rows, k, counter).Success?
    ensures Fold(step, rows, k, counter).value.counter == counter + CountRedacted(rows[k..])
    decreases |rows| - k
  {
    if k < |rows| {
      FoldUnfold(step, rows, k, counter);
      CountRedactedFrom(rows, k, |rows|);
      assert rows[k..|rows|] == rows[k..] && rows[k + 1..|rows|] == rows[k + 1..];
      FoldCounter(step, rows, k + 1, step(rows[k], k, counter).value.counter);
    }
  }

  /** The final counter of the report is the number of redacted rows. */
  lemma FinalCounter(rows: seq<Row>)
    requires Normalize(rows).Success?
    ensures Fold(NormalizeRow, rows, 0, 0).value.counter == CountRedacted(rows)
  {
    NormalizeRowSteps();
    FoldCounter(NormalizeRow, rows, 0, 0);
    assert rows[0..] == rows;
  }

  /**
    Row `j` of the output is the loop body applied to input row `j` with the
    counter at the number of redacted rows before it.
   */
  lemma {:induction false} FoldRowwise(step: RowStep, rows: seq<Row>, k: nat, counter: nat, j: nat)
    requires CountsRedacted(step)
    requires k <= j < |rows| && Fold(step, rows, k, counter).Success?
    ensures step(rows[j], j, counter + CountRedacted(rows[k..j]))
            == Success(Step(Fold(step, rows, k, counter).value.rows[j - k],
                            counter + CountRedacted(rows[k..j + 1])))
    decreases j - k
  {
    FoldUnfold(step, rows, k, counter);
    var first := step(rows[k], k, counter).value;
    CountRedactedFrom(rows, k, j + 1);
    if j > k {
      CountRedactedFrom(rows, k, j);
      FoldRowwise(step, rows, k + 1, first.counter, j);
    } else {
      assert rows[k..j] == [] && rows[k + 1..j + 1] == [];
    }
  }

  /** `FoldRowwise` from the start of the report. */
  lemma FoldRowAt(step: RowStep, rows: seq<Row>, j: nat)
    requires CountsRedacted(step)
    requires j < |rows| && Fold(step, rows, 0, 0).Success?
    ensures step(rows[j], j, CountRedacted(rows[..j]))
            == Success(Step(Fold(step, rows, 0, 0).value.rows[j], CountRedacted(rows[..j + 1])))
  {
    FoldRowwise(step, rows, 0, 0, j);
    assert rows[0..j] == rows[..j] && rows[0..j + 1] == rows[..j + 1];
  }

  /**
    Output row `j` is the loop body applied to input row `j`, with the
    counter at the number of redacted rows before it.
   */
  lemma NormalizeRowwise(rows: seq<Row>, j: nat)
    requires Normalize(rows).Success? && j < |rows|
    ensures NormalizeRow(rows[j], j, CountRedacted(rows[..j]))
            == Success(Step(Normalize(rows).value[j], CountRedacted(rows[..j + 1])))
  {
    NormalizeRowSteps();
    FoldRowAt(NormalizeRow, rows, j);
  }

  /**
    Rows with a real e-mail keep their e-mail and user name; the redacted
    rows, in input order, become `unknown-0`, `unknown-1`, ... in both
    columns, whatever non-redacted rows lie between them.
   */
  lemma {:induction false} Identities(rows: seq<Row>, j: nat)
    requires Normalize(rows).Success? && j < |rows|
    ensures var out := Normalize(rows).value[j];
      && WorkEmail in rows[j] && WorkEmail in out
      && (!IsRedacted(rows[j]) ==>
            && out[WorkEmail] == rows[j][WorkEmail]
            && (UserName in out <==> UserName in rows[j])
            && (UserName in rows[j] ==> out[UserName] == rows[j][UserName]))
      && (IsRedacted(rows[j]) ==>
            && out[WorkEmail] == Placeholder(CountRedacted(rows[..j]))
            && UserName in out && out[UserName] == out[WorkEmail])
  {
    NormalizeRowwise(rows, j);
    NormalizeRowSpec(rows[j], j, CountRedacted(rows[..j]));
  }

  /** Two different redacted rows never receive the same placeholder. */
  lemma {:induction false} PlaceholdersDistinct(rows: seq<Row>, i: nat, j: nat)
    requires Normalize(rows).Success? && i < j < |rows|
    requires IsRedacted(rows[i]) && IsRedacted(rows[j])
    ensures WorkEmail in Normalize(rows).value[i] && WorkEmail in Normalize(rows).value[j]
    ensures Normalize(rows).value[i][WorkEmail] != Normalize(rows).value[j][WorkEmail]
  {
    Identities(rows, i);
    Identities(rows, j);
    CountRedactedSnoc(rows[..i], rows[i]);
    assert rows[..i] + [rows[i]] == rows[..i + 1];
    CountRedactedMonotone(rows, i + 1, j);
    if Normalize(rows).value[i][WorkEmail] == Normalize(rows).value[j][WorkEmail] {
      PlaceholderInjective(CountRedacted(rows[..i]), CountRedacted(rows[..j]));
    }
  }

  lemma {:induction false} CountRedactedMonotone(rows: seq<Row>, a: nat, b: nat)
    requires a <= b <= |rows|
    ensures CountRedacted(rows[..a]) <= CountRedacted(rows[..b])
    decreases b - a
  {
    if a < b {
      CountRedactedMonotone(rows, a, b - 1);
      CountRedactedSnoc(rows[..b - 1], rows[b - 1]);
      assert rows[..b - 1] + [rows[b - 1]] == rows[..b];
    }
  }

  /** Columns other than the five written ones pass through untouched, and the row order is kept. */
  lemma UntouchedColumns(rows: seq<Row>, j: nat)
    requires Normalize(rows).Success? && j < |rows|
    ensures OthersUnchanged(rows[j], Normalize(rows).value[j])
  {
    NormalizeRowwise(rows, j);
    NormalizeRowSpec(rows[j], j, CountRedacted(rows[..j]));
  }

  /**
    Each output row carries its last certification date (expiration minus
    three calendar years) and is `New` exactly when that equals the award
    date; otherwise it is `Recertified` with the recertification date set
    to the last certification date.
   */
  lemma Classification(rows: seq<Row>, j: nat)
    requires Normalize(rows).Success? && j < |rows|
    ensures HasDates(rows[j]) && Classified(rows[j], Normalize(rows).value[j])
  {
    NormalizeRowwise(rows, j);
    NormalizeRowSpec(rows[j], j, CountRedacted(rows[..j]));
  }

  /**
    A certification awarded on Feb 29 is never classified `New`: its last
    certification date, three years before expiry, is never a Feb 29.
   */
  lemma LeapDayAwardIsRecertified(rows: seq<Row>, j: nat)
    requires Normalize(rows).Success? && j < |rows|
    requires HasDates(rows[j]) && AwardOf(rows[j]).IsLeapDay()
    ensures Recertified in Normalize(rows).value[j]
    ensures Normalize(rows).value[j][Recertified] == StatusRecertified
  {
    Classification(rows, j);
    NeverLeapDay(Parse(rows[j][ExpirationDate]).value);
  }

  /** The fault of the first faulty row at or after `k`, if any. */
  function FirstFault(rows: seq<Row>, k: nat): Option<Error>
    requires k <= |rows|
    decreases |rows| - k
  {
    if k == |rows| then None
    else if RowFault(rows[k], k).Some? then RowFault(rows[k], k)
    else FirstFault(rows, k + 1)
  }

  /** `FirstFault` finds nothing exactly when no row is faulty, and otherwise the fault of a row with only sound rows before it. */
  lemma {:induction false} FirstFaultSpec(rows: seq<Row>, k: nat)
    requires k <= |rows|
    ensures FirstFault(rows, k).None? <==> forall j :: k <= j < |rows| ==> RowFault(rows[j], j).None?
    ensures FirstFault(rows, k).Some? ==>
              exists j :: k <= j < |rows| && RowFault(rows[j], j) == FirstFault(rows, k)
                          && forall i :: k <= i < j ==> RowFault(rows[i], i).None?
    decreases |rows| - k
  {
    if k < |rows| && RowFault(rows[k], k).None? {
      FirstFaultSpec(rows, k + 1);
      if FirstFault(rows, k).Some? {
        var j :| k + 1 <= j < |rows| && RowFault(rows[j], j) == FirstFault(rows, k + 1)
                 && forall i :: k + 1 <= i < j ==> RowFault(rows[i], i).None?;
        assert forall i :: k <= i < j ==> RowFault(rows[i], i).None?;
      }
    }
  }

  /** A loop body that fails on faulty rows makes the pass fail with the first fault, and succeed when there is none. */
  lemma {:induction false} FoldFails(step: RowStep, rows: seq<Row>, k: nat, counter: nat)
    requires FailsOnFaults(step)
    requires k <= |rows|
    ensures Fold(step, rows, k, counter).Success? <==> FirstFault(rows, k).None?
    ensures Fold(step, rows, k, counter).Failure? ==> FirstFault(rows, k) == Some(Fold(step, rows, k, counter).error)
    decreases |rows| - k
  {
    if k < |rows| {
      var first := step(rows[k], k, counter);
      if first.Success? {
        FoldFails(step, rows, k + 1, first.value.counter);
      }
    }
  }

  /**
    The pass fails exactly when some row is faulty, and then with the fault
    of the first faulty row: no partial list is ever produced.
   */
  lemma NormalizeFails(rows: seq<Row>)
    ensures Normalize(rows).Success? <==> forall j :: 0 <= j < |rows| ==> RowFault(rows[j], j).None?
    ensures Normalize(rows).Failure? ==>
              exists j :: 0 <= j < |rows| && RowFault(rows[j], j) == Some(Normalize(rows).error)
                          && forall i :: 0 <= i < j ==> RowFault(rows[i], i).None?
  {
    NormalizeRowSteps();
    FoldFails(NormalizeRow, rows, 0, 0);
    FirstFaultSpec(rows, 0);
  }

  // ---------------------------------------------------------------------
  // The loop as written

  /** The rows already appended to `certs`, followed by what the rest of the loop yields. */
  function Chain(certs: seq<Row>, rest: Result<Batch, Error>): Result<Batch, Error> {
    match rest
    case Failure(e) => Failure(e)
    case Success(b) => Success(Batch(certs + b.rows, b.counter))
  }

  lemma ChainNothing(r: Result<Batch, Error>)
    ensures Chain([], r) == r
  {
    if r.Success? {
      assert [] + r.value.rows == r.value.rows;
    }
  }

  /** One more row moved from the rest of the loop onto `certs`. */
  lemma ChainStep(step: RowStep, rows: seq<Row>, k: nat, counter: nat, certs: seq<Row>)
    requires k < |rows|
    ensures var one := step(rows[k], k, counter);
      && (one.Failure? ==> Chain(certs, Fold(step, rows, k, counter)) == Failure(one.error))
      && (one.Success? ==>
            Chain(certs, Fold(step, rows, k, counter))
            == Chain(certs + [one.value.row], Fold(step, rows, k + 1, one.value.counter)))
  {
    var one := step(rows[k], k, counter);
    if one.Success? {
      var rest := Fold(step, rows, k + 1, one.value.counter);
      if rest.Success? {
        assert certs + ([one.value.row] + rest.value.rows) == (certs + [one.value.row]) + rest.value.rows;
      }
    }
  }

  /**
    The loop of `get_cert_report` for any loop body: `certs` grows by one row per
    input row, `i` carries the counter, and the first error aborts.
   */
  method RunRows(step: RowStep, rows: seq<Row>) returns (res: Result<Batch, Error>)
    ensures res == Fold(step, rows, 0, 0)
  {
    var certs: seq<Row> := [];
    var i: nat := 0;
    var k := 0;
    ChainNothing(Fold(step, rows, 0, 0));
    while k < |rows|
      invariant k <= |rows| && |certs| == k
      invariant Fold(step, rows, 0, 0) == Chain(certs, Fold(step, rows, k, i))
    {
      var one := step(rows[k], k, i);
      ChainStep(step, rows, k, i, certs);
      if one.Failure? {
        return Failure(one.error);
      }
      certs := certs + [one.value.row];
      i := one.value.counter;
      k := k + 1;
    }
    assert certs + [] == certs;
    res := Success(Batch(certs, i));
  }

  /**
    `get_cert_report` after the download: the normalised rows in input
    order, or the error of the first faulty row.
   */
  method GetCertReport(rows: seq<Row>) returns (res: Result<seq<Row>, Error>)
    ensures res == Normalize(rows)
    ensures res.Success? <==> forall j :: 0 <= j < |rows| ==> RowFault(rows[j], j).None?
    ensures res.Success? ==> |res.value| == |rows|
  {
    var b := RunRows(NormalizeRow, rows);
    res := match b case Failure(e) => Failure(e) case Success(batch) => Success(batch.rows);
    NormalizeFails(rows);
  }
}
