/**
  `save_cert_report`'s projection of a normalised report row onto the item
  written to the certification table, and what that item holds for a row
  that came out of the normaliser.
 */
module Store {
  import opened Wrappers
  import opened Calendar
  import opened DateText
  import opened Normalizer

  const CertificateName: string := "Certificate Name"
  const CertificateLevel: string := "Certificate Level"

  /** One item of the certification table. */
  datatype Item = Item(
    email: string,
    cert: string,
    awardDate: string,
    user: string,
    expirationDate: string,
    level: string,
    recertDate: string,
    recertified: string,
    lastCertDate: string)

  /**
    The columns the item reads with `cert[...]`, in the order Python
    evaluates the dictionary display; `Recertification Date` is read with a
    default and is not among them.
   */
  const RequiredColumns: seq<string> :=
    [WorkEmail, CertificateName, AwardDate, UserName, ExpirationDate, CertificateLevel,
     Recertified, LastCertificationDate]

  /** The first required column `cert` lacks, if any. */
  function FirstMissing(cert: Row, k: nat): Option<string>
    requires k <= |RequiredColumns|
    decreases |RequiredColumns| - k
  {
    if k == |RequiredColumns| then None
    else if RequiredColumns[k] !in cert then Some(RequiredColumns[k])
    else FirstMissing(cert, k + 1)
  }

  /** `cert[column]`, a `KeyError` naming the column when it is absent. */
  function Get(cert: Row, column: string): Result<string, string> {
    if column in cert then Success(cert[column]) else Failure(column)
  }

  /** The `Item` dictionary display in `save_cert_report`. */
  function ToItem(cert: Row): Result<Item, string> {
    var email :- Get(cert, WorkEmail);
    var name :- Get(cert, CertificateName);
    var award :- Get(cert, AwardDate);
    var user :- Get(cert, UserName);
    var expiry :- Get(cert, ExpirationDate);
    var level :- Get(cert, CertificateLevel);
    var recertDate := if RecertificationDate in cert then cert[RecertificationDate] else "";
    var status :- Get(cert, Recertified);
    var last :- Get(cert, LastCertificationDate);
    Success(Item(email, name, award, user, expiry, level, recertDate, status, last))
  }

  lemma {:induction false} FirstMissingSpec(cert: Row, k: nat)
    requires k <= |RequiredColumns|
    ensures FirstMissing(cert, k).None? <==> forall i :: k <= i < |RequiredColumns| ==> RequiredColumns[i] in cert
    ensures FirstMissing(cert, k).Some? ==>
              exists i :: k <= i < |RequiredColumns| && RequiredColumns[i] == FirstMissing(cert, k).value
                          && RequiredColumns[i] !in cert
                          && forall h :: k <= h < i ==> RequiredColumns[h] in cert
    decreases |RequiredColumns| - k
  {
    if k < |RequiredColumns| && RequiredColumns[k] in cert {
      FirstMissingSpec(cert, k + 1);
      if FirstMissing(cert, k).Some? {
        var i :| k + 1 <= i < |RequiredColumns| && RequiredColumns[i] == FirstMissing(cert, k + 1).value
                 && RequiredColumns[i] !in cert
                 && forall h :: k + 1 <= h < i ==> RequiredColumns[h] in cert;
        assert forall h :: k <= h < i ==> RequiredColumns[h] in cert;
      }
    }
  }

  /**
    The item is built exactly when every required column is present, and
    otherwise fails naming the first missing one in evaluation order. A
    built item copies each column verbatim, the recertification date
    defaulting to the empty text.
   */
  lemma ToItemSpec(cert: Row)
    ensures ToItem(cert).Failure? <==> exists c :: c in RequiredColumns && c !in cert
    ensures ToItem(cert).Failure? ==> Some(ToItem(cert).error) == FirstMissing(cert, 0)
    ensures ToItem(cert).Success? ==>
      var it := ToItem(cert).value;
      && it.email == cert[WorkEmail] && it.cert == cert[CertificateName]
      && it.awardDate == cert[AwardDate] && it.user == cert[UserName]
      && it.expirationDate == cert[ExpirationDate] && it.level == cert[CertificateLevel]
      && (RecertificationDate in cert ==> it.recertDate == cert[RecertificationDate])
      && (RecertificationDate !in cert ==> it.recertDate == "")
      && it.recertified == cert[Recertified] && it.lastCertDate == cert[LastCertificationDate]
  {
    FirstMissingSpec(cert, 0);
    if exists c :: c in RequiredColumns && c !in cert {
      var c :| c in RequiredColumns && c !in cert;
      var i :| 0 <= i < |RequiredColumns| && RequiredColumns[i] == c;
    }
  }

  /** The items put before the batch stopped, and the key error that stopped it, if any. */
  datatype Saved = Saved(items: seq<Item>, error: Option<string>)

  /**
    `save_cert_report`: the rows are put one by one; a row missing a column
    raises, and the items already handed to the batch writer are still
    flushed when the `with` block exits.
   */
  function SaveCertReport(certs: seq<Row>): (r: Saved)
    ensures |r.items| <= |certs|
    ensures r.error.None? ==> |r.items| == |certs|
    ensures r.error.Some? ==> |r.items| < |certs| && ToItem(certs[|r.items|]) == Failure(r.error.value)
    ensures forall j :: 0 <= j < |r.items| ==> ToItem(certs[j]) == Success(r.items[j])
  {
    if |certs| == 0 then Saved([], None)
    else
      match ToItem(certs[0])
      case Failure(e) => Saved([], Some(e))
      case Success(it) =>
        var rest := SaveCertReport(certs[1..]);
        Saved([it] + rest.items, rest.error)
  }

  lemma ColumnsOutsideTouched()
    ensures CertificateName !in Touched && CertificateLevel !in Touched
    ensures AwardDate !in Touched && ExpirationDate !in Touched
  {
    ColumnsDistinct();
    assert |CertificateName| != |WorkEmail| && |CertificateName| != |UserName|;
    assert |CertificateName| != |RecertificationDate| && |CertificateName| != |Recertified|;
    assert |CertificateName| != |LastCertificationDate|;
    assert |CertificateLevel| != |WorkEmail| && |CertificateLevel| != |UserName|;
    assert |CertificateLevel| != |RecertificationDate| && |CertificateLevel| != |Recertified|;
    assert |CertificateLevel| != |LastCertificationDate|;
  }

  /**
    The item stored for an input row that came out of normalisation with
    `prior` redacted rows before it: e-mail and user are the placeholder
    for a redacted row and the original otherwise; the certificate, level,
    award and expiration dates are the input's text unchanged; the last
    certification date is printed from the expiration date three years
    back; the status is `New` exactly when that date is the award date;
    and a `New` row stores the recertification date its input carried, or
    the empty text when the input had no such column.
   */
  predicate StoredAs(row: Row, prior: nat, it: Item) {
    && WorkEmail in row && HasDates(row) && LastCertificationOf(row).Valid()
    && CertificateName in row && CertificateLevel in row && (IsRedacted(row) || UserName in row)
    && it.email == (if IsRedacted(row) then Placeholder(prior) else row[WorkEmail])
    && it.user == (if IsRedacted(row) then it.email else row[UserName])
    && it.cert == row[CertificateName] && it.level == row[CertificateLevel]
    && it.awardDate == row[AwardDate] && it.expirationDate == row[ExpirationDate]
    && it.lastCertDate == Format(LastCertificationOf(row))
    && (it.recertified == StatusNew <==> LastCertificationOf(row) == AwardOf(row))
    && (it.recertified != StatusNew ==> it.recertified == StatusRecertified && it.recertDate == it.lastCertDate)
    && (it.recertified == StatusNew && RecertificationDate !in row ==> it.recertDate == "")
    && (it.recertified == StatusNew && RecertificationDate in row ==> it.recertDate == row[RecertificationDate])
  }

  /**
    What the table receives for row `j` of a normalised report: an item
    exactly when the input row has the certificate name and level and,
    unless it was redacted, a user name; and that item is `StoredAs` the
    input row.
   */
  lemma ReportItem(rows: seq<Row>, j: nat)
    requires Normalize(rows).Success? && j < |rows|
    ensures var row, out := rows[j], Normalize(rows).value[j];
      && (ToItem(out).Success? <==>
            CertificateName in row && CertificateLevel in row && (IsRedacted(row) || UserName in row))
      && (ToItem(out).Success? ==> StoredAs(row, CountRedacted(rows[..j]), ToItem(out).value))
  {
    var row, out := rows[j], Normalize(rows).value[j];
    Identities(rows, j);
    UntouchedColumns(rows, j);
    Classification(rows, j);
    ColumnsOutsideTouched();
    AgreeOutsideAt(row, out, Touched, CertificateName);
    AgreeOutsideAt(row, out, Touched, CertificateLevel);
    AgreeOutsideAt(row, out, Touched, AwardDate);
    AgreeOutsideAt(row, out, Touched, ExpirationDate);
    ToItemSpec(out);
  }

  /**
    The table is keyed on e-mail and certificate name: two redacted rows of
    one report are stored under different e-mails, so neither overwrites
    the other.
   */
  lemma RedactedKeysDistinct(rows: seq<Row>, i: nat, j: nat)
    requires Normalize(rows).Success? && i < j < |rows|
    requires IsRedacted(rows[i]) && IsRedacted(rows[j])
    requires ToItem(Normalize(rows).value[i]).Success? && ToItem(Normalize(rows).value[j]).Success?
    ensures ToItem(Normalize(rows).value[i]).value.email != ToItem(Normalize(rows).value[j]).value.email
  {
    PlaceholdersDistinct(rows, i, j);
    ToItemSpec(Normalize(rows).value[i]);
    ToItemSpec(Normalize(rows).value[j]);
  }
}
