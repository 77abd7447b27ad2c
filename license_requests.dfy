/**
 * The rows of the three tables the endpoint touches, the exceptions it
 * throws, and the status state machine of `update_license_request_status`
 * as a function from the old `licenserequests` table to the new one.
 */
module LicenseRequests {
  import opened Wrappers
  import opened PhpStrings
  import opened PhpNumeric

  /** A row of `users`: its national id and the other columns, passed through untouched. */
  datatype UserRow = UserRow(nationalId: string, columns: map<string, string>)

  /** A row of `licenses`: its id, validity amount and validity unit code, and the other columns. */
  datatype LicenseRow = LicenseRow(licenseId: string, validaty: int, validatyUnit: int, columns: map<string, string>)

  /** A row of `licenserequests` without its id, which is the key of the table. */
  datatype RequestRow = RequestRow(approvalStatus: string, nationalId: string, license: string, expireTime: Option<string>)

  /** The `licenserequests` table, keyed by its auto-increment id. */
  type RequestTable = map<int, RequestRow>

  /** The clock reading of `new DateTime()`. */
  type Instant = int

  datatype PeriodUnit = Days | Months | Years

  /**
   * Calendar addition followed by 'Y-m-d H:i:s' formatting, as
   * `DateTime::modify('+n days|months|years')` and `format` do it.
   */
  type AddPeriod = (Instant, int, PeriodUnit) -> string

  /** The exceptions the endpoint throws, each with the data its message shows. */
  datatype Exception =
    | InvalidArgument(message: string)
    | RequestNotFound(requestId: int)
    | LicenseNotFound(licenseId: string)
    | InvalidUnit(unit: int)
    | InvalidStatus(status: string)

  /** The text of `$e->getMessage()`. */
  function Message(e: Exception): string {
    match e
    case InvalidArgument(m) => m
    case RequestNotFound(id) => "License request not found for ID: " + Decimal(id)
    case LicenseNotFound(l) => "License not found for license ID: " + l
    case InvalidUnit(u) => "Invalid validaty unit: " + Decimal(u)
    case InvalidStatus(s) => "Invalid status value: " + s
  }

  /** The rows of `rows` whose column `key` equals `value`, in table order (`SELECT ... WHERE`). */
  function Where<R(==, !new)>(rows: seq<R>, key: R -> string, value: string): (r: seq<R>)
    ensures forall x :: x in r <==> x in rows && key(x) == value
    ensures |r| <= |rows|
  {
    if rows == [] then []
    else
      var rest := Where(rows[1..], key, value);
      assert forall x :: x in rows <==> x == rows[0] || x in rows[1..];
      if key(rows[0]) == value then [rows[0]] + rest else rest
  }

  /** `Where` keeps every matching row as often as it occurs in the table, and no other row. */
  lemma {:induction false} WhereKeepsMultiplicity<R(!new)>(rows: seq<R>, key: R -> string, value: string)
    ensures forall x :: multiset(Where(rows, key, value))[x] == (if key(x) == value then multiset(rows)[x] else 0)
  {
    if rows != [] {
      WhereKeepsMultiplicity(rows[1..], key, value);
      assert rows == [rows[0]] + rows[1..];
    }
  }

  /** The first row of a result set, or null when it is empty (`$rows ? $rows[0] : null`, `fetch`). */
  function First<R>(rows: seq<R>): Option<R> {
    if |rows| > 0 then Some(rows[0]) else None
  }

  /** The first matching row is null exactly when no row matches, and otherwise the earliest match. */
  lemma {:induction false} FirstWhere<R(!new)>(rows: seq<R>, key: R -> string, value: string)
    ensures First(Where(rows, key, value)).None? <==> forall x :: x in rows ==> key(x) != value
    ensures First(Where(rows, key, value)).Some? ==>
      exists i :: 0 <= i < |rows| && rows[i] == First(Where(rows, key, value)).value &&
        key(rows[i]) == value && forall j :: 0 <= j < i ==> key(rows[j]) != value
  {
    if rows != [] && key(rows[0]) != value {
      FirstWhere(rows[1..], key, value);
      if First(Where(rows, key, value)).Some? {
        var i :| 0 <= i < |rows[1..]| && rows[1..][i] == First(Where(rows, key, value)).value &&
          key(rows[1..][i]) == value && forall j :: 0 <= j < i ==> key(rows[1..][j]) != value;
        assert rows[i + 1] == rows[1..][i];
        assert forall j :: 1 <= j < i + 1 ==> rows[j] == rows[1..][j - 1];
      }
    } else if rows != [] {
      assert rows[0] in rows;
    }
  }

  function UserKey(u: UserRow): string { u.nationalId }

  function LicenseKey(l: LicenseRow): string { l.licenseId }

  /** The validity unit codes of the `licenses` table: 1 days, 2 months, 3 years, anything else invalid. */
  function UnitOf(code: int): Option<PeriodUnit> {
    match code
    case 1 => Some(Days)
    case 2 => Some(Months)
    case 3 => Some(Years)
    case _ => None
  }

  /** The code that stands for a unit. */
  function CodeOf(u: PeriodUnit): int {
    match u
    case Days => 1
    case Months => 2
    case Years => 3
  }

  /** Codes and units are in one-to-one correspondence, and only 1, 2 and 3 are codes. */
  lemma UnitCodes(code: int, u: PeriodUnit)
    ensures UnitOf(CodeOf(u)) == Some(u)
    ensures UnitOf(code) == Some(u) <==> code == CodeOf(u)
    ensures UnitOf(code).Some? <==> 1 <= code <= 3
  {
  }

  /** The three paths of `update_license_request_status`. */
  datatype StatusPath = Reject | Approve | Unrecognised

  /** `$status == '0'` takes the reject path, `$status === '1'` the approve path. */
  function PathOf(status: string): (p: StatusPath)
    ensures p == Reject <==> LooselyEqualsZero(status)
    ensures p == Approve <==> status == "1"
  {
    OneIsNotLooseZero();
    if LooselyEqualsZero(status) then Reject
    else if status == "1" then Approve
    else Unrecognised
  }

  /** `UPDATE licenserequests SET approval_status = ?, ExpireTime = ? WHERE id = ?`: zero or one row. */
  function SetStatus(requests: RequestTable, id: int, status: string, expire: Option<string>): (r: RequestTable)
    ensures r.Keys == requests.Keys
    ensures id in requests ==> r[id] == requests[id].(approvalStatus := status, expireTime := expire)
    ensures forall k :: k in requests && k != id ==> r[k] == requests[k]
  {
    if id in requests then requests[id := requests[id].(approvalStatus := status, expireTime := expire)]
    else requests
  }

  /** What an update returns (the `execute` flag or the exception) and the table it leaves. */
  datatype UpdateOutcome = UpdateOutcome(result: Result<bool, Exception>, requests: RequestTable)

  /**
   * `update_license_request_status`: the reject path clears the expiry
   * without looking anything up; the approve path looks up the request,
   * then its license, then the unit, and fails at the first one missing;
   * any other status fails. A failure writes nothing.
   */
  function UpdateSpec(requests: RequestTable, licenses: seq<LicenseRow>, requestId: int, status: string,
                      now: Instant, addPeriod: AddPeriod): (o: UpdateOutcome)
    ensures o.result.Failure? ==> o.requests == requests
    ensures o.result.Success? ==> o.result.value
    ensures o.requests.Keys == requests.Keys
    ensures forall k :: k in requests && k != requestId ==> o.requests[k] == requests[k]
  {
    match PathOf(status)
    case Reject =>
      UpdateOutcome(Success(true), SetStatus(requests, requestId, status, None))
    case Unrecognised =>
      UpdateOutcome(Failure(InvalidStatus(status)), requests)
    case Approve =>
      if requestId !in requests then UpdateOutcome(Failure(RequestNotFound(requestId)), requests)
      else
        var license := requests[requestId].license;
        match First(Where(licenses, LicenseKey, license))
        case None => UpdateOutcome(Failure(LicenseNotFound(license)), requests)
        case Some(info) =>
          match UnitOf(info.validatyUnit)
          case None => UpdateOutcome(Failure(InvalidUnit(info.validatyUnit)), requests)
          case Some(unit) =>
            var expire := addPeriod(now, info.validaty, unit);
            UpdateOutcome(Success(true), SetStatus(requests, requestId, status, Some(expire)))
  }

  /** A row's expiry is set exactly when its status is "1". */
  ghost predicate ExpiryMatchesStatus(row: RequestRow) {
    row.expireTime.Some? <==> row.approvalStatus == "1"
  }

  /** Every row of the table has an expiry exactly when it is approved. */
  ghost predicate Consistent(requests: RequestTable) {
    forall id :: id in requests ==> ExpiryMatchesStatus(requests[id])
  }

  /** A freshly created request: pending, with no expiry. */
  function PendingRow(nationalId: string, licenseId: string): (row: RequestRow)
    ensures ExpiryMatchesStatus(row)
  {
    RequestRow("pending", nationalId, licenseId, None)
  }

  /** A status loosely equal to "0" succeeds even for a missing id and leaves the row unexpired with that status. */
  lemma RejectPath(requests: RequestTable, licenses: seq<LicenseRow>, requestId: int, status: string,
                   now: Instant, addPeriod: AddPeriod)
    requires LooselyEqualsZero(status)
    ensures var o := UpdateSpec(requests, licenses, requestId, status, now, addPeriod);
      && o.result == Success(true)
      && (requestId in requests ==>
            o.requests[requestId] == requests[requestId].(approvalStatus := status, expireTime := None))
      && (requestId !in requests ==> o.requests == requests)
  {
  }

  /**
   * Status "1" fails exactly when the request is missing, its license is
   * missing or the license's unit is not 1, 2 or 3; otherwise the request
   * becomes "1" with expiry `addPeriod(now, validaty, unit)`.
   */
  lemma ApprovePath(requests: RequestTable, licenses: seq<LicenseRow>, requestId: int,
                    now: Instant, addPeriod: AddPeriod)
    ensures var o := UpdateSpec(requests, licenses, requestId, "1", now, addPeriod);
      && (requestId !in requests ==> o.result == Failure(RequestNotFound(requestId)))
      && (requestId in requests ==>
            var license := requests[requestId].license;
            && ((forall l :: l in licenses ==> l.licenseId != license) ==>
                  o.result == Failure(LicenseNotFound(license)))
            && forall i :: IsFirstLicense(licenses, license, i) ==>
                 var info := licenses[i];
                 && (UnitOf(info.validatyUnit).None? ==> o.result == Failure(InvalidUnit(info.validatyUnit)))
                 && (UnitOf(info.validatyUnit).Some? ==>
                       && o.result == Success(true)
                       && o.requests[requestId] == requests[requestId].(
                            approvalStatus := "1",
                            expireTime := Some(addPeriod(now, info.validaty, UnitOf(info.validatyUnit).value)))))
  {
    if requestId in requests {
      var license := requests[requestId].license;
      FirstWhere(licenses, LicenseKey, license);
      forall i | IsFirstLicense(licenses, license, i)
        ensures First(Where(licenses, LicenseKey, license)) == Some(licenses[i])
      {
        assert licenses[i] in licenses;
        var k :| 0 <= k < |licenses| && licenses[k] == First(Where(licenses, LicenseKey, license)).value &&
          LicenseKey(licenses[k]) == license && forall j :: 0 <= j < k ==> LicenseKey(licenses[j]) != license;
        assert k == i;
      }
    }
  }

  /** Row `i` is the first row of `licenses` with id `license`. */
  ghost predicate IsFirstLicense(licenses: seq<LicenseRow>, license: string, i: int) {
    0 <= i < |licenses| && licenses[i].licenseId == license &&
    forall j :: 0 <= j < i ==> licenses[j].licenseId != license
  }

  /** Any status that is neither loosely "0" nor exactly "1" fails with "Invalid status value" and writes nothing. */
  lemma UnrecognisedStatus(requests: RequestTable, licenses: seq<LicenseRow>, requestId: int, status: string,
                           now: Instant, addPeriod: AddPeriod)
    requires !LooselyEqualsZero(status) && status != "1"
    ensures UpdateSpec(requests, licenses, requestId, status, now, addPeriod) ==
      UpdateOutcome(Failure(InvalidStatus(status)), requests)
  {
  }

  /** After a successful update the row has an expiry exactly when status "1" was written. */
  lemma SuccessfulUpdateSetsExpiryIffApproved(requests: RequestTable, licenses: seq<LicenseRow>, requestId: int,
                                              status: string, now: Instant, addPeriod: AddPeriod)
    requires requestId in requests
    requires UpdateSpec(requests, licenses, requestId, status, now, addPeriod).result.Success?
    ensures var row := UpdateSpec(requests, licenses, requestId, status, now, addPeriod).requests[requestId];
      && row.approvalStatus == status
      && (row.expireTime.Some? <==> status == "1")
  {
    OneIsNotLooseZero();
  }

  /** Updates keep every row's expiry in step with its status. */
  lemma UpdatePreservesConsistency(requests: RequestTable, licenses: seq<LicenseRow>, requestId: int,
                                   status: string, now: Instant, addPeriod: AddPeriod)
    requires Consistent(requests)
    ensures Consistent(UpdateSpec(requests, licenses, requestId, status, now, addPeriod).requests)
  {
    var o := UpdateSpec(requests, licenses, requestId, status, now, addPeriod);
    if o.result.Success? && requestId in requests {
      SuccessfulUpdateSetsExpiryIffApproved(requests, licenses, requestId, status, now, addPeriod);
    }
  }

  /** Inserting a pending row keeps every row's expiry in step with its status. */
  lemma InsertPreservesConsistency(requests: RequestTable, id: int, nationalId: string, licenseId: string)
    requires Consistent(requests)
    ensures Consistent(requests[id := PendingRow(nationalId, licenseId)])
  {
  }
}
