/**
 * `handler` and `update_handler`: the input checks with PHP `empty()`
 * followed by the table operations of `Database.Db`.
 */
module Handlers {
  import opened Wrappers
  import opened PhpStrings
  import opened PhpNumeric
  import opened LicenseRequests
  import opened Database

  /** What `handler` returns: the first user row, the first license row, and the new request id. */
  datatype Created = Created(user: Option<UserRow>, license: Option<LicenseRow>, licenseRequest: int)

  /** What `update_handler` returns. */
  datatype Updated = Updated(requestId: int, status: string, updateResult: bool)

  const CreateInputMessage: string := "National ID and License ID must be provided."

  const UpdateInputMessage: string := "Request ID and status must be provided."

  /**
   * `handler`: an `empty()` identifier is an invalid argument and nothing
   * is looked up or written; otherwise one pending request is created
   * whether or not the user and the license exist.
   */
  method Handler(db: Db, nationalId: string, licenseId: string) returns (r: Result<Created, Exception>)
    requires db.Valid()
    modifies db`requests, db`nextId
    ensures db.Valid()
    ensures IsEmpty(nationalId) || IsEmpty(licenseId) ==>
      && r == Failure(InvalidArgument(CreateInputMessage))
      && db.requests == old(db.requests) && db.nextId == old(db.nextId)
    ensures !IsEmpty(nationalId) && !IsEmpty(licenseId) ==>
      && r == Success(Created(First(Where(db.users, UserKey, nationalId)),
                              First(Where(db.licenses, LicenseKey, licenseId)),
                              old(db.nextId)))
      && old(db.nextId) !in old(db.requests)
      && db.requests == old(db.requests)[old(db.nextId) := PendingRow(nationalId, licenseId)]
      && db.nextId == old(db.nextId) + 1
    ensures old(Consistent(db.requests)) ==> Consistent(db.requests)
  {
    if IsEmpty(nationalId) || IsEmpty(licenseId) {
      return Failure(InvalidArgument(CreateInputMessage));
    }
    var userInfo := db.SelectUsers(nationalId);
    var licenseInfo := db.SelectLicenses(licenseId);
    var id := db.CreateLicenseRequest(nationalId, licenseId);
    r := Success(Created(First(userInfo), First(licenseInfo), id));
  }

  /**
   * `update_handler`: a zero request id or an `empty()` status is an
   * invalid argument and nothing is written; otherwise the status update
   * runs and its flag is echoed with the id and the status.
   */
  method UpdateHandler(db: Db, requestId: int, status: string, now: Instant, addPeriod: AddPeriod)
    returns (r: Result<Updated, Exception>)
    requires db.Valid()
    modifies db`requests
    ensures db.Valid()
    ensures requestId == 0 || IsEmpty(status) ==>
      r == Failure(InvalidArgument(UpdateInputMessage)) && db.requests == old(db.requests)
    ensures requestId != 0 && !IsEmpty(status) ==>
      var o := UpdateSpec(old(db.requests), db.licenses, requestId, status, now, addPeriod);
      && db.requests == o.requests
      && r == match o.result
              case Success(flag) => Success(Updated(requestId, status, flag))
              case Failure(e) => Failure(e)
    ensures old(Consistent(db.requests)) ==> Consistent(db.requests)
  {
    if requestId == 0 || IsEmpty(status) {
      return Failure(InvalidArgument(UpdateInputMessage));
    }
    var result := db.UpdateLicenseRequestStatus(requestId, status, now, addPeriod);
    match result
    case Success(flag) => r := Success(Updated(requestId, status, flag));
    case Failure(e) => r := Failure(e);
  }

  /**
   * The reject path is reached through `update_handler` exactly by the
   * strings loosely equal to "0" other than "0" itself, which `empty()`
   * turns away first.
   */
  lemma RejectPathThroughUpdateHandler(status: string)
    ensures !IsEmpty(status) && PathOf(status) == Reject <==> LooselyEqualsZero(status) && status != "0"
    ensures status == "0" ==> IsEmpty(status) && PathOf(status) == Reject
  {
    EmptyAndLooseZero(status);
  }

  /** The reject path is reachable at all: "00" passes the input check and takes it. */
  lemma RejectPathReachable()
    ensures !IsEmpty("00") && PathOf("00") == Reject
  {
    DoubleZeroIsLooseZero();
  }
}
