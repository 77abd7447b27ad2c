/**
 * The request router at the bottom of index.php: POST creates, PUT and
 * PATCH update, any other method is refused; a thrown
 * `InvalidArgumentException` becomes 400, any other exception 500.
 */
module Router {
  import opened Wrappers
  import opened PhpStrings
  import opened PhpNumeric
  import opened LicenseRequests
  import opened Database
  import opened Handlers

  /** The decoded JSON body: each field absent (or null) or present; `request_id` after its `(int)` cast. */
  datatype Payload = Payload(nationalId: Option<string>, licenseId: Option<string>,
                             requestId: Option<int>, status: Option<string>)

  /** The JSON the endpoint prints. */
  datatype Body = CreatedBody(created: Created) | UpdatedBody(updated: Updated) | ErrorBody(error: string)

  datatype Response = Response(code: int, body: Body)

  const MethodNotAllowed: string := "Method not allowed"

  datatype Endpoint = Create | Update | NotAllowed

  /** Which branch of the router a request method takes; names are compared exactly. */
  function EndpointOf(httpMethod: string): (e: Endpoint)
    ensures e == Create <==> httpMethod == "POST"
    ensures e == Update <==> httpMethod in {"PUT", "PATCH"}
  {
    if httpMethod == "POST" then Create
    else if httpMethod == "PUT" || httpMethod == "PATCH" then Update
    else NotAllowed
  }

  /** The catch blocks: 400 for an invalid argument, 500 for anything else, with the message as `error`. */
  function ErrorResponse(e: Exception): (r: Response)
    ensures r.body == ErrorBody(Message(e))
    ensures r.code == 400 <==> e.InvalidArgument?
    ensures r.code in {400, 500}
  {
    Response(if e.InvalidArgument? then 400 else 500, ErrorBody(Message(e)))
  }

  /** Whether a POST body passes both the router's presence check and `handler`'s `empty()` check. */
  predicate CreateInputOk(p: Payload) {
    p.nationalId.Some? && p.licenseId.Some? && !IsEmpty(Trim(p.nationalId.value)) && !IsEmpty(Trim(p.licenseId.value))
  }

  /** Whether a PUT or PATCH body passes both the router's presence check and `update_handler`'s check. */
  predicate UpdateInputOk(p: Payload) {
    p.requestId.Some? && p.status.Some? && p.requestId.value != 0 && !IsEmpty(Trim(p.status.value))
  }

  /** Routes one request; string fields are trimmed before they reach the handlers. */
  method Route(db: Db, httpMethod: string, payload: Payload, now: Instant, addPeriod: AddPeriod)
    returns (resp: Response)
    requires db.Valid()
    modifies db`requests, db`nextId
    ensures db.Valid()
    ensures EndpointOf(httpMethod) == NotAllowed ==>
      resp == Response(405, ErrorBody(MethodNotAllowed)) && db.requests == old(db.requests)
    ensures EndpointOf(httpMethod) == Create && !CreateInputOk(payload) ==>
      resp == Response(400, ErrorBody(CreateInputMessage)) && db.requests == old(db.requests)
    ensures EndpointOf(httpMethod) == Create && CreateInputOk(payload) ==>
      var nationalId, licenseId := Trim(payload.nationalId.value), Trim(payload.licenseId.value);
      && resp == Response(200, CreatedBody(Created(First(Where(db.users, UserKey, nationalId)),
                                                   First(Where(db.licenses, LicenseKey, licenseId)),
                                                   old(db.nextId))))
      && db.requests == old(db.requests)[old(db.nextId) := PendingRow(nationalId, licenseId)]
    ensures EndpointOf(httpMethod) == Update && !UpdateInputOk(payload) ==>
      resp == Response(400, ErrorBody(UpdateInputMessage)) && db.requests == old(db.requests)
    ensures EndpointOf(httpMethod) == Update && UpdateInputOk(payload) ==>
      var requestId, status := payload.requestId.value, Trim(payload.status.value);
      var o := UpdateSpec(old(db.requests), db.licenses, requestId, status, now, addPeriod);
      && db.requests == o.requests
      && resp == match o.result
                 case Success(flag) => Response(200, UpdatedBody(Updated(requestId, status, flag)))
                 case Failure(e) => ErrorResponse(e)
    ensures EndpointOf(httpMethod) == Create && CreateInputOk(payload) ==> db.nextId == old(db.nextId) + 1
    ensures !(EndpointOf(httpMethod) == Create && CreateInputOk(payload)) ==> db.nextId == old(db.nextId)
    ensures old(Consistent(db.requests)) ==> Consistent(db.requests)
  {
    if httpMethod == "POST" {
      if payload.nationalId.None? || payload.licenseId.None? {
        return ErrorResponse(InvalidArgument(CreateInputMessage));
      }
      var result := Handler(db, Trim(payload.nationalId.value), Trim(payload.licenseId.value));
      match result
      case Success(created) => resp := Response(200, CreatedBody(created));
      case Failure(e) => resp := ErrorResponse(e);
    } else if httpMethod == "PUT" || httpMethod == "PATCH" {
      if payload.requestId.None? || payload.status.None? {
        return ErrorResponse(InvalidArgument(UpdateInputMessage));
      }
      var result := UpdateHandler(db, payload.requestId.value, Trim(payload.status.value), now, addPeriod);
      match result
      case Success(updated) => resp := Response(200, UpdatedBody(updated));
      case Failure(e) => resp := ErrorResponse(e);
    } else {
      resp := Response(405, ErrorBody(MethodNotAllowed));
    }
  }

  /** A status of "0", with or without blanks `trim()` strips on either side, is turned away with 400 before any write. */
  lemma PaddedZeroStatusIsBadRequest(requestId: int, pre: string, post: string)
    requires forall k :: 0 <= k < |pre| ==> IsTrimmable(pre[k])
    requires forall k :: 0 <= k < |post| ==> IsTrimmable(post[k])
    ensures !UpdateInputOk(Payload(None, None, Some(requestId), Some(pre + "0" + post)))
  {
    var s := pre + "0" + post;
    var a := LeadingCount(s, IsTrimmable);
    assert s[|pre|] == '0';
    assert a == |pre|;
    var t := s[a..];
    assert t == "0" + post;
    var b := TrailingCount(t, IsTrimmable);
    assert t[0] == '0';
    assert b == |post|;
    assert Trim(s) == "0";
  }

  /**
   * `trim()` does not strip a form feed but the numeric-string grammar
   * skips it, so a PUT with status "\f0" passes every input check and
   * takes the reject path.
   */
  lemma FormFeedZeroReachesReject(requestId: int)
    requires requestId != 0
    ensures var status := [12 as char, '0'];
      && UpdateInputOk(Payload(None, None, Some(requestId), Some(status)))
      && Trim(status) == status
      && PathOf(status) == Reject
  {
    var s := [12 as char, '0'];
    TrimKeeps(s);
    var a := LeadingCount(s, IsNumericSpace);
    assert IsNumericSpace(s[0]) && !IsNumericSpace(s[1]);
    assert a == 1;
    var t := s[a..];
    assert t == "0";
    var b := TrailingCount(t, IsNumericSpace);
    assert !IsNumericSpace(t[0]);
    assert b == 0;
    assert Unsigned(s) == "0";
    assert LeadingCount("0", IsNotExponentMark) == 1 by { assert IsNotExponentMark('0'); }
    assert Mantissa(s) == "0" && Exponent(s) == [];
    assert LeadingCount("0", IsNotDot) == 1 by { assert IsNotDot('0'); }
    assert LooselyEqualsZero(s);
  }

  /** The status "1" survives trimming, passes the `empty()` check and takes the approve path. */
  lemma ApproveStatusPassesChecks()
    ensures Trim("1") == "1" && !IsEmpty("1") && PathOf("1") == Approve
  {
    TrimKeeps("1");
  }

  /**
   * A POST on a table with no requests creates request 1, pending and
   * without expiry, whether or not a user row exists.
   */
  method CreateOnEmptyTable(nationalId: string, licenseId: string, license: LicenseRow,
                            now: Instant, addPeriod: AddPeriod)
    returns (created: Response, pending: RequestRow)
    requires Trim(nationalId) == nationalId && !IsEmpty(nationalId)
    requires Trim(licenseId) == licenseId && !IsEmpty(licenseId)
    requires license.licenseId == licenseId
    ensures created == Response(200, CreatedBody(Created(None, Some(license), 1)))
    ensures pending == RequestRow("pending", nationalId, licenseId, None)
  {
    var db := new Db([], [license]);
    assert Where([license], LicenseKey, licenseId) == [license];
    created := Route(db, "POST", Payload(Some(nationalId), Some(licenseId), None, None), now, addPeriod);
    pending := db.requests[1];
  }

  /**
   * A PUT with status "1" on a pending request whose license is valid for
   * `validaty` units approves it with expiry `validaty` units from now.
   */
  method ApprovePending(nationalId: string, licenseId: string, validaty: int, unit: PeriodUnit,
                        now: Instant, addPeriod: AddPeriod)
    returns (approved: Response, row: RequestRow)
    ensures approved == Response(200, UpdatedBody(Updated(1, "1", true)))
    ensures row == RequestRow("1", nationalId, licenseId, Some(addPeriod(now, validaty, unit)))
  {
    var license := LicenseRow(licenseId, validaty, CodeOf(unit), map[]);
    var db := new Db([], [license]);
    db.requests, db.nextId := map[1 := PendingRow(nationalId, licenseId)], 2;
    ApproveStatusPassesChecks();
    ApprovePath(db.requests, db.licenses, 1, now, addPeriod);
    assert IsFirstLicense(db.licenses, licenseId, 0);
    UnitCodes(CodeOf(unit), unit);
    approved := Route(db, "PUT", Payload(None, None, Some(1), Some("1")), now, addPeriod);
    row := db.requests[1];
  }
}
