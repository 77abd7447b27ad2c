/**
 * The database the endpoint talks to, held in memory: the read-only
 * `users` and `licenses` tables, the `licenserequests` table keyed by id,
 * and the auto-increment counter that hands out request ids.
 */
module Database {
  import opened Wrappers
  import opened PhpNumeric
  import opened LicenseRequests

  class Db {
    var users: seq<UserRow>
    var licenses: seq<LicenseRow>
    var requests: RequestTable
    var nextId: int

    /** Ids are positive and every id in use is below the next one handed out. */
    ghost predicate Valid()
      reads this
    {
      nextId >= 1 && forall id :: id in requests ==> 1 <= id < nextId
    }

    constructor (users: seq<UserRow>, licenses: seq<LicenseRow>)
      ensures Valid()
      ensures this.users == users && this.licenses == licenses
      ensures requests == map[] && nextId == 1
    {
      this.users := users;
      this.licenses := licenses;
      requests := map[];
      nextId := 1;
    }

    /** `get_user_info`: the users with this national id, in table order. */
    method SelectUsers(nationalId: string) returns (rows: seq<UserRow>)
      ensures forall u :: u in rows <==> u in users && u.nationalId == nationalId
      ensures rows == Where(users, UserKey, nationalId)
    {
      rows := Where(users, UserKey, nationalId);
    }

    /** `get_license_info`: the licenses with this license id, in table order. */
    method SelectLicenses(licenseId: string) returns (rows: seq<LicenseRow>)
      ensures forall l :: l in rows <==> l in licenses && l.licenseId == licenseId
      ensures rows == Where(licenses, LicenseKey, licenseId)
    {
      rows := Where(licenses, LicenseKey, licenseId);
    }

    /**
     * `create_license_request`: inserts one pending row with no expiry
     * under a fresh id and returns that id; no other row changes.
     */
    method CreateLicenseRequest(nationalId: string, licenseId: string) returns (id: int)
      requires Valid()
      modifies this`requests, this`nextId
      ensures Valid()
      ensures id == old(nextId) && id !in old(requests) && nextId == id + 1
      ensures requests == old(requests)[id := PendingRow(nationalId, licenseId)]
      ensures old(Consistent(requests)) ==> Consistent(requests)
    {
      id := nextId;
      if old(Consistent(requests)) {
        InsertPreservesConsistency(requests, id, nationalId, licenseId);
      }
      requests := requests[id := PendingRow(nationalId, licenseId)];
      nextId := nextId + 1;
    }

    /**
     * `update_license_request_status`: the reject, approve or error path
     * as `UpdateSpec` describes it, carried out on the table in place.
     */
    method UpdateLicenseRequestStatus(requestId: int, status: string, now: Instant, addPeriod: AddPeriod)
      returns (r: Result<bool, Exception>)
      requires Valid()
      modifies this`requests
      ensures Valid()
      ensures UpdateOutcome(r, requests) == UpdateSpec(old(requests), licenses, requestId, status, now, addPeriod)
      ensures old(Consistent(requests)) ==> Consistent(requests)
    {
      if Consistent(requests) {
        UpdatePreservesConsistency(requests, licenses, requestId, status, now, addPeriod);
      }
      ghost var path := PathOf(status);
      if LooselyEqualsZero(status) {
        assert path == Reject;
        if requestId in requests {
          requests := requests[requestId := requests[requestId].(approvalStatus := status, expireTime := None)];
        }
        return Success(true);
      }
      if status != "1" {
        assert path == Unrecognised;
        return Failure(InvalidStatus(status));
      }
      assert path == Approve;
      if requestId !in requests {
        return Failure(RequestNotFound(requestId));
      }
      var license := requests[requestId].license;
      var licenseInfo := First(Where(licenses, LicenseKey, license));
      if licenseInfo.None? {
        return Failure(LicenseNotFound(license));
      }
      var validaty := licenseInfo.value.validaty;
      var validatyUnit := licenseInfo.value.validatyUnit;
      var unit: PeriodUnit;
      if validatyUnit == 1 {
        unit := Days;
      } else if validatyUnit == 2 {
        unit := Months;
      } else if validatyUnit == 3 {
        unit := Years;
      } else {
        return Failure(InvalidUnit(validatyUnit));
      }
      var expireTime := addPeriod(now, validaty, unit);
      requests := requests[requestId := requests[requestId].(approvalStatus := status, expireTime := Some(expireTime))];
      r := Success(true);
    }
  }
}
