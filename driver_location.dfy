/**
 * Driver location sharing: per driver, no record, sharing on, or sharing off. Starting
 * needs an Active driver; stopping and updating need only an existing driver.
 */
module DriverLocationController {
  import opened Common
  import opened Models
  import opened Store

  datatype Reason =
    | CastFailure
    | DriverNotFound
    | DriverInactive
    | SharingStarted
    | SharingNotStarted
    | SharingStopped
    | SharingNotActive
    | LocationUpdated
    | StatusRetrieved

  datatype Sharing = NoRecord | On | Off

  predicate HasRecord(locations: map<Id, DriverLocation>, driverId: Id) {
    exists k :: k in locations && locations[k].driverId == driverId
  }

  /** The sharing state of a driver: whether a record exists and whether it shares. */
  function SharingOf(locations: map<Id, DriverLocation>, driverId: Id): (s: Sharing)
    ensures s == NoRecord <==> !HasRecord(locations, driverId)
    ensures s == On <==> exists k :: k in locations && locations[k].driverId == driverId && locations[k].shareStatus
  {
    if !HasRecord(locations, driverId) then NoRecord
    else if exists k :: k in locations && locations[k].driverId == driverId && locations[k].shareStatus then On
    else Off
  }

  /** Under the unique index on driverId, the state is read off the driver's one record. */
  lemma {:induction false} SharingOfRecord(locations: map<Id, DriverLocation>, k: Id)
    requires OneLocationPerDriver(locations) && k in locations
    ensures SharingOf(locations, locations[k].driverId) == if locations[k].shareStatus then On else Off
  {
    if !locations[k].shareStatus {
      forall j | j in locations && locations[j].driverId == locations[k].driverId
        ensures !locations[j].shareStatus
      {
        assert j == k;
      }
    }
  }

  /**
   * The driver lookup every handler starts with: a request without a driver id finds no
   * driver; a malformed id fails to cast; an unknown one is not found.
   */
  function DriverLookup(drivers: map<Id, Driver>, driverId: Option<Id>): (r: Option<Response<Reason>>)
    ensures r.None? <==> driverId.Some? && ValidId(driverId.value) && driverId.value in drivers
    ensures driverId.Some? && !ValidId(driverId.value) ==> r == Some(Response(500, CastFailure))
    ensures driverId.None? || (ValidId(driverId.value) && driverId.value !in drivers) ==>
              r == Some(Response(404, DriverNotFound))
  {
    match driverId
    case None => Some(Response(404, DriverNotFound))
    case Some(d) =>
      if !ValidId(d) then Some(Response(500, CastFailure))
      else if d !in drivers then Some(Response(404, DriverNotFound))
      else None
  }

  /** Every record of another driver is kept as it was. */
  predicate OthersKept(before: map<Id, DriverLocation>, after: map<Id, DriverLocation>, driverId: Id) {
    forall k :: k in before && before[k].driverId != driverId ==> k in after && after[k] == before[k]
  }

  /**
   * startLocationSharing: an existing Active driver's record is created or has its
   * position overwritten, and sharing is switched on. Saving stamps the record with `now`.
   */
  method StartLocationSharing(db: Db, driverId: Option<Id>, latitude: Coordinate, longitude: Coordinate,
                              address: string, newId: Id, now: int)
    returns (r: Response<Reason>)
    requires newId !in db.locations
    modifies db`locations
    ensures DriverLookup(db.drivers, driverId).Some? ==>
              r == DriverLookup(db.drivers, driverId).value && db.locations == old(db.locations)
    ensures DriverLookup(db.drivers, driverId).None? && db.drivers[driverId.value].status != "Active" ==>
              r == Response(403, DriverInactive) && db.locations == old(db.locations)
    ensures DriverLookup(db.drivers, driverId).None? && db.drivers[driverId.value].status == "Active" ==>
              r == Response(200, SharingStarted) &&
              SharingOf(db.locations, driverId.value) == On &&
              OthersKept(old(db.locations), db.locations, driverId.value) &&
              (!HasRecord(old(db.locations), driverId.value) ==>
                 db.locations == old(db.locations)[newId := DriverLocation(driverId.value, latitude, longitude,
                                                                           address, true, now)]) &&
              (HasRecord(old(db.locations), driverId.value) ==>
                 exists k :: k in old(db.locations) && old(db.locations)[k].driverId == driverId.value &&
                   db.locations == old(db.locations)[k := old(db.locations)[k].(latitude := latitude,
                     longitude := longitude, address := address, shareStatus := true, updatedAt := now)])
    ensures old(OneLocationPerDriver(db.locations)) ==> OneLocationPerDriver(db.locations)
  {
    var lookup := DriverLookup(db.drivers, driverId);
    if lookup.Some? {
      return lookup.value;
    }
    var d := driverId.value;
    if db.drivers[d].status != "Active" {
      return Response(403, DriverInactive);
    }
    if HasRecord(db.locations, d) {
      var k :| k in db.locations && db.locations[k].driverId == d;
      db.locations := db.locations[k := db.locations[k].(latitude := latitude, longitude := longitude,
                                                         address := address, shareStatus := true, updatedAt := now)];
      assert db.locations[k].driverId == d && db.locations[k].shareStatus;
    } else {
      db.locations := db.locations[newId := DriverLocation(d, latitude, longitude, address, true, now)];
      assert db.locations[newId].driverId == d && db.locations[newId].shareStatus;
    }
    r := Response(200, SharingStarted);
  }

  /**
   * stopLocationSharing: with no record nothing is created (404); otherwise sharing is
   * switched off and the stored position is kept. The driver's status is not consulted.
   */
  method StopLocationSharing(db: Db, driverId: Option<Id>, now: int) returns (r: Response<Reason>)
    modifies db`locations
    ensures DriverLookup(db.drivers, driverId).Some? ==>
              r == DriverLookup(db.drivers, driverId).value && db.locations == old(db.locations)
    ensures DriverLookup(db.drivers, driverId).None? && !HasRecord(old(db.locations), driverId.value) ==>
              r == Response(404, SharingNotStarted) && db.locations == old(db.locations)
    ensures DriverLookup(db.drivers, driverId).None? && HasRecord(old(db.locations), driverId.value) ==>
              r == Response(200, SharingStopped) &&
              exists k :: k in old(db.locations) && old(db.locations)[k].driverId == driverId.value &&
                db.locations == old(db.locations)[k := old(db.locations)[k].(shareStatus := false, updatedAt := now)]
    ensures old(OneLocationPerDriver(db.locations)) && r.code == 200 ==> SharingOf(db.locations, driverId.value) == Off
    ensures old(OneLocationPerDriver(db.locations)) ==> OneLocationPerDriver(db.locations)
  {
    var lookup := DriverLookup(db.drivers, driverId);
    if lookup.Some? {
      return lookup.value;
    }
    var d := driverId.value;
    if !HasRecord(db.locations, d) {
      return Response(404, SharingNotStarted);
    }
    var k :| k in db.locations && db.locations[k].driverId == d;
    db.locations := db.locations[k := db.locations[k].(shareStatus := false, updatedAt := now)];
    r := Response(200, SharingStopped);
    if old(OneLocationPerDriver(db.locations)) {
      SharingOfRecord(db.locations, k);
    }
  }

  /**
   * updateLocation: with no record 404, with sharing off 400; only while sharing is on are
   * latitude, longitude and address overwritten. The driver's status is not consulted.
   */
  method UpdateLocation(db: Db, driverId: Option<Id>, latitude: Coordinate, longitude: Coordinate,
                        address: string, now: int)
    returns (r: Response<Reason>)
    modifies db`locations
    ensures DriverLookup(db.drivers, driverId).Some? ==>
              r == DriverLookup(db.drivers, driverId).value && db.locations == old(db.locations)
    ensures DriverLookup(db.drivers, driverId).None? && !HasRecord(old(db.locations), driverId.value) ==>
              r == Response(404, SharingNotStarted) && db.locations == old(db.locations)
    ensures DriverLookup(db.drivers, driverId).None? && HasRecord(old(db.locations), driverId.value) ==>
              exists k :: k in old(db.locations) && old(db.locations)[k].driverId == driverId.value &&
                if old(db.locations)[k].shareStatus then
                  r == Response(200, LocationUpdated) &&
                  db.locations == old(db.locations)[k := old(db.locations)[k].(latitude := latitude,
                    longitude := longitude, address := address, updatedAt := now)]
                else
                  r == Response(400, SharingNotActive) && db.locations == old(db.locations)
    ensures r.code == 200 ==> old(SharingOf(db.locations, driverId.value)) == On
    ensures old(OneLocationPerDriver(db.locations)) && DriverLookup(db.drivers, driverId).None? &&
            old(SharingOf(db.locations, driverId.value)) == Off ==>
              r == Response(400, SharingNotActive) && db.locations == old(db.locations)
    ensures old(OneLocationPerDriver(db.locations)) ==> OneLocationPerDriver(db.locations)
  {
    var lookup := DriverLookup(db.drivers, driverId);
    if lookup.Some? {
      return lookup.value;
    }
    var d := driverId.value;
    if !HasRecord(db.locations, d) {
      return Response(404, SharingNotStarted);
    }
    var k :| k in db.locations && db.locations[k].driverId == d;
    if old(OneLocationPerDriver(db.locations)) {
      SharingOfRecord(db.locations, k);
    }
    if !db.locations[k].shareStatus {
      return Response(400, SharingNotActive);
    }
    db.locations := db.locations[k := db.locations[k].(latitude := latitude, longitude := longitude,
                                                       address := address, updatedAt := now)];
    r := Response(200, LocationUpdated);
  }

  /**
   * getLocationSharingStatus: a read that reports false when the driver has no record and
   * the stored share status otherwise.
   */
  function GetLocationSharingStatus(drivers: map<Id, Driver>, locations: map<Id, DriverLocation>,
                                    driverId: Option<Id>): (r: Reply<Reason, bool>)
    ensures DriverLookup(drivers, driverId).Some? ==>
              r == Refused(DriverLookup(drivers, driverId).value.code, DriverLookup(drivers, driverId).value.reason)
    ensures DriverLookup(drivers, driverId).None? && !HasRecord(locations, driverId.value) ==> r == Found(false)
    ensures r.Found? ==> (r.value <==> SharingOf(locations, driverId.value) == On)
  {
    match DriverLookup(drivers, driverId)
    case Some(failure) => Refused(failure.code, failure.reason)
    case None => Found(SharingOf(locations, driverId.value) == On)
  }

  /** Under the unique index, the status reported is that of the driver's record. */
  lemma {:induction false} StatusIsStoredShareStatus(drivers: map<Id, Driver>, locations: map<Id, DriverLocation>, k: Id)
    requires OneLocationPerDriver(locations) && k in locations
    requires ValidId(locations[k].driverId) && locations[k].driverId in drivers
    ensures GetLocationSharingStatus(drivers, locations, Some(locations[k].driverId)) == Found(locations[k].shareStatus)
  {
    SharingOfRecord(locations, k);
  }
}
