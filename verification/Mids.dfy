/**
  The store of message ids that have been received, each with the time it was recorded; an id
  is forgotten after thirty days.
 */
module Mids {
  import opened Bytes

  type Mid = seq<byte>

  const MID_EXPIREDAYS := 30
  const EXPIRE := MID_EXPIREDAYS * 24 * 60 * 60

  type Db = map<Mid, int>

  /** The id is in the store and not too old. */
  predicate Known(db: Db, mid: Mid, now: int) {
    mid in db && now - db[mid] <= EXPIRE
  }

  /** The store after a look for `mid`, which removes it if it is too old. */
  function Checked(db: Db, mid: Mid, now: int): Db {
    if mid in db && !Known(db, mid, now) then db - {mid} else db
  }

  /** The store without the ids that are too old. */
  function Unexpired(db: Db, now: int): Db {
    map m | m in db && Known(db, m, now) :: db[m]
  }

  class MidDb {
    var db: Db

    constructor ()
      ensures db == map[]
    {
      db := map[];
    }

    method RecordMid(mid: Mid, now: int)
      modifies this
      ensures db == old(db)[mid := now]
    {
      db := db[mid := now];
    }

    method CheckMid(mid: Mid, now: int) returns (found: bool)
      modifies this
      ensures found == Known(old(db), mid, now) && db == Checked(old(db), mid, now)
      ensures found <==> mid in old(db) && now - old(db)[mid] <= 2592000
      ensures db == if found then old(db) else old(db) - {mid}
    {
      if mid in db {
        var stored := db[mid];
        found := true;
        if now - stored > EXPIRE {
          db := db - {mid};
          found := false;
        }
      } else {
        found := false;
      }
    }

    /** A cursor goes once over all entries, in any order, and removes those that are too old. */
    method ExpireMids(now: int)
      modifies this
      ensures db == Unexpired(old(db), now)
      ensures forall m :: m in db <==> m in old(db) && now - old(db)[m] <= 2592000
      ensures forall m :: m in db ==> db[m] == old(db)[m]
    {
      var left := db.Keys;
      while left != {}
        invariant left <= old(db).Keys
        invariant forall m :: m in db <==> m in old(db) && (m in left || Known(old(db), m, now))
        invariant forall m :: m in db ==> db[m] == old(db)[m]
        decreases |left|
      {
        var m :| m in left;
        left := left - {m};
        if now - db[m] > EXPIRE {
          db := db - {m};
        }
      }
    }
  }
}
