/** The Redis operations the program uses, over a single clock in milliseconds. */
module Redis {
  import opened Text
  import opened Json

  /** A plain string, the JSON text of a device state, or a set of strings. */
  datatype Data = Plain(text: string) | State(fields: map<string, Value>) | Members(ids: set<string>)

  datatype Entry = Entry(data: Data, expiry: Option<int>)

  datatype Db = Db(entries: map<string, Entry>, now: int) {

    /** The entry under key, unless it has expired. */
    function Get(key: string): Option<Entry> {
      if key in entries && (entries[key].expiry.Some? ==> now < entries[key].expiry.value)
      then Some(entries[key]) else None
    }

    /** SET key data with a time to live, whatever was stored before. */
    function Put(key: string, data: Data, ttl: int): Db {
      this.(entries := entries[key := Entry(data, Some(now + ttl))])
    }

    function Delete(key: string): Db {
      this.(entries := entries - {key})
    }

    /** SMEMBERS: a missing key and a key of another type both read as empty. */
    function SetAt(key: string): set<string> {
      match Get(key)
      case Some(Entry(Members(ids), _)) => ids
      case _ => {}
    }

    /** SADD: refused, without effect, on a key of another type. */
    function AddMember(key: string, id: string): Db {
      match Get(key)
      case None => this.(entries := entries[key := Entry(Members({id}), None)])
      case Some(Entry(Members(ids), e)) => this.(entries := entries[key := Entry(Members(ids + {id}), e)])
      case _ => this
    }

    /** SREM: a set that becomes empty disappears. */
    function RemoveMember(key: string, id: string): Db {
      match Get(key)
      case Some(Entry(Members(ids), e)) =>
        if ids <= {id} then Delete(key)
        else this.(entries := entries[key := Entry(Members(ids - {id}), e)])
      case _ => this
    }

    /** EXPIRE: only an existing key gets the new time to live. */
    function Extend(key: string, ttl: int): Db {
      if Get(key).Some? then this.(entries := entries[key := entries[key].(expiry := Some(now + ttl))]) else this
    }
  }

  /** The connection every component shares. */
  class Client {
    var db: Db
  }

  /** The two databases hold the same entry, expiry included, under key. */
  predicate SameAt(before: Db, after: Db, key: string) {
    before.Get(key) == after.Get(key)
  }
}
