/**
 * The session store: one entry of the page's local storage, under the key
 * "learner-hours", holding the whole sequence of sessions. Every mutation
 * reads the sequence, changes it and writes all of it back.
 *
 * Local storage maps keys to serialised text. Serialisation and parsing are
 * taken to be lossless, so an entry is kept here as the sequence it encodes.
 */
module Storage {
  import opened StringOrder
  import opened Sessions

  const STORAGE_KEY: string := "learner-hours"

  class SessionStore {
    /** The page's local storage, key by key. */
    var entries: map<string, seq<Session>>

    constructor (entries: map<string, seq<Session>>)
      ensures this.entries == entries
    {
      this.entries := entries;
    }

    /** `getAllStoredSessions`: the stored sequence, or the empty one when nothing is stored yet. */
    function GetAllStoredSessions(): (sessions: seq<Session>)
      reads this
      ensures STORAGE_KEY !in entries ==> sessions == []
      ensures STORAGE_KEY in entries ==> sessions == entries[STORAGE_KEY]
    {
      if STORAGE_KEY in entries then entries[STORAGE_KEY] else []
    }

    /** `localStorage.setItem(STORAGE_KEY, JSON.stringify(sessions))`: a later read gives `sessions` back. */
    method WriteSessions(sessions: seq<Session>)
      modifies this
      ensures entries == old(entries)[STORAGE_KEY := sessions]
      ensures GetAllStoredSessions() == sessions
    {
      entries := entries[STORAGE_KEY := sessions];
    }

    /**
     * `storeNewSession`: appends the session, sorts newest first and writes the
     * sequence back. No other storage entry changes.
     */
    method StoreNewSession(date: string, startTime: string, endTime: string)
      modifies this
      ensures entries == old(entries)[STORAGE_KEY := GetAllStoredSessions()]
      ensures NewestFirst(GetAllStoredSessions())
      ensures multiset(GetAllStoredSessions())
           == multiset(old(GetAllStoredSessions()) + [Session(date, startTime, endTime)])
      ensures |GetAllStoredSessions()| == |old(GetAllStoredSessions())| + 1
      ensures Session(date, startTime, endTime) in GetAllStoredSessions()
    {
      var sessions := GetAllStoredSessions();
      sessions := sessions + [Session(date, startTime, endTime)];
      sessions := SortNewestFirst(sessions);
      WriteSessions(sessions);
      assert Session(date, startTime, endTime) in multiset(sessions);
    }

    /**
     * `updateSession`: overwrites the session at `index` and writes the sequence
     * back as it is, without sorting it again.
     */
    method UpdateSession(index: nat, date: string, startTime: string, endTime: string)
      requires index < |GetAllStoredSessions()|
      modifies this
      ensures entries == old(entries)[STORAGE_KEY := old(GetAllStoredSessions())[index := Session(date, startTime, endTime)]]
      ensures |GetAllStoredSessions()| == |old(GetAllStoredSessions())|
      ensures GetAllStoredSessions()[index] == Session(date, startTime, endTime)
      ensures forall j :: 0 <= j < |GetAllStoredSessions()| && j != index
                ==> GetAllStoredSessions()[j] == old(GetAllStoredSessions())[j]
    {
      var sessions := GetAllStoredSessions();
      sessions := sessions[index := Session(date, startTime, endTime)];
      WriteSessions(sessions);
    }
  }

  /**
   * Because an update does not sort again, the stored sequence stays newest
   * first exactly when the new date fits between the dates of its neighbours.
   */
  lemma UpdateKeepsNewestFirstIff(s: seq<Session>, index: nat, x: Session)
    requires NewestFirst(s) && index < |s|
    ensures NewestFirst(s[index := x]) <==>
              && (index == 0 || !Less(s[index - 1].date, x.date))
              && (index == |s| - 1 || !Less(x.date, s[index + 1].date))
  {
    var r := s[index := x];
    if (index == 0 || !Less(s[index - 1].date, x.date)) && (index == |s| - 1 || !Less(x.date, s[index + 1].date)) {
      forall i, j | 0 <= i < j < |r|
        ensures !Less(r[i].date, r[j].date)
      {
        if j == index && i < index - 1 {
          LessOrEqualTransitive(x.date, s[index - 1].date, s[i].date);
        } else if i == index && j > index + 1 {
          LessOrEqualTransitive(s[j].date, s[index + 1].date, x.date);
        }
      }
    } else if index > 0 && Less(s[index - 1].date, x.date) {
      assert r[index - 1] == s[index - 1] && r[index] == x;
    } else {
      assert r[index] == x && r[index + 1] == s[index + 1];
    }
  }
}
