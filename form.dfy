/**
 * The new-session form and its submit handler. The form is in edit mode while
 * it carries an edit index (the `data-edit-index` attribute); a submission
 * that passes both validators then overwrites the session at that index and
 * leaves edit mode, and otherwise stores a new session. A submission that
 * fails validation changes nothing.
 */
module SubmitHandler {
  import opened Wrappers
  import opened Sessions
  import opened Validation
  import opened Storage

  /** What a submission did. */
  datatype SubmitOutcome = InvalidDate | InvalidTimes | Updated(index: nat) | Stored

  class NewSessionForm {
    const store: SessionStore
    /** The edit index, when the form is in edit mode. */
    var editIndex: Option<nat>

    /** The edit index always names a stored session. */
    ghost predicate Valid()
      reads this, store
    {
      editIndex.Some? ==> editIndex.value < |store.GetAllStoredSessions()|
    }

    constructor (store: SessionStore)
      ensures this.store == store && editIndex == None && Valid()
    {
      this.store := store;
      editIndex := None;
    }

    /**
     * `editSession`: puts the form in edit mode for the session at `index` and
     * gives back that session, whose fields fill the inputs. The index is that
     * of a session in the rendered list.
     */
    method EditSession(index: nat) returns (session: Session)
      requires Valid() && index < |store.GetAllStoredSessions()|
      modifies this
      ensures Valid() && editIndex == Some(index)
      ensures session == store.GetAllStoredSessions()[index]
    {
      session := store.GetAllStoredSessions()[index];
      editIndex := Some(index);
    }

    /** The submit handler, given the three input values. */
    method Submit(date: string, startTime: string, endTime: string) returns (outcome: SubmitOutcome)
      requires Valid()
      modifies this, store
      ensures Valid()
      ensures CheckDateInvalid(date) ==> outcome == InvalidDate
      ensures !CheckDateInvalid(date) && CheckTimesInvalid(startTime, endTime) ==> outcome == InvalidTimes
      ensures (outcome == InvalidDate || outcome == InvalidTimes)
                ==> store.entries == old(store.entries) && editIndex == old(editIndex)
      ensures (!CheckDateInvalid(date) && !CheckTimesInvalid(startTime, endTime) && old(editIndex).Some?)
                ==> && outcome == Updated(old(editIndex).value)
                    && store.GetAllStoredSessions()
                       == old(store.GetAllStoredSessions())[old(editIndex).value := Session(date, startTime, endTime)]
                    && store.entries == old(store.entries)[STORAGE_KEY := store.GetAllStoredSessions()]
                    && editIndex == None
      ensures (!CheckDateInvalid(date) && !CheckTimesInvalid(startTime, endTime) && old(editIndex).None?)
                ==> && outcome == Stored
                    && NewestFirst(store.GetAllStoredSessions())
                    && multiset(store.GetAllStoredSessions())
                       == multiset(old(store.GetAllStoredSessions()) + [Session(date, startTime, endTime)])
                    && store.entries == old(store.entries)[STORAGE_KEY := store.GetAllStoredSessions()]
                    && editIndex == None
    {
      if CheckDateInvalid(date) {
        return InvalidDate;
      }
      if CheckTimesInvalid(startTime, endTime) {
        return InvalidTimes;
      }
      if editIndex.Some? {
        var index := editIndex.value;
        store.UpdateSession(index, date, startTime, endTime);
        editIndex := None;
        outcome := Updated(index);
      } else {
        store.StoreNewSession(date, startTime, endTime);
        outcome := Stored;
      }
    }
  }
}
