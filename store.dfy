/** The message store: `storage/data.json`, a JSON object from ISO-8601
    timestamps to submitted entries. A POST to `/message` and a GET of
    `/read` read the whole file (main.py:61-68 and 96-103); the POST
    updates the loaded dict in place with `data.update({timestamp: entry})`
    and writes it back (main.py:70-72). */
module Store {
  import opened Wrappers
  import opened Form

  /** Timestamp to entry, as the JSON file holds it. */
  type Messages = map<string, Entry>

  /** What `json.load` makes of the file's contents: a `JSONDecodeError`, or
      the decoded object. */
  datatype JsonResult = Malformed | Decoded(messages: Messages)

  /** The store file: `None` when it does not exist. */
  type StoreFile = Option<JsonResult>

  /** The load rule shared by the POST handler and the `/read` view: a
      missing file and a `JSONDecodeError` both give the empty store. */
  function Load(file: StoreFile): (s: Messages)
    ensures file.None? ==> s == map[]
    ensures file == Some(Malformed) ==> s == map[]
    ensures file.Some? && file.value.Decoded? ==> s == file.value.messages
  {
    match file
    case None => map[]
    case Some(Malformed) => map[]
    case Some(Decoded(messages)) => messages
  }

  /** The file as `json.dump` leaves it after writing `messages`. */
  function Saved(messages: Messages): (file: StoreFile)
    ensures file.Some?
  {
    Some(Decoded(messages))
  }

  /** Reading back what was written gives the same store. */
  lemma {:induction false} LoadSaved(messages: Messages)
    ensures Load(Saved(messages)) == messages
  {
  }

  /** The dict that `do_POST` loads and updates in place. */
  class MessageStore {
    var messages: Messages

    /** Loads the store from the file (main.py:61-68). */
    constructor (file: StoreFile)
      ensures messages == Load(file)
    {
      messages := Load(file);
    }

    /** `data.update({timestamp: entry})`: the timestamp now maps to the
        entry, every other key keeps its value, and the store grows by one
        exactly when the timestamp was new. */
    method Append(timestamp: string, entry: Entry)
      modifies this
      ensures messages == old(messages)[timestamp := entry]
      ensures timestamp in messages && messages[timestamp] == entry
      ensures forall k :: k != timestamp ==> (k in messages <==> k in old(messages))
      ensures forall k :: k != timestamp && k in messages ==> messages[k] == old(messages)[k]
      ensures |messages| == if timestamp in old(messages) then |old(messages)| else |old(messages)| + 1
    {
      messages := messages[timestamp := entry];
    }
  }

  /** The store after one successful POST at `timestamp`. */
  function AfterPost(file: StoreFile, timestamp: string, entry: Entry): (s: Messages)
    ensures timestamp in s && s[timestamp] == entry
    ensures forall k :: k != timestamp ==> (k in s <==> k in Load(file))
    ensures forall k :: k != timestamp && k in s ==> s[k] == Load(file)[k]
    ensures |s| == if timestamp in Load(file) then |Load(file)| else |Load(file)| + 1
  {
    Load(file)[timestamp := entry]
  }

  /** A missing file, or one holding undecodable JSON, is silently replaced:
      after a POST the store holds the new entry alone, and every earlier
      submission is lost. */
  lemma {:induction false} UndecodableStoreReplaced(timestamp: string, entry: Entry)
    ensures AfterPost(Some(Malformed), timestamp, entry) == map[timestamp := entry]
    ensures AfterPost(None, timestamp, entry) == map[timestamp := entry]
  {
  }

  /** Two POSTs at distinct timestamps leave both entries, one more each;
      at the same timestamp the second overwrites the first. */
  lemma {:induction false} TwoPosts(file: StoreFile, t1: string, e1: Entry, t2: string, e2: Entry)
    requires t1 !in Load(file) && t2 !in Load(file)
    ensures var s := AfterPost(Saved(AfterPost(file, t1, e1)), t2, e2);
            (t1 != t2 ==> |s| == |Load(file)| + 2 && s[t1] == e1 && s[t2] == e2) &&
            (t1 == t2 ==> |s| == |Load(file)| + 1 && s[t2] == e2)
  {
    LoadSaved(AfterPost(file, t1, e1));
  }
}
