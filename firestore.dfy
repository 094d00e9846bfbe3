/**
 The part of the Firestore database that the shortening action touches,
 abstracted to two pieces of state:
 - the `counters/global_url_counter` document, present or absent, holding an integer;
 - the `urls` collection, a map from document id (the short code) to its data.
 */
module Firestore {

  datatype Option<+T> = None | Some(value: T)

  /** The data of one document of the `urls` collection.
      Timestamps are milliseconds since the epoch. */
  datatype UrlRecord = UrlRecord(originalUrl: string, createdAt: int, expiresAt: int)

  /** A document as a query returns it: its id and its data. */
  type UrlDoc = (string, UrlRecord)

  /** The two parts of the store as one value. */
  datatype Store = Store(counter: Option<int>, urls: map<string, UrlRecord>)

  /** The answers the equality query on `originalUrl` with `limit(1)` may give:
      nothing only when no document matches, otherwise any one matching
      document, exactly as it is stored. The query does not look at expiry. */
  predicate IsQueryAnswer(urls: map<string, UrlRecord>, u: string, answer: Option<UrlDoc>)
  {
    match answer
    case None => forall id :: id in urls ==> urls[id].originalUrl != u
    case Some(d) => d.0 in urls && urls[d.0] == d.1 && d.1.originalUrl == u
  }

  /** The database handle `db`. */
  class Database {
    var counter: Option<int>
    var urls: map<string, UrlRecord>

    constructor (counter: Option<int>, urls: map<string, UrlRecord>)
      ensures this.counter == counter && this.urls == urls
    {
      this.counter := counter;
      this.urls := urls;
    }

    function State(): Store
      reads this
    {
      Store(counter, urls)
    }

    /** `getDocs(query(urls, where('originalUrl', '==', u), limit(1)))`:
        which matching document comes back is the store's choice. */
    method QueryByOriginalUrl(u: string) returns (answer: Option<UrlDoc>)
      ensures IsQueryAnswer(urls, u, answer)
    {
      if id :| id in urls && urls[id].originalUrl == u {
        answer := Some((id, urls[id]));
      } else {
        answer := None;
      }
    }

    /** `setDoc(doc(db, 'urls', id), rec)`: creates the document or replaces it. */
    method SetUrl(id: string, rec: UrlRecord)
      modifies this`urls
      ensures urls == old(urls)[id := rec]
      ensures id in urls && urls[id] == rec
      ensures forall other :: other in old(urls) && other != id ==> other in urls && urls[other] == old(urls)[other]
    {
      urls := urls[id := rec];
    }
  }
}
