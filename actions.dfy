/**
 The server action that shortens a URL: a dedup lookup, a counter
 transaction, and the write of the new `urls` document.

 What the model cannot see is passed in:
 - `configured`: whether the Firebase project id is set in the environment;
 - `isValidUrl`: the URL schema's verdict on the input;
 - `toBase62`: the encoder of the new count (nothing is assumed about it);
 - `now`: the clock, in milliseconds;
 - `faults`: which awaited store step throws.
 */
module Actions {
  import opened Firestore

  const NotConfiguredError := "Firebase project is not configured. Cannot create short URL."
  const InvalidUrlError := "Please provide a valid URL."
  const GenericError := "Could not create short URL. Please try again later."

  /** Thirty days in milliseconds: the lifetime of a new short URL. */
  const ThirtyDaysMs: int := 30 * 24 * 60 * 60 * 1000

  /** The action's result object `{ shortCode?, error? }`. */
  datatype Response = Response(shortCode: Option<string>, error: Option<string>)
  {
    predicate ExactlyOne()
    {
      shortCode.Some? != error.Some?
    }
  }

  function Success(code: string): Response
  {
    Response(Some(code), None)
  }

  function Failure(message: string): Response
  {
    Response(None, Some(message))
  }

  /** Which awaited store operation throws: the dedup query, the counter
      transaction (which then commits nothing), or the write of the new record. */
  datatype Faults = Faults(queryFails: bool, transactionFails: bool, writeFails: bool)

  const NoFaults := Faults(false, false, false)

  /** The store after one call, and what the call returned. */
  datatype Outcome = Outcome(store: Store, response: Response)

  /** The dedup decision on the document the query returned: its id is reused
      only while the record has not expired (the comparison is strict). */
  function FindExistingShortUrl(answer: Option<UrlDoc>, now: int): (r: Option<string>)
    ensures r.Some? ==> answer.Some? && r.value == answer.value.0 && now < answer.value.1.expiresAt
    ensures r.None? ==> answer.None? || answer.value.1.expiresAt <= now
  {
    match answer
    case None => None
    case Some((id, rec)) => if rec.expiresAt > now then Some(id) else None
  }

  /** The value of the counter document, an absent document counting as 0. */
  function CounterValue(c: Option<int>): int
  {
    match c
    case None => 0
    case Some(v) => v
  }

  /** The value the counter transaction stores and returns: 1 when the
      document is absent, the stored value plus one otherwise. */
  function NextCount(c: Option<int>): (n: int)
    ensures n == CounterValue(c) + 1
    ensures c.None? ==> n == 1
  {
    match c
    case None => 1
    case Some(v) => v + 1
  }

  /** The record written for a new short URL at time `now`. */
  function NewRecord(longUrl: string, now: int): (rec: UrlRecord)
    ensures rec.originalUrl == longUrl && rec.createdAt == now
    ensures rec.expiresAt - rec.createdAt == ThirtyDaysMs
  {
    UrlRecord(longUrl, now, now + ThirtyDaysMs)
  }

  /** The whole action as a function of the store before the call. `answer` is
      the document the dedup query returns; it matters only once the query runs.
      A dedup hit whose id is the empty string is falsy in the source's test,
      so it takes the allocation path; an empty new code names no document,
      so its write throws like a failing one. */
  function Shorten(s: Store, longUrl: string, configured: bool, isValidUrl: string -> bool,
                   toBase62: int -> string, now: int, answer: Option<UrlDoc>, faults: Faults): (o: Outcome)
    ensures o.response.ExactlyOne()
    ensures o.response.shortCode.Some? ==> o.response.shortCode.value != ""
    ensures s.urls.Keys <= o.store.urls.Keys
    ensures CounterValue(s.counter) <= CounterValue(o.store.counter) <= CounterValue(s.counter) + 1
    ensures o.response.error.Some? ==> o.store.urls == s.urls
    ensures o.store.counter != s.counter ==> o.store.counter == Some(NextCount(s.counter))
  {
    if !configured then Outcome(s, Failure(NotConfiguredError))
    else if !isValidUrl(longUrl) then Outcome(s, Failure(InvalidUrlError))
    else if faults.queryFails then Outcome(s, Failure(GenericError))
    else
      var existing := FindExistingShortUrl(answer, now);
      if existing.Some? && existing.value != "" then Outcome(s, Success(existing.value))
      else if faults.transactionFails then Outcome(s, Failure(GenericError))
      else
        var n := NextCount(s.counter);
        var counted := s.(counter := Some(n));
        var code := toBase62(n);
        if faults.writeFails || code == "" then Outcome(counted, Failure(GenericError))
        else
          Outcome(counted.(urls := s.urls[code := NewRecord(longUrl, now)]), Success(code))
  }

  /** The callback of `runTransaction`: read the counter document, create it
      at 1 or store its value plus one, and return what was stored. A failed
      transaction leaves the counter as it was. */
  method CounterTransaction(db: Database, fails: bool) returns (committed: bool, newCount: int)
    modifies db`counter
    ensures committed == !fails
    ensures committed ==> newCount == NextCount(old(db.counter)) && db.counter == Some(newCount)
    ensures !committed ==> db.counter == old(db.counter)
  {
    if fails {
      return false, 0;
    }
    var counterDoc := db.counter;
    if counterDoc.None? {
      db.counter := Some(1);
      return true, 1;
    }
    newCount := counterDoc.value + 1;
    db.counter := Some(newCount);
    committed := true;
  }

  /** `createShortUrl`. Every early return and the catch-all are explicit;
      `answer` reports the document the dedup query returned. */
  method CreateShortUrl(db: Database, longUrl: string, configured: bool, isValidUrl: string -> bool,
                        toBase62: int -> string, now: int, faults: Faults)
    returns (res: Response, ghost answer: Option<UrlDoc>)
    modifies db
    ensures configured && isValidUrl(longUrl) && !faults.queryFails ==> IsQueryAnswer(old(db.urls), longUrl, answer)
    ensures var o := Shorten(old(db.State()), longUrl, configured, isValidUrl, toBase62, now, answer, faults);
            db.State() == o.store && res == o.response
  {
    answer := None;
    if !configured {
      return Failure(NotConfiguredError), answer;
    }
    if !isValidUrl(longUrl) {
      return Failure(InvalidUrlError), answer;
    }
    var validatedUrl := longUrl;

    if faults.queryFails {
      return Failure(GenericError), answer;
    }
    var found := db.QueryByOriginalUrl(validatedUrl);
    answer := found;
    var existingShortCode := FindExistingShortUrl(found, now);
    if existingShortCode.Some? && existingShortCode.value != "" {
      return Success(existingShortCode.value), answer;
    }

    var committed, newCount := CounterTransaction(db, faults.transactionFails);
    if !committed {
      return Failure(GenericError), answer;
    }

    var shortCode := toBase62(newCount);
    // `doc(db, 'urls', '')` names no document and throws before anything is written.
    if faults.writeFails || shortCode == "" {
      return Failure(GenericError), answer;
    }
    db.SetUrl(shortCode, NewRecord(validatedUrl, now));
    res := Success(shortCode);
  }
}
