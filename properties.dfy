/**
 What the shortening action guarantees, and what it does not, stated over
 the function `Shorten` that `CreateShortUrl` is proved to follow.
 */
module ShortenProperties {
  import opened Firestore
  import opened Actions

  /** Without a configured project the action answers with the
      configuration error and the store is left as it was. */
  lemma NotConfiguredChangesNothing(s: Store, longUrl: string, isValidUrl: string -> bool,
                                    toBase62: int -> string, now: int, answer: Option<UrlDoc>, faults: Faults)
    ensures Shorten(s, longUrl, false, isValidUrl, toBase62, now, answer, faults)
            == Outcome(s, Failure(NotConfiguredError))
  {
  }

  /** A URL the schema rejects gets the validation error before the store
      is consulted: the response depends neither on the store nor on what the
      query or the later steps would have done, and nothing changes. */
  lemma InvalidUrlReadsNothing(s: Store, s': Store, longUrl: string, isValidUrl: string -> bool,
                               toBase62: int -> string, toBase62': int -> string, now: int, now': int,
                               answer: Option<UrlDoc>, answer': Option<UrlDoc>, faults: Faults, faults': Faults)
    requires !isValidUrl(longUrl)
    ensures Shorten(s, longUrl, true, isValidUrl, toBase62, now, answer, faults)
            == Outcome(s, Failure(InvalidUrlError))
    ensures Shorten(s', longUrl, true, isValidUrl, toBase62', now', answer', faults').response
            == Shorten(s, longUrl, true, isValidUrl, toBase62, now, answer, faults).response
  {
  }

  /** When the document the query returns has not expired, its id is the
      answer, it names a record for this very URL, and neither the counter
      nor the `urls` collection changes, whatever the later steps would do. */
  lemma DedupHitChangesNothing(s: Store, longUrl: string, isValidUrl: string -> bool,
                               toBase62: int -> string, now: int, answer: Option<UrlDoc>, faults: Faults)
    requires isValidUrl(longUrl) && !faults.queryFails
    requires IsQueryAnswer(s.urls, longUrl, answer)
    requires answer.Some? && now < answer.value.1.expiresAt && answer.value.0 != ""
    ensures answer.value.0 in s.urls && s.urls[answer.value.0].originalUrl == longUrl
    ensures Shorten(s, longUrl, true, isValidUrl, toBase62, now, answer, faults)
            == Outcome(s, Success(answer.value.0))
  {
  }

  /** An id the dedup lookup returns always names a stored, unexpired
      record for the URL that was asked for. */
  lemma DedupLookupSound(urls: map<string, UrlRecord>, u: string, answer: Option<UrlDoc>, now: int)
    requires IsQueryAnswer(urls, u, answer)
    ensures var r := FindExistingShortUrl(answer, now);
            r.Some? ==> r.value in urls && urls[r.value].originalUrl == u && now < urls[r.value].expiresAt
  {
  }

  /** With no unexpired record for the URL the lookup finds nothing; in
      particular a record expiring exactly now does not count. */
  lemma DedupMissWithoutLiveRecord(urls: map<string, UrlRecord>, u: string, answer: Option<UrlDoc>, now: int)
    requires IsQueryAnswer(urls, u, answer)
    requires forall id :: id in urls && urls[id].originalUrl == u ==> urls[id].expiresAt <= now
    ensures FindExistingShortUrl(answer, now) == None
  {
  }

  /** When every record for the URL is unexpired and there is one, the
      lookup finds one, whichever the query returns. */
  lemma DedupHitWhenEveryMatchIsLive(urls: map<string, UrlRecord>, u: string, answer: Option<UrlDoc>, now: int)
    requires IsQueryAnswer(urls, u, answer)
    requires exists id :: id in urls && urls[id].originalUrl == u
    requires forall id :: id in urls && urls[id].originalUrl == u ==> now < urls[id].expiresAt
    ensures FindExistingShortUrl(answer, now).Some?
  {
  }

  /** Because the query stops at one document, an expired first match hides
      an unexpired record for the same URL: the store may legitimately return
      the expired one, and then the lookup reports nothing. */
  lemma FirstMatchCanHideLiveRecord(urls: map<string, UrlRecord>, u: string, expired: string, live: string, now: int)
    requires expired in urls && urls[expired].originalUrl == u && urls[expired].expiresAt <= now
    requires live in urls && urls[live].originalUrl == u && now < urls[live].expiresAt
    ensures IsQueryAnswer(urls, u, Some((expired, urls[expired])))
    ensures FindExistingShortUrl(Some((expired, urls[expired])), now) == None
  {
  }

  /** On the allocation path with no failure, the counter advances by one,
      exactly the key `toBase62` of the new count is written (created or
      replaced) with the input URL and a thirty-day expiry, every other key
      keeps its record, and that key is returned. */
  lemma MissPathWritesOneRecord(s: Store, longUrl: string, isValidUrl: string -> bool,
                                toBase62: int -> string, now: int, answer: Option<UrlDoc>)
    requires isValidUrl(longUrl)
    requires var e := FindExistingShortUrl(answer, now); e.None? || e.value == ""
    requires toBase62(NextCount(s.counter)) != ""
    ensures var o := Shorten(s, longUrl, true, isValidUrl, toBase62, now, answer, NoFaults);
            var n := NextCount(s.counter);
            var code := toBase62(n);
            && o.response == Success(code)
            && o.store.counter == Some(n)
            && o.store.urls.Keys == s.urls.Keys + {code}
            && o.store.urls[code].originalUrl == longUrl
            && o.store.urls[code].createdAt == now
            && o.store.urls[code].expiresAt == now + ThirtyDaysMs
            && forall id :: id in s.urls && id != code ==> o.store.urls[id] == s.urls[id]
  {
  }

  /** On the allocation path a new code that is the empty string names no
      document: the write throws, the generic error comes back, and the
      counter stays advanced with no record added, as for a failing write. */
  lemma EmptyCodeWriteFails(s: Store, longUrl: string, isValidUrl: string -> bool,
                            toBase62: int -> string, now: int, answer: Option<UrlDoc>)
    requires isValidUrl(longUrl)
    requires var e := FindExistingShortUrl(answer, now); e.None? || e.value == ""
    requires toBase62(NextCount(s.counter)) == ""
    ensures Shorten(s, longUrl, true, isValidUrl, toBase62, now, answer, NoFaults)
            == Outcome(s.(counter := Some(CounterValue(s.counter) + 1)), Failure(GenericError))
  {
  }

  /** A failing dedup query or a failing counter transaction yields the
      generic error and leaves the whole store as it was. */
  lemma EarlyStoreFailureChangesNothing(s: Store, longUrl: string, isValidUrl: string -> bool,
                                        toBase62: int -> string, now: int, answer: Option<UrlDoc>, faults: Faults)
    requires isValidUrl(longUrl)
    requires faults.queryFails || (faults.transactionFails && FindExistingShortUrl(answer, now).None?)
    ensures Shorten(s, longUrl, true, isValidUrl, toBase62, now, answer, faults)
            == Outcome(s, Failure(GenericError))
  {
  }

  /** A failing record write after the counter transaction committed yields
      the generic error, keeps the advanced counter, and adds no record: the
      count is a hole. */
  lemma WriteFailureLeavesHole(s: Store, longUrl: string, isValidUrl: string -> bool,
                               toBase62: int -> string, now: int, answer: Option<UrlDoc>)
    requires isValidUrl(longUrl)
    requires FindExistingShortUrl(answer, now).None?
    ensures var o := Shorten(s, longUrl, true, isValidUrl, toBase62, now, answer, Faults(false, false, true));
            && o.response == Failure(GenericError)
            && o.store.counter == Some(CounterValue(s.counter) + 1)
            && o.store.urls == s.urls
  {
  }

  /** Every short code the action returns names, in the store it leaves, an
      unexpired record for the URL that was asked for. */
  lemma ReturnedCodeIsLive(s: Store, longUrl: string, configured: bool, isValidUrl: string -> bool,
                           toBase62: int -> string, now: int, answer: Option<UrlDoc>, faults: Faults)
    requires IsQueryAnswer(s.urls, longUrl, answer)
    ensures var o := Shorten(s, longUrl, configured, isValidUrl, toBase62, now, answer, faults);
            o.response.shortCode.Some? ==>
              var c := o.response.shortCode.value;
              c in o.store.urls && o.store.urls[c].originalUrl == longUrl && now < o.store.urls[c].expiresAt
  {
    var o := Shorten(s, longUrl, configured, isValidUrl, toBase62, now, answer, faults);
    if o.response.shortCode.Some? && o.store == s {
      DedupLookupSound(s.urls, longUrl, answer, now);
    }
  }

  /** Shortening a URL for the first time and again within thirty days gives
      the same code the second time, and the second call changes nothing. */
  lemma RepeatWithinThirtyDaysReusesCode(s: Store, longUrl: string, isValidUrl: string -> bool,
                                         toBase62: int -> string, now: int, later: int,
                                         answer: Option<UrlDoc>, answer': Option<UrlDoc>, faults': Faults)
    requires isValidUrl(longUrl) && !faults'.queryFails
    requires forall id :: id in s.urls ==> s.urls[id].originalUrl != longUrl
    requires IsQueryAnswer(s.urls, longUrl, answer)
    requires toBase62(NextCount(s.counter)) != ""
    requires later < now + ThirtyDaysMs
    ensures var first := Shorten(s, longUrl, true, isValidUrl, toBase62, now, answer, NoFaults);
            IsQueryAnswer(first.store.urls, longUrl, answer') ==>
            Shorten(first.store, longUrl, true, isValidUrl, toBase62, later, answer', faults')
            == Outcome(first.store, first.response)
  {
    var first := Shorten(s, longUrl, true, isValidUrl, toBase62, now, answer, NoFaults);
    var code := toBase62(NextCount(s.counter));
    assert answer == None;
    MissPathWritesOneRecord(s, longUrl, isValidUrl, toBase62, now, answer);
    if IsQueryAnswer(first.store.urls, longUrl, answer') {
      assert answer'.Some? by {
        assert code in first.store.urls && first.store.urls[code].originalUrl == longUrl;
      }
      assert answer'.value.0 == code;
    }
  }

  /** The other side of the dedup: when the query keeps returning an expired
      record for the URL, two calls in a row both allocate, the counter
      advances by two, although the first call's record is still live. */
  lemma ExpiredFirstMatchAllocatesEachTime(s: Store, longUrl: string, isValidUrl: string -> bool,
                                           toBase62: int -> string, now: int, id: string)
    requires isValidUrl(longUrl)
    requires id in s.urls && s.urls[id].originalUrl == longUrl && s.urls[id].expiresAt <= now
    requires toBase62(NextCount(s.counter)) != id
    requires toBase62(NextCount(s.counter)) != "" && toBase62(NextCount(s.counter) + 1) != ""
    ensures var a := Some((id, s.urls[id]));
            var first := Shorten(s, longUrl, true, isValidUrl, toBase62, now, a, NoFaults);
            var second := Shorten(first.store, longUrl, true, isValidUrl, toBase62, now, a, NoFaults);
            var code := toBase62(NextCount(s.counter));
            && IsQueryAnswer(s.urls, longUrl, a)
            && IsQueryAnswer(first.store.urls, longUrl, a)
            && first.response == Success(code)
            && code in second.store.urls && now < second.store.urls[code].expiresAt
            && second.response.shortCode.Some?
            && second.store.counter == Some(CounterValue(s.counter) + 2)
  {
    var a := Some((id, s.urls[id]));
    MissPathWritesOneRecord(s, longUrl, isValidUrl, toBase62, now, a);
    var first := Shorten(s, longUrl, true, isValidUrl, toBase62, now, a, NoFaults);
    assert first.store.urls[id] == s.urls[id];
    MissPathWritesOneRecord(first.store, longUrl, isValidUrl, toBase62, now, a);
  }

  /** Every stored code was allocated from the counter: it is `toBase62` of
      some count from 1 up to the counter's value, which is not negative.
      An empty store with an absent counter satisfies it. */
  ghost predicate CodesFromCounter(s: Store, toBase62: int -> string)
  {
    && CounterValue(s.counter) >= 0
    && forall id :: id in s.urls ==> exists k :: 1 <= k <= CounterValue(s.counter) && id == toBase62(k)
  }

  /** The starting point of the invariant: a store with no counter
      document and no `urls` documents. */
  lemma EmptyStoreCodesFromCounter(toBase62: int -> string)
    ensures CodesFromCounter(Store(None, map[]), toBase62)
  {
  }

  /** Distinct positive counts encode to distinct codes. */
  ghost predicate InjectiveOnCounts(toBase62: int -> string)
  {
    forall a, b :: 1 <= a && 1 <= b && toBase62(a) == toBase62(b) ==> a == b
  }

  /** Every call of the action, whatever its inputs, faults and query
      answer, keeps every stored code one allocated from the counter. */
  lemma ShortenKeepsCodesFromCounter(s: Store, longUrl: string, configured: bool, isValidUrl: string -> bool,
                                     toBase62: int -> string, now: int, answer: Option<UrlDoc>, faults: Faults)
    requires CodesFromCounter(s, toBase62)
    ensures CodesFromCounter(Shorten(s, longUrl, configured, isValidUrl, toBase62, now, answer, faults).store, toBase62)
  {
    var o := Shorten(s, longUrl, configured, isValidUrl, toBase62, now, answer, faults);
    var n := NextCount(s.counter);
    forall id | id in o.store.urls
      ensures exists k :: 1 <= k <= CounterValue(o.store.counter) && id == toBase62(k)
    {
      if o.store.urls != s.urls && id == toBase62(n) {
        assert o.store.counter == Some(n);
      } else {
        assert id in s.urls;
        var k :| 1 <= k <= CounterValue(s.counter) && id == toBase62(k);
        assert k <= CounterValue(o.store.counter);
      }
    }
  }

  /** With an encoder that never maps two counts to one code, the code of
      the next count is not stored yet: a new code never collides. */
  lemma NextCodeIsUnused(s: Store, toBase62: int -> string)
    requires CodesFromCounter(s, toBase62)
    requires InjectiveOnCounts(toBase62)
    ensures toBase62(NextCount(s.counter)) !in s.urls
  {
    var n := NextCount(s.counter);
    forall id | id in s.urls
      ensures id != toBase62(n)
    {
      var k :| 1 <= k <= CounterValue(s.counter) && id == toBase62(k);
      assert k < n;
    }
  }

  /** Under the same conditions no call replaces a stored record: the miss
      path only ever adds a new key. */
  lemma ShortenNeverReplacesRecord(s: Store, longUrl: string, configured: bool, isValidUrl: string -> bool,
                                   toBase62: int -> string, now: int, answer: Option<UrlDoc>, faults: Faults)
    requires CodesFromCounter(s, toBase62)
    requires InjectiveOnCounts(toBase62)
    ensures var o := Shorten(s, longUrl, configured, isValidUrl, toBase62, now, answer, faults);
            forall id :: id in s.urls ==> o.store.urls[id] == s.urls[id]
  {
    NextCodeIsUnused(s, toBase62);
  }

  /** The values handed out by `k` counter transactions run one after the
      other from the counter `c`, and the counter they leave. */
  function Transactions(c: Option<int>, k: nat): (Option<int>, seq<int>)
  {
    if k == 0 then (c, [])
    else
      var (last, handed) := Transactions(c, k - 1);
      var n := NextCount(last);
      (Some(n), handed + [n])
  }

  /** `k` transactions from a counter at `v` (absent: 0) hand out exactly
      `v + 1, ..., v + k`, in increasing order and so never the same value
      twice, and leave the counter at `v + k`. */
  lemma {:induction false} TransactionsHandOutConsecutiveValues(c: Option<int>, k: nat)
    ensures var (last, handed) := Transactions(c, k);
            && |handed| == k
            && (forall i :: 0 <= i < k ==> handed[i] == CounterValue(c) + 1 + i)
            && (forall i, j :: 0 <= i < j < k ==> handed[i] < handed[j])
            && (k > 0 ==> last == Some(CounterValue(c) + k))
  {
    if k > 0 {
      TransactionsHandOutConsecutiveValues(c, k - 1);
    }
  }

  /** One request to the action, with what the environment does during it. */
  datatype Call = Call(longUrl: string, configured: bool, now: int, answer: Option<UrlDoc>, faults: Faults)

  /** A sequence of requests served one after the other. */
  function Run(s: Store, isValidUrl: string -> bool, toBase62: int -> string, calls: seq<Call>): (Store, seq<Response>)
    decreases |calls|
  {
    if calls == [] then (s, [])
    else
      var c := calls[0];
      var o := Shorten(s, c.longUrl, c.configured, isValidUrl, toBase62, c.now, c.answer, c.faults);
      var (t, rest) := Run(o.store, isValidUrl, toBase62, calls[1..]);
      (t, [o.response] + rest)
  }

  /** Over any sequence of requests the counter never goes back and
      advances by at most one per request, no short code disappears, and
      every response carries exactly one of a code or an error. */
  lemma {:induction false} RunBounds(s: Store, isValidUrl: string -> bool, toBase62: int -> string, calls: seq<Call>)
    ensures var (t, responses) := Run(s, isValidUrl, toBase62, calls);
            && |responses| == |calls|
            && CounterValue(s.counter) <= CounterValue(t.counter) <= CounterValue(s.counter) + |calls|
            && s.urls.Keys <= t.urls.Keys
            && (forall i :: 0 <= i < |responses| ==> responses[i].ExactlyOne())
    decreases |calls|
  {
    if calls != [] {
      var c := calls[0];
      var o := Shorten(s, c.longUrl, c.configured, isValidUrl, toBase62, c.now, c.answer, c.faults);
      RunBounds(o.store, isValidUrl, toBase62, calls[1..]);
    }
  }
}
