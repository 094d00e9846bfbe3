# LinkShrink: the shortening action, modelled in Dafny

LinkShrink turns a long URL into a short code. The server action
`createShortUrl` does the work in five steps:

1. It checks that the Firebase project is configured.
2. It validates the URL.
3. It asks Firestore for one existing `urls` document with the same
   `originalUrl`, and reuses that document's id if the record has not expired.
4. Otherwise it runs a transaction on the `counters/global_url_counter`
   document: it creates the counter at 1, or stores its value plus one.
5. It encodes the new count as the short code and writes the `urls` document
   `{originalUrl, createdAt, expiresAt = now + 30 days}` under that code.

Any exception becomes one generic error message.

The model has three modules:

- `Firestore` (`firestore.dfy`): the store.
  - The class `Database` holds the two pieces of state the action touches.
    `counter` is an `Option<int>`, with `None` for an absent counter document.
    `urls` is a `map<string, UrlRecord>` keyed by short code.
  - `Database.QueryByOriginalUrl` is the `limit(1)` equality query. It returns
    any one matching document. Firestore returns the first match in its own
    order (without `orderBy`, ascending document id); letting any match come
    back covers that order and every other.
  - `Database.SetUrl` is `setDoc`.
- `Actions` (`actions.dfy`): the action itself.
  - `FindExistingShortUrl` is the dedup decision.
  - `NextCount` gives the counter's next value.
  - `Shorten` is the whole action as a function of the store before the call.
  - The methods `CounterTransaction` and `CreateShortUrl` change a `Database`
    step by step, as the source does. Both are proved to end in the state and
    the response that `NextCount` and `Shorten` give.
- `ShortenProperties` (`properties.dfy`): lemmas over `Shorten` for each
  branch of the action, and lemmas over runs of several calls.

Some inputs are outside the model, so they are passed in as parameters:

- whether the project id is set;
- the URL schema's verdict, as `isValidUrl: string -> bool`;
- the base-62 encoder, as `toBase62: int -> string`, whose properties appear only as lemma hypotheses;
- the clock, `now`, in milliseconds;
- which awaited store step throws (`Faults`);
- which matching document the query returns (the method's choice, or a
  parameter `answer` of `Shorten`).

Three details of the code shape what the model promises:

- `setDoc` replaces any document already stored under the id, and `SetUrl`
  and `Shorten` do too. A new code still never replaces a record while every
  stored code came from the counter and `toBase62` maps distinct counts to
  distinct codes (`NextCodeIsUnused`, `ShortenNeverReplacesRecord`).
- The lookup asks for one matching document (`limit(1)`) and only then checks
  its expiry, so an expired first match hides a live one
  (`FirstMatchCanHideLiveRecord`, `ExpiredFirstMatchAllocatesEachTime`).
- `if (existingShortCode)` is a truthiness test, so a matched id that is the
  empty string would take the allocation path; the model keeps that test.
  Firestore never stores a document under an empty id, and a new code that is
  empty names no document, so its write throws and the generic error comes
  back (`EmptyCodeWriteFails`).

## Model

| member | source | states |
|---|---|---|
| `Firestore.Database.QueryByOriginalUrl` | src/lib/actions.ts:22-25 | The query returns no document only when no record has this `originalUrl`. Otherwise it returns one stored document whose `originalUrl` matches, with its id and its data as stored. Expiry plays no part. |
| `Firestore.Database.SetUrl` | src/lib/actions.ts:73-78 | `setDoc` stores the record under the id, creating it or replacing what was there. Every other id keeps its record. |
| `Actions.FindExistingShortUrl` | src/lib/actions.ts:21-32 | The lookup returns the returned document's id exactly when that record's `expiresAt` is strictly after `now`. It returns nothing when the query found nothing or when the record expires at or before `now`. |
| `Actions.NextCount` | src/lib/actions.ts:56-65 | The counter transaction stores and returns the counter's value plus one, where an absent counter document counts as 0. The first allocation therefore yields 1. |
| `Actions.NewRecord` | src/lib/actions.ts:69-78 | A new record holds the validated URL, `createdAt` is `now`, and `expiresAt` is exactly thirty days (in milliseconds) later. |
| `Actions.Shorten` | src/lib/actions.ts:34-85 | Every response has exactly one of `shortCode` or `error`, and a returned code is never empty. No short code is ever removed. The counter advances by at most one, and when it changes it becomes `NextCount` of the old value. On any error the `urls` collection is unchanged. |
| `Actions.CounterTransaction` | src/lib/actions.ts:56-65 | A committed transaction returns `NextCount` of the old counter, and the counter then holds exactly the returned value. A failed transaction leaves the counter as it was. |
| `Actions.CreateShortUrl` | src/lib/actions.ts:34-85 | The method runs the action in place on a `Database`. It leaves the store in the state `Shorten` gives and returns the same response, for the document the query actually returned. |
| `ShortenProperties.NotConfiguredChangesNothing` | src/lib/actions.ts:38-40 | Without a configured project the response is the configuration error, and the counter and `urls` are unchanged. |
| `ShortenProperties.InvalidUrlReadsNothing` | src/lib/actions.ts:42-45 | A URL that fails validation gets `Please provide a valid URL.` and the store is unchanged. The response does not depend on the store, the query, the clock or later failures, so nothing is read. |
| `ShortenProperties.DedupHitChangesNothing` | src/lib/actions.ts:49-52 | When the returned record has `expiresAt > now`, its id is returned and names a record for this URL. The counter and `urls` are unchanged. |
| `ShortenProperties.DedupLookupSound` | src/lib/actions.ts:21-29 | Any id the lookup returns names a stored record for the requested URL that has not expired. |
| `ShortenProperties.DedupMissWithoutLiveRecord` | src/lib/actions.ts:24-31 | If no record for the URL expires strictly after `now`, the lookup returns nothing. A record expiring exactly at `now` is not reused. |
| `ShortenProperties.DedupHitWhenEveryMatchIsLive` | src/lib/actions.ts:22-28 | If records for the URL exist and all of them are unexpired, the lookup finds one, whichever one the query returns. |
| `ShortenProperties.FirstMatchCanHideLiveRecord` | src/lib/actions.ts:22-31 | Because of `limit(1)`, an expired matching record is a legitimate answer to the query even when an unexpired one exists. The lookup then returns nothing. |
| `ShortenProperties.MissPathWritesOneRecord` | src/lib/actions.ts:54-80 | On the allocation path without failure and with a non-empty new code, the counter becomes `NextCount` of its old value. `urls` gains or overwrites exactly the key `toBase62(newCount)`, whose record holds the input URL, `createdAt = now` and `expiresAt = now + 30 days`. All other keys are unchanged, and that key is returned. |
| `ShortenProperties.EmptyCodeWriteFails` | src/lib/actions.ts:67-83 | On the allocation path, a new code that is the empty string names no document. The write throws, the generic error comes back, and the counter stays advanced with no record added. |
| `ShortenProperties.ShortenKeepsCodesFromCounter` | src/lib/actions.ts:34-85 | If every stored code is `toBase62` of some count from 1 to the counter's value, and the counter is not negative, then the same holds after any call, whatever its inputs, faults and query answer. |
| `ShortenProperties.EmptyStoreCodesFromCounter` | src/lib/actions.ts:56-60 | A store with no counter document and no `urls` documents satisfies the invariant that every stored code came from the counter, so the invariant holds from the first call on. |
| `ShortenProperties.NextCodeIsUnused` | src/lib/actions.ts:56-73 | When every stored code came from the counter and `toBase62` maps distinct positive counts to distinct codes, the code of the next count is not yet stored. |
| `ShortenProperties.ShortenNeverReplacesRecord` | src/lib/actions.ts:67-78 | Under the same two conditions, no call changes or removes a stored record: the `setDoc` on the miss path only ever adds a new key. |
| `ShortenProperties.EarlyStoreFailureChangesNothing` | src/lib/actions.ts:49-84 | A throwing dedup query, or a failing counter transaction on a miss, gives the generic error and leaves the whole store unchanged. |
| `ShortenProperties.WriteFailureLeavesHole` | src/lib/actions.ts:56-83 | A failing record write after the transaction commits gives the generic error. The counter stays advanced by one and `urls` is unchanged, so the allocated count has no record. |
| `ShortenProperties.ReturnedCodeIsLive` | src/lib/actions.ts:49-80 | Every returned short code names, in the resulting store, an unexpired record for the requested URL. |
| `ShortenProperties.RepeatWithinThirtyDaysReusesCode` | src/lib/actions.ts:21-80 | Take a URL shortened for the first time, and shorten it again before its record expires. The second call returns the same code and changes nothing. |
| `ShortenProperties.ExpiredFirstMatchAllocatesEachTime` | src/lib/actions.ts:22-80 | Suppose the query keeps returning an expired record for the URL. Then two successive calls both allocate, and the counter advances by two, even though the first call's new record is still live. |
| `ShortenProperties.TransactionsHandOutConsecutiveValues` | src/lib/actions.ts:56-65 | Start from a counter at `v` (absent counts as 0) and run `k` transactions one after another. They hand out exactly `v+1, ..., v+k` in increasing order, never the same value twice, and leave the counter at `v+k`. |
| `ShortenProperties.RunBounds` | src/lib/actions.ts:34-85 | Over any sequence of requests the counter never decreases and advances by at most one per request. No short code disappears, and every response has exactly one of a code or an error. |

## Left out

- Resolution of a short code (`src/app/[shortCode]/route.ts`) is not part of this model. The user interface is not part of it either: the form, the toasts, the QR code, the same-host check in `src/components/url-shortener.tsx`, and the pages.
- `toBase62` (`src/lib/utils.ts`) is not part of this model. It is a parameter, and no property of it is used except as a lemma's hypothesis: that one of its values is empty or non-empty, or, in `NextCodeIsUnused` and `ShortenNeverReplacesRecord`, that distinct positive counts give distinct codes (`InjectiveOnCounts`).
- The zod URL schema is the parameter `isValidUrl`. Its `data` is taken to be the input string unchanged, which is what `z.string().url()` returns.
- `process.env.NEXT_PUBLIC_FIREBASE_PROJECT_ID` is the boolean `configured`.
- Firestore internals are left out: query planning, transaction retries and atomicity under concurrent requests. Calls are served one after another. A transaction either commits completely or not at all.
- Exceptions are the three `Faults` flags, one per awaited store step. A new code that is the empty string makes the write fail. A code containing `/`, which Firestore reads as a longer path and either rejects or writes into a subcollection, is not modelled: the model lets that write succeed under the code as a plain key.
- `Actions.NewRecord`: thirty days is the fixed span of 2,592,000,000 ms. The source's `Date.setDate(+30)` works in local calendar time, and across a daylight-saving change it can differ by an hour.
- `Actions.Shorten`: the source reads the clock three times. It uses `Date.now()` in the lookup, `new Date()` for the expiry and `Timestamp.now()` for `createdAt`. The model uses one `now` for all three.
- `Actions.NextCount`: the counter is an unbounded integer. JavaScript numbers lose precision beyond 2^53, and the stored `value` is assumed to be a number.
- `console.error` logging is left out.
