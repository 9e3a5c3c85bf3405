# WebSub hub for SensorThings: the subscription lifecycle

This project models the subscription lifecycle of the STA WebSub hub, a
Node.js hub that lets WebSub subscribers follow the MQTT topics of an OGC
SensorThings service. The hub's parts, as the model states them:

- **Ingress gate** (`Ingress`). The first middleware of `app.js`. It refuses
  PATCH, PUT and DELETE with 405. It refuses a POST whose media type is not
  `application/x-www-form-urlencoded` with 415, and, when UTF-8 is enforced,
  a POST with a missing or non-UTF-8 charset.
- **Request validator** (`Subscriptions`). GET and POST on `/subscriptions`.
  POST checks the mode, the callback and the topic in a fixed order, derives
  the topic key from the topic URL, clamps the lease into [60, 86400] with
  1800 as the default, limits the secret to 200 UTF-16 code units, starts the
  subscribe or unsubscribe handshake, and answers 202.
- **Subscription repository** (`Repository`). The `topics` and
  `subscriptions` tables and the SQL statements of `helpers/db.js`. Each
  statement is a function on the table contents. The `Store` class holds the
  tables, and its methods apply those functions. `Store.Valid` keeps three
  facts true: topic ids are fresh and distinct, topic URLs are unique, and a
  subscription is unique on (topic, callback) and refers to a topic.
- **Subscribe handshake** (`Subscribe`).
  - A HEAD request to the publisher. Its `Link` headers are read with the
    pattern `<([^>]+)>;\s+rel="([^"]+)"` and must name this hub and the topic.
  - A GET to the callback with a challenge that must come back as
    `text/plain; charset=utf-8`.
  - The broker subscription.
  - An insert of the subscription row, or an update of the existing one.
- **Unsubscribe handshake** (`Unsubscribe`). A GET to the callback with a
  challenge. Then the delete, the count, and a broker unsubscribe when the
  count is zero.
- **Delivery engine** (`Delivery`). It runs once per broker message. Each
  subscription of the topic is checked in turn:
  - an expired one is deleted;
  - a disabled one is skipped;
  - every other one gets a POST with the hub's headers, signed with
    `X-Hub-Signature` when it has a secret.

  The subscriber's answer drives the status:
  - a 2xx makes `inactive` `active`;
  - a 410 deletes the row;
  - a rejected request moves `active`/`updated` to `inactive` and `inactive`
    to `disabled`.

  A counter started at the number of subscriptions is decremented by each
  delete. The broker topic is unsubscribed when it reaches zero.

`Common` holds `Option`, JavaScript's `trim`, `toLowerCase` and `length` (in
UTF-16 code units) as the hub uses them, and the text `undefined` becomes in a
string. `Settings` holds the
constants of `settings.js`: lease default 1800, minimum 60 and maximum 86400;
maximum URL size 2024; maximum topic size 4096; UTF-8 not enforced. It also
holds the environment-derived URLs as a `Config` value. `Wire` holds the
requests the hub sends and the replies it reads.

What the environment provides is a parameter of the model:
- `now`: the single "now" in seconds of a message or a statement.
- `answer`: what each subscriber makes of a POST.
- `hmacHex`: the hex HMAC.
- `escape` and `unescape`: `querystring.escape` and `querystring.unescape`.
- `parseUrl`: `new url.URL`, which gives nothing when it throws.
- `numberOf`: `Number`.
- `challenge`: the random challenge.
- `head`, `reply` and `grant`: what the publisher, the subscriber and the
  broker answered.

Outbound HTTP requests and broker calls are returned as sequences of values.

The model follows the code in these behaviours, which a WebSub hub might be
expected to handle differently:

- There is no per-topic reference counter in the broker bridge. The
  unsubscribe handshake counts the rows with a query. The delivery engine
  uses a local counter started at the number of rows it loaded.
- A failed broker subscribe sends a denial to the subscriber, but the
  subscription is still inserted or updated. Its `return` is inside the
  broker callback.
- A publisher check that fails with a transport error, or with a `Link`
  entry that the pattern does not match, sends no denial. Only a rejection by
  the four checks sends one.
- The HTTP client hands over a `Link` header sent once as a single string,
  and one sent several times as a list. `parseLink` calls `forEach`, which a
  string lacks, so a publisher that sends one `Link` header with both rels
  ends the handshake with no denial and no challenge
  (`Subscribe.HeadReply.HeadLinkText`).
- An unsubscribe challenge answered with the wrong content type, charset or
  body still deletes the row. Only a rejected request leaves it in place.
  The unsubscribe GET sends the percent-escaped topic URL. Its charset
  comparison is case-sensitive, unlike the subscribe handshake's.
- During delivery, a response that is neither 2xx nor 410 changes nothing.
  The failure transitions apply only to a rejected request.
- The `Link` values the hub itself sends with a delivery carry no angle
  brackets. The hub's own `Link` pattern does not match them
  (`Subscribe.DeliveredLinkNotRead`).
- The status setters of `helpers/db.js` key on the callback alone. They
  change that callback's rows under every topic.
- `deleteSubscription` and `numSubscriptions` find the topic with a scalar
  subquery on the escaped key. Two topic URLs can share a key. The subquery
  then fails: the delete changes nothing, the count is an error, and the
  broker unsubscribe is not issued (`Repository.Lookup.ManyRows`).
- `view_subscriptions` is not part of this model. `getSubscriptions` is
  modelled as the rows of the first topic row with the escaped key.

## Model

| member | source | states |
|---|---|---|
| `Common.TrimIsMiddle` | routes/subscriptions.js:48 | `trim` keeps the part of the text after the leading white space and removes only white space from both ends. Neither end of the result is white space. |
| `Common.AsciiLower` | routes/subscribe.js:144 | `toLowerCase` keeps the length and maps each of `A`-`Z` to its lower-case letter, leaving every other character as it is. |
| `Common.JsLength` | routes/subscriptions.js:60 | The `length` the size limits compare counts UTF-16 code units: between the number of characters and twice it. |
| `Common.BmpLength` | routes/subscriptions.js:71 | A text with no character above U+FFFF has a `length` equal to its number of characters. |
| `Common.AstralLength` | routes/subscriptions.js:130 | A character above U+FFFF adds two to the `length`, so it counts double against the 200 limit on the secret and the URL limits. |
| `Wire.Denial` | routes/subscribe.js:90-98 | The denial GET goes to the callback with `hub.mode=denied`, the topic and the reason, in that order, and is recognised as a denial. |
| `Repository.StatusNamed` | helpers/db.js:31-36 | A stored status text reads back as the one status with that name. A text that is none of the four names reads back as no status. |
| `Repository.TopicIdByUrl` | helpers/db.js:95 | The topic lookup by escaped URL finds nothing exactly when no topic row has that URL. Otherwise it returns the id of a row with that URL. |
| `Repository.TopicIdByUrlAppend` | helpers/db.js:96-103 | A topic row appended under a URL that no row had is the row that URL then finds. |
| `Repository.Without` | helpers/db.js:201 | After the delete, a row remains exactly when it was there and its (topic, callback) differs from the one deleted. |
| `Repository.WithStatus` | helpers/db.js:149 | Every row with the callback gets the new status, under whatever topic. Every other row is unchanged. The table keeps its length and order. |
| `Repository.Renewed` | helpers/db.js:132 | Rows of (topic id, callback) get the new secret, `updated` time, expiry and status `updated`. Every other row is unchanged. |
| `Repository.AfterDelete` | helpers/db.js:195-211 | When exactly one topic has the key, a row remains exactly when it was there and is not a row of (that topic, callback). With no topic or several topics under the key, the table is unchanged. |
| `Repository.CountAfterDelete` | helpers/db.js:195-211 | After the delete of (topic, callback), the topic's row count falls by exactly the number of rows with that key. |
| `Repository.UniqueWithout` | helpers/db.js:201 | The delete keeps subscriptions unique on (topic, callback). |
| `Repository.ResubscribeKeepsOneRow` | helpers/db.js:85-142 | An insert followed by a renewal of the same (topic, callback) leaves exactly one row with that key. That row is `updated` and has the second secret and expiry. |
| `Repository.RowsOfDistinctCallbacks` | helpers/db.js:71-83 | When keys are unique, the rows listed for one topic have pairwise distinct callbacks. |
| `Repository.AddTopicKeepsFit` | helpers/db.js:96-103 | A new topic row with the next id keeps ids fresh and distinct and URLs unique. It is the row its URL then finds. |
| `Repository.AddRowKeepsFit` | helpers/db.js:109-113 | A subscription row with a new (topic, callback) key and an existing topic keeps the table invariant. |
| `Repository.StatusKeepsFit` | helpers/db.js:144-193 | A status update keeps every key and every row's topic. |
| `Repository.RenewKeepsFit` | helpers/db.js:128-134 | A renewal keeps every key and every row's topic. |
| `Repository.RenewKeepsCount` | helpers/db.js:132 | A renewal keeps the number of rows with each key. |
| `Repository.WithoutKeepsFit` | helpers/db.js:201 | The delete keeps the table invariant. |
| `Repository.Store.GetTopics` | helpers/db.js:50-60 | The query returns every topic row. With no rows it returns the empty list. |
| `Repository.Store.NumSubscriptions` | helpers/db.js:62-69 | The count is 0 when no topic has the escaped key, and the topic's row count when one does. It is an error when several topics share the key. |
| `Repository.Store.GetSubscriptions` | helpers/db.js:71-83 | An unknown topic gives the empty list. Otherwise the rows returned are exactly the stored rows of the first topic with the escaped key. |
| `Repository.Store.EnsureTopic` | helpers/db.js:92-103 | A topic row is added, with the next id and the escaped key, only when no row has the escaped URL, and only then does the next id advance. The URL then finds the id returned. Subscriptions are unchanged. |
| `Repository.Store.InsertSubscription` | helpers/db.js:85-122 | The topic row is added, and the next id advanced, only for a new escaped URL. Exactly one `active` row expiring at lease + now is then appended, unless that (topic, callback) already has a row. In that case the subscription insert is rolled back but the topic row stays. |
| `Repository.Store.UpdateSubscription` | helpers/db.js:124-142 | The (topic id, callback) rows are renewed with status `updated` and every other row is unchanged. Topics and the number of rows with that key are kept. |
| `Repository.Store.SetStatus` | helpers/db.js:144-193 | Every row with the callback, across all topics, gets the status. Topics are unchanged and the invariant is kept. |
| `Repository.Store.ActivateSubscription` | helpers/db.js:144-159 | Every row with the callback becomes `active`. Nothing else changes. |
| `Repository.Store.DeactivateSubscription` | helpers/db.js:161-176 | Every row with the callback becomes `inactive`. Nothing else changes. |
| `Repository.Store.DisableSubscription` | helpers/db.js:178-193 | Every row with the callback becomes `disabled`. Nothing else changes. |
| `Repository.Store.DeleteSubscription` | helpers/db.js:195-211 | The rows of (escaped topic key, callback) are removed when exactly one topic has that key. Otherwise the table is unchanged. Topic rows are never removed. |
| `Delivery.ReactionTo` | helpers/http_publish.js:97-126 | A response removes the row exactly when it is a 410. A 2xx activates only an `inactive` row. A rejected request deactivates an `active` or `updated` row and disables an `inactive` one. Any other response causes no write. |
| `Delivery.FailureLadder` | helpers/http_publish.js:115-126 | Two rejected deliveries take `active` to `disabled`. A disabled row stays disabled under any outcome but 410. A 2xx brings `inactive` back to `active`. |
| `Delivery.HeadersFor` | helpers/http_publish.js:75-91 | Every delivery has the JSON content type and the hub and self `Link` values. `X-Hub-Signature` is present exactly when the row has a secret, and holds the algorithm, `=` and the HMAC of the payload under that secret. |
| `Delivery.EffectOf` | helpers/http_publish.js:54-127 | A row causes at most one write, naming its callback. An expired row is deleted and an unexpired disabled one is not written. A delivered row gets no write exactly when its outcome keeps its status; otherwise a delete when the outcome removes it, or a status write to the status the outcome leads to. |
| `Delivery.RemovedWhen` | helpers/http_publish.js:54-114 | A row is deleted by the message exactly when it is expired, or when it is delivered to and its subscriber answers 410. |
| `Delivery.EffectsNameRows` | helpers/http_publish.js:51-129 | Every repository write of a message names the callback of one of the rows it loaded. |
| `Delivery.RecipientsAreDelivered` | helpers/http_publish.js:51-71 | The rows that get the POST are exactly the loaded rows that are neither expired nor disabled. There are no more of them than rows. |
| `Delivery.RemovalsAtMost` | helpers/http_publish.js:45-114 | Each row decrements the counter at most once, so the counter never goes below zero. |
| `Delivery.DisabledRowNotWritten` | helpers/http_publish.js:67-71 | An unexpired disabled row causes no write that names its callback. |
| `Delivery.DisabledLeftAlone` | helpers/http_publish.js:67-71 | An unexpired disabled row gets no POST and is still in the table, unchanged, after the message. |
| `Delivery.RemovedRowGone` | helpers/http_publish.js:54-114 | When its topic key names exactly one topic, a row the message removes (expired, or answered 410) has no row with its key afterwards. |
| `Delivery.CountDown` | helpers/http_publish.js:59-63 | The counter drops by one, and the broker topic is unsubscribed exactly when the counter reaches zero. |
| `Delivery.Deliver` | helpers/http_publish.js:53-127 | One row's turn: the table gets exactly that row's writes, and a POST goes out exactly when the row is delivered to. The counter drops by one and the broker unsubscribe fires at zero, exactly when the row is removed. |
| `Delivery.DeliverNext` | helpers/http_publish.js:51-129 | One turn of the `forEach` keeps the writes, the POSTs and the counter equal to those of the rows handled so far. |
| `Delivery.DeliverAll` | helpers/http_publish.js:45-129 | After the loop the table has every row's writes in row order. There is one POST per recipient, in order. The broker unsubscribe is issued once exactly when every row was removed. |
| `Delivery.Publish` | helpers/http_publish.js:33-130 | An empty row list gives one broker unsubscribe, no POST and no write. Otherwise the message's writes, POSTs and broker unsubscribe are those of the loop over the loaded rows. Topics are never changed. |
| `Subscribe.MatchAt` | routes/subscribe.js:43 | A match at an index starts with `<` there, and gives a non-empty URL without `>` and a non-empty rel name without `"`. |
| `Subscribe.ExecFrom` | routes/subscribe.js:43 | What `exec` returns from an index on is such a URL and rel name. |
| `Subscribe.Exec` | routes/subscribe.js:43 | What `exec` returns on a whole Link value is such a URL and rel name. |
| `Subscribe.MatchAtSound` | routes/subscribe.js:43 | A match found at an index is an occurrence of the `Link` pattern there, with the URL and rel name it captured. |
| `Subscribe.MatchAtFinds` | routes/subscribe.js:43 | Every occurrence of the pattern at an index is found there, with its URL and rel name. |
| `Subscribe.EntryMatches` | routes/subscribe.js:43 | A `<url>;` entry followed by white space and `rel="name"` matches at its start and gives back that URL and name. |
| `Subscribe.ExecNone` | routes/subscribe.js:43 | `exec` finds nothing exactly when the pattern occurs nowhere. |
| `Subscribe.ExecLeftmost` | routes/subscribe.js:43 | The match `exec` returns is the leftmost occurrence. |
| `Subscribe.EntryRoundTrip` | routes/subscribe.js:43-45 | A Link value written from admissible parts is read back as exactly its URL and rel name. |
| `Subscribe.DeliveredLinkNotRead` | routes/subscribe.js:43 | A `Link` value written as the delivery engine writes it, without angle brackets, is not matched by the pattern. |
| `Subscribe.LastUrlForIs` | routes/subscribe.js:42-46 | A rel name has no URL exactly when no entry matches with that name. Otherwise its URL is that of an entry matching with that name after which no entry has the name. |
| `Subscribe.ParseLinks` | routes/subscribe.js:35-49 | No header gives the empty table. An entry the pattern does not match makes the parse fail. Otherwise each rel name maps to the URL of its last entry. |
| `Subscribe.RejectionReason` | routes/subscribe.js:64-85 | The reason is empty exactly when the hub link equals the hub URL and the unescaped self link equals the unescaped topic URL. It is never "did not return Link rel=hub", since a missing hub also fails the next check. |
| `Subscribe.CheckPublisher` | routes/subscribe.js:64-86 | The publisher is accepted exactly when the hub link equals the hub URL and the unescaped self link equals the unescaped topic URL. The reason is that of the last failing check, empty exactly when accepted. |
| `Subscribe.PublisherDenial` | routes/subscribe.js:87-104 | At most one request, a denial to the callback, sent exactly when a parsed response is rejected. |
| `Subscribe.VerifyPublisher` | routes/subscribe.js:57-111 | The handshake proceeds exactly when the publisher accepts. The denial carries the escaped topic URL and the reason of the last failing check. A transport error, a single `Link` string or an unmatched entry sends nothing. |
| `Subscribe.ChallengeQuery` | routes/subscribe.js:119-130 | The challenge GET carries mode, topic URL, challenge and lease, and `hub.secret` exactly when there is a secret. |
| `Subscribe.VerifyIntent` | routes/subscribe.js:138-154 | The subscriber's reply verifies exactly when its media type is `text/plain`, its charset lower-cases to `utf-8` and its body equals the challenge. |
| `Subscribe.CharsetCaseIgnored` | routes/subscribe.js:144 | A reply with charset `UTF-8` verifies a subscription. |
| `Subscribe.BrokerRefusalCases` | routes/subscribe.js:157-179 | A grant of another topic, or an error with a grant, sends the denial. An error with nothing granted, and a clean grant of the topic, do not. |
| `Subscribe.FirstWithCallback` | routes/subscribe.js:184 | The filter on the callback finds nothing exactly when no listed row has it. Otherwise it gives a listed row with that callback. |
| `Subscribe.AfterPersist` | routes/subscribe.js:182-196 | With a listed row for the callback, the topics stay and each row of that row's (topic id, callback) keeps its key and creation time and becomes `updated`, with the new secret, `updated` time and expiry lease + now; every other row is unchanged. Without one, the topic row is ensured, and an `active` row of (the URL's topic id, callback) expiring at lease + now is appended unless that key already has a row. Either way it only adds topic rows, adds at most one subscription row, and every row added or changed carries the callback and the new secret. |
| `Subscribe.Persist` | routes/subscribe.js:182-196 | The tables become those `AfterPersist` gives for the rows listed before: the listed row's key renewed, or the insert. Either way exactly one row then holds that callback's key. |
| `Subscribe.BrokerDenial` | routes/subscribe.js:138-179 | After the challenge at most one request follows: the broker-refusal denial, exactly when the challenge verified and the broker refused. A failed subscriber check sends nothing. |
| `Subscribe.ConfirmIntent` | routes/subscribe.js:132-205 | The requests are exactly the challenge GET followed by `BrokerDenial`. Only a verified reply subscribes the broker topic and persists the subscription as `AfterPersist` states, and an unverified one changes nothing. A broker refusal does not stop persistence. |
| `Subscribe.Subscribe` | routes/subscribe.js:51-207 | The HEAD request always goes out. A rejected publisher stops the handshake before the challenge: the only other request is the denial, if the response was parsed, and there is no broker call and no write. An accepting publisher makes the requests exactly the HEAD, the challenge GET and `BrokerDenial`. When both the publisher and the subscriber accept, the broker topic is subscribed and the tables become what `AfterPersist` gives. |
| `Unsubscribe.UnsubscribeQuery` | routes/unsubscribe.js:41-49 | The GET carries mode `unsubscribe`, the escaped topic URL and the challenge, and neither a lease nor a secret. |
| `Unsubscribe.CharsetCaseMatters` | routes/unsubscribe.js:59-62 | Charset `UTF-8` verifies a subscription but not an unsubscription. Every reply that verifies an unsubscription also verifies a subscription. |
| `Unsubscribe.Unsubscribe` | routes/unsubscribe.js:36-94 | A rejected request changes nothing. Any response deletes the (topic, callback) rows, even a mismatching one. The broker unsubscribe is issued exactly when the count is then 0. No denial is ever sent. |
| `Unsubscribe.UnsubscribeRemovesOnlyThatRow` | routes/unsubscribe.js:70-83 | When the key names one topic, the delete leaves no row of (topic, callback) and keeps every other row. The topic's count falls by the number of rows removed. |
| `Subscriptions.HandleGet` | routes/subscriptions.js:38-40 | GET `/subscriptions` is always answered 405 and starts nothing. |
| `Subscriptions.TopicKey` | routes/subscriptions.js:81-95 | The topic key is the topic path without its first root-path-length characters, followed by the query string. Under the root path, root path plus key gives back path plus query. |
| `Subscriptions.ClampLease` | routes/subscriptions.js:109-123 | The lease granted lies in [60, 86400]. It is 1800 when none was asked and the asked value when that is in range. Otherwise it is the nearer bound. |
| `Subscriptions.Admit` | routes/subscriptions.js:81-149 | A non-integral lease gives 400 and a secret over 200 UTF-16 code units gives 400. Every other request gets 202 and dispatches subscribe with the clamped lease and the trimmed secret, or unsubscribe without them. |
| `Subscriptions.HandlePost` | routes/subscriptions.js:42-151 | The checks run in order: a missing mode gives 400, another mode 501, an empty callback 400 (a missing one reads as the text `undefined` and passes), a callback over 2024 UTF-16 code units 413, a missing topic 400, a topic over 4096 code units 413, a foreign topic 400. A 202 is given exactly when every check passed, the lease is integral or absent and the secret within 200 code units (and both URLs parse), and it carries the dispatch `Admitted` describes. |
| `Ingress.Gate` | app.js:36-72 | PATCH, PUT and DELETE, and only they, get 405. A POST gets 415 exactly when its media type is not form-urlencoded, or UTF-8 is enforced and its charset is missing or not `utf-8`. Every other request reaches `next()`. The "content type header missing" answer is never given. |
| `Ingress.CharsetIgnoredByDefault` | app.js:59-69 | With UTF-8 not enforced, as shipped, the charset never changes the answer. |
| `Ingress.OtherMethodsPass` | app.js:42-71 | Methods other than PATCH, PUT, DELETE and POST always reach `next()`. |

## Left out

- The HTTP server, the MQTT connection and the startup re-subscription in server.js are event and I/O wiring. The message gate of server.js, which checks the payload size and parses the JSON, is not part of this model.
- Outbound HTTP requests, the MQTT client and the Postgres pool are not executed. The model returns the requests and broker calls as values and takes the replies as parameters.
- Concurrency is not modelled. The `forEach(async …)` fan-out is modelled as one subscription at a time, in row order, with each reply known when its row is handled. The un-awaited `client.query` calls in the status setters, updates and deletes are modelled as completed before the next statement. Races between messages and handshakes are not modelled.
- HMAC, the random challenge, `querystring.escape`/`unescape`, `url.URL`, `Number` and `parse-http-header` are foreign calls. They appear as function parameters or given inputs.
- Wall-clock time and `Math.round(ms / 1000)` are an integer `now` parameter. `created` and `updated` hold that second rather than an ISO timestamp.
- JavaScript numbers are doubles; the model uses unbounded integers. Expiry seconds stay far below 2^53, so rounding never occurs.
- The database schema and `view_subscriptions` are not part of this model. The model assumes one unique key on (topic_id, callback), so a second insert of the same key fails. `getSubscriptions` gives the rows of the first topic row with the escaped key.
- Database failures other than that key conflict and the scalar subquery with several rows are not modelled: no lost connection and no failed commit.
- The form body is modelled as one string per field. The extended URL-encoded parser of app.js:75 can also give a list for a repeated field (which `toString` joins with commas, so `hub.mode=subscribe&hub.mode=subscribe` gets 501) or an object for a bracketed name; those shapes are not modelled.
- Logging, the favicon, static files, the 404 handler and the error handler of app.js are plumbing.
- Delivery.Deliver: the `.catch` after `.then` would also catch an exception thrown inside the response handler. No such exception can arise from the modelled statements, so the catch is modelled only for rejected requests.
- Delivery.Deliver: the `typeof subscription.duration == "number"` guard of helpers/http_publish.js:54 is taken to hold, since every row's duration is written as the number lease + now. The schema is not part of this model; a column type that the Postgres client returns as text would make the guard false and no row would expire.
- Common.AsciiLower: lowers only `A`-`Z`, where `toLowerCase` lowers every letter. No other character lowers to a character of `utf-8`, so the charset comparison has the same outcome.
- Subscribe.Subscribe: the `catch` of the challenge chain also swallows a repository error during the insert or update. Only the key conflict is modelled, as a rolled-back insert.
