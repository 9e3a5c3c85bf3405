/** The delivery engine of helpers/http_publish.js: for one broker message it
    loads the topic's subscriptions once, then for each one in turn deletes
    it when expired, skips it when disabled, and otherwise POSTs the payload
    with the hub's headers and reacts to what the subscriber answered. A
    local counter, started at the number of subscriptions, is decremented by
    every removal; the broker unsubscribe is issued when it reaches zero. */
module Delivery {
  import opened Common
  import opened Settings
  import opened Wire
  import opened Repository

  /** What became of one POST: a response with its status code, or a
      rejected request (connection refused, reset, timeout). */
  datatype Outcome = Answered(statusCode: int) | Rejected

  datatype HeaderValue = One(text: string) | Many(texts: seq<string>)

  type Headers = map<string, HeaderValue>

  /** A delivery: the callback, the request headers and the raw payload. */
  datatype Post = Post(callback: string, headers: Headers, body: string)

  /** The repository write one delivery outcome calls for. */
  datatype Reaction = NoChange | MarkActive | MarkInactive | MarkDisabled | Remove

  /** The outcome handling of one delivery. A 2xx reactivates an inactive
      subscription; a 410 removes it; a rejected request moves active and
      updated to inactive and inactive to disabled. A response with any other
      code is not a rejection and changes nothing. */
  function ReactionTo(prior: Status, outcome: Outcome): (r: Reaction)
    ensures r == Remove <==> outcome == Answered(410)
    ensures r == MarkActive <==> outcome.Answered? && 200 <= outcome.statusCode <= 299 && prior == Inactive
    ensures r == MarkInactive <==> outcome.Rejected? && (prior == Active || prior == Updated)
    ensures r == MarkDisabled <==> outcome.Rejected? && prior == Inactive
  {
    match outcome
    case Answered(code) =>
      if 200 <= code <= 299 && prior == Inactive then MarkActive
      else if code == 410 then Remove
      else NoChange
    case Rejected =>
      if prior == Active || prior == Updated then MarkInactive
      else if prior == Inactive then MarkDisabled
      else NoChange
  }

  /** The status a subscription has after a reaction; None once it is deleted. */
  function StatusAfter(prior: Status, r: Reaction): Option<Status> {
    match r
    case NoChange => Some(prior)
    case MarkActive => Some(Active)
    case MarkInactive => Some(Inactive)
    case MarkDisabled => Some(Disabled)
    case Remove => None
  }

  /** Two failed deliveries take an active subscription to disabled, and a
      disabled one stays disabled however its deliveries fail or succeed. */
  lemma FailureLadder(outcome: Outcome)
    ensures StatusAfter(Active, ReactionTo(Active, Rejected)) == Some(Inactive)
    ensures StatusAfter(Inactive, ReactionTo(Inactive, Rejected)) == Some(Disabled)
    ensures outcome != Answered(410) ==> StatusAfter(Disabled, ReactionTo(Disabled, outcome)) == Some(Disabled)
    ensures StatusAfter(Inactive, ReactionTo(Inactive, Answered(200))) == Some(Active)
  {
  }

  // ---------------------------------------------------------------------
  // Headers

  /** The headers of a delivery: JSON content type, the hub and self Link
      values (written without angle brackets), and `X-Hub-Signature` exactly
      when the subscription has a secret, holding the algorithm name, "=" and
      the hex HMAC of the payload keyed by the secret. */
  predicate WellSigned(h: Headers, cfg: Config, topic: string, secret: Option<string>, payload: string,
                       hmacHex: (string, string, string) -> string)
  {
    && h.Keys <= {"Content-Type", "Link", "X-Hub-Signature"}
    && "Content-Type" in h && h["Content-Type"] == One("application/json")
    && "Link" in h && h["Link"] == Many([cfg.hubUrl + ";rel=\"hub\"", cfg.rootUrl + topic + ";rel=\"self\""])
    && ("X-Hub-Signature" in h <==> secret.Some?)
    && (secret.Some? ==>
          h["X-Hub-Signature"] == One(cfg.shaAlgorithm + "=" + hmacHex(cfg.shaAlgorithm, secret.value, payload)))
  }

  /** The header dictionary `http_publish` builds for one delivery: the
      content type and the two Link values, then `X-Hub-Signature` added when
      the subscription has a secret. `hmacHex(alg, key, data)` stands for
      `crypto.createHmac(alg, key).update(data).digest("hex")`. */
  function HeadersFor(cfg: Config, topic: string, secret: Option<string>, payload: string,
                      hmacHex: (string, string, string) -> string): (h: Headers)
    ensures WellSigned(h, cfg, topic, secret, payload, hmacHex)
  {
    var base := map[
      "Content-Type" := One("application/json"),
      "Link" := Many([cfg.hubUrl + ";rel=\"hub\"", cfg.rootUrl + topic + ";rel=\"self\""])];
    if secret.Some? then
      base["X-Hub-Signature" := One(cfg.shaAlgorithm + "=" + hmacHex(cfg.shaAlgorithm, secret.value, payload))]
    else base
  }

  // ---------------------------------------------------------------------
  // What one message does, row by row

  /** A repository write issued by the engine. */
  datatype Effect = Delete(callback: string) | Mark(callback: string, status: Status)

  predicate Expired(row: SubscriptionRow, now: int) {
    now > row.duration
  }

  /** A row the payload is POSTed to: neither expired nor disabled. */
  predicate Delivered(row: SubscriptionRow, now: int) {
    !Expired(row, now) && row.status != Disabled
  }


  /** The write one row causes, if any: the delete of an expired row,
      nothing for a disabled one, and for a delivered row the write that
      takes it to the status its outcome calls for, nothing when that status
      is the one it has. */
  function EffectOf(row: SubscriptionRow, now: int, answer: string -> Outcome): (effects: seq<Effect>)
    ensures |effects| <= 1
    ensures forall e :: e in effects ==> e.callback == row.callback
    ensures Expired(row, now) ==> effects == [Delete(row.callback)]
    ensures !Expired(row, now) && row.status == Disabled ==> effects == []
    ensures Delivered(row, now) ==>
      var after := StatusAfter(row.status, ReactionTo(row.status, answer(row.callback)));
      && (effects == [] <==> after == Some(row.status))
      && (forall e :: e in effects ==> (e.Delete? <==> after.None?) && (e.Mark? ==> after == Some(e.status)))
  {
    if Expired(row, now) then [Delete(row.callback)]
    else if row.status == Disabled then []
    else match ReactionTo(row.status, answer(row.callback))
      case NoChange => []
      case MarkActive => [Mark(row.callback, Active)]
      case MarkInactive => [Mark(row.callback, Inactive)]
      case MarkDisabled => [Mark(row.callback, Disabled)]
      case Remove => [Delete(row.callback)]
  }

  /** A row that decrements the counter: one whose write is its delete. */
  predicate Removed(row: SubscriptionRow, now: int, answer: string -> Outcome) {
    EffectOf(row, now, answer) == [Delete(row.callback)]
  }

  /** The rows deleted are the expired ones and the delivered ones whose
      subscriber answered 410. */
  lemma RemovedWhen(row: SubscriptionRow, now: int, answer: string -> Outcome)
    ensures Removed(row, now, answer) <==>
      Expired(row, now) || (Delivered(row, now) && answer(row.callback) == Answered(410))
  {
  }

  /** The writes caused by the first `n` rows, in row order. */
  function Effects(rows: seq<SubscriptionRow>, n: nat, now: int, answer: string -> Outcome): seq<Effect>
    requires n <= |rows|
  {
    if n == 0 then [] else Effects(rows, n - 1, now, answer) + EffectOf(rows[n - 1], now, answer)
  }

  /** Every write names the callback of one of the rows that caused it. */
  lemma {:induction false} EffectsNameRows(rows: seq<SubscriptionRow>, n: nat, now: int, answer: string -> Outcome)
    requires n <= |rows|
    ensures forall e :: e in Effects(rows, n, now, answer) ==> exists j :: 0 <= j < n && e.callback == rows[j].callback
  {
    if n > 0 {
      EffectsNameRows(rows, n - 1, now, answer);
      forall e | e in Effects(rows, n, now, answer) ensures exists j :: 0 <= j < n && e.callback == rows[j].callback {
        if e !in Effects(rows, n - 1, now, answer) {
          assert e.callback == rows[n - 1].callback;
        }
      }
    }
  }

  /** The first `n` rows' recipients of the payload, in row order. */
  function Recipients(rows: seq<SubscriptionRow>, n: nat, now: int): seq<SubscriptionRow>
    requires n <= |rows|
  {
    if n == 0 then []
    else Recipients(rows, n - 1, now) + (if Delivered(rows[n - 1], now) then [rows[n - 1]] else [])
  }

  /** The recipients are exactly the rows that are neither expired nor
      disabled, and there are no more of them than rows. */
  lemma {:induction false} RecipientsAreDelivered(rows: seq<SubscriptionRow>, n: nat, now: int)
    requires n <= |rows|
    ensures |Recipients(rows, n, now)| <= n
    ensures forall r :: r in Recipients(rows, n, now) <==> r in rows[..n] && Delivered(r, now)
  {
    if n > 0 {
      RecipientsAreDelivered(rows, n - 1, now);
      assert rows[..n] == rows[..n - 1] + [rows[n - 1]];
    }
  }

  /** How many of the first `n` rows decrement the counter. */
  function Removals(rows: seq<SubscriptionRow>, n: nat, now: int, answer: string -> Outcome): nat
    requires n <= |rows|
  {
    if n == 0 then 0
    else Removals(rows, n - 1, now, answer) + (if Removed(rows[n - 1], now, answer) then 1 else 0)
  }

  /** Each row decrements the counter at most once, so it never passes
      below zero. */
  lemma {:induction false} RemovalsAtMost(rows: seq<SubscriptionRow>, n: nat, now: int, answer: string -> Outcome)
    requires n <= |rows|
    ensures Removals(rows, n, now, answer) <= n
  {
    if n > 0 {
      RemovalsAtMost(rows, n - 1, now, answer);
    }
  }

  /** One write applied to the subscriptions table; `key` is the escaped
      topic key the deletes use. */
  function ApplyOne(topics: seq<TopicRow>, subs: seq<SubscriptionRow>, key: string, e: Effect): seq<SubscriptionRow> {
    match e
    case Delete(callback) => AfterDelete(topics, subs, key, callback)
    case Mark(callback, st) => WithStatus(subs, callback, st)
  }

  function Apply(topics: seq<TopicRow>, subs: seq<SubscriptionRow>, key: string, effects: seq<Effect>): seq<SubscriptionRow> {
    if effects == [] then subs
    else ApplyOne(topics, Apply(topics, subs, key, effects[..|effects| - 1]), key, effects[|effects| - 1])
  }

  // ---------------------------------------------------------------------
  // Properties of one message

  /** A disabled, unexpired row causes no write that names its callback
      (the callbacks of one topic are distinct). */
  lemma {:induction false} DisabledRowNotWritten(rows: seq<SubscriptionRow>, n: nat, now: int, answer: string -> Outcome,
                                                 k: nat)
    requires n <= |rows| && DistinctCallbacks(rows)
    requires k < |rows| && !Expired(rows[k], now) && rows[k].status == Disabled
    ensures forall e :: e in Effects(rows, n, now, answer) ==> e.callback != rows[k].callback
  {
    if n > 0 {
      DisabledRowNotWritten(rows, n - 1, now, answer, k);
      if n - 1 != k {
        assert rows[n - 1].callback != rows[k].callback;
      }
    }
  }

  /** Writes that do not name a row's callback keep that row in the table
      unchanged. */
  lemma {:induction false} UntouchedRowKept(topics: seq<TopicRow>, subs: seq<SubscriptionRow>, key: string,
                                            effects: seq<Effect>, row: SubscriptionRow)
    requires row in subs
    requires forall e :: e in effects ==> e.callback != row.callback
    ensures row in Apply(topics, subs, key, effects)
  {
    if effects != [] {
      var init := effects[..|effects| - 1];
      UntouchedRowKept(topics, subs, key, init, row);
      var before := Apply(topics, subs, key, init);
      var e := effects[|effects| - 1];
      assert e in effects;
      match e {
        case Delete(callback) =>
          match TopicIdByKey(topics, key) {
            case OneRow(id) =>
            case _ =>
          }
        case Mark(callback, st) =>
          var i :| 0 <= i < |before| && before[i] == row;
          assert WithStatus(before, callback, st)[i] == row;
      }
    }
  }

  /** A disabled subscription gets no POST, and the message leaves its row
      as it was. */
  lemma DisabledLeftAlone(topics: seq<TopicRow>, subs: seq<SubscriptionRow>, key: string,
                          rows: seq<SubscriptionRow>, now: int, answer: string -> Outcome, k: nat)
    requires DistinctCallbacks(rows) && forall r :: r in rows ==> r in subs
    requires k < |rows| && !Expired(rows[k], now) && rows[k].status == Disabled
    ensures rows[k] !in Recipients(rows, |rows|, now)
    ensures rows[k] in Apply(topics, subs, key, Effects(rows, |rows|, now, answer))
  {
    DisabledRowNotWritten(rows, |rows|, now, answer, k);
    RecipientsAreDelivered(rows, |rows|, now);
    UntouchedRowKept(topics, subs, key, Effects(rows, |rows|, now, answer), rows[k]);
  }

  /** Applying two runs of writes one after the other. */
  lemma {:induction false} ApplyAppend(topics: seq<TopicRow>, subs: seq<SubscriptionRow>, key: string,
                                       a: seq<Effect>, b: seq<Effect>)
    ensures Apply(topics, subs, key, a + b) == Apply(topics, Apply(topics, subs, key, a), key, b)
  {
    if b == [] {
      assert a + b == a;
    } else {
      var init := b[..|b| - 1];
      ApplyAppend(topics, subs, key, a, init);
      assert (a + b)[..|a + b| - 1] == a + init;
    }
  }

  /** No row of `subs` has the key `gone`. */
  predicate NoRowWithKey(subs: seq<SubscriptionRow>, gone: (nat, string)) {
    forall r :: r in subs ==> Key(r) != gone
  }

  /** No write brings back a row with a key the table no longer has. */
  lemma ApplyOneKeepsAbsent(topics: seq<TopicRow>, subs: seq<SubscriptionRow>, key: string,
                            e: Effect, gone: (nat, string))
    requires NoRowWithKey(subs, gone)
    ensures NoRowWithKey(ApplyOne(topics, subs, key, e), gone)
  {
    match e {
      case Delete(c) =>
      case Mark(c, st) =>
        var after := WithStatus(subs, c, st);
        forall r | r in after ensures Key(r) != gone {
          var i :| 0 <= i < |after| && after[i] == r;
          assert subs[i] in subs;
        }
    }
  }

  lemma {:induction false} KeyStaysAbsent(topics: seq<TopicRow>, subs: seq<SubscriptionRow>, key: string,
                                          effects: seq<Effect>, gone: (nat, string))
    requires NoRowWithKey(subs, gone)
    ensures NoRowWithKey(Apply(topics, subs, key, effects), gone)
  {
    if effects != [] {
      var init := effects[..|effects| - 1];
      KeyStaysAbsent(topics, subs, key, init, gone);
      ApplyOneKeepsAbsent(topics, Apply(topics, subs, key, init), key, effects[|effects| - 1], gone);
    }
  }

  /** A row the message removes (expired, or answered with 410) is gone from
      the table afterwards when the topic key names exactly one topic: no row
      with its topic and callback remains. */
  lemma {:induction false} RemovedRowGone(topics: seq<TopicRow>, subs: seq<SubscriptionRow>, key: string,
                                          rows: seq<SubscriptionRow>, n: nat, now: int, answer: string -> Outcome,
                                          k: nat)
    requires k < n <= |rows| && Removed(rows[k], now, answer)
    requires TopicIdByKey(topics, key) == OneRow(rows[k].topicId)
    ensures NoRowWithKey(Apply(topics, subs, key, Effects(rows, n, now, answer)), Key(rows[k]))
  {
    var m := n - 1;
    if k < m {
      RemovedRowGone(topics, subs, key, rows, m, now, answer, k);
      StaysGone(topics, subs, key, rows, m, n, now, answer, Key(rows[k]));
    } else {
      GoneAtItsTurn(topics, subs, key, rows, m, n, now, answer);
    }
  }

  /** A key absent after the writes of the first m rows stays absent after
      those of row m. */
  lemma StaysGone(topics: seq<TopicRow>, subs: seq<SubscriptionRow>, key: string,
                  rows: seq<SubscriptionRow>, m: nat, n: nat, now: int, answer: string -> Outcome, gone: (nat, string))
    requires n == m + 1 && n <= |rows|
    requires NoRowWithKey(Apply(topics, subs, key, Effects(rows, m, now, answer)), gone)
    ensures NoRowWithKey(Apply(topics, subs, key, Effects(rows, n, now, answer)), gone)
  {
    var before := Effects(rows, m, now, answer);
    var tail := EffectOf(rows[m], now, answer);
    assert Effects(rows, n, now, answer) == before + tail;
    ApplyAppend(topics, subs, key, before, tail);
    KeyStaysAbsent(topics, Apply(topics, subs, key, before), key, tail, gone);
  }

  /** Row m, when removed, leaves no row with its key after the writes of
      the first m + 1 rows. */
  lemma GoneAtItsTurn(topics: seq<TopicRow>, subs: seq<SubscriptionRow>, key: string,
                      rows: seq<SubscriptionRow>, m: nat, n: nat, now: int, answer: string -> Outcome)
    requires n == m + 1 && n <= |rows| && Removed(rows[m], now, answer)
    requires TopicIdByKey(topics, key) == OneRow(rows[m].topicId)
    ensures NoRowWithKey(Apply(topics, subs, key, Effects(rows, n, now, answer)), Key(rows[m]))
  {
    var before := Effects(rows, m, now, answer);
    assert Effects(rows, n, now, answer) == before + EffectOf(rows[m], now, answer);
    ApplyAppend(topics, subs, key, before, EffectOf(rows[m], now, answer));
    RemovedAtItsTurn(topics, Apply(topics, subs, key, before), key, rows[m], now, answer);
  }

  /** The writes for a removed row leave no row with its key behind. */
  lemma RemovedAtItsTurn(topics: seq<TopicRow>, subs: seq<SubscriptionRow>, key: string,
                         row: SubscriptionRow, now: int, answer: string -> Outcome)
    requires Removed(row, now, answer)
    requires TopicIdByKey(topics, key) == OneRow(row.topicId)
    ensures NoRowWithKey(Apply(topics, subs, key, EffectOf(row, now, answer)), Key(row))
  {
    var tail := EffectOf(row, now, answer);
    assert tail == [Delete(row.callback)];
    assert Apply(topics, subs, key, tail) == AfterDelete(topics, subs, key, row.callback) by {
      assert tail[..0] == [];
    }
  }

  // ---------------------------------------------------------------------
  // The engine

  /** The step written twice in the `forEach` callback after a delete:
      decrement the shared counter and unsubscribe the broker topic when it
      reaches zero. */
  method CountDown(count: int, topic: string) returns (left: int, unsubscribe: seq<BrokerCall>)
    ensures left == count - 1
    ensures unsubscribe == if left == 0 then [BrokerUnsubscribe(topic)] else []
  {
    left, unsubscribe := count - 1, [];
    if left == 0 {
      unsubscribe := [BrokerUnsubscribe(topic)];
    }
  }

  /** The handling of one subscription row inside the `forEach` of
      `http_publish`: delete it when expired, skip it when disabled, otherwise
      POST the payload and react to the outcome. `count` is the shared
      counter of subscriptions left; each delete decrements it and the one
      that brings it to zero also unsubscribes the broker topic. */
  method Deliver(store: Store, cfg: Config, topic: string, payload: string, now: int,
                 answer: string -> Outcome, hmacHex: (string, string, string) -> string, row: SubscriptionRow,
                 count: int)
    returns (post: seq<Post>, left: int, unsubscribe: seq<BrokerCall>)
    requires store.Valid()
    modifies store
    ensures store.Valid() && store.topics == old(store.topics)
    ensures store.subscriptions == Apply(store.topics, old(store.subscriptions), store.escape(topic), EffectOf(row, now, answer))
    ensures Sent(post, if Delivered(row, now) then [row] else [], cfg, topic, payload, hmacHex)
    ensures left == count - (if Removed(row, now, answer) then 1 else 0)
    ensures unsubscribe == if Removed(row, now, answer) && left == 0 then [BrokerUnsubscribe(topic)] else []
  {
    post, left, unsubscribe := [], count, [];
    ghost var subs, key := store.subscriptions, store.escape(topic);
    ghost var reaction := ReactionTo(row.status, answer(row.callback));
    if now > row.duration {
      store.DeleteSubscription(topic, row.callback);
      left, unsubscribe := CountDown(count, topic);
      ApplySingle(store.topics, subs, key, Delete(row.callback));
    } else if row.status == Disabled {
      ApplyNone(store.topics, subs, key);
    } else {
      post := [Post(row.callback, HeadersFor(cfg, topic, row.secret, payload, hmacHex), payload)];
      match answer(row.callback) {
        case Answered(code) =>
          if 200 <= code <= 299 {
            if row.status == Inactive {
              store.ActivateSubscription(row.callback);
              ApplySingle(store.topics, subs, key, Mark(row.callback, Active));
            }
          }
          if code == 410 {
            store.DeleteSubscription(topic, row.callback);
            left, unsubscribe := CountDown(count, topic);
            ApplySingle(store.topics, subs, key, Delete(row.callback));
          }
          if reaction == NoChange {
            ApplyNone(store.topics, subs, key);
          }
        case Rejected =>
          if row.status == Active || row.status == Updated {
            store.DeactivateSubscription(row.callback);
            ApplySingle(store.topics, subs, key, Mark(row.callback, Inactive));
          } else if row.status == Inactive {
            store.DisableSubscription(row.callback);
            ApplySingle(store.topics, subs, key, Mark(row.callback, Disabled));
          }
      }
    }
  }

  lemma ApplyNone(topics: seq<TopicRow>, subs: seq<SubscriptionRow>, key: string)
    ensures Apply(topics, subs, key, []) == subs
  {
  }

  lemma ApplySingle(topics: seq<TopicRow>, subs: seq<SubscriptionRow>, key: string, e: Effect)
    ensures Apply(topics, subs, key, [e]) == ApplyOne(topics, subs, key, e)
  {
    assert [e][..0] == [];
  }

  /** The POSTs made are one per recipient row, in order, each carrying the
      payload and the headers for that row's secret. */
  predicate Sent(posts: seq<Post>, recipients: seq<SubscriptionRow>, cfg: Config, topic: string, payload: string,
                 hmacHex: (string, string, string) -> string)
  {
    && |posts| == |recipients|
    && forall k :: 0 <= k < |posts| ==> SentTo(posts[k], recipients[k], cfg, topic, payload, hmacHex)
  }

  /** One POST to a row: its callback, the payload, and the headers for
      the row's secret. */
  predicate SentTo(post: Post, row: SubscriptionRow, cfg: Config, topic: string, payload: string,
                   hmacHex: (string, string, string) -> string)
  {
    && post.callback == row.callback
    && post.body == payload
    && post.headers == HeadersFor(cfg, topic, row.secret, payload, hmacHex)
  }

  lemma SentAppend(posts: seq<Post>, recipients: seq<SubscriptionRow>, more: seq<Post>, next: seq<SubscriptionRow>,
                   cfg: Config, topic: string, payload: string, hmacHex: (string, string, string) -> string)
    requires Sent(posts, recipients, cfg, topic, payload, hmacHex)
    requires Sent(more, next, cfg, topic, payload, hmacHex)
    ensures Sent(posts + more, recipients + next, cfg, topic, payload, hmacHex)
  {
    forall k | |posts| <= k < |posts| + |more|
      ensures (posts + more)[k] == more[k - |posts|] && (recipients + next)[k] == next[k - |posts|]
    {
    }
  }

  /** The writes of the first i + 1 rows: those of the first i, then row i's. */
  lemma ApplyStep(topics: seq<TopicRow>, subs: seq<SubscriptionRow>, key: string,
                  rows: seq<SubscriptionRow>, i: nat, now: int, answer: string -> Outcome)
    requires i < |rows|
    ensures Apply(topics, subs, key, Effects(rows, i + 1, now, answer))
         == Apply(topics, Apply(topics, subs, key, Effects(rows, i, now, answer)), key, EffectOf(rows[i], now, answer))
  {
    ApplyAppend(topics, subs, key, Effects(rows, i, now, answer), EffectOf(rows[i], now, answer));
  }

  /** The POSTs for the first i + 1 rows: those for the first i, then row i's. */
  lemma SentStep(posts: seq<Post>, post: seq<Post>, rows: seq<SubscriptionRow>, i: nat, now: int,
                 cfg: Config, topic: string, payload: string, hmacHex: (string, string, string) -> string)
    requires i < |rows|
    requires Sent(posts, Recipients(rows, i, now), cfg, topic, payload, hmacHex)
    requires Sent(post, if Delivered(rows[i], now) then [rows[i]] else [], cfg, topic, payload, hmacHex)
    ensures Sent(posts + post, Recipients(rows, i + 1, now), cfg, topic, payload, hmacHex)
  {
    SentAppend(posts, Recipients(rows, i, now), post, if Delivered(rows[i], now) then [rows[i]] else [],
               cfg, topic, payload, hmacHex);
  }

  /** The counter after i + 1 rows: row i decrements it at most once, and
      it never passes below zero. */
  lemma CountStep(rows: seq<SubscriptionRow>, i: nat, now: int, answer: string -> Outcome)
    requires i < |rows|
    ensures Removals(rows, i + 1, now, answer) == Removals(rows, i, now, answer) + (if Removed(rows[i], now, answer) then 1 else 0)
    ensures Removals(rows, i + 1, now, answer) <= i + 1
  {
    RemovalsAtMost(rows, i + 1, now, answer);
  }

  /** One turn of the `forEach`: deliver to row i and keep the running
      writes, POSTs and counter in step with the first i + 1 rows. */
  method DeliverNext(store: Store, cfg: Config, topic: string, payload: string, now: int,
                     answer: string -> Outcome, hmacHex: (string, string, string) -> string, rows: seq<SubscriptionRow>,
                     i: nat, ghost subs0: seq<SubscriptionRow>, posts: seq<Post>, remaining: int, broker: seq<BrokerCall>)
    returns (posts': seq<Post>, remaining': int, broker': seq<BrokerCall>)
    requires i < |rows|
    requires store.Valid()
    requires store.subscriptions == Apply(store.topics, subs0, store.escape(topic), Effects(rows, i, now, answer))
    requires Sent(posts, Recipients(rows, i, now), cfg, topic, payload, hmacHex)
    requires remaining == |rows| - Removals(rows, i, now, answer)
    requires broker == if remaining == 0 then [BrokerUnsubscribe(topic)] else []
    modifies store
    ensures store.Valid() && store.topics == old(store.topics)
    ensures store.subscriptions == Apply(store.topics, subs0, store.escape(topic), Effects(rows, i + 1, now, answer))
    ensures Sent(posts', Recipients(rows, i + 1, now), cfg, topic, payload, hmacHex)
    ensures remaining' == |rows| - Removals(rows, i + 1, now, answer)
    ensures broker' == if remaining' == 0 then [BrokerUnsubscribe(topic)] else []
  {
    ApplyStep(store.topics, subs0, store.escape(topic), rows, i, now, answer);
    CountStep(rows, i, now, answer);
    var post, unsubscribe;
    post, remaining', unsubscribe := Deliver(store, cfg, topic, payload, now, answer, hmacHex, rows[i], remaining);
    SentStep(posts, post, rows, i, now, cfg, topic, payload, hmacHex);
    posts', broker' := posts + post, broker + unsubscribe;
  }

  /** The `forEach` over the subscription rows of one message, with the
      shared counter started at their number. */
  method DeliverAll(store: Store, cfg: Config, topic: string, payload: string, now: int,
                    answer: string -> Outcome, hmacHex: (string, string, string) -> string, rows: seq<SubscriptionRow>)
    returns (posts: seq<Post>, broker: seq<BrokerCall>)
    requires store.Valid()
    modifies store
    ensures store.Valid()
    ensures store.topics == old(store.topics)
    ensures store.subscriptions == Apply(store.topics, old(store.subscriptions), store.escape(topic), Effects(rows, |rows|, now, answer))
    ensures Sent(posts, Recipients(rows, |rows|, now), cfg, topic, payload, hmacHex)
    ensures broker == if Removals(rows, |rows|, now, answer) == |rows| then [BrokerUnsubscribe(topic)] else []
  {
    posts, broker := [], if |rows| == 0 then [BrokerUnsubscribe(topic)] else [];
    ghost var subs0, key := store.subscriptions, store.escape(topic);
    var remaining := |rows|;
    var i := 0;
    while i < |rows|
      invariant 0 <= i <= |rows|
      invariant store.Valid() && store.topics == old(store.topics)
      invariant store.subscriptions == Apply(store.topics, subs0, key, Effects(rows, i, now, answer))
      invariant Sent(posts, Recipients(rows, i, now), cfg, topic, payload, hmacHex)
      invariant remaining == |rows| - Removals(rows, i, now, answer)
      invariant broker == if remaining == 0 then [BrokerUnsubscribe(topic)] else []
    {
      ghost var next := i + 1;
      posts, remaining, broker := DeliverNext(store, cfg, topic, payload, now, answer, hmacHex, rows, i, subs0, posts, remaining, broker);
      i := i + 1;
      assert i == next;
    }
  }

  /** `http_publish(topic, payload)`. `now` is the message's single
      "now" in seconds; `answer(callback)` is what the subscriber at that
      callback makes of the POST. A topic with no subscriptions is
      unsubscribed from the broker at once. */
  method Publish(store: Store, cfg: Config, topic: string, payload: string, now: int,
                 answer: string -> Outcome, hmacHex: (string, string, string) -> string)
    returns (posts: seq<Post>, broker: seq<BrokerCall>)
    requires store.Valid()
    modifies store
    ensures store.Valid()
    ensures store.topics == old(store.topics)
    ensures var rows := old(store.GetSubscriptions(topic));
      && store.subscriptions == Apply(store.topics, old(store.subscriptions), store.escape(topic), Effects(rows, |rows|, now, answer))
      && Sent(posts, Recipients(rows, |rows|, now), cfg, topic, payload, hmacHex)
      && broker == if |rows| == 0 || Removals(rows, |rows|, now, answer) == |rows| then [BrokerUnsubscribe(topic)] else []
  {
    var rows := store.GetSubscriptions(topic);
    if |rows| == 0 {
      posts, broker := [], [BrokerUnsubscribe(topic)];
      return;
    }
    posts, broker := DeliverAll(store, cfg, topic, payload, now, answer, hmacHex, rows);
  }
}
