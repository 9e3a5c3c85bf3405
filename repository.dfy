/** The subscription repository of helpers/db.js: the `topics` and
    `subscriptions` tables and the SQL statements the hub runs on them.
    A statement's effect is stated by a function on the table contents; the
    `Store` class holds the tables and its methods apply those functions. */
module Repository {
  import opened Common

  /** `subscription_state`: the four statuses a subscription row can hold. */
  datatype Status = Active | Inactive | Updated | Disabled

  /** The text stored in the `status` column. */
  function StatusName(s: Status): string {
    match s
    case Active => "active"
    case Inactive => "inactive"
    case Updated => "updated"
    case Disabled => "disabled"
  }

  /** Reads a `status` column value back; the four names are the only texts
      the repository ever writes there. */
  function StatusNamed(name: string): (r: Option<Status>)
    ensures r.Some? ==> StatusName(r.value) == name
    ensures r.None? ==> forall s: Status :: StatusName(s) != name
  {
    if name == "active" then Some(Active)
    else if name == "inactive" then Some(Inactive)
    else if name == "updated" then Some(Updated)
    else if name == "disabled" then Some(Disabled)
    else None
  }

  /** A row of `topics`: `topicUrl` and `topic` are stored percent-escaped. */
  datatype TopicRow = TopicRow(id: nat, topicUrl: string, topic: string)

  /** A row of `subscriptions`. `created` and `updated` are the "now" of the
      statement that wrote them; `duration` is the absolute expiry second. */
  datatype SubscriptionRow = SubscriptionRow(
    secret: Option<string>,
    callback: string,
    created: int,
    updated: Option<int>,
    duration: int,
    topicId: nat,
    status: Status)

  /** A subscription is identified by its topic and its callback. */
  function Key(r: SubscriptionRow): (nat, string) {
    (r.topicId, r.callback)
  }

  ghost predicate UniqueKeys(subs: seq<SubscriptionRow>) {
    forall i, j :: 0 <= i < j < |subs| ==> Key(subs[i]) != Key(subs[j])
  }

  ghost predicate HasTopic(topics: seq<TopicRow>, id: nat) {
    exists i :: 0 <= i < |topics| && topics[i].id == id
  }

  // ---------------------------------------------------------------------
  // Queries on `topics`

  /** `SELECT id from topics WHERE topic_url = $1`, first row. */
  function TopicIdByUrl(topics: seq<TopicRow>, url: string): (r: Option<nat>)
    ensures r.None? <==> forall i :: 0 <= i < |topics| ==> topics[i].topicUrl != url
    ensures r.Some? ==> exists i :: 0 <= i < |topics| && topics[i].topicUrl == url && topics[i].id == r.value
  {
    if topics == [] then None
    else if topics[0].topicUrl == url then Some(topics[0].id)
    else TopicIdByUrl(topics[1..], url)
  }

  /** A topic row appended under a new URL is the one that URL finds. */
  lemma {:induction false} TopicIdByUrlAppend(topics: seq<TopicRow>, row: TopicRow)
    requires TopicIdByUrl(topics, row.topicUrl).None?
    ensures TopicIdByUrl(topics + [row], row.topicUrl) == Some(row.id)
  {
    if topics != [] {
      assert (topics + [row])[1..] == topics[1..] + [row];
      TopicIdByUrlAppend(topics[1..], row);
    }
  }

  /** The ids of the topic rows whose (escaped) key is `key`. */
  function TopicIdsWithKey(topics: seq<TopicRow>, key: string): (ids: seq<nat>)
    ensures |ids| == 0 <==> forall i :: 0 <= i < |topics| ==> topics[i].topic != key
  {
    if topics == [] then []
    else (if topics[0].topic == key then [topics[0].id] else []) + TopicIdsWithKey(topics[1..], key)
  }

  /** The outcome of `(SELECT id FROM topics WHERE topic = $1)` used as a
      scalar subquery: NULL when no row has the key, an error when several do. */
  datatype Lookup = NoRow | OneRow(id: nat) | ManyRows

  function TopicIdByKey(topics: seq<TopicRow>, key: string): Lookup {
    var ids := TopicIdsWithKey(topics, key);
    if |ids| == 0 then NoRow else if |ids| == 1 then OneRow(ids[0]) else ManyRows
  }

  /** The topic whose aggregated subscriptions `view_subscriptions` returns
      first for a key: the first topic row with that key. */
  function FirstTopicWithKey(topics: seq<TopicRow>, key: string): (r: Option<nat>)
    ensures r.None? <==> forall i :: 0 <= i < |topics| ==> topics[i].topic != key
  {
    if topics == [] then None
    else if topics[0].topic == key then Some(topics[0].id)
    else FirstTopicWithKey(topics[1..], key)
  }

  // ---------------------------------------------------------------------
  // Queries on `subscriptions`

  /** The rows of one topic, in table order. */
  function RowsOf(subs: seq<SubscriptionRow>, id: nat): (rows: seq<SubscriptionRow>)
    ensures |rows| <= |subs|
    ensures forall r :: r in rows <==> r in subs && r.topicId == id
  {
    if subs == [] then []
    else (if subs[0].topicId == id then [subs[0]] else []) + RowsOf(subs[1..], id)
  }

  /** The number of rows with key (`id`, `callback`). */
  function Matching(subs: seq<SubscriptionRow>, id: nat, callback: string): (n: nat)
    ensures n <= |subs|
    ensures n == 0 <==> forall i :: 0 <= i < |subs| ==> Key(subs[i]) != (id, callback)
  {
    if subs == [] then 0
    else (if Key(subs[0]) == (id, callback) then 1 else 0) + Matching(subs[1..], id, callback)
  }

  // ---------------------------------------------------------------------
  // Effects of the writing statements

  /** `DELETE FROM subscriptions WHERE topic_id = id AND callback = cb`. */
  function Without(subs: seq<SubscriptionRow>, id: nat, callback: string): (rest: seq<SubscriptionRow>)
    ensures |rest| <= |subs|
    ensures forall r :: r in rest <==> r in subs && Key(r) != (id, callback)
  {
    if subs == [] then []
    else (if Key(subs[0]) == (id, callback) then [] else [subs[0]]) + Without(subs[1..], id, callback)
  }

  /** `UPDATE subscriptions SET status = st WHERE callback = cb`: every row of
      that callback, whatever its topic. */
  function WithStatus(subs: seq<SubscriptionRow>, callback: string, st: Status): (r: seq<SubscriptionRow>)
    ensures |r| == |subs|
    ensures forall i :: 0 <= i < |subs| ==>
      r[i] == if subs[i].callback == callback then subs[i].(status := st) else subs[i]
  {
    if subs == [] then []
    else
      var head := if subs[0].callback == callback then subs[0].(status := st) else subs[0];
      [head] + WithStatus(subs[1..], callback, st)
  }

  /** `UPDATE subscriptions SET secret, updated, duration, status = 'updated'
      WHERE topic_id = id AND callback = cb`. */
  function Renewed(subs: seq<SubscriptionRow>, id: nat, callback: string, secret: Option<string>,
                   duration: int, now: int): (r: seq<SubscriptionRow>)
    ensures |r| == |subs|
    ensures forall i :: 0 <= i < |subs| ==>
      r[i] == if Key(subs[i]) == (id, callback)
              then subs[i].(secret := secret, updated := Some(now), duration := duration, status := Updated)
              else subs[i]
  {
    if subs == [] then []
    else
      var head := if Key(subs[0]) == (id, callback)
        then subs[0].(secret := secret, updated := Some(now), duration := duration, status := Updated)
        else subs[0];
      [head] + Renewed(subs[1..], id, callback, secret, duration, now)
  }

  /** `deleteSubscription`: the delete keyed by the topic's escaped key. When
      no topic has the key the condition matches nothing; when several do the
      subquery fails and the transaction leaves the table as it was. */
  function AfterDelete(topics: seq<TopicRow>, subs: seq<SubscriptionRow>, key: string, callback: string)
    : (rest: seq<SubscriptionRow>)
    ensures |rest| <= |subs|
    ensures TopicIdByKey(topics, key).OneRow? ==>
      forall r :: r in rest <==> r in subs && Key(r) != (TopicIdByKey(topics, key).id, callback)
    ensures !TopicIdByKey(topics, key).OneRow? ==> rest == subs
  {
    match TopicIdByKey(topics, key)
    case OneRow(id) => Without(subs, id, callback)
    case _ => subs
  }

  /** The topic table after `insertSubscription`'s first transaction: a new
      row only when no row has that escaped `topic_url`. */
  function TopicsAfterInsert(topics: seq<TopicRow>, nextId: nat, url: string, key: string): seq<TopicRow> {
    if TopicIdByUrl(topics, url).Some? then topics else topics + [TopicRow(nextId, url, key)]
  }

  // ---------------------------------------------------------------------
  // Properties of the statements

  /** After the topic insert the URL finds its row: the one it had, or the
      new one with the next id. */
  lemma InsertedTopicFound(topics: seq<TopicRow>, nextId: nat, url: string, key: string)
    ensures TopicIdByUrl(TopicsAfterInsert(topics, nextId, url, key), url) ==
      if TopicIdByUrl(topics, url).Some? then TopicIdByUrl(topics, url) else Some(nextId)
  {
    if TopicIdByUrl(topics, url).None? {
      TopicIdByUrlAppend(topics, TopicRow(nextId, url, key));
    }
  }

  /** Deleting one (topic, callback) lowers the topic's count by exactly the
      number of rows with that key. */
  lemma {:induction false} CountAfterDelete(subs: seq<SubscriptionRow>, id: nat, callback: string)
    ensures |RowsOf(Without(subs, id, callback), id)| + Matching(subs, id, callback) == |RowsOf(subs, id)|
  {
    if subs != [] {
      CountAfterDelete(subs[1..], id, callback);
      var x := subs[0];
      var rest := Without(subs[1..], id, callback);
      if Key(x) != (id, callback) {
        assert Without(subs, id, callback) == [x] + rest;
        assert ([x] + rest)[1..] == rest;
        assert RowsOf([x] + rest, id) == (if x.topicId == id then [x] else []) + RowsOf(rest, id);
      } else {
        assert Without(subs, id, callback) == rest;
      }
    }
  }

  /** The delete keeps the table's keys unique. */
  lemma {:induction false} UniqueWithout(subs: seq<SubscriptionRow>, id: nat, callback: string)
    requires UniqueKeys(subs)
    ensures UniqueKeys(Without(subs, id, callback))
  {
    if subs != [] {
      var head, tail := subs[0], subs[1..];
      UniqueKeysSplit(subs);
      UniqueWithout(tail, id, callback);
      var rest := Without(tail, id, callback);
      if Key(head) != (id, callback) {
        forall r | r in rest ensures Key(r) != Key(head) {
          assert r in tail;
        }
        ConsUniqueKeys(head, rest);
        assert Without(subs, id, callback) == [head] + rest;
      } else {
        assert Without(subs, id, callback) == rest;
      }
    }
  }

  lemma ConsUniqueKeys(x: SubscriptionRow, rest: seq<SubscriptionRow>)
    requires UniqueKeys(rest)
    requires forall r :: r in rest ==> Key(r) != Key(x)
    ensures UniqueKeys([x] + rest)
  {
    var rows := [x] + rest;
    forall i, j | 0 <= i < j < |rows| ensures Key(rows[i]) != Key(rows[j]) {
      assert rows[j] == rest[j - 1];
      if i > 0 {
        assert rows[i] == rest[i - 1];
      } else {
        assert rest[j - 1] in rest;
      }
    }
  }

  /** Rewriting columns other than the key keeps the keys unique and every
      row's topic. */
  lemma SameKeys(a: seq<SubscriptionRow>, b: seq<SubscriptionRow>)
    requires |a| == |b|
    requires forall i :: 0 <= i < |a| ==> Key(a[i]) == Key(b[i])
    requires UniqueKeys(a)
    ensures UniqueKeys(b)
    ensures forall r :: r in b ==> exists s :: s in a && s.topicId == r.topicId
  {
    forall r | r in b ensures exists s :: s in a && s.topicId == r.topicId {
      var i :| 0 <= i < |b| && b[i] == r;
      assert a[i] in a && Key(a[i]) == Key(b[i]);
    }
  }

  /** Rows with the same key count the same, whatever their other columns. */
  lemma {:induction false} MatchingByKeys(a: seq<SubscriptionRow>, b: seq<SubscriptionRow>, id: nat, callback: string)
    requires |a| == |b|
    requires forall i :: 0 <= i < |a| ==> Key(a[i]) == Key(b[i])
    ensures Matching(a, id, callback) == Matching(b, id, callback)
  {
    if a != [] {
      MatchingByKeys(a[1..], b[1..], id, callback);
    }
  }

  lemma {:induction false} MatchingAppend(subs: seq<SubscriptionRow>, row: SubscriptionRow, id: nat, callback: string)
    ensures Matching(subs + [row], id, callback) == Matching(subs, id, callback) + (if Key(row) == (id, callback) then 1 else 0)
  {
    if subs != [] {
      assert (subs + [row])[1..] == subs[1..] + [row];
      MatchingAppend(subs[1..], row, id, callback);
    } else {
      assert ([row])[1..] == [];
    }
  }

  /** Subscribing twice with the same topic and callback: the first time
      inserts an `active` row, the second renews it. There is then exactly one
      row with that key, and it is `updated` with the second call's secret and
      expiry. */
  lemma ResubscribeKeepsOneRow(subs: seq<SubscriptionRow>, row: SubscriptionRow, secret: Option<string>,
                               duration: int, now: int)
    requires Matching(subs, row.topicId, row.callback) == 0
    ensures var after := Renewed(subs + [row], row.topicId, row.callback, secret, duration, now);
      && Matching(after, row.topicId, row.callback) == 1
      && forall i :: 0 <= i < |after| && Key(after[i]) == Key(row) ==>
           after[i].status == Updated && after[i].secret == secret && after[i].duration == duration
  {
    var after := Renewed(subs + [row], row.topicId, row.callback, secret, duration, now);
    MatchingAppend(subs, row, row.topicId, row.callback);
    MatchingByKeys(subs + [row], after, row.topicId, row.callback);
  }

  ghost predicate DistinctCallbacks(rows: seq<SubscriptionRow>) {
    forall i, j :: 0 <= i < j < |rows| ==> rows[i].callback != rows[j].callback
  }

  /** The rows of one topic have pairwise distinct callbacks. */
  lemma {:induction false} RowsOfDistinctCallbacks(subs: seq<SubscriptionRow>, id: nat)
    requires UniqueKeys(subs)
    ensures DistinctCallbacks(RowsOf(subs, id))
  {
    if subs != [] {
      var head, tail := subs[0], subs[1..];
      UniqueKeysSplit(subs);
      RowsOfDistinctCallbacks(tail, id);
      var rest := RowsOf(tail, id);
      if head.topicId == id {
        forall r | r in rest ensures r.callback != head.callback {
          assert r in tail && Key(r) != Key(head);
        }
        ConsDistinct(head, rest);
        assert RowsOf(subs, id) == [head] + rest;
      } else {
        assert RowsOf(subs, id) == rest;
      }
    }
  }

  /** A table with unique keys: its tail has unique keys, and no row of the
      tail shares the key of the head. */
  lemma UniqueKeysSplit(subs: seq<SubscriptionRow>)
    requires subs != [] && UniqueKeys(subs)
    ensures UniqueKeys(subs[1..])
    ensures forall r :: r in subs[1..] ==> Key(r) != Key(subs[0])
  {
    var tail := subs[1..];
    forall i, j | 0 <= i < j < |tail| ensures Key(tail[i]) != Key(tail[j]) {
      assert tail[i] == subs[i + 1] && tail[j] == subs[j + 1];
    }
    forall r | r in tail ensures Key(r) != Key(subs[0]) {
      var k :| 0 <= k < |tail| && tail[k] == r;
      assert subs[k + 1] == r;
    }
  }

  lemma ConsDistinct(x: SubscriptionRow, rest: seq<SubscriptionRow>)
    requires DistinctCallbacks(rest)
    requires forall r :: r in rest ==> r.callback != x.callback
    ensures DistinctCallbacks([x] + rest)
  {
    var rows := [x] + rest;
    forall i, j | 0 <= i < j < |rows| ensures rows[i].callback != rows[j].callback {
      assert rows[j] == rest[j - 1];
      if i > 0 {
        assert rows[i] == rest[i - 1];
      } else {
        assert rest[j - 1] in rest;
      }
    }
  }

  // ---------------------------------------------------------------------
  // The invariant of the tables

  /** Topic ids are below the next id and distinct, and topic URLs are
      unique. */
  ghost predicate TopicsFit(topics: seq<TopicRow>, nextTopicId: nat) {
    && (forall i :: 0 <= i < |topics| ==> topics[i].id < nextTopicId)
    && (forall i, j :: 0 <= i < j < |topics| ==> topics[i].id != topics[j].id)
    && (forall i, j :: 0 <= i < j < |topics| ==> topics[i].topicUrl != topics[j].topicUrl)
  }

  /** A subscription is unique on (topic, callback) and refers to a topic. */
  ghost predicate RowsFit(topics: seq<TopicRow>, subs: seq<SubscriptionRow>) {
    UniqueKeys(subs) && forall r :: r in subs ==> HasTopic(topics, r.topicId)
  }

  /** The topic row `insertSubscription` adds for a new URL takes the next
      id, keeps both invariants, and is the row that URL then finds. */
  lemma AddTopicKeepsFit(topics: seq<TopicRow>, nextTopicId: nat, subs: seq<SubscriptionRow>, url: string, key: string)
    requires TopicsFit(topics, nextTopicId) && RowsFit(topics, subs)
    requires TopicIdByUrl(topics, url).None?
    ensures var after := topics + [TopicRow(nextTopicId, url, key)];
      && TopicsFit(after, nextTopicId + 1) && RowsFit(after, subs)
      && TopicIdByUrl(after, url) == Some(nextTopicId) && HasTopic(after, nextTopicId)
  {
    var row := TopicRow(nextTopicId, url, key);
    var after := topics + [row];
    forall r | r in subs ensures HasTopic(after, r.topicId) {
      var i :| 0 <= i < |topics| && topics[i].id == r.topicId;
      assert after[i] == topics[i];
    }
    TopicIdByUrlAppend(topics, row);
    assert after[|topics|] == row;
  }

  /** A URL that finds a topic names a topic of the table. */
  lemma TopicIdFound(topics: seq<TopicRow>, url: string)
    requires TopicIdByUrl(topics, url).Some?
    ensures HasTopic(topics, TopicIdByUrl(topics, url).value)
  {
  }

  /** A new row with a fresh key and a known topic keeps the rows fitting. */
  lemma AddRowKeepsFit(topics: seq<TopicRow>, subs: seq<SubscriptionRow>, row: SubscriptionRow)
    requires RowsFit(topics, subs) && HasTopic(topics, row.topicId)
    requires Matching(subs, row.topicId, row.callback) == 0
    ensures RowsFit(topics, subs + [row])
  {
    var after := subs + [row];
    forall i, j | 0 <= i < j < |after| ensures Key(after[i]) != Key(after[j]) {
      assert after[i] == subs[i];
      if j == |subs| {
        assert Key(subs[i]) != (row.topicId, row.callback);
      } else {
        assert after[j] == subs[j];
      }
    }
  }

  /** Setting a status keeps every key and every row's topic. */
  lemma StatusKeepsFit(topics: seq<TopicRow>, subs: seq<SubscriptionRow>, callback: string, st: Status)
    requires RowsFit(topics, subs)
    ensures RowsFit(topics, WithStatus(subs, callback, st))
  {
    var after := WithStatus(subs, callback, st);
    SameKeys(subs, after);
    forall r | r in after ensures HasTopic(topics, r.topicId) {
      var s :| s in subs && s.topicId == r.topicId;
    }
  }

  /** Renewing a subscription keeps every key and every row's topic. */
  lemma RenewKeepsFit(topics: seq<TopicRow>, subs: seq<SubscriptionRow>, id: nat, callback: string,
                      secret: Option<string>, leaseSeconds: int, now: int)
    requires RowsFit(topics, subs)
    ensures RowsFit(topics, Renewed(subs, id, callback, secret, leaseSeconds + now, now))
  {
    var after := Renewed(subs, id, callback, secret, leaseSeconds + now, now);
    forall i | 0 <= i < |subs| ensures Key(subs[i]) == Key(after[i]) {}
    SameKeys(subs, after);
    forall r | r in after ensures HasTopic(topics, r.topicId) {
      var s :| s in subs && s.topicId == r.topicId;
    }
  }

  /** Renewing keeps the number of rows with any one key. */
  lemma RenewKeepsCount(subs: seq<SubscriptionRow>, id: nat, callback: string,
                        secret: Option<string>, leaseSeconds: int, now: int)
    ensures Matching(Renewed(subs, id, callback, secret, leaseSeconds + now, now), id, callback) == Matching(subs, id, callback)
  {
    var after := Renewed(subs, id, callback, secret, leaseSeconds + now, now);
    forall i | 0 <= i < |subs| ensures Key(subs[i]) == Key(after[i]) {}
    MatchingByKeys(subs, after, id, callback);
  }

  /** Deleting rows keeps the rest fitting. */
  lemma WithoutKeepsFit(topics: seq<TopicRow>, subs: seq<SubscriptionRow>, id: nat, callback: string)
    requires RowsFit(topics, subs)
    ensures RowsFit(topics, Without(subs, id, callback))
  {
    UniqueWithout(subs, id, callback);
  }

  // ---------------------------------------------------------------------
  // The tables

  /** The two tables and the statements on them. `escape` is
      `querystring.escape`, applied by the statements that take a topic. */
  class Store {
    var topics: seq<TopicRow>
    var subscriptions: seq<SubscriptionRow>
    var nextTopicId: nat
    const escape: string -> string

    /** Topic ids are fresh and distinct, topic URLs are unique, a
        subscription is unique on (topic, callback) and refers to a topic. */
    ghost predicate Valid()
      reads this
    {
      TopicsFit(topics, nextTopicId) && RowsFit(topics, subscriptions)
    }

    constructor (escape: string -> string)
      ensures Valid()
      ensures topics == [] && subscriptions == [] && this.escape == escape
    {
      topics, subscriptions, nextTopicId := [], [], 0;
      this.escape := escape;
    }

    /** `getTopics`: every topic row; no rows gives the empty list. */
    function GetTopics(): (rows: seq<TopicRow>)
      reads this
      ensures rows == topics
    {
      topics
    }

    /** `numSubscriptions`: the row count of the topic with that key; None
        when the subquery fails because several topics share the key. */
    function NumSubscriptions(topic: string): (n: Option<nat>)
      reads this
      ensures n.None? <==> TopicIdByKey(topics, escape(topic)).ManyRows?
      ensures TopicIdByKey(topics, escape(topic)).NoRow? ==> n == Some(0)
      ensures TopicIdByKey(topics, escape(topic)).OneRow? ==>
        n == Some(|RowsOf(subscriptions, TopicIdByKey(topics, escape(topic)).id)|)
    {
      match TopicIdByKey(topics, escape(topic))
      case NoRow => Some(0)
      case OneRow(id) => Some(|RowsOf(subscriptions, id)|)
      case ManyRows => None
    }

    /** `getSubscriptions`: the subscription rows of the topic, [] for an
        unknown topic. */
    function GetSubscriptions(topic: string): (rows: seq<SubscriptionRow>)
      reads this
      ensures FirstTopicWithKey(topics, escape(topic)).None? ==> rows == []
      ensures forall r :: r in rows ==> r in subscriptions && Some(r.topicId) == FirstTopicWithKey(topics, escape(topic))
      ensures forall r :: r in subscriptions && Some(r.topicId) == FirstTopicWithKey(topics, escape(topic)) ==> r in rows
    {
      match FirstTopicWithKey(topics, escape(topic))
      case None => []
      case Some(id) => RowsOf(subscriptions, id)
    }

    /** The first transaction of `insertSubscription`: the topic row with
        this escaped URL, inserted with the next id and the escaped key when
        there is none. */
    method EnsureTopic(url: string, key: string) returns (id: nat)
      requires Valid()
      modifies this
      ensures Valid()
      ensures topics == TopicsAfterInsert(old(topics), old(nextTopicId), url, key)
      ensures TopicIdByUrl(topics, url) == Some(id) && HasTopic(topics, id)
      ensures subscriptions == old(subscriptions)
      ensures nextTopicId == if TopicIdByUrl(old(topics), url).None? then old(nextTopicId) + 1 else old(nextTopicId)
    {
      var found := TopicIdByUrl(topics, url);
      if found.None? {
        id := nextTopicId;
        AddTopicKeepsFit(topics, nextTopicId, subscriptions, url, key);
        topics := topics + [TopicRow(id, url, key)];
        nextTopicId := nextTopicId + 1;
      } else {
        id := found.value;
        TopicIdFound(topics, url);
      }
    }

    /** `insertSubscription`: the topic row is added, in its own committed
        transaction, only when no topic has that escaped URL; then one `active`
        row expiring at `leaseSeconds + now` is inserted. A row that already
        has that (topic, callback) makes the second transaction fail and roll
        back, but the topic row stays. */
    method InsertSubscription(topicUrl: string, topic: string, callback: string, leaseSeconds: int,
                              secret: Option<string>, now: int) returns (ok: bool)
      requires Valid()
      modifies this
      ensures Valid()
      ensures old(topics) <= topics
      ensures topics == TopicsAfterInsert(old(topics), old(nextTopicId), escape(topicUrl), escape(topic))
      ensures TopicIdByUrl(topics, escape(topicUrl)).Some?
      ensures nextTopicId ==
        if TopicIdByUrl(old(topics), escape(topicUrl)).None? then old(nextTopicId) + 1 else old(nextTopicId)
      ensures var id := TopicIdByUrl(topics, escape(topicUrl)).value;
        && ok == (Matching(old(subscriptions), id, callback) == 0)
        && subscriptions == if ok
           then old(subscriptions) + [SubscriptionRow(secret, callback, now, None, leaseSeconds + now, id, Active)]
           else old(subscriptions)
    {
      var id := EnsureTopic(escape(topicUrl), escape(topic));
      ok := Matching(subscriptions, id, callback) == 0;
      if ok {
        var row := SubscriptionRow(secret, callback, now, None, leaseSeconds + now, id, Active);
        AddRowKeepsFit(topics, subscriptions, row);
        subscriptions := subscriptions + [row];
      }
    }

    /** `updateSubscription`: the rows of (topic id, callback) get the new
        secret, `updated` time, expiry `leaseSeconds + now` and status
        `updated`; every other row is unchanged. */
    method UpdateSubscription(topicId: nat, callback: string, leaseSeconds: int, secret: Option<string>, now: int)
      requires Valid()
      modifies this
      ensures Valid()
      ensures topics == old(topics) && nextTopicId == old(nextTopicId)
      ensures subscriptions == Renewed(old(subscriptions), topicId, callback, secret, leaseSeconds + now, now)
      ensures Matching(subscriptions, topicId, callback) == Matching(old(subscriptions), topicId, callback)
    {
      RenewKeepsFit(topics, subscriptions, topicId, callback, secret, leaseSeconds, now);
      RenewKeepsCount(subscriptions, topicId, callback, secret, leaseSeconds, now);
      subscriptions := Renewed(subscriptions, topicId, callback, secret, leaseSeconds + now, now);
    }

    /** The three status setters share this effect: every row with the
        callback, across all topics, gets status `st`. */
    method SetStatus(callback: string, st: Status)
      requires Valid()
      modifies this
      ensures Valid()
      ensures topics == old(topics) && nextTopicId == old(nextTopicId)
      ensures subscriptions == WithStatus(old(subscriptions), callback, st)
    {
      StatusKeepsFit(topics, subscriptions, callback, st);
      subscriptions := WithStatus(subscriptions, callback, st);
    }

    /** `activateSubscription`. */
    method ActivateSubscription(callback: string)
      requires Valid()
      modifies this
      ensures Valid()
      ensures topics == old(topics) && nextTopicId == old(nextTopicId)
      ensures subscriptions == WithStatus(old(subscriptions), callback, Active)
    {
      SetStatus(callback, Active);
    }

    /** `deactivateSubscription`. */
    method DeactivateSubscription(callback: string)
      requires Valid()
      modifies this
      ensures Valid()
      ensures topics == old(topics) && nextTopicId == old(nextTopicId)
      ensures subscriptions == WithStatus(old(subscriptions), callback, Inactive)
    {
      SetStatus(callback, Inactive);
    }

    /** `disableSubscription`. */
    method DisableSubscription(callback: string)
      requires Valid()
      modifies this
      ensures Valid()
      ensures topics == old(topics) && nextTopicId == old(nextTopicId)
      ensures subscriptions == WithStatus(old(subscriptions), callback, Disabled)
    {
      SetStatus(callback, Disabled);
    }

    /** `deleteSubscription`: removes the rows of (escaped topic key,
        callback); topic rows are never removed. */
    method DeleteSubscription(topic: string, callback: string)
      requires Valid()
      modifies this
      ensures Valid()
      ensures topics == old(topics) && nextTopicId == old(nextTopicId)
      ensures subscriptions == AfterDelete(topics, old(subscriptions), escape(topic), callback)
    {
      match TopicIdByKey(topics, escape(topic)) {
        case OneRow(id) =>
          WithoutKeepsFit(topics, subscriptions, id, callback);
          subscriptions := Without(subscriptions, id, callback);
        case _ =>
      }
    }
  }
}
