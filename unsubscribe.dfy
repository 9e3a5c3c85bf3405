/** The unsubscription handshake of routes/unsubscribe.js: a GET with a
    random challenge to the callback; then, whatever the response says, the
    (topic, callback) row is deleted, the topic's subscriptions are counted,
    and the broker topic is dropped when none is left. Only a request that
    fails outright leaves everything as it was. */
module Unsubscribe {
  import opened Common
  import opened Wire
  import opened Repository
  import Subscribe

  /** The verification GET: mode, escaped topic URL and challenge, with no
      lease and no secret. */
  function UnsubscribeQuery(escapedTopicUrl: string, challenge: string): (q: seq<(string, QueryValue)>)
    ensures |q| == 3
    ensures q[0] == ("hub.mode", Text("unsubscribe")) && q[1] == ("hub.topic", Text(escapedTopicUrl))
    ensures q[2] == ("hub.challenge", Text(challenge))
    ensures forall k :: 0 <= k < |q| ==> q[k].0 != "hub.lease_seconds" && q[k].0 != "hub.secret"
  {
    [("hub.mode", Text("unsubscribe")), ("hub.topic", Text(escapedTopicUrl)), ("hub.challenge", Text(challenge))]
  }

  /** The checks of unsubscribe.js lines 53-69: `text/plain`, a charset equal
      to "utf-8" as written (case matters here), and the challenge echoed. */
  predicate ChallengeAccepted(reply: ChallengeReply, challenge: string) {
    && reply.ChallengeAnswered?
    && reply.mediaType == Some("text/plain")
    && reply.charset == Some("utf-8")
    && reply.body == challenge
  }

  /** The two handshakes disagree on the charset: "UTF-8" verifies a
      subscription but not an unsubscription, while "utf-8" verifies both. */
  lemma CharsetCaseMatters(challenge: string)
    ensures Subscribe.ChallengeAccepted(ChallengeAnswered(Some("text/plain"), Some("UTF-8"), challenge), challenge)
    ensures !ChallengeAccepted(ChallengeAnswered(Some("text/plain"), Some("UTF-8"), challenge), challenge)
    ensures forall reply :: ChallengeAccepted(reply, challenge) ==> Subscribe.ChallengeAccepted(reply, challenge)
  {
    Subscribe.CharsetCaseIgnored(challenge);
    assert AsciiLower("utf-8") == "utf-8";
  }

  /** `unsubscribe(topic_url, topic, callback)`. `topicUrl` is the topic
      URL's `href` and `challenge` the random hex challenge. `verified` is
      the outcome of the response checks, which the source computes and
      then does not use. */
  method Unsubscribe(store: Store, topicUrl: string, topic: string, callback: string, challenge: string,
                     reply: ChallengeReply)
    returns (requests: seq<Request>, broker: seq<BrokerCall>, verified: bool)
    requires store.Valid()
    modifies store
    ensures store.Valid()
    ensures store.topics == old(store.topics)
    ensures requests == [Get(callback, UnsubscribeQuery(store.escape(topicUrl), challenge))]
    ensures verified <==> ChallengeAccepted(reply, challenge)
    ensures forall r :: r in requests ==> !IsDenial(r)
    ensures reply.ChallengeFailed? ==> store.subscriptions == old(store.subscriptions) && broker == []
    ensures reply.ChallengeAnswered? ==>
      && store.subscriptions == AfterDelete(store.topics, old(store.subscriptions), store.escape(topic), callback)
      && broker == if store.NumSubscriptions(topic) == Some(0) then [BrokerUnsubscribe(topic)] else []
  {
    requests := [Get(callback, UnsubscribeQuery(store.escape(topicUrl), challenge))];
    broker, verified := [], false;
    match reply {
      case ChallengeFailed =>
        return;
      case ChallengeAnswered(mediaType, charset, body) =>
        // The first handler: each failed check only ends that handler.
        verified := mediaType == Some("text/plain") && charset == Some("utf-8") && body == challenge;
    }
    // The chained handler runs once the first one has returned.
    store.DeleteSubscription(topic, callback);
    var count := store.NumSubscriptions(topic);
    if count == Some(0) {
      broker := [BrokerUnsubscribe(topic)];
    }
  }

  /** When exactly one topic has the key, the unsubscription removes every
      row of (topic, callback), keeps the topic's other rows, and lowers its
      count by the number of rows removed. */
  lemma UnsubscribeRemovesOnlyThatRow(topics: seq<TopicRow>, subs: seq<SubscriptionRow>, key: string,
                                      id: nat, callback: string)
    requires TopicIdByKey(topics, key) == OneRow(id)
    ensures var after := AfterDelete(topics, subs, key, callback);
      && (forall r :: r in after ==> Key(r) != (id, callback))
      && (forall r :: r in subs && Key(r) != (id, callback) ==> r in after)
      && |RowsOf(after, id)| + Matching(subs, id, callback) == |RowsOf(subs, id)|
  {
    CountAfterDelete(subs, id, callback);
  }
}
