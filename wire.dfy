/** What the hub sends and what it is told back: the HTTP requests it issues
    as a client, the calls it makes on the broker (MQTT) client, and the
    replies of subscribers and publishers, reduced to what the handlers read. */
module Wire {
  import opened Common

  /** A query-string value: urllib serialises strings and numbers alike. */
  datatype QueryValue = Text(text: string) | Number(number: int)

  /** An outbound request of the handshakes. Query parameters keep the order in
      which the source builds its parameter object. */
  datatype Request =
    | Head(url: string)
    | Get(url: string, query: seq<(string, QueryValue)>)

  /** A call on the broker client. */
  datatype BrokerCall = BrokerSubscribe(topic: string) | BrokerUnsubscribe(topic: string)

  /** The subscriber's answer to a verification GET: either the request was
      rejected (connection error), or a response came back with the media type
      and charset parameter of its Content-Type header and its body. */
  datatype ChallengeReply =
    | ChallengeFailed
    | ChallengeAnswered(mediaType: Option<string>, charset: Option<string>, body: string)

  /** The denial callback: `hub.mode=denied` with a topic and a reason. */
  function Denial(callback: string, topic: string, reason: string): (r: Request)
    ensures IsDenial(r)
    ensures r.Get? && r.url == callback && |r.query| == 3
    ensures r.query[0] == ("hub.mode", Text("denied"))
    ensures r.query[1] == ("hub.topic", Text(topic)) && r.query[2] == ("hub.reason", Text(reason))
  {
    Get(callback, [("hub.mode", Text("denied")), ("hub.topic", Text(topic)), ("hub.reason", Text(reason))])
  }

  /** Whether a request is a denial callback. */
  predicate IsDenial(r: Request) {
    r.Get? && |r.query| > 0 && r.query[0] == ("hub.mode", Text("denied"))
  }
}
