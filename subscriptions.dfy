/** The `/subscriptions` routes of routes/subscriptions.js. GET is always
    refused. POST validates the form fields in a fixed order, each failure
    ending the request with its status, derives the topic key from the topic
    URL, clamps the lease, and dispatches the subscribe or unsubscribe
    handshake before answering 202. */
module Subscriptions {
  import opened Common
  import opened Settings

  /** A URL as `new url.URL(...)` exposes it. */
  datatype ParsedUrl = ParsedUrl(pathname: string, search: string, href: string)

  /** `Number(text)`: an integral value, or anything else (NaN, an infinity,
      a fraction), all of which fail `isFinite(x) && Number(x) % 1 == 0`. */
  datatype Num = Integral(value: int) | NotIntegral

  /** The handshake a valid request starts. */
  datatype Dispatch =
    | StartSubscribe(topicUrl: ParsedUrl, topic: string, callback: string, leaseSeconds: int, secret: Option<string>)
    | StartUnsubscribe(topicUrl: ParsedUrl, topic: string, callback: string)

  /** The HTTP answer: a status, a text body and the handshake started, if
      any; `NoReply` when the handler throws (an unparsable URL) and
      no response is sent. */
  datatype Reply = Reply(status: int, text: string, dispatch: Option<Dispatch>) | NoReply

  /** GET `/subscriptions`. */
  function HandleGet(): (r: Reply)
    ensures r.Reply? && r.status == 405 && r.dispatch.None?
  {
    Reply(405, "please use POST", None)
  }

  /** A form field as read with `|| null`: absent and empty both give None. */
  function Field(form: map<string, string>, name: string): (v: Option<string>)
    ensures v.Some? <==> name in form && form[name] != ""
    ensures v.Some? ==> v.value == form[name]
  {
    if name in form && form[name] != "" then Some(form[name]) else None
  }

  /** `s.substring(n)` for `n >= 0`: empty once `n` reaches the length. */
  function SubstringFrom(s: string, n: nat): (r: string)
    ensures n <= |s| ==> r == s[n..]
    ensures n > |s| ==> r == ""
  {
    if n <= |s| then s[n..] else ""
  }

  /** The topic key: the topic URL's path without its first |root path|
      characters, followed by its query string ("" when there is none). */
  function TopicKey(root: ParsedUrl, topicUrl: ParsedUrl): (key: string)
    ensures |root.pathname| <= |topicUrl.pathname| ==>
      key == topicUrl.pathname[|root.pathname|..] + topicUrl.search
    ensures |root.pathname| > |topicUrl.pathname| ==> key == topicUrl.search
    ensures root.pathname <= topicUrl.pathname ==> root.pathname + key == topicUrl.pathname + topicUrl.search
  {
    SubstringFrom(topicUrl.pathname, |root.pathname|) + topicUrl.search
  }

  // ---------------------------------------------------------------------
  // The stages of the POST handler, each assuming the earlier ones passed

  function ModeText(form: map<string, string>): string
    requires Field(form, "hub.mode").Some?
  {
    Trim(Field(form, "hub.mode").value)
  }

  predicate ModeAllowed(form: map<string, string>) {
    Field(form, "hub.mode").Some? && (ModeText(form) == "subscribe" || ModeText(form) == "unsubscribe")
  }

  /** `unescape(body['hub.callback'])`; an absent field is `undefined`,
      which unescapes to the text "undefined". */
  function CallbackRaw(form: map<string, string>, unescape: string -> string): string {
    unescape(JsText(Prop(form, "hub.callback")))
  }

  function CallbackText(form: map<string, string>, unescape: string -> string): string {
    unescape(Trim(CallbackRaw(form, unescape)))
  }

  predicate CallbackOk(form: map<string, string>, unescape: string -> string) {
    CallbackRaw(form, unescape) != "" && JsLength(CallbackText(form, unescape)) <= MaxUrlSize
  }

  function TopicText(form: map<string, string>, unescape: string -> string): string
    requires Field(form, "hub.topic").Some?
  {
    unescape(Trim(Field(form, "hub.topic").value))
  }

  predicate TopicOk(form: map<string, string>, rootUrl: string, unescape: string -> string) {
    && Field(form, "hub.topic").Some?
    && JsLength(TopicText(form, unescape)) <= MaxTopicSize
    && rootUrl <= TopicText(form, unescape)
  }

  /** The lease the request asks for: None when the field is absent or empty,
      otherwise `Number` of its trimmed text. */
  function LeaseAsked(form: map<string, string>, numberOf: string -> Num): Option<Num> {
    if Field(form, "hub.lease_seconds").None? then None
    else Some(numberOf(Trim(Field(form, "hub.lease_seconds").value)))
  }

  function SecretText(form: map<string, string>): Option<string> {
    if Field(form, "hub.secret").None? then None else Some(Trim(Field(form, "hub.secret").value))
  }

  /** The lease granted: the requested or default value, raised to the
      minimum and lowered to the maximum. */
  method ClampLease(asked: Option<int>) returns (lease: int)
    ensures MinLeaseSeconds <= lease <= MaxLeaseSeconds
    ensures asked.None? ==> lease == DefaultLeaseSeconds
    ensures asked.Some? && MinLeaseSeconds <= asked.value <= MaxLeaseSeconds ==> lease == asked.value
    ensures asked.Some? && asked.value < MinLeaseSeconds ==> lease == MinLeaseSeconds
    ensures asked.Some? && asked.value > MaxLeaseSeconds ==> lease == MaxLeaseSeconds
  {
    lease := if asked.Some? then asked.value else DefaultLeaseSeconds;
    if lease < MinLeaseSeconds {
      lease := MinLeaseSeconds;
    }
    if lease > MaxLeaseSeconds {
      lease := MaxLeaseSeconds;
    }
  }

  /** A 202: the lease is integral or absent, the secret within 200
      characters, and the dispatch carries the parsed topic URL, the topic
      key, the callback and, for a subscription, the clamped lease and the
      trimmed secret. */
  predicate Admitted(r: Reply, form: map<string, string>, mode: string, callback: string, topicText: string,
                     rootUrl: string, parseUrl: string -> Option<ParsedUrl>, numberOf: string -> Num)
  {
    && r.Reply? && r.status == 202 && r.dispatch.Some?
    && LeaseAsked(form, numberOf) != Some(NotIntegral)
    && (SecretText(form).Some? ==> JsLength(SecretText(form).value) <= 200)
    && r.text == "request for " + mode + " accepted"
    && parseUrl(rootUrl).Some? && parseUrl(topicText).Some?
    && var topicUrl := parseUrl(topicText).value;
       var topic := TopicKey(parseUrl(rootUrl).value, topicUrl);
       if mode == "subscribe" then
         && r.dispatch.value.StartSubscribe?
         && r.dispatch.value.topicUrl == topicUrl && r.dispatch.value.topic == topic
         && r.dispatch.value.callback == callback && r.dispatch.value.secret == SecretText(form)
         && MinLeaseSeconds <= r.dispatch.value.leaseSeconds <= MaxLeaseSeconds
         && (LeaseAsked(form, numberOf).None? ==> r.dispatch.value.leaseSeconds == DefaultLeaseSeconds)
         && (LeaseAsked(form, numberOf).Some? ==>
               var asked := LeaseAsked(form, numberOf).value.value;
               r.dispatch.value.leaseSeconds ==
                 if asked < MinLeaseSeconds then MinLeaseSeconds
                 else if asked > MaxLeaseSeconds then MaxLeaseSeconds
                 else asked)
       else r.dispatch == Some(StartUnsubscribe(topicUrl, topic, callback))
  }

  /** The part of the POST handler after the mode, callback and topic
      checks (subscriptions.js lines 81-149): parse both URLs, derive the
      topic key, read and clamp the lease, read and limit the secret, and
      dispatch. */
  method Admit(form: map<string, string>, mode: string, callback: string, topicText: string, rootUrl: string,
               parseUrl: string -> Option<ParsedUrl>, numberOf: string -> Num)
    returns (r: Reply)
    ensures r.NoReply? <==> parseUrl(rootUrl).None? || parseUrl(topicText).None?
    ensures r.Reply? ==> r.status in {202, 400} && (r.dispatch.Some? <==> r.status == 202)
    ensures r.Reply? && LeaseAsked(form, numberOf) == Some(NotIntegral) ==>
      r == Reply(400, "`hub.lease_seconds` must be a number", None)
    ensures (r.Reply? && LeaseAsked(form, numberOf) != Some(NotIntegral) && SecretText(form).Some?
             && JsLength(SecretText(form).value) > 200) ==>
      r == Reply(400, "parameter `hub.secret` exceeds limit of 200 bytes", None)
    ensures (r.Reply? && LeaseAsked(form, numberOf) != Some(NotIntegral)
             && (SecretText(form).Some? ==> JsLength(SecretText(form).value) <= 200)) ==> r.status == 202
    ensures r.Reply? && r.status == 202 ==> Admitted(r, form, mode, callback, topicText, rootUrl, parseUrl, numberOf)
  {
    var root := parseUrl(rootUrl);
    if root.None? {
      return NoReply;
    }
    var topicUrl := parseUrl(topicText);
    if topicUrl.None? {
      return NoReply;
    }
    // `url.search` is never null, so the query string is always appended.
    var topic := TopicKey(root.value, topicUrl.value);

    var asked: Option<int> := None;
    var leaseField := Field(form, "hub.lease_seconds");
    if leaseField.Some? {
      var n := numberOf(Trim(leaseField.value));
      if n.NotIntegral? {
        return Reply(400, "`hub.lease_seconds` must be a number", None);
      }
      asked := Some(n.value);
    }
    var lease := ClampLease(asked);

    var secretField := Field(form, "hub.secret");
    var secret: Option<string> := None;
    if secretField.Some? {
      secret := Some(Trim(secretField.value));
      if JsLength(secret.value) > 200 {
        return Reply(400, "parameter `hub.secret` exceeds limit of 200 bytes", None);
      }
    }

    var dispatch := if mode == "subscribe"
      then StartSubscribe(topicUrl.value, topic, callback, lease, secret)
      else StartUnsubscribe(topicUrl.value, topic, callback);
    r := Reply(202, "request for " + mode + " accepted", Some(dispatch));
  }

  /** POST `/subscriptions` with the parsed form body. `unescape` stands for
      `querystring.unescape`, `parseUrl` for `new url.URL` (None when it
      throws) and `numberOf` for `Number`. The checks run in a fixed order
      and the first that fails decides the status. */
  method HandlePost(form: map<string, string>, rootUrl: string, unescape: string -> string,
                    parseUrl: string -> Option<ParsedUrl>, numberOf: string -> Num)
    returns (r: Reply)
    ensures Field(form, "hub.mode").None? ==> r == Reply(400, "parameter `hub.mode` required", None)
    ensures Field(form, "hub.mode").Some? && !ModeAllowed(form) ==>
      r == Reply(501, "`hub.mode` not allowed: " + ModeText(form), None)
    ensures ModeAllowed(form) && CallbackRaw(form, unescape) == "" ==>
      r == Reply(400, "parameter `hub.callback` required", None)
    ensures ModeAllowed(form) && CallbackRaw(form, unescape) != "" && !CallbackOk(form, unescape) ==>
      r.Reply? && r.status == 413 && r.dispatch.None?
    ensures ModeAllowed(form) && CallbackOk(form, unescape) && !TopicOk(form, rootUrl, unescape) ==>
      && r.Reply? && r.dispatch.None?
      && r.status == (if Field(form, "hub.topic").Some? && JsLength(TopicText(form, unescape)) > MaxTopicSize then 413 else 400)
    ensures ModeAllowed(form) && CallbackOk(form, unescape) && TopicOk(form, rootUrl, unescape) ==>
      && (r.NoReply? <==> parseUrl(rootUrl).None? || parseUrl(TopicText(form, unescape)).None?)
      && (r.Reply? && LeaseAsked(form, numberOf) == Some(NotIntegral) ==>
            r == Reply(400, "`hub.lease_seconds` must be a number", None))
      && ((r.Reply? && LeaseAsked(form, numberOf) != Some(NotIntegral) && SecretText(form).Some?
             && JsLength(SecretText(form).value) > 200) ==>
            r == Reply(400, "parameter `hub.secret` exceeds limit of 200 bytes", None))
    ensures (&& ModeAllowed(form) && CallbackOk(form, unescape) && TopicOk(form, rootUrl, unescape) && r.Reply?
             && LeaseAsked(form, numberOf) != Some(NotIntegral)
             && (SecretText(form).Some? ==> JsLength(SecretText(form).value) <= 200)) ==>
      r.status == 202
    ensures r.Reply? && r.status == 202 ==>
      && ModeAllowed(form) && CallbackOk(form, unescape) && TopicOk(form, rootUrl, unescape)
      && Admitted(r, form, ModeText(form), CallbackText(form, unescape), TopicText(form, unescape), rootUrl, parseUrl, numberOf)
    ensures r.Reply? ==> r.status in {202, 400, 413, 501} && (r.dispatch.Some? <==> r.status == 202)
  {
    var modeField := Field(form, "hub.mode");
    if modeField.None? {
      return Reply(400, "parameter `hub.mode` required", None);
    }
    var mode := Trim(modeField.value);
    if mode != "subscribe" && mode != "unsubscribe" {
      return Reply(501, "`hub.mode` not allowed: " + mode, None);
    }

    var callback := unescape(JsText(Prop(form, "hub.callback")));
    if callback == "" {
      return Reply(400, "parameter `hub.callback` required", None);
    }
    callback := unescape(Trim(callback));
    if JsLength(callback) > MaxUrlSize {
      return Reply(413, "hub.callback URL maximum length is 2024", None);
    }

    var topicField := Field(form, "hub.topic");
    if topicField.None? {
      return Reply(400, "parameter hub.topic required", None);
    }
    var topic := unescape(Trim(topicField.value));
    if JsLength(topic) > MaxTopicSize {
      return Reply(413, "hub.topic URL maximum length is 4096", None);
    }
    if !(rootUrl <= topic) {
      return Reply(400, "`hub.topic` refers to unsupported SensorThings service", None);
    }
    r := Admit(form, mode, callback, topic, rootUrl, parseUrl, numberOf);
  }
}
