/** The subscription handshake of routes/subscribe.js: the publisher check
    (a HEAD request whose `Link` headers must name this hub and the topic),
    the verification of intent (a GET with a random challenge the subscriber
    must echo as `text/plain; charset=utf-8`), the broker subscription, and
    the insert-or-update of the subscription row. */
module Subscribe {
  import opened Common
  import opened Settings
  import opened Wire
  import opened Repository

  // ---------------------------------------------------------------------
  // The Link pattern  /<([^>]+)>;\s+rel="([^"]+)"/ig

  /** The first index at or after `from` holding `c`, or |s|. */
  function IndexOf(s: string, c: char, from: nat): (j: nat)
    requires from <= |s|
    ensures from <= j <= |s|
    ensures j < |s| ==> s[j] == c
    ensures forall k :: from <= k < j ==> s[k] != c
    decreases |s| - from
  {
    if from == |s| || s[from] == c then from else IndexOf(s, c, from + 1)
  }

  /** The end of the run of white space starting at `from`. */
  function SkipSpace(s: string, from: nat): (j: nat)
    requires from <= |s|
    ensures from <= j <= |s|
    ensures j < |s| ==> !IsJsSpace(s[j])
    ensures forall k :: from <= k < j ==> IsJsSpace(s[k])
    decreases |s| - from
  {
    if from == |s| || !IsJsSpace(s[from]) then from else SkipSpace(s, from + 1)
  }

  /** `rel` under the `i` flag: each letter in either case. */
  predicate IsRelWord(w: string) {
    |w| == 3 && (w[0] == 'r' || w[0] == 'R') && (w[1] == 'e' || w[1] == 'E') && (w[2] == 'l' || w[2] == 'L')
  }

  /** The pattern read by positions: `<` at `i`, the URL up to the first `>`
      at `j` (at least one character), `;` after it, a run of white space up
      to `k` (at least one character), `rel` in any case, `="`, the rel name
      up to the first `"` at `n` (at least one character). */
  predicate PatternAt(d: string, i: nat, j: nat, k: nat, n: nat) {
    && i + 1 < j && j + 2 < k && k + 5 < n < |d|
    && d[i] == '<'
    && (forall p :: i < p < j ==> d[p] != '>') && d[j] == '>' && d[j + 1] == ';'
    && (forall p :: j + 2 <= p < k ==> IsJsSpace(d[p]))
    && IsRelWord(d[k..k + 3]) && d[k + 3] == '=' && d[k + 4] == '"'
    && (forall p :: k + 5 <= p < n ==> d[p] != '"') && d[n] == '"'
  }

  /** An attempt to match the pattern at index `i`, giving (URL, rel name).
      Both `[^>]+` and `[^"]+` stop at the first closing character and `\s+`
      takes the whole run of white space, so no backtracking can find
      another match at the same index. */
  function MatchAt(d: string, i: nat): (r: Option<(string, string)>)
    requires i <= |d|
    ensures r.Some? ==> i < |d| && d[i] == '<' && Admissible(r.value)
  {
    if i < |d| && d[i] == '<' then
      var j := IndexOf(d, '>', i + 1);
      if j == |d| || j == i + 1 || j + 1 == |d| || d[j + 1] != ';' then None
      else
        var k := SkipSpace(d, j + 2);
        if k == j + 2 || k + 5 > |d| || !IsRelWord(d[k..k + 3]) || d[k + 3] != '=' || d[k + 4] != '"' then None
        else
          var n := IndexOf(d, '"', k + 5);
          if n == |d| || n == k + 5 then None
          else Some((d[i + 1..j], d[k + 5..n]))
    else None
  }

  /** What a match can give: a non-empty URL without `>` and a non-empty
      rel name without `"`. */
  predicate Admissible(m: (string, string)) {
    && |m.0| > 0 && (forall p :: 0 <= p < |m.0| ==> m.0[p] != '>')
    && |m.1| > 0 && (forall p :: 0 <= p < |m.1| ==> m.1[p] != '"')
  }

  /** What the matcher finds is an occurrence of the pattern. */
  lemma MatchAtSound(d: string, i: nat)
    requires i <= |d| && MatchAt(d, i).Some?
    ensures exists j: nat, k: nat, n: nat :: PatternAt(d, i, j, k, n) && MatchAt(d, i).value == (d[i + 1..j], d[k + 5..n])
  {
    var j := IndexOf(d, '>', i + 1);
    var k := SkipSpace(d, j + 2);
    var n := IndexOf(d, '"', k + 5);
    assert PatternAt(d, i, j, k, n);
  }

  /** Whenever the pattern occurs at `i`, the matcher finds it there, with
      exactly that URL and rel name. */
  lemma MatchAtFinds(d: string, i: nat, j: nat, k: nat, n: nat)
    requires PatternAt(d, i, j, k, n)
    ensures MatchAt(d, i) == Some((d[i + 1..j], d[k + 5..n]))
  {
    IndexOfIs(d, '>', i + 1, j);
    assert d[k] == d[k..k + 3][0];
    SkipSpaceIs(d, j + 2, k);
    IndexOfIs(d, '"', k + 5, n);
  }

  /** The text of one match: `<url>;`, white space, `rel="name"`. */
  function EntryText(url: string, space: string, word: string, rel: string): string {
    "<" + url + ">;" + space + word + "=\"" + rel + "\""
  }

  /** The parts the pattern admits: a non-empty URL without `>`, at least one
      white-space character, `rel` in any case, a non-empty name without `"`. */
  predicate EntryParts(url: string, space: string, word: string, rel: string) {
    && |url| > 0 && (forall p :: 0 <= p < |url| ==> url[p] != '>')
    && |space| > 0 && (forall p :: 0 <= p < |space| ==> IsJsSpace(space[p]))
    && IsRelWord(word)
    && |rel| > 0 && (forall p :: 0 <= p < |rel| ==> rel[p] != '"')
  }

  /** A Link entry written from admissible parts matches at its start, and
      the match gives back its URL and rel name. */
  lemma EntryMatches(url: string, space: string, word: string, rel: string)
    requires EntryParts(url, space, word, rel)
    ensures MatchAt(EntryText(url, space, word, rel), 0) == Some((url, rel))
  {
    var t := EntryText(url, space, word, rel);
    var j := 1 + |url|;
    var k := j + 2 + |space|;
    var n := k + 5 + |rel|;
    assert |t| == n + 1;
    forall p | 0 < p < j ensures t[p] != '>' {
      assert t[p] == url[p - 1];
    }
    forall p | j + 2 <= p < k ensures IsJsSpace(t[p]) {
      assert t[p] == space[p - j - 2];
    }
    assert t[k..k + 3] == word;
    forall p | k + 5 <= p < n ensures t[p] != '"' {
      assert t[p] == rel[p - k - 5];
    }
    assert t[1..j] == url && t[k + 5..n] == rel;
    assert PatternAt(t, 0, j, k, n);
    MatchAtFinds(t, 0, j, k, n);
  }

  lemma {:induction false} IndexOfIs(s: string, c: char, from: nat, j: nat)
    requires from <= j < |s| && s[j] == c
    requires forall k :: from <= k < j ==> s[k] != c
    ensures IndexOf(s, c, from) == j
    decreases j - from
  {
    if from < j {
      IndexOfIs(s, c, from + 1, j);
    }
  }

  lemma {:induction false} SkipSpaceIs(s: string, from: nat, j: nat)
    requires from <= j < |s| && !IsJsSpace(s[j])
    requires forall k :: from <= k < j ==> IsJsSpace(s[k])
    ensures SkipSpace(s, from) == j
    decreases j - from
  {
    if from < j {
      SkipSpaceIs(s, from + 1, j);
    }
  }

  /** `exec` on a fresh regular expression (its `lastIndex` is 0): the
      first match from `i` on. */
  function ExecFrom(d: string, i: nat): (r: Option<(string, string)>)
    requires i <= |d|
    ensures r.Some? ==> Admissible(r.value)
    decreases |d| - i
  {
    if i == |d| || MatchAt(d, i).Some? then MatchAt(d, i) else ExecFrom(d, i + 1)
  }

  function Exec(d: string): (r: Option<(string, string)>)
    ensures r.Some? ==> Admissible(r.value)
  {
    ExecFrom(d, 0)
  }

  /** `exec` finds no match only when the pattern occurs nowhere. */
  lemma {:induction false} ExecNone(d: string, i: nat)
    requires i <= |d|
    ensures ExecFrom(d, i).None? <==> forall p :: i <= p <= |d| ==> MatchAt(d, p).None?
    decreases |d| - i
  {
    if i < |d| && MatchAt(d, i).None? {
      ExecNone(d, i + 1);
    }
  }

  /** The match `exec` reports is the leftmost one. */
  lemma {:induction false} ExecLeftmost(d: string, i: nat)
    requires i <= |d| && ExecFrom(d, i).Some?
    ensures exists p :: i <= p <= |d| && MatchAt(d, p) == ExecFrom(d, i) && NoMatchBetween(d, i, p)
    decreases |d| - i
  {
    if i < |d| && MatchAt(d, i).None? {
      ExecLeftmost(d, i + 1);
      var p :| i + 1 <= p <= |d| && MatchAt(d, p) == ExecFrom(d, i + 1) && NoMatchBetween(d, i + 1, p);
      assert ExecFrom(d, i) == ExecFrom(d, i + 1);
      assert NoMatchBetween(d, i, p) by {
        forall q | i <= q < p ensures MatchAt(d, q).None? {
          if q != i {
            assert NoMatchBetween(d, i + 1, p);
          }
        }
      }
    } else {
      assert NoMatchBetween(d, i, i);
    }
  }

  predicate NoMatchBetween(d: string, i: nat, p: nat)
    requires i <= p <= |d|
  {
    forall q :: i <= q < p ==> MatchAt(d, q).None?
  }

  /** A Link value written as the pattern expects is read back as its URL
      and rel name. */
  lemma EntryRoundTrip(url: string, space: string, word: string, rel: string)
    requires EntryParts(url, space, word, rel)
    ensures Exec(EntryText(url, space, word, rel)) == Some((url, rel))
  {
    EntryMatches(url, space, word, rel);
  }

  /** The Link values the hub itself sends with each delivery,
      `url;rel="hub"`, have no `<` and no white space after `;`, so this
      pattern does not read them. */
  lemma DeliveredLinkNotRead(url: string)
    requires forall p :: 0 <= p < |url| ==> url[p] != '<'
    ensures Exec(url + ";rel=\"hub\"").None?
  {
    var d := url + ";rel=\"hub\"";
    forall p | 0 <= p <= |d| ensures MatchAt(d, p).None? {
      if p < |url| {
        assert d[p] == url[p];
      } else if p < |d| {
        assert d[p] == ";rel=\"hub\""[p - |url|];
      }
    }
    ExecNone(d, 0);
  }

  /** What `exec` gives on each entry, in order. */
  function Matches(entries: seq<string>): (ms: seq<Option<(string, string)>>)
    ensures |ms| == |entries|
    ensures forall k :: 0 <= k < |entries| ==> ms[k] == Exec(entries[k])
  {
    seq(|entries|, k requires 0 <= k < |entries| => Exec(entries[k]))
  }

  /** The match names this rel. */
  predicate Names(m: Option<(string, string)>, rel: string) {
    m.Some? && m.value.1 == rel
  }

  /** The URL of the last match whose rel name is `rel`: the value a table
      filled in entry order ends up with. */
  function LastUrlFor(ms: seq<Option<(string, string)>>, rel: string): Option<string> {
    if ms == [] then None
    else if Names(ms[|ms| - 1], rel) then Some(ms[|ms| - 1].value.0)
    else LastUrlFor(ms[..|ms| - 1], rel)
  }

  /** A rel name has no URL exactly when no match names it; otherwise its
      URL is that of a match naming it, after which no match names it. */
  lemma {:induction false} LastUrlForIs(ms: seq<Option<(string, string)>>, rel: string)
    ensures LastUrlFor(ms, rel).None? <==> forall k :: 0 <= k < |ms| ==> !Names(ms[k], rel)
    ensures LastUrlFor(ms, rel).Some? ==>
      exists k :: && 0 <= k < |ms| && ms[k] == Some((LastUrlFor(ms, rel).value, rel))
                  && forall m :: k < m < |ms| ==> !Names(ms[m], rel)
  {
    if ms != [] {
      var n := |ms| - 1;
      var prefix := ms[..n];
      if Names(ms[n], rel) {
        assert ms[n] == Some((LastUrlFor(ms, rel).value, rel));
      } else {
        assert LastUrlFor(ms, rel) == LastUrlFor(prefix, rel);
        LastUrlForIs(prefix, rel);
        assert forall k :: 0 <= k < n ==> prefix[k] == ms[k];
        if LastUrlFor(prefix, rel).Some? {
          var k :| && 0 <= k < n && prefix[k] == Some((LastUrlFor(prefix, rel).value, rel))
                   && forall m :: k < m < n ==> !Names(prefix[m], rel);
          assert ms[k] == Some((LastUrlFor(ms, rel).value, rel));
        }
      }
    }
  }

  /** Every entry matches the pattern: otherwise `linkInfo` is null and
      reading `linkInfo[2]` throws. */
  predicate AllEntriesMatch(entries: seq<string>) {
    forall k :: 0 <= k < |entries| ==> Exec(entries[k]).Some?
  }

  /** `parseLink(data)`. `None` stands for the TypeError thrown by an entry
      the pattern does not match. */
  method ParseLinks(data: Option<seq<string>>) returns (links: Option<map<string, string>>)
    ensures data.None? ==> links == Some(map[])
    ensures data.Some? ==> (links.Some? <==> AllEntriesMatch(data.value))
    ensures data.Some? && links.Some? ==> forall rel ::
      && (rel in links.value <==> LastUrlFor(Matches(data.value), rel).Some?)
      && (rel in links.value ==> links.value[rel] == LastUrlFor(Matches(data.value), rel).value)
  {
    if data.None? {
      return Some(map[]);
    }
    var entries := data.value;
    var table: map<string, string> := map[];
    var i := 0;
    while i < |entries|
      invariant 0 <= i <= |entries|
      invariant forall k :: 0 <= k < i ==> Exec(entries[k]).Some?
      invariant forall rel ::
        && (rel in table <==> LastUrlFor(Matches(entries)[..i], rel).Some?)
        && (rel in table ==> table[rel] == LastUrlFor(Matches(entries)[..i], rel).value)
    {
      var info := Exec(entries[i]);
      if info.None? {
        return None;
      }
      ghost var ms := Matches(entries);
      assert ms[..i + 1][..i] == ms[..i] && ms[..i + 1][i] == info;
      table := table[info.value.1 := info.value.0];
      i := i + 1;
    }
    assert Matches(entries)[..i] == Matches(entries);
    return Some(table);
  }

  /** The URL the parsed headers give for a rel name; undefined when the
      header is absent or names no such rel. */
  function LinkFor(data: Option<seq<string>>, rel: string): Option<string> {
    if data.None? then None else LastUrlFor(Matches(data.value), rel)
  }

  // ---------------------------------------------------------------------
  // The publisher check

  const MissingHub: string := "publisher did not return Link rel=\"hub\""
  const MismatchingHub: string := "publisher returned mismatching hub URL: "
  const MissingSelf: string := "publisher did not return Link rel=\"self\""
  const MismatchingSelf: string := "publisher returned mismatching topic URL: "

  /** The reason a rejection reports, read from the hub and self URLs:
      that of the last failing check, "" when every check passes. The
      "missing hub" message is never the one reported: a missing hub also
      fails the next check, whose message then reads "…mismatching hub URL:
      undefined". */
  function RejectionReason(hub: Option<string>, self: Option<string>, hubUrl: string, topicUrl: string,
                           unescape: string -> string): (reason: string)
    ensures reason == "" <==> hub == Some(hubUrl) && self.Some? && unescape(self.value) == unescape(topicUrl)
    ensures reason != MissingHub
  {
    assert MissingHub[10] == 'd' && |MissingSelf| != |MissingHub|;
    assert MismatchingSelf[10] == 'r' && MismatchingHub[10] == 'r';
    if unescape(JsText(self)) != unescape(topicUrl) then MismatchingSelf + JsText(self)
    else if self.None? then MissingSelf
    else if hub != Some(hubUrl) then MismatchingHub + JsText(hub)
    else ""
  }

  /** The four checks on the parsed Link table, each clearing `accepted`
      and overwriting `reason`, so the last failing one gives the reason. */
  method CheckPublisher(links: map<string, string>, hubUrl: string, topicUrl: string, unescape: string -> string)
    returns (accepted: bool, reason: string)
    ensures accepted <==>
      && "hub" in links && links["hub"] == hubUrl
      && "self" in links && unescape(links["self"]) == unescape(topicUrl)
    ensures reason == RejectionReason(Prop(links, "hub"), Prop(links, "self"), hubUrl, topicUrl, unescape)
    ensures accepted <==> reason == ""
  {
    var hub := Prop(links, "hub");
    var self := Prop(links, "self");
    accepted, reason := true, "";
    if hub.None? {
      reason := MissingHub;
      accepted := false;
    }
    if hub != Some(hubUrl) {
      reason := MismatchingHub + JsText(hub);
      accepted := false;
    }
    if self.None? {
      reason := MissingSelf;
      accepted := false;
    }
    if unescape(JsText(self)) != unescape(JsText(Some(topicUrl))) {
      reason := MismatchingSelf + JsText(self);
      accepted := false;
    }
  }

  /** What the HEAD request to the publisher produced: a transport error; a
      response whose `Link` header values come as a list (absent when there
      are none), as with a header sent more than once; or a response with a
      single `Link` header, which the client hands over as one string, on
      which `forEach` throws. */
  datatype HeadReply = HeadFailed | HeadAnswered(link: Option<seq<string>>) | HeadLinkText(line: string)

  /** The response reaches the checks: a list of Link values, every one of
      which the pattern matches (or no Link header). */
  predicate PublisherParsed(head: HeadReply) {
    head.HeadAnswered? && (head.link.Some? ==> AllEntriesMatch(head.link.value))
  }

  /** The publisher accepts the topic for this hub. */
  predicate PublisherAccepts(head: HeadReply, hubUrl: string, topicUrl: string, unescape: string -> string) {
    && PublisherParsed(head)
    && LinkFor(head.link, "hub") == Some(hubUrl)
    && LinkFor(head.link, "self").Some?
    && unescape(LinkFor(head.link, "self").value) == unescape(topicUrl)
  }

  /** The denial a parsed but rejected publisher response causes: one GET
      to the callback with the escaped topic URL and the reason of the last
      failing check; nothing otherwise. */
  function PublisherDenial(head: HeadReply, hubUrl: string, topicUrl: string, callback: string,
                           escape: string -> string, unescape: string -> string): (denial: seq<Request>)
    ensures |denial| <= 1
    ensures denial != [] <==> PublisherParsed(head) && !PublisherAccepts(head, hubUrl, topicUrl, unescape)
    ensures forall r :: r in denial ==> IsDenial(r) && r.url == callback
  {
    if PublisherParsed(head) && !PublisherAccepts(head, hubUrl, topicUrl, unescape) then
      [Denial(callback, escape(topicUrl),
              RejectionReason(LinkFor(head.link, "hub"), LinkFor(head.link, "self"), hubUrl, topicUrl, unescape))]
    else []
  }

  /** The response to the HEAD request (subscribe.js lines 57-111): on a
      rejection, the denial GET to the callback; on a transport error or a
      Link header that cannot be parsed, nothing is sent and the handshake
      stops. */
  method VerifyPublisher(head: HeadReply, hubUrl: string, topicUrl: string, callback: string,
                         escape: string -> string, unescape: string -> string)
    returns (status: bool, denial: seq<Request>)
    ensures status <==> PublisherAccepts(head, hubUrl, topicUrl, unescape)
    ensures denial == PublisherDenial(head, hubUrl, topicUrl, callback, escape, unescape)
  {
    denial := [];
    if !head.HeadAnswered? {
      // A transport error, or `forEach` called on a string: both end in the
      // `catch`, which returns false.
      return false, [];
    }
    var links := ParseLinks(head.link);
    if links.None? {
      return false, [];
    }
    assert Prop(links.value, "hub") == LinkFor(head.link, "hub");
    assert Prop(links.value, "self") == LinkFor(head.link, "self");
    var accepted, reason := CheckPublisher(links.value, hubUrl, topicUrl, unescape);
    if !accepted {
      denial := [Denial(callback, escape(topicUrl), reason)];
    }
    status := accepted;
  }

  // ---------------------------------------------------------------------
  // Verification of intent

  /** The challenge GET: mode, topic URL, challenge and lease, then the
      secret only when there is one. */
  function ChallengeQuery(topicUrl: string, challenge: string, leaseSeconds: int, secret: Option<string>)
    : (q: seq<(string, QueryValue)>)
    ensures |q| == if secret.Some? then 5 else 4
    ensures q[0] == ("hub.mode", Text("subscribe")) && q[1] == ("hub.topic", Text(topicUrl))
    ensures q[2] == ("hub.challenge", Text(challenge)) && q[3] == ("hub.lease_seconds", Number(leaseSeconds))
    ensures secret.Some? ==> q[4] == ("hub.secret", Text(secret.value))
  {
    var params := [("hub.mode", Text("subscribe")), ("hub.topic", Text(topicUrl)),
                   ("hub.challenge", Text(challenge)), ("hub.lease_seconds", Number(leaseSeconds))];
    if secret.Some? then params + [("hub.secret", Text(secret.value))] else params
  }

  /** A reply that verifies the subscription: `text/plain`, a charset equal
      to "utf-8" ignoring case, and the challenge echoed exactly. */
  predicate ChallengeAccepted(reply: ChallengeReply, challenge: string) {
    && reply.ChallengeAnswered?
    && reply.mediaType == Some("text/plain")
    && reply.charset.Some? && AsciiLower(reply.charset.value) == "utf-8"
    && reply.body == challenge
  }

  /** The checks of subscribe.js lines 138-154. A missing charset makes
      `toLowerCase` throw, which the handshake's `catch` swallows. */
  method VerifyIntent(reply: ChallengeReply, challenge: string) returns (verified: bool)
    ensures verified <==> ChallengeAccepted(reply, challenge)
  {
    match reply {
      case ChallengeFailed =>
        return false;
      case ChallengeAnswered(mediaType, charset, body) =>
        if mediaType != Some("text/plain") {
          return false;
        }
        if charset.None? {
          return false;
        }
        if AsciiLower(charset.value) != "utf-8" {
          return false;
        }
        if body != challenge {
          return false;
        }
        return true;
    }
  }

  /** Upper- and mixed-case charsets pass. */
  lemma CharsetCaseIgnored(challenge: string)
    ensures ChallengeAccepted(ChallengeAnswered(Some("text/plain"), Some("UTF-8"), challenge), challenge)
  {
    assert AsciiLower("UTF-8") == "utf-8";
  }

  // ---------------------------------------------------------------------
  // Broker subscription and persistence

  /** What the broker client's subscribe callback receives: whether `err` is
      set, and the topics of the `granted` list. */
  datatype Grant = Grant(failed: bool, grantedTopics: seq<string>)

  /** The callback denies the subscriber only when something was granted and
      either the first grant is for another topic or an error is set; an
      error with nothing granted goes unreported. */
  predicate BrokerRefused(grant: Grant, topic: string) {
    |grant.grantedTopics| > 0 && (grant.grantedTopics[0] != topic || grant.failed)
  }

  /** The cases of the broker callback: a grant for another topic, or an
      error with a grant, denies; an error with nothing granted and a clean
      grant of the topic do not. */
  lemma BrokerRefusalCases(topic: string, other: string)
    requires other != topic
    ensures BrokerRefused(Grant(false, [other]), topic)
    ensures BrokerRefused(Grant(true, [topic]), topic)
    ensures !BrokerRefused(Grant(true, []), topic)
    ensures !BrokerRefused(Grant(false, [topic]), topic)
  {
  }

  /** The only request that can follow the challenge GET: the denial a
      broker refusal sends once the challenge verified. A reply that fails
      the checks ends the handshake without a word. */
  function BrokerDenial(reply: ChallengeReply, challenge: string, grant: Grant, callback: string, topicUrl: string,
                        topic: string): (denial: seq<Request>)
    ensures |denial| <= 1
    ensures denial != [] <==> ChallengeAccepted(reply, challenge) && BrokerRefused(grant, topic)
    ensures denial != [] ==> denial[0] == Denial(callback, topicUrl, "Publisher MQTT subscription error")
  {
    if ChallengeAccepted(reply, challenge) && BrokerRefused(grant, topic)
    then [Denial(callback, topicUrl, "Publisher MQTT subscription error")]
    else []
  }

  /** The first row of a list with this callback. */
  function FirstWithCallback(rows: seq<SubscriptionRow>, callback: string): (r: Option<SubscriptionRow>)
    ensures r.None? <==> forall k :: 0 <= k < |rows| ==> rows[k].callback != callback
    ensures r.Some? ==> r.value in rows && r.value.callback == callback
  {
    if rows == [] then None
    else if rows[0].callback == callback then Some(rows[0])
    else FirstWithCallback(rows[1..], callback)
  }

  /** The tables after lines 182-196, given the rows `getSubscriptions`
      listed for the topic: when a listed row has the callback, the rows of
      its (topic id, callback) are renewed; otherwise the topic row with the
      escaped `url` is ensured (a new one takes `nextId`) and an active row
      is appended unless that (topic, callback) key is already taken. */
  function AfterPersist(topics: seq<TopicRow>, subs: seq<SubscriptionRow>, nextId: nat, listed: seq<SubscriptionRow>,
                        url: string, key: string, callback: string, leaseSeconds: int, secret: Option<string>,
                        now: int): (after: (seq<TopicRow>, seq<SubscriptionRow>))
    ensures topics <= after.0 && |after.0| <= |topics| + 1
    ensures |subs| <= |after.1| <= |subs| + 1
    ensures forall r :: r in after.1 && r !in subs ==> r.callback == callback && r.secret == secret
    ensures FirstWithCallback(listed, callback).Some? ==>
      var id := FirstWithCallback(listed, callback).value.topicId;
      && after.0 == topics && |after.1| == |subs|
      && forall i :: 0 <= i < |subs| ==>
           if Key(subs[i]) == (id, callback) then
             && Key(after.1[i]) == Key(subs[i]) && after.1[i].created == subs[i].created
             && after.1[i].status == Updated && after.1[i].updated == Some(now)
             && after.1[i].duration == leaseSeconds + now && after.1[i].secret == secret
           else after.1[i] == subs[i]
    ensures FirstWithCallback(listed, callback).None? ==>
      && after.0 == TopicsAfterInsert(topics, nextId, url, key)
      && TopicIdByUrl(after.0, url).Some?
      && var id := TopicIdByUrl(after.0, url).value;
         after.1 == if Matching(subs, id, callback) == 0
                    then subs + [SubscriptionRow(secret, callback, now, None, leaseSeconds + now, id, Active)]
                    else subs
  {
    match FirstWithCallback(listed, callback)
    case Some(row) =>
      var renewed := Renewed(subs, row.topicId, callback, secret, leaseSeconds + now, now);
      assert forall r :: r in renewed && r !in subs ==> r.callback == callback && r.secret == secret by {
        forall r | r in renewed && r !in subs ensures r.callback == callback && r.secret == secret {
          var i :| 0 <= i < |renewed| && renewed[i] == r;
        }
      }
      (topics, renewed)
    case None =>
      var id := if TopicIdByUrl(topics, url).Some? then TopicIdByUrl(topics, url).value else nextId;
      InsertedTopicFound(topics, nextId, url, key);
      var row := SubscriptionRow(secret, callback, now, None, leaseSeconds + now, id, Active);
      (TopicsAfterInsert(topics, nextId, url, key), if Matching(subs, id, callback) == 0 then subs + [row] else subs)
  }

  /** Lines 182-196: insert the subscription unless the topic's row list
      already has this callback, in which case that row is renewed. Either
      way one row then holds the (topic, callback) key. */
  method Persist(store: Store, topicUrl: string, topic: string, callback: string, leaseSeconds: int,
                 secret: Option<string>, now: int)
    requires store.Valid()
    modifies store
    ensures store.Valid()
    ensures (store.topics, store.subscriptions) ==
      AfterPersist(old(store.topics), old(store.subscriptions), old(store.nextTopicId), old(store.GetSubscriptions(topic)),
                   store.escape(topicUrl), store.escape(topic), callback, leaseSeconds, secret, now)
    ensures exists id :: Matching(store.subscriptions, id, callback) == 1
  {
    var rows := store.GetSubscriptions(topic);
    var existing := FirstWithCallback(rows, callback);
    if existing.None? {
      ghost var url, key := store.escape(topicUrl), store.escape(topic);
      ghost var before, nextId := store.topics, store.nextTopicId;
      if TopicIdByUrl(before, url).None? {
        TopicIdByUrlAppend(before, TopicRow(nextId, url, key));
      }
      var ok := store.InsertSubscription(topicUrl, topic, callback, leaseSeconds, secret, now);
      var id := TopicIdByUrl(store.topics, store.escape(topicUrl)).value;
      if ok {
        var row := SubscriptionRow(secret, callback, now, None, leaseSeconds + now, id, Active);
        MatchingAppend(old(store.subscriptions), row, id, callback);
      } else {
        OneMatch(store.subscriptions, id, callback);
      }
      assert Matching(store.subscriptions, id, callback) == 1;
    } else {
      var row := existing.value;
      PresentOnce(store.subscriptions, row);
      store.UpdateSubscription(row.topicId, callback, leaseSeconds, secret, now);
      assert Matching(store.subscriptions, row.topicId, callback) == 1;
    }
  }

  /** A row of a table with unique keys has its key exactly once. */
  lemma PresentOnce(subs: seq<SubscriptionRow>, row: SubscriptionRow)
    requires UniqueKeys(subs) && row in subs
    ensures Matching(subs, row.topicId, row.callback) == 1
  {
    var i :| 0 <= i < |subs| && subs[i] == row;
    assert Key(subs[i]) == (row.topicId, row.callback);
    OneMatch(subs, row.topicId, row.callback);
  }

  /** With unique keys, a key that is present is present exactly once. */
  lemma {:induction false} OneMatch(subs: seq<SubscriptionRow>, id: nat, callback: string)
    requires UniqueKeys(subs)
    requires Matching(subs, id, callback) != 0
    ensures Matching(subs, id, callback) == 1
  {
    var tail := subs[1..];
    assert UniqueKeys(tail) by {
      forall i, j | 0 <= i < j < |tail| ensures Key(tail[i]) != Key(tail[j]) {
        assert tail[i] == subs[i + 1] && tail[j] == subs[j + 1];
      }
    }
    if Key(subs[0]) == (id, callback) {
      forall i | 0 <= i < |tail| ensures Key(tail[i]) != (id, callback) {
        assert tail[i] == subs[i + 1];
      }
    } else {
      OneMatch(tail, id, callback);
    }
  }

  // ---------------------------------------------------------------------
  // The handshake

  /** `subscribe(topic_url, topic, callback, lease_seconds, secret)`.
      `topicUrl` is the topic URL's `href`; `challenge` stands for the 16
      random bytes in hex; `head`, `reply` and `grant` are what the
      publisher, the subscriber and the broker answered. */
  method Subscribe(store: Store, cfg: Config, topicUrl: string, topic: string, callback: string,
                   leaseSeconds: int, secret: Option<string>, now: int, challenge: string,
                   head: HeadReply, reply: ChallengeReply, grant: Grant, unescape: string -> string)
    returns (requests: seq<Request>, broker: seq<BrokerCall>)
    requires store.Valid()
    modifies store
    ensures store.Valid()
    ensures |requests| >= 1 && requests[0] == Head(JsText(cfg.publisherUrl) + topic)
    ensures !PublisherAccepts(head, cfg.hubUrl, topicUrl, unescape) ==>
      && broker == []
      && requests == [Head(JsText(cfg.publisherUrl) + topic)]
                     + PublisherDenial(head, cfg.hubUrl, topicUrl, callback, store.escape, unescape)
      && forall k :: 1 <= k < |requests| ==> IsDenial(requests[k])
    ensures PublisherAccepts(head, cfg.hubUrl, topicUrl, unescape) ==>
      requests == [Head(JsText(cfg.publisherUrl) + topic), Get(callback, ChallengeQuery(topicUrl, challenge, leaseSeconds, secret))]
                  + BrokerDenial(reply, challenge, grant, callback, topicUrl, topic)
    ensures var persisted := PublisherAccepts(head, cfg.hubUrl, topicUrl, unescape) && ChallengeAccepted(reply, challenge);
      && broker == (if persisted then [BrokerSubscribe(topic)] else [])
      && (!persisted ==> store.topics == old(store.topics) && store.subscriptions == old(store.subscriptions))
      && (persisted ==>
            && (store.topics, store.subscriptions) ==
                 AfterPersist(old(store.topics), old(store.subscriptions), old(store.nextTopicId),
                              old(store.GetSubscriptions(topic)), store.escape(topicUrl), store.escape(topic), callback,
                              leaseSeconds, secret, now)
            && exists id :: Matching(store.subscriptions, id, callback) == 1)
  {
    requests, broker := [Head(JsText(cfg.publisherUrl) + topic)], [];
    var status, denial := VerifyPublisher(head, cfg.hubUrl, topicUrl, callback, store.escape, unescape);
    requests := requests + denial;
    if !status {
      return;
    }
    var more;
    more, broker := ConfirmIntent(store, topicUrl, topic, callback, leaseSeconds, secret, now, challenge, reply, grant);
    requests := requests + more;
  }

  /** Lines 132-196: the GET that asks the subscriber to confirm; when the
      reply carries the challenge, the broker topic is subscribed (a refusal
      sends `denied` to the callback) and the subscription is persisted. */
  method ConfirmIntent(store: Store, topicUrl: string, topic: string, callback: string, leaseSeconds: int,
                       secret: Option<string>, now: int, challenge: string, reply: ChallengeReply, grant: Grant)
    returns (requests: seq<Request>, broker: seq<BrokerCall>)
    requires store.Valid()
    modifies store
    ensures store.Valid()
    ensures |requests| >= 1 && requests[0] == Get(callback, ChallengeQuery(topicUrl, challenge, leaseSeconds, secret))
    ensures broker == if ChallengeAccepted(reply, challenge) then [BrokerSubscribe(topic)] else []
    ensures !ChallengeAccepted(reply, challenge) ==>
      |requests| == 1 && store.topics == old(store.topics) && store.subscriptions == old(store.subscriptions)
    ensures ChallengeAccepted(reply, challenge) ==>
      && (store.topics, store.subscriptions) ==
           AfterPersist(old(store.topics), old(store.subscriptions), old(store.nextTopicId),
                        old(store.GetSubscriptions(topic)), store.escape(topicUrl), store.escape(topic), callback,
                        leaseSeconds, secret, now)
      && exists id :: Matching(store.subscriptions, id, callback) == 1
    ensures requests == [Get(callback, ChallengeQuery(topicUrl, challenge, leaseSeconds, secret))] + BrokerDenial(reply, challenge, grant, callback, topicUrl, topic)
  {
    requests, broker := [Get(callback, ChallengeQuery(topicUrl, challenge, leaseSeconds, secret))], [];
    var verified := VerifyIntent(reply, challenge);
    if !verified {
      return;
    }
    broker := [BrokerSubscribe(topic)];
    if |grant.grantedTopics| > 0 && (grant.grantedTopics[0] != topic || grant.failed) {
      requests := requests + [Denial(callback, topicUrl, "Publisher MQTT subscription error")];
    }
    Persist(store, topicUrl, topic, callback, leaseSeconds, secret, now);
  }
}
