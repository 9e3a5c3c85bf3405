/** Values shared by every part of the hub: optional values, the settings the
    handlers read, and the JavaScript string operations they rely on
    (`String.prototype.trim`, `startsWith`, `toLowerCase`, and the text a
    missing value turns into when it is concatenated into a string). */
module Common {

  datatype Option<+T> = None | Some(value: T)

  /** A JavaScript value that may be `undefined`, as it reads once it is
      converted to a string: `'' + undefined` is the text "undefined". */
  function JsText(v: Option<string>): (s: string)
    ensures v.Some? ==> s == v.value
    ensures v.None? ==> s == "undefined"
  {
    match v
    case Some(t) => t
    case None => "undefined"
  }

  /** A property of a JavaScript object read by name: its value, or
      `undefined` when the object has no such property. */
  function Prop(obj: map<string, string>, name: string): (v: Option<string>)
    ensures v.Some? <==> name in obj
    ensures v.Some? ==> v.value == obj[name]
  {
    if name in obj then Some(obj[name]) else None
  }

  /** The characters that `\s` matches in a JavaScript regular expression and
      that `trim` removes: white space and line terminators. */
  predicate IsJsSpace(c: char) {
    || c == ' ' || c == '\t' || c == '\n' || c == '\r'
    || c == '\U{000B}' || c == '\U{000C}' || c == '\U{00A0}' || c == '\U{1680}'
    || ('\U{2000}' <= c <= '\U{200A}')
    || c == '\U{2028}' || c == '\U{2029}' || c == '\U{202F}' || c == '\U{205F}'
    || c == '\U{3000}' || c == '\U{FEFF}'
  }

  /** `s` without its leading white space. */
  function TrimStart(s: string): string {
    if s != [] && IsJsSpace(s[0]) then TrimStart(s[1..]) else s
  }

  /** `s` without its trailing white space. */
  function TrimEnd(s: string): string {
    if s != [] && IsJsSpace(s[|s| - 1]) then TrimEnd(s[..|s| - 1]) else s
  }

  /** `String.prototype.trim`. */
  function Trim(s: string): string {
    TrimEnd(TrimStart(s))
  }

  lemma {:induction false} TrimStartIsSuffix(s: string)
    ensures var r := TrimStart(s);
      && |r| <= |s| && r == s[|s| - |r|..]
      && (forall i :: 0 <= i < |s| - |r| ==> IsJsSpace(s[i]))
      && (r == [] || !IsJsSpace(r[0]))
  {
    if s != [] && IsJsSpace(s[0]) {
      TrimStartIsSuffix(s[1..]);
      forall i | 0 <= i < |s| - |TrimStart(s)| ensures IsJsSpace(s[i]) {
        if i > 0 {
          assert s[i] == s[1..][i - 1];
        }
      }
    }
  }

  lemma {:induction false} TrimEndIsPrefix(s: string)
    ensures var r := TrimEnd(s);
      && |r| <= |s| && r == s[..|r|]
      && (forall i :: |r| <= i < |s| ==> IsJsSpace(s[i]))
      && (r == [] || !IsJsSpace(r[|r| - 1]))
  {
    if s != [] && IsJsSpace(s[|s| - 1]) {
      TrimEndIsPrefix(s[..|s| - 1]);
    }
  }

  /** Trimming keeps the middle part of `s` that starts after the leading
      white space, removes only white space around it, and leaves neither
      end on white space. */
  lemma TrimIsMiddle(s: string)
    ensures var k, r := |s| - |TrimStart(s)|, Trim(s);
      && 0 <= k && k + |r| <= |s| && r == s[k..k + |r|]
      && (forall i :: 0 <= i < k ==> IsJsSpace(s[i]))
      && (forall i :: k + |r| <= i < |s| ==> IsJsSpace(s[i]))
      && (r == [] || (!IsJsSpace(r[0]) && !IsJsSpace(r[|r| - 1])))
  {
    var t := TrimStart(s);
    var r := TrimEnd(t);
    TrimStartIsSuffix(s);
    TrimEndIsPrefix(t);
    var k := |s| - |t|;
    assert t == s[k..] && r == t[..|r|];
    assert r == s[k..k + |r|];
    forall i | k + |r| <= i < |s| ensures IsJsSpace(s[i]) {
      assert s[i] == t[i - k];
      assert IsJsSpace(t[i - k]);
    }
    if r != [] {
      assert r[0] == t[0];
    }
  }

  /** `String.prototype.length`: the number of UTF-16 code units, two for
      a character outside the Basic Multilingual Plane. */
  function JsLength(s: string): (n: nat)
    ensures |s| <= n <= 2 * |s|
  {
    if s == [] then 0 else (if s[0] as int >= 0x1_0000 then 2 else 1) + JsLength(s[1..])
  }

  /** A text without characters outside the Basic Multilingual Plane has
      as many UTF-16 code units as characters. */
  lemma {:induction false} BmpLength(s: string)
    requires forall i :: 0 <= i < |s| ==> s[i] as int < 0x1_0000
    ensures JsLength(s) == |s|
  {
    if s != [] {
      BmpLength(s[1..]);
    }
  }

  /** A character outside the Basic Multilingual Plane is two code units. */
  lemma AstralLength(c: char, s: string)
    requires c as int >= 0x1_0000
    ensures JsLength([c] + s) == JsLength(s) + 2
  {
    assert ([c] + s)[1..] == s;
  }

  /** `toLowerCase` on ASCII letters. The hub only compares the lower-cased
      text with "utf-8", and no character outside ASCII lower-cases to one of
      its letters, so this is exact for that comparison. */
  function AsciiLower(s: string): (r: string)
    ensures |r| == |s|
    ensures forall i :: 0 <= i < |s| ==> r[i] == (if 'A' <= s[i] <= 'Z' then (s[i] - 'A' + 'a') as char else s[i])
  {
    if s == [] then []
    else [if 'A' <= s[0] <= 'Z' then (s[0] - 'A' + 'a') as char else s[0]] + AsciiLower(s[1..])
  }
}

/** The constants of settings.js and the values it reads from the
    environment (the latter as a `Config` value). */
module Settings {
  import opened Common

  const DefaultLeaseSeconds: int := 1800
  const MaxLeaseSeconds: int := 86400
  const MinLeaseSeconds: int := 60
  const MaxUrlSize: int := 2024
  const MaxTopicSize: int := 4096
  const EnforceUtf8: bool := false

  /** Settings taken from the environment. `publisherUrl` is `PUBLISHER_URL`
      or else `STA_ROOT_URL`, and is undefined when neither is set. */
  datatype Config = Config(rootUrl: string, hubUrl: string, shaAlgorithm: string, publisherUrl: Option<string>)
}
