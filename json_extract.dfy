/**
 * `extract_json`: the JSON object in a language model's reply. A fenced
 * block is cut out first (a ```json fence, else a plain ``` fence); if the
 * candidate does not decode, the span from its first `{` to its last `}` is
 * tried instead. The decoder itself (`json.loads`) is a parameter that tells
 * a decoded value, a `json.JSONDecodeError` and any other exception apart.
 */
module JsonExtract {
  import opened Common

  // ---------------------------------------------------------------------------
  // Python string operations used by the extractor.

  /** `pat` occurs in `s` starting at index `i`. */
  predicate OccursAt(s: string, pat: string, i: int) {
    0 <= i && i + |pat| <= |s| && s[i..i + |pat|] == pat
  }

  /** `pat in s` */
  predicate Contains(s: string, pat: string) {
    exists i :: 0 <= i <= |s| && OccursAt(s, pat, i)
  }

  lemma OccursAtShift(s: string, pat: string)
    requires s != []
    ensures forall j :: 1 <= j ==> (OccursAt(s, pat, j) <==> OccursAt(s[1..], pat, j - 1))
  {
    forall j | 1 <= j
      ensures OccursAt(s, pat, j) <==> OccursAt(s[1..], pat, j - 1)
    {
      if j + |pat| <= |s| {
        assert s[1..][j - 1..j - 1 + |pat|] == s[j..j + |pat|];
      }
    }
  }

  lemma OccursAtPrefix(s: string, pat: string)
    requires s != []
    ensures forall j :: OccursAt(s[..|s| - 1], pat, j) <==> OccursAt(s, pat, j) && j + |pat| < |s|
  {
    forall j
      ensures OccursAt(s[..|s| - 1], pat, j) <==> OccursAt(s, pat, j) && j + |pat| < |s|
    {
      if 0 <= j && j + |pat| <= |s| - 1 {
        assert s[..|s| - 1][j..j + |pat|] == s[j..j + |pat|];
      }
    }
  }

  /** `s.find(pat)`: the first occurrence, or -1. */
  function Find(s: string, pat: string): (r: int)
    ensures r >= -1
    ensures r >= 0 ==> OccursAt(s, pat, r)
    ensures r >= 0 ==> forall j :: 0 <= j < r ==> !OccursAt(s, pat, j)
    ensures r < 0 ==> forall j :: !OccursAt(s, pat, j)
    decreases |s|
  {
    if |s| < |pat| then -1
    else if s[..|pat|] == pat then 0
    else
      var r := Find(s[1..], pat);
      OccursAtShift(s, pat);
      assert !OccursAt(s, pat, 0);
      if r < 0 then -1 else r + 1
  }

  /** `s.rfind(pat)`: the last occurrence, or -1. */
  function RFind(s: string, pat: string): (r: int)
    ensures r >= -1
    ensures r >= 0 ==> OccursAt(s, pat, r)
    ensures r >= 0 ==> forall j :: r < j ==> !OccursAt(s, pat, j)
    ensures r < 0 ==> forall j :: !OccursAt(s, pat, j)
    decreases |s|
  {
    if |s| < |pat| then -1
    else if OccursAt(s, pat, |s| - |pat|) then |s| - |pat|
    else
      OccursAtPrefix(s, pat);
      RFind(s[..|s| - 1], pat)
  }

  /** `Find` returns the occurrence it is shown to be the first. */
  lemma FindIs(s: string, pat: string, k: int)
    requires OccursAt(s, pat, k)
    requires forall j :: 0 <= j < k ==> !OccursAt(s, pat, j)
    ensures Find(s, pat) == k
  {
  }

  /** `s.split(sep)[0]`: the text before the first occurrence of `sep`, all of `s` when there is none. */
  function Before(s: string, sep: string): (b: string)
    requires sep != []
    ensures |b| <= |s| && b == s[..|b|]
    ensures forall j :: 0 <= j < |b| ==> !OccursAt(s, sep, j)
    ensures |b| == |s| || OccursAt(s, sep, |b|)
  {
    var i := Find(s, sep);
    if i < 0 then s else s[..i]
  }

  /** The text after the first occurrence of `sep`. */
  function After(s: string, sep: string): (a: string)
    requires sep != [] && Contains(s, sep)
    ensures s == Before(s, sep) + sep + a
  {
    var i := Find(s, sep);
    AroundOccurrence(s, sep, i);
    s[i + |sep|..]
  }

  /** An occurrence shown to be the first one cuts the string there. */
  lemma BeforeAfterAt(s: string, sep: string, n: int)
    requires sep != [] && OccursAt(s, sep, n)
    requires forall j :: 0 <= j < n ==> !OccursAt(s, sep, j)
    ensures Contains(s, sep) && Before(s, sep) == s[..n] && After(s, sep) == s[n + |sep|..]
  {
    FindIs(s, sep, n);
  }

  /** The text before the first separator holds no separator. */
  lemma BeforeAvoidsSeparator(s: string, sep: string)
    requires sep != []
    ensures !Contains(Before(s, sep), sep)
  {
    var b := Before(s, sep);
    forall j | OccursAt(b, sep, j)
      ensures false
    {
      assert b[j..j + |sep|] == s[..|b|][j..j + |sep|] == s[j..j + |sep|];
      assert OccursAt(s, sep, j);
    }
  }

  /** `s.split(sep)`: the pieces between non-overlapping occurrences of `sep`, left to right. */
  function Split(s: string, sep: string): (parts: seq<string>)
    requires sep != []
    ensures |parts| >= 1 && parts[0] == Before(s, sep)
    ensures Contains(s, sep) ==> |parts| >= 2 && parts[1] == Before(After(s, sep), sep)
    decreases |s|
  {
    if Contains(s, sep) then [Before(s, sep)] + Split(After(s, sep), sep) else [s]
  }

  /** `sep.join(parts)` */
  function Join(parts: seq<string>, sep: string): string
    decreases |parts|
  {
    if |parts| == 0 then ""
    else if |parts| == 1 then parts[0]
    else parts[0] + sep + Join(parts[1..], sep)
  }

  /** A string is the text before an occurrence, the occurrence, and the text after it. */
  lemma AroundOccurrence(s: string, sep: string, i: int)
    requires OccursAt(s, sep, i)
    ensures s == s[..i] + sep + s[i + |sep|..]
  {
    assert s == s[..i] + s[i..i + |sep|] + s[i + |sep|..];
  }

  /** Joining a first piece onto a non-empty list puts the separator between. */
  lemma JoinCons(first: string, parts: seq<string>, sep: string)
    requires parts != []
    ensures Join([first] + parts, sep) == first + sep + Join(parts, sep)
  {
    assert ([first] + parts)[1..] == parts;
  }

  /** Joining the pieces of a split with the separator gives back the string. */
  lemma {:induction false} JoinSplit(s: string, sep: string)
    requires sep != []
    ensures Join(Split(s, sep), sep) == s
    decreases |s|
  {
    if Contains(s, sep) {
      var a := After(s, sep);
      JoinSplit(a, sep);
      JoinCons(Before(s, sep), Split(a, sep), sep);
    }
  }

  /** No piece of a split contains the separator. */
  lemma {:induction false} SplitPiecesAvoidSeparator(s: string, sep: string)
    requires sep != []
    ensures forall k :: 0 <= k < |Split(s, sep)| ==> !Contains(Split(s, sep)[k], sep)
    decreases |s|
  {
    if Contains(s, sep) {
      var a := After(s, sep);
      SplitPiecesAvoidSeparator(a, sep);
      BeforeAvoidsSeparator(s, sep);
      var parts := Split(s, sep);
      assert parts == [Before(s, sep)] + Split(a, sep);
      forall k | 1 <= k < |parts|
        ensures parts[k] == Split(a, sep)[k - 1]
      {
      }
    }
  }

  /** Python's `str.isspace` characters, the ones `strip()` removes. */
  predicate IsSpace(c: char) {
    c == ' ' || ('\t' <= c <= '\r') || ('\U{1C}' <= c <= '\U{1F}') ||
    c == '\U{85}' || c == '\U{A0}' || c == '\U{1680}' || ('\U{2000}' <= c <= '\U{200A}') ||
    c == '\U{2028}' || c == '\U{2029}' || c == '\U{202F}' || c == '\U{205F}' || c == '\U{3000}'
  }

  /** The number of white-space characters at the front of `s`. */
  function LeadingSpace(s: string): (n: nat)
    ensures n <= |s|
    ensures forall j :: 0 <= j < n ==> IsSpace(s[j])
    ensures n == |s| || !IsSpace(s[n])
    decreases |s|
  {
    if s != [] && IsSpace(s[0]) then 1 + LeadingSpace(s[1..]) else 0
  }

  /** The number of white-space characters at the back of `s`. */
  function TrailingSpace(s: string): (n: nat)
    ensures n <= |s|
    ensures forall j :: |s| - n <= j < |s| ==> IsSpace(s[j])
    ensures n == |s| || !IsSpace(s[|s| - n - 1])
    decreases |s|
  {
    if s != [] && IsSpace(s[|s| - 1]) then 1 + TrailingSpace(s[..|s| - 1]) else 0
  }

  /** `r` is the infix of `s` at `a`, with only white space around it in `s`. */
  ghost predicate TrimmedAt(s: string, r: string, a: int) {
    0 <= a <= a + |r| <= |s| && r == s[a..a + |r|] &&
    (forall j :: 0 <= j < a ==> IsSpace(s[j])) &&
    (forall j :: a + |r| <= j < |s| ==> IsSpace(s[j]))
  }

  /** Cutting `a` leading and `n` trailing white-space characters, as counted on `s` and on `s[a..]`. */
  lemma TrimmedBetween(s: string, t: string, a: nat, n: nat)
    requires a <= |s| && t == s[a..] && n <= |t|
    requires forall j :: 0 <= j < a ==> IsSpace(s[j])
    requires a == |s| || !IsSpace(s[a])
    requires forall j :: |t| - n <= j < |t| ==> IsSpace(t[j])
    requires n == |t| || !IsSpace(t[|t| - n - 1])
    ensures TrimmedAt(s, s[a..|s| - n], a)
    ensures var r := s[a..|s| - n]; r == [] || (!IsSpace(r[0]) && !IsSpace(r[|r| - 1]))
  {
    assert forall j :: |s| - n <= j < |s| ==> s[j] == t[j - a];
  }

  /** `s.strip()`: the infix of `s` between white space at both ends, with no white space at either of its own ends. */
  function Strip(s: string): (r: string)
    ensures r == [] || (!IsSpace(r[0]) && !IsSpace(r[|r| - 1]))
    ensures exists a :: TrimmedAt(s, r, a)
  {
    var a := LeadingSpace(s);
    var n := TrailingSpace(s[a..]);
    TrimmedBetween(s, s[a..], a, n);
    s[a..|s| - n]
  }

  /** A string without white space at its ends is its own strip. */
  lemma StripTrimmed(s: string)
    requires s == [] || (!IsSpace(s[0]) && !IsSpace(s[|s| - 1]))
    ensures Strip(s) == s
  {
  }

  /** `s[a:b]` for indices within the string. */
  function Slice(s: string, a: nat, b: nat): (r: string)
    requires a <= |s| && b <= |s|
    ensures |r| == if a < b then b - a else 0
    ensures forall i :: 0 <= i < |r| ==> r[i] == s[a + i]
  {
    if a < b then s[a..b] else ""
  }

  // ---------------------------------------------------------------------------
  // The extractor.

  const JsonFence: string := "```json"
  const Fence: string := "```"

  /** Every ```json is also a ```. */
  lemma JsonFenceIsFence(s: string)
    ensures forall j :: OccursAt(s, JsonFence, j) ==> OccursAt(s, Fence, j)
  {
    forall j | OccursAt(s, JsonFence, j)
      ensures OccursAt(s, Fence, j)
    {
      assert s[j..j + |Fence|] == s[j..j + |JsonFence|][..|Fence|];
    }
  }

  /**
   * The candidate text. With a ```json fence: what follows the first one, up
   * to the next ```json and then up to the next ```, stripped. Else, with a
   * ``` fence: what lies between the first ``` and the next, stripped. Else
   * the reply unchanged.
   */
  function FenceStrip(text: string): (t: string)
    ensures Contains(text, JsonFence) ==>
              t == Strip(Before(Before(After(text, JsonFence), JsonFence), Fence))
    ensures !Contains(text, JsonFence) && Contains(text, Fence) ==>
              t == Strip(Before(After(text, Fence), Fence))
    ensures !Contains(text, Fence) ==> t == text
  {
    JsonFenceIsFence(text);
    if Contains(text, JsonFence) then Strip(Split(Split(text, JsonFence)[1], Fence)[0])
    else if Contains(text, Fence) then Strip(Split(text, Fence)[1])
    else text
  }

  /** What `json.loads` does with a string: a value, a `json.JSONDecodeError`, or another exception. */
  datatype Loaded<J> = Loaded(value: J) | DecodeError | OtherError

  /** The retry's bare `except:`: every exception reads as no value. */
  function Caught<J>(d: Loaded<J>): (o: Option<J>)
    ensures o.Some? <==> d.Loaded?
    ensures o.Some? ==> o.value == d.value
  {
    if d.Loaded? then Some(d.value) else None
  }

  /** What a call of `extract_json` does: return a value or `None`, or let an exception escape. */
  datatype Outcome<J> = Returns(result: Option<J>) | Raises

  /** `extract_json(text)` with `json.loads` given as `loads`. */
  function ExtractJson<J>(text: string, loads: string -> Loaded<J>): (r: Outcome<J>)
    ensures var t := FenceStrip(text);
      loads(t).Loaded? ==> r == Returns(Some(loads(t).value))
    ensures r.Raises? <==> loads(FenceStrip(text)).OtherError?
    ensures var t := FenceStrip(text);
      loads(t).DecodeError? && !(Contains(t, "{") && Contains(t, "}")) ==> r == Returns(None)
    ensures var t := FenceStrip(text);
      loads(t).DecodeError? && Contains(t, "{") && Contains(t, "}") ==>
        0 <= Find(t, "{") && 0 <= RFind(t, "}") &&
        r == Returns(Caught(loads(Slice(t, Find(t, "{"), RFind(t, "}") + 1))))
  {
    var t := FenceStrip(text);
    match loads(t)
    case Loaded(v) => Returns(Some(v))
    case OtherError => Raises
    case DecodeError =>
      var start := Find(t, "{");
      var end := RFind(t, "}");
      if start != -1 && end != -1 then Returns(Caught(loads(Slice(t, start, end + 1)))) else Returns(None)
  }

  // ---------------------------------------------------------------------------
  // What the extractor recovers.

  /** No `pat` starts inside `pre`, counting one that would run on into a `pat` right after it. */
  predicate NoStartIn(pre: string, pat: string) {
    forall j :: 0 <= j < |pre| ==> !OccursAt(pre + pat, pat, j)
  }

  /** An occurrence lying wholly inside a prefix is an occurrence in that prefix. */
  lemma OccursInPrefix(p: string, x: string, pat: string, j: int)
    requires 0 <= j && j + |pat| <= |p|
    ensures OccursAt(p + x, pat, j) <==> OccursAt(p, pat, j)
  {
    assert (p + x)[j..j + |pat|] == p[j..j + |pat|];
  }

  /** In `pre` + `pat` + `rest`, with no `pat` starting inside `pre`, the first `pat` is the one after `pre`. */
  lemma FirstAfter(pre: string, pat: string, rest: string)
    requires pat != [] && NoStartIn(pre, pat)
    ensures Contains(pre + pat + rest, pat)
    ensures Before(pre + pat + rest, pat) == pre && After(pre + pat + rest, pat) == rest
  {
    var s := pre + pat + rest;
    assert s == (pre + pat) + rest;
    forall j | 0 <= j < |pre|
      ensures !OccursAt(s, pat, j)
    {
      OccursInPrefix(pre + pat, rest, pat, j);
    }
    assert s[|pre|..|pre| + |pat|] == pat;
    BeforeAfterAt(s, pat, |pre|);
    assert s[..|pre|] == pre;
    assert s[|pre| + |pat|..] == rest;
  }

  /**
   * What follows a ```json fence, cut at the next ```json and then at the
   * next ```, is the text before the closing fence, provided no ``` starts
   * inside that text and no backtick follows the closing fence at once.
   */
  lemma FencedTail(body: string, post: string)
    requires NoStartIn(body, Fence)
    requires post == [] || post[0] != '`'
    ensures Before(Before(body + Fence + post, JsonFence), Fence) == body
  {
    var rest := body + Fence + post;
    assert rest == (body + Fence) + post;
    JsonFenceIsFence(rest);
    forall j | 0 <= j < |body|
      ensures !OccursAt(rest, JsonFence, j)
    {
      OccursInPrefix(body + Fence, post, Fence, j);
    }
    forall k | |body| < k < |body| + |Fence| && k + |JsonFence| <= |rest|
      ensures !OccursAt(rest, JsonFence, k)
    {
      assert rest[k..k + |JsonFence|][|body| + |Fence| - k] == post[0];
      assert JsonFence[|body| + |Fence| - k] == '`';
    }
    var x := Before(rest, JsonFence);
    if |x| == |body| {
      assert x == body;
      forall j | 0 <= j < |body|
        ensures !OccursAt(body, Fence, j)
      {
        if j + |Fence| <= |body| {
          OccursInPrefix(body, Fence, Fence, j);
        }
      }
    } else {
      assert |x| >= |body| + |Fence|;
      assert x == body + Fence + x[|body| + |Fence|..];
      FirstAfter(body, Fence, x[|body| + |Fence|..]);
    }
  }

  /**
   * A reply `pre` ```json `body` ``` `post`, with no ```json starting in
   * `pre`, no ``` starting in `body` and no backtick right after the closing
   * fence, yields `body` stripped.
   */
  lemma JsonFencedReply(pre: string, body: string, post: string)
    requires NoStartIn(pre, JsonFence) && NoStartIn(body, Fence)
    requires post == [] || post[0] != '`'
    ensures FenceStrip(pre + JsonFence + body + Fence + post) == Strip(body)
  {
    var rest := body + Fence + post;
    assert pre + JsonFence + body + Fence + post == pre + JsonFence + rest;
    FirstAfter(pre, JsonFence, rest);
    FencedTail(body, post);
  }

  /**
   * A reply `pre` ``` `body` ``` `post` without any ```json, with no ```
   * starting in `pre` or in `body`, yields `body` stripped.
   */
  lemma PlainFencedReply(pre: string, body: string, post: string)
    requires NoStartIn(pre, Fence) && NoStartIn(body, Fence)
    requires !Contains(pre + Fence + body + Fence + post, JsonFence)
    ensures FenceStrip(pre + Fence + body + Fence + post) == Strip(body)
  {
    var rest := body + Fence + post;
    assert pre + Fence + body + Fence + post == pre + Fence + rest;
    FirstAfter(pre, Fence, rest);
    FirstAfter(body, Fence, post);
  }

  /** A backtick and one other non-space character: a body no ``` starts in, and its own strip. */
  lemma BacktickBody(c: char)
    requires c != '`' && !IsSpace(c)
    ensures NoStartIn(['`', c], Fence) && Strip(['`', c]) == ['`', c]
  {
    var t := ['`', c] + Fence;
    forall j | 0 <= j < 2
      ensures !OccursAt(t, Fence, j)
    {
      assert t[j..j + |Fence|][1 - j] == c;
    }
    StripTrimmed(['`', c]);
  }

  /** A fenced body may hold single backticks: they stay in the candidate. */
  lemma InlineBacktickKept(c: char)
    requires c != '`' && !IsSpace(c)
    ensures FenceStrip(JsonFence + ['`', c] + Fence) == ['`', c]
  {
    var body := ['`', c];
    var empty: string := [];
    BacktickBody(c);
    JsonFencedReply(empty, body, empty);
    assert empty + JsonFence == JsonFence;
    assert JsonFence + body + Fence + empty == JsonFence + body + Fence;
  }

  /** The last occurrence, shown as such, is what `rfind` reports. */
  lemma RFindIs(s: string, pat: string, k: int)
    requires OccursAt(s, pat, k)
    requires forall j :: k < j ==> !OccursAt(s, pat, j)
    ensures RFind(s, pat) == k
  {
  }

  /** A one-character pattern occurs exactly where that character stands. */
  lemma OccursAtChar(s: string, c: char)
    ensures forall j :: OccursAt(s, [c], j) <==> 0 <= j < |s| && s[j] == c
  {
    forall j | 0 <= j < |s|
      ensures OccursAt(s, [c], j) <==> s[j] == c
    {
      assert s[j..j + 1] == [s[j]];
    }
  }

  /** `Find` of a character returns the position shown to hold its first occurrence. */
  lemma FindCharIs(s: string, c: char, k: int)
    requires 0 <= k < |s| && s[k] == c
    requires forall j :: 0 <= j < k ==> s[j] != c
    ensures Find(s, [c]) == k
  {
    OccursAtChar(s, c);
    FindIs(s, [c], k);
  }

  /** `RFind` of a character returns the position shown to hold its last occurrence. */
  lemma RFindCharIs(s: string, c: char, k: int)
    requires 0 <= k < |s| && s[k] == c
    requires forall j :: k < j < |s| ==> s[j] != c
    ensures RFind(s, [c]) == k
  {
    OccursAtChar(s, c);
    RFindIs(s, [c], k);
  }

  /** In `pre` {`mid`} `post`, with no `{` in `pre` and no `}` in `post`, the braces found are the ones shown. */
  lemma BraceSpan(pre: string, mid: string, post: string)
    requires forall j :: 0 <= j < |pre| ==> pre[j] != '{'
    requires forall j :: 0 <= j < |post| ==> post[j] != '}'
    ensures var text := pre + "{" + mid + "}" + post;
      Find(text, "{") == |pre| && RFind(text, "}") == |pre| + |mid| + 1 &&
      Slice(text, |pre|, |pre| + |mid| + 2) == "{" + mid + "}"
  {
    var braced := "{" + mid + "}";
    var text := pre + braced + post;
    assert text == pre + "{" + mid + "}" + post;
    var end := |pre| + |mid| + 1;
    assert forall j :: 0 <= j < |pre| ==> text[j] == pre[j];
    FindCharIs(text, '{', |pre|);
    assert forall j :: end < j < |text| ==> text[j] == post[j - end - 1];
    RFindCharIs(text, '}', end);
    assert text[|pre|..end + 1] == braced;
  }

  /**
   * A candidate that does not decode, `pre` {`mid`} `post` with no `{` in
   * `pre` and no `}` in `post`, yields what the retry makes of the braced
   * span, whether the reply was fenced or not.
   */
  lemma BracedFallback<J>(text: string, pre: string, mid: string, post: string, loads: string -> Loaded<J>)
    requires FenceStrip(text) == pre + "{" + mid + "}" + post
    requires forall j :: 0 <= j < |pre| ==> pre[j] != '{'
    requires forall j :: 0 <= j < |post| ==> post[j] != '}'
    requires loads(FenceStrip(text)).DecodeError?
    ensures ExtractJson(text, loads) == Returns(Caught(loads("{" + mid + "}")))
  {
    BraceSpan(pre, mid, post);
  }
}
