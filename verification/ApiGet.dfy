/** The aggregate reader's GET: redirects followed by hand, one token, one deadline and one byte budget, against a
    server that may answer anything.  Redirects are those of section 15.4 of RFC 9110; a body's length is that of
    section 6.3 of RFC 9112. */
module ApiGet {
  import opened Outcomes

  const MAX_JSON_RESPONSE_BYTES := 16 * 1024 * 1024
  const MAX_ARCHIVE_BYTES := 256 * 1024 * 1024
  const MAX_REDIRECTS := 5
  const MAX_URL_BYTES := 8192
  const READ_CHUNK_BYTES := 64 * 1024

  // ----- URLs -----

  /** What `urlparse` finds in a URL. */
  datatype Parts = Parts(scheme: string, hostname: string, port: Option<int>, credentials: bool, fragment: string)

  /** `_reference`. */
  predicate IsReference(value: string) {
    0 < |value| <= MAX_URL_BYTES && forall c :: c in value ==> 32 < c as int < 127
  }

  /** The client: its base URL and token, and Python's `urlparse` and `urljoin`, about which nothing is assumed. */
  datatype Api = Api(base: string, token: string, parse: string -> Option<Parts>, join: (string, string) -> string) {
    /** `_https_url`. */
    predicate IsHttps(url: string) {
      && IsReference(url) && parse(url).Some?
      && var p := parse(url).value;
      && p.scheme == "https" && p.hostname != "" && !p.credentials && p.fragment == ""
      && (p.port.Some? ==> 1 <= p.port.value <= 65535)
    }

    /** `_same_origin`. */
    predicate SameOrigin(url: string) {
      && parse(base).Some? && parse(url).Some?
      && var expected, actual := parse(base).value, parse(url).value;
      && actual.scheme == expected.scheme && actual.hostname == expected.hostname
      && PortOf(actual) == PortOf(expected)
    }

    /** `_url`. */
    function Resolve(path: string): Outcome<string> {
      if !IsReference(path) then Denied
      else
        var url := if "https://" <= path || "http://" <= path then path else join(base, DropSlashes(path));
        if IsHttps(url) then Accepted(url) else Denied
    }
  }

  function PortOf(p: Parts): int {
    if p.port.None? || p.port.value == 0 then 443 else p.port.value
  }

  function DropSlashes(path: string): string {
    if path != "" && path[0] == '/' then DropSlashes(path[1..]) else path
  }

  // ----- replies -----

  type Headers = seq<(string, string)>

  /** What the server does with one request.  The k-th read of a body yields bytes (as characters) or raises. */
  datatype Reply =
    | Page(code: int, url: string, headers: Headers, chunks: nat -> Option<string>)
    | HttpError(code: int, headers: Headers)
    | TransportFailure

  function Lower(s: string): string {
    if s == "" then "" else [if 'A' <= s[0] <= 'Z' then (s[0] as int + 32) as char else s[0]] + Lower(s[1..])
  }

  predicate IsSpace(c: char) {
    9 <= c as int <= 13 || 28 <= c as int <= 32 || c as int == 0x85 || c as int == 0xA0
  }

  function Strip(s: string): string {
    if s == "" then ""
    else if IsSpace(s[0]) then Strip(s[1..])
    else if IsSpace(s[|s| - 1]) then Strip(s[..|s| - 1])
    else s
  }

  function Values(headers: Headers, name: string): seq<string> {
    if headers == [] then []
    else (if Lower(headers[0].0) == Lower(name) then [headers[0].1] else []) + Values(headers[1..], name)
  }

  /** `_header`: a header given twice is refused. */
  function Header(headers: Headers, name: string): Outcome<Option<string>> {
    var values := Values(headers, name);
    if |values| > 1 then Denied else if values == [] then Accepted(None) else Accepted(Some(Strip(values[0])))
  }

  function Number(digits: string): nat {
    if digits == "" then 0
    else
      var d := digits[|digits| - 1] as int - '0' as int;
      10 * Number(digits[..|digits| - 1]) + if 0 <= d <= 9 then d else 0
  }

  /** The length the headers declare, if they are acceptable. */
  function DeclaredLength(headers: Headers, maximum: nat): Outcome<Option<nat>> {
    var length :- Header(headers, "Content-Length");
    var transfer :- Header(headers, "Transfer-Encoding");
    var encoding :- Header(headers, "Content-Encoding");
    if encoding.Some? && Lower(encoding.value) != "identity" then Denied
    else if transfer.Some? && Lower(transfer.value) != "chunked" then Denied
    else if transfer.Some? && length.Some? then Denied
    else if length.None? then Accepted(None)
    else if !(1 <= |length.value| <= 20 && forall c :: c in length.value ==> '0' <= c <= '9') then Denied
    else if Number(length.value) > maximum then Denied
    else Accepted(Some(Number(length.value)))
  }

  // ----- what headers mean -----

  /** Two characters are the same letter, or the same character. */
  predicate SameLetter(a: char, b: char) {
    a == b || ('A' <= a <= 'Z' && b as int == a as int + 32) || ('A' <= b <= 'Z' && a as int == b as int + 32)
  }

  /** Equal up to ASCII case. */
  predicate SameText(s: string, t: string) {
    |s| == |t| && forall i :: 0 <= i < |s| ==> SameLetter(s[i], t[i])
  }

  /** `text` is `s` without the white space around it. */
  ghost predicate Trims(s: string, text: string) {
    && (text != "" ==> !IsSpace(text[0]) && !IsSpace(text[|text| - 1]))
    && exists a, b :: s == a + text + b && (forall c :: c in a ==> IsSpace(c)) && forall c :: c in b ==> IsSpace(c)
  }

  /** The header occurs nowhere, or once, with this text. */
  ghost predicate Absent(headers: Headers, name: string) {
    forall i :: 0 <= i < |headers| ==> !SameText(headers[i].0, name)
  }

  ghost predicate OnlyAt(headers: Headers, name: string, i: int) {
    0 <= i < |headers| && forall j :: 0 <= j < |headers| ==> (SameText(headers[j].0, name) <==> j == i)
  }

  ghost predicate Given(headers: Headers, name: string, text: string) {
    exists i :: OnlyAt(headers, name, i) && Trims(headers[i].1, text)
  }

  lemma {:induction false} LowerIff(s: string, t: string)
    ensures Lower(s) == Lower(t) <==> SameText(s, t)
    decreases s
  {
    if s != "" && t != "" {
      LowerIff(s[1..], t[1..]);
      assert Lower(s)[1..] == Lower(s[1..]) && Lower(t)[1..] == Lower(t[1..]);
      assert Lower(s) == Lower(t) <==> Lower(s)[0] == Lower(t)[0] && Lower(s[1..]) == Lower(t[1..]) by {
        assert Lower(s) == [Lower(s)[0]] + Lower(s[1..]) && Lower(t) == [Lower(t)[0]] + Lower(t[1..]);
      }
      SameTextStep(s, t);
    }
  }

  lemma SameTextStep(s: string, t: string)
    requires s != "" && t != ""
    ensures SameText(s, t) <==> SameLetter(s[0], t[0]) && SameText(s[1..], t[1..])
  {
    hide SameLetter;
    if SameLetter(s[0], t[0]) && SameText(s[1..], t[1..]) {
      forall i | 0 <= i < |s| ensures SameLetter(s[i], t[i]) {
        assert i > 0 ==> s[i] == s[1..][i - 1] && t[i] == t[1..][i - 1];
      }
    }
    if SameText(s, t) {
      assert forall i :: 0 <= i < |s[1..]| ==> s[1..][i] == s[i + 1] && t[1..][i] == t[i + 1];
    }
  }

  lemma {:induction false} LowerKeeps(s: string)
    requires forall i :: 0 <= i < |s| ==> !('A' <= s[i] <= 'Z')
    ensures Lower(s) == s
  {
    if s != "" {
      LowerKeeps(s[1..]);
    }
  }

  lemma {:induction false} StripOf(a: string, text: string, b: string)
    requires text != "" ==> !IsSpace(text[0]) && !IsSpace(text[|text| - 1])
    requires (forall c :: c in a ==> IsSpace(c)) && forall c :: c in b ==> IsSpace(c)
    ensures Strip(a + text + b) == text
    decreases |a| + |b|
  {
    hide IsSpace;
    var s := a + text + b;
    if a != "" {
      assert s[0] == a[0] && s[1..] == a[1..] + text + b;
      StripOf(a[1..], text, b);
    } else if b != "" && text == "" {
      assert s == b && s[1..] == a + text + b[1..];
      StripOf(a, text, b[1..]);
    } else if b != "" {
      assert s[0] == text[0] && s[|s| - 1] == b[|b| - 1] && s[..|s| - 1] == a + text + b[..|b| - 1];
      StripOf(a, text, b[..|b| - 1]);
    } else {
      assert s == text;
    }
  }

  lemma {:induction false} StripTrims(s: string) returns (a: string, b: string)
    ensures var text := Strip(s);
      && (text != "" ==> !IsSpace(text[0]) && !IsSpace(text[|text| - 1])) && s == a + text + b
      && (forall c :: c in a ==> IsSpace(c)) && forall c :: c in b ==> IsSpace(c)
    decreases |s|
  {
    hide IsSpace;
    a, b := "", "";
    if s != "" && IsSpace(s[0]) {
      a, b := StripTrims(s[1..]);
      a := [s[0]] + a;
    } else if s != "" && IsSpace(s[|s| - 1]) {
      a, b := StripTrims(s[..|s| - 1]);
      b := b + [s[|s| - 1]];
    }
  }

  lemma StripIff(s: string, text: string)
    ensures Strip(s) == text <==> Trims(s, text)
  {
    hide Strip, IsSpace;
    var a, b := StripTrims(s);
    if Trims(s, text) {
      var x, y :| s == x + text + y && (forall c :: c in x ==> IsSpace(c)) && forall c :: c in y ==> IsSpace(c);
      StripOf(x, text, y);
    }
  }

  lemma {:induction false} NoValues(headers: Headers, name: string)
    ensures Values(headers, name) == [] <==> Absent(headers, name)
  {
    hide SameText, Lower;
    if headers != [] {
      LowerIff(headers[0].0, name);
      NoValues(headers[1..], name);
      assert headers == [headers[0]] + headers[1..];
    }
  }

  lemma {:induction false} OneValue(headers: Headers, name: string, value: string)
    ensures Values(headers, name) == [value] <==> exists i :: OnlyAt(headers, name, i) && headers[i].1 == value
    decreases headers
  {
    hide SameText, Lower;
    if headers != [] {
      var tail := headers[1..];
      LowerIff(headers[0].0, name);
      OneValue(tail, name, value);
      NoValues(tail, name);
      assert headers == [headers[0]] + tail;
      if SameText(headers[0].0, name) {
        FirstOfMany(headers[0].1, Values(tail, name), value);
        assert OnlyAt(headers, name, 0) <==> Absent(tail, name);
        assert forall i :: OnlyAt(headers, name, i) ==> i == 0;
      } else {
        assert forall i {:trigger OnlyAt(tail, name, i)} :: OnlyAt(tail, name, i) ==> OnlyAt(headers, name, i + 1);
        assert forall i {:trigger OnlyAt(headers, name, i)} :: OnlyAt(headers, name, i) ==> OnlyAt(tail, name, i - 1);
      }
    }
  }

  lemma FirstOfMany<T>(x: T, rest: seq<T>, value: T)
    ensures [x] + rest == [value] <==> x == value && rest == []
  {
    if [x] + rest == [value] {
      assert ([x] + rest)[0] == x && |[x] + rest| == 1;
    }
  }

  /** The header lookup: `None` for no such header, the trimmed text for one, refused for two. */
  lemma HeaderIff(headers: Headers, name: string, text: string)
    ensures Header(headers, name) == Accepted(None) <==> Absent(headers, name)
    ensures Header(headers, name) == Accepted(Some(text)) <==> Given(headers, name, text)
  {
    hide Values, Strip, Trims, SameText;
    NoValues(headers, name);
    var values := Values(headers, name);
    if |values| == 1 {
      OneValue(headers, name, values[0]);
      StripIff(values[0], text);
      assert values == [values[0]];
    }
    forall i | OnlyAt(headers, name, i) ensures values == [headers[i].1] {
      OneValue(headers, name, headers[i].1);
    }
  }

  function Power10(k: nat): nat {
    if k == 0 then 1 else 10 * Power10(k - 1)
  }

  /** The value of decimal digits by their places. */
  function PlaceValue(digits: string): int {
    if digits == "" then 0
    else (digits[0] as int - '0' as int) * Power10(|digits| - 1) + PlaceValue(digits[1..])
  }

  lemma {:induction false} PlaceValueLast(digits: string, d: char)
    ensures PlaceValue(digits + [d]) == 10 * PlaceValue(digits) + (d as int - '0' as int)
  {
    if digits == "" {
      assert (digits + [d])[1..] == "" && Power10(0) == 1;
    } else {
      assert (digits + [d])[1..] == digits[1..] + [d];
      PlaceValueLast(digits[1..], d);
    }
  }

  predicate AllDigits(s: string) {
    forall c :: c in s ==> '0' <= c <= '9'
  }

  lemma {:induction false} NumberIsPlaceValue(digits: string)
    requires AllDigits(digits)
    ensures Number(digits) == PlaceValue(digits)
  {
    if digits != "" {
      var n := |digits| - 1;
      assert digits == digits[..n] + [digits[n]] && digits[n] in digits;
      forall c | c in digits[..n] ensures c in digits {
      }
      NumberIsPlaceValue(digits[..n]);
      PlaceValueLast(digits[..n], digits[n]);
    }
  }

  /** The header is missing, or given once with this text in any case. */
  ghost predicate AbsentOr(headers: Headers, name: string, only: string) {
    Absent(headers, name) || exists text :: Given(headers, name, text) && SameText(text, only)
  }

  /** A length of one to twenty digits within the budget. */
  ghost predicate LengthText(text: string, maximum: nat, n: nat) {
    1 <= |text| <= 20 && AllDigits(text) && PlaceValue(text) == n && n <= maximum
  }

  lemma AbsentOrIff(headers: Headers, name: string, only: string)
    requires forall i :: 0 <= i < |only| ==> !('A' <= only[i] <= 'Z')
    ensures AbsentOr(headers, name, only) <==>
      var h := Header(headers, name); h.Accepted? && (h.value.Some? ==> Lower(h.value.value) == only)
  {
    hide Header, Absent, Given, SameText, Lower;
    LowerKeeps(only);
    forall text
      ensures Header(headers, name) == Accepted(None) <==> Absent(headers, name)
      ensures Header(headers, name) == Accepted(Some(text)) <==> Given(headers, name, text)
      ensures Lower(text) == only <==> SameText(text, only)
    {
      HeaderIff(headers, name, text);
      LowerIff(text, only);
    }
  }

  /** The declared length: none is declared by acceptable headers without Content-Length; `n` is declared by one
      Content-Length that spells it, without Transfer-Encoding.  Everything else is refused. */
  lemma DeclaredLengthIff(headers: Headers, maximum: nat, n: nat)
    ensures DeclaredLength(headers, maximum) == Accepted(None) <==>
      && Absent(headers, "Content-Length") && AbsentOr(headers, "Transfer-Encoding", "chunked")
      && AbsentOr(headers, "Content-Encoding", "identity")
    ensures DeclaredLength(headers, maximum) == Accepted(Some(n)) <==>
      && (exists text :: Given(headers, "Content-Length", text) && LengthText(text, maximum, n))
      && Absent(headers, "Transfer-Encoding") && AbsentOr(headers, "Content-Encoding", "identity")
  {
    DeclaredBy(headers, maximum, n, "Content-Length", "Transfer-Encoding", "Content-Encoding", "chunked", "identity");
  }

  lemma DeclaredBy(headers: Headers, maximum: nat, n: nat, cl: string, te: string, ce: string, chunked: string,
                   identity: string)
    requires cl == "Content-Length" && te == "Transfer-Encoding" && ce == "Content-Encoding"
    requires chunked == "chunked" && identity == "identity"
    ensures DeclaredLength(headers, maximum) == Accepted(None) <==>
      Absent(headers, cl) && AbsentOr(headers, te, chunked) && AbsentOr(headers, ce, identity)
    ensures DeclaredLength(headers, maximum) == Accepted(Some(n)) <==>
      && (exists text :: Given(headers, cl, text) && LengthText(text, maximum, n))
      && Absent(headers, te) && AbsentOr(headers, ce, identity)
  {
    hide Header, Absent, Given, AbsentOr, Lower, PlaceValue, Number;
    AbsentOrIff(headers, te, chunked);
    AbsentOrIff(headers, ce, identity);
    HeaderIff(headers, te, "");
    forall text
      ensures Header(headers, cl) == Accepted(None) <==> Absent(headers, cl)
      ensures Header(headers, cl) == Accepted(Some(text)) <==> Given(headers, cl, text)
      ensures AllDigits(text) ==> Number(text) == PlaceValue(text)
    {
      HeaderIff(headers, cl, text);
      if AllDigits(text) {
        NumberIsPlaceValue(text);
      }
    }
  }

  // ----- reading a body -----

  /** The first `n` chunks, joined. */
  function Joined(chunks: nat -> Option<string>, n: nat): string {
    if n == 0 then "" else Joined(chunks, n - 1) + if chunks(n - 1).Some? then chunks(n - 1).value else ""
  }

  /** Read `k` falls within the deadline, the size asked for and the budget, and is not the last. */
  predicate Progresses(chunks: nat -> Option<string>, maximum: nat, late: nat -> bool, start: nat, k: nat) {
    && !late(start + 2 * k) && !late(start + 2 * k + 1) && chunks(k).Some?
    && 0 < |chunks(k).value| <= 65_536 && |Joined(chunks, k)| + |chunks(k).value| <= maximum
  }

  /** The body ends, in time, after `n` chunks, and has the declared length. */
  ghost predicate Delivers(headers: Headers, chunks: nat -> Option<string>, maximum: nat, late: nat -> bool, start: nat,
                           n: nat)
  {
    && var declared := DeclaredLength(headers, maximum);
    && declared.Accepted?
    && (forall k: nat :: k < n ==> Progresses(chunks, maximum, late, start, k))
    && !late(start + 2 * n) && !late(start + 2 * n + 1) && chunks(n) == Some("")
    && (declared.value.Some? ==> |Joined(chunks, n)| == declared.value.value)
  }

  /** `_read_body`: the body is accepted exactly when the server delivers it, and then it is all the reads joined,
      within the budget and of the declared length. */
  method ReadBody(headers: Headers, chunks: nat -> Option<string>, maximum: nat, late: nat -> bool, start: nat)
    returns (r: Outcome<string>, ghost count: nat)
    ensures r.Accepted? ==>
      && Delivers(headers, chunks, maximum, late, start, count)
      && r.value == Joined(chunks, count) && |r.value| <= maximum
    ensures r.Denied? ==> forall n: nat :: !Delivers(headers, chunks, maximum, late, start, n)
  {
    hide DeclaredLength;
    count := 0;
    var declared := DeclaredLength(headers, maximum);
    if declared.Denied? {
      return Denied, 0;
    }
    var raw, i := "", 0;
    while true
      invariant raw == Joined(chunks, i) && |raw| <= maximum
      invariant forall k: nat :: k < i ==> Progresses(chunks, maximum, late, start, k)
      decreases maximum - |raw|
    {
      var size := if READ_CHUNK_BYTES < maximum - |raw| + 1 then READ_CHUNK_BYTES else maximum - |raw| + 1;
      if late(start + 2 * i) || chunks(i).None? || late(start + 2 * i + 1) || |chunks(i).value| > size {
        Stops(headers, chunks, maximum, late, start, i);
        return Denied, 0;
      }
      var chunk := chunks(i).value;
      if chunk == "" {
        break;
      }
      if |raw| + |chunk| > maximum {
        Stops(headers, chunks, maximum, late, start, i);
        return Denied, 0;
      }
      raw, i := raw + chunk, i + 1;
    }
    count := i;
    if declared.value.Some? && |raw| != declared.value.value {
      Stops(headers, chunks, maximum, late, start, i);
      return Denied, 0;
    }
    return Accepted(raw), i;
  }

  /** After `i` good chunks, a read that neither continues nor ends the body means no delivery at all. */
  lemma Stops(headers: Headers, chunks: nat -> Option<string>, maximum: nat, late: nat -> bool, start: nat, i: nat)
    requires forall k: nat :: k < i ==> Progresses(chunks, maximum, late, start, k)
    requires !Delivers(headers, chunks, maximum, late, start, i) && !Progresses(chunks, maximum, late, start, i)
    ensures forall n: nat :: !Delivers(headers, chunks, maximum, late, start, n)
  {
    hide DeclaredLength;
    forall n: nat ensures !Delivers(headers, chunks, maximum, late, start, n) {
      assert n < i ==> Progresses(chunks, maximum, late, start, n);
    }
  }

  // ----- following redirects -----

  const REDIRECTS := {301, 302, 303, 307, 308}

  /** One GET: its arguments, the server's reply to each hop, and whether the clock is past the deadline at each
      check. */
  datatype Call = Call(api: Api, url: string, authenticated: bool, maximum: nat, sameOriginOnly: bool,
                       server: nat -> Reply, late: nat -> bool)
  {
    /** The redirect target in a reply. */
    function Location(k: nat): Option<string> {
      if !server(k).HttpError? || server(k).code !in REDIRECTS then None
      else
        var location := Header(server(k).headers, "Location");
        if location.Denied? || location.value.None? || !IsReference(location.value.value) then None else location.value
    }

    /** The URL of hop `k`, as long as the server redirects. */
    function UrlAt(k: nat): string {
      if k == 0 then url else api.join(UrlAt(k - 1), if Location(k - 1).Some? then Location(k - 1).value else "")
    }

    /** The URL of hop `k` may be requested: HTTPS, on the API origin if that is asked for, and new. */
    ghost predicate Admits(k: nat) {
      && !late(k) && api.IsHttps(UrlAt(k)) && (sameOriginOnly ==> api.SameOrigin(UrlAt(k)))
      && forall j: nat :: j < k ==> UrlAt(j) != UrlAt(k)
    }

    /** The request for hop `k` gets a redirect. */
    ghost predicate Redirects(k: nat) {
      Location(k).Some? && api.IsHttps(UrlAt(k + 1))
    }

    /** The request for hop `n` gets the complete body, in `count` chunks. */
    ghost predicate Answers(n: nat, count: nat) {
      && server(n).Page? && server(n).code == 200 && server(n).url == UrlAt(n) && !late(n + 1)
      && Delivers(server(n).headers, server(n).chunks, maximum, late, n + 2, count)
    }

    /** The server leads the client over `n` redirects to a complete body. */
    ghost predicate Arrives(n: nat, count: nat) {
      && n <= MAX_REDIRECTS
      && (forall k: nat :: k <= n ==> Admits(k))
      && (forall k: nat :: k < n ==> Redirects(k))
      && Answers(n, count)
    }
  }

  /** A request as it leaves the client. */
  datatype Sent = Sent(url: string, bearer: Option<string>)

  datatype Response = Response(raw: string, url: string)

  /** The log follows the redirects, and only its first request may carry the token. */
  ghost predicate Follows(call: Call, log: seq<Sent>) {
    && |log| <= MAX_REDIRECTS + 1
    && (forall k: nat :: k < |log| ==> log[k].url == call.UrlAt(k) && call.Admits(k))
    && (forall k: nat :: k + 1 < |log| ==> call.Redirects(k))
    && (forall k: nat :: k < |log| ==> (log[k].bearer.Some? <==>
          k == 0 && call.authenticated && call.api.SameOrigin(call.url) && call.api.token != ""))
    && (forall k: nat :: k < |log| && log[k].bearer.Some? ==> log[k].bearer.value == call.api.token)
  }

  /** `_request`: a response exactly when the server leads to one within the redirect budget. */
  method Request(call: Call) returns (r: Outcome<Response>, log: seq<Sent>, ghost count: nat)
    ensures Follows(call, log)
    ensures r.Accepted? ==>
      && log != [] && call.Arrives(|log| - 1, count) && r.value.url == log[|log| - 1].url
      && r.value.raw == Joined(call.server(|log| - 1).chunks, count) && |r.value.raw| <= call.maximum
    ensures r.Denied? ==> forall n: nat, c: nat :: !call.Arrives(n, c)
  {
    hide Delivers, Api.IsHttps, Api.SameOrigin, Header, Follows, Call.Arrives;
    count := 0;
    log := [];
    FollowsNothing(call);
    var url, authenticated, seen := call.url, call.authenticated, {};
    for hop := 0 to MAX_REDIRECTS + 1
      invariant |log| == hop && url == call.UrlAt(hop) && Follows(call, log)
      invariant forall k: nat :: k < hop ==> call.Redirects(k)
      invariant authenticated == (hop == 0 && call.authenticated)
      invariant forall u :: u in seen <==> exists k: nat :: k < hop && call.UrlAt(k) == u
    {
      if call.late(hop) || !call.api.IsHttps(url) || (call.sameOriginOnly && !call.api.SameOrigin(url)) || url in seen {
        Blocked(call, hop);
        return Denied, log, 0;
      }
      seen := seen + {url};
      var carries := authenticated && call.api.SameOrigin(url) && call.api.token != "";
      var sent := Sent(url, if carries then Some(call.api.token) else None);
      FollowsOneMore(call, log, sent);
      log := log + [sent];
      var reply := call.server(hop);
      if reply.Page? {
        if call.late(hop + 1) || reply.code != 200 || reply.url != url {
          Unanswered(call, hop);
          return Denied, log, 0;
        }
        var body;
        body, count := ReadBody(reply.headers, reply.chunks, call.maximum, call.late, hop + 2);
        if body.Denied? {
          Unanswered(call, hop);
          return Denied, log, 0;
        }
        Arrived(call, log, count);
        return Accepted(Response(body.value, url)), log, count;
      }
      var location := call.Location(hop);
      if location.None? || hop >= MAX_REDIRECTS {
        Unanswered(call, hop);
        return Denied, log, 0;
      }
      url := call.api.join(url, location.value);
      if !call.api.IsHttps(url) {
        Unanswered(call, hop);
        return Denied, log, 0;
      }
      authenticated := false;
    }
    Exhausted(call);
    return Denied, log, 0;
  }

  lemma FollowsNothing(call: Call)
    ensures Follows(call, [])
  {
  }

  /** The next request of a log. */
  lemma FollowsOneMore(call: Call, log: seq<Sent>, sent: Sent)
    requires Follows(call, log) && |log| <= MAX_REDIRECTS && sent.url == call.UrlAt(|log|) && call.Admits(|log|)
    requires forall k: nat :: k < |log| ==> call.Redirects(k)
    requires sent.bearer.Some? <==>
      log == [] && call.authenticated && call.api.SameOrigin(call.url) && call.api.token != ""
    requires sent.bearer.Some? ==> sent.bearer.value == call.api.token
    ensures Follows(call, log + [sent])
  {
    hide Api.SameOrigin, Call.UrlAt, Call.Admits, Call.Redirects;
  }

  lemma Arrived(call: Call, log: seq<Sent>, count: nat)
    requires Follows(call, log) && log != [] && call.Answers(|log| - 1, count)
    ensures call.Arrives(|log| - 1, count)
  {
    hide Api.SameOrigin, Call.UrlAt, Call.Admits, Call.Redirects, Call.Answers;
  }

  /** A hop that may not be requested ends every way to an answer. */
  lemma Blocked(call: Call, hop: nat)
    requires !call.Admits(hop) && forall k: nat :: k < hop ==> call.Redirects(k)
    ensures forall n: nat, c: nat :: !call.Arrives(n, c)
  {
    hide Delivers, Api.IsHttps, Api.SameOrigin;
    forall n: nat, c: nat ensures !call.Arrives(n, c) {
      assert n < hop ==> call.Redirects(n);
    }
  }

  /** So does a hop that is neither answered nor redirected within the budget. */
  lemma Unanswered(call: Call, hop: nat)
    requires (forall c: nat :: !call.Answers(hop, c)) && (!call.Redirects(hop) || hop >= MAX_REDIRECTS)
    requires forall k: nat :: k < hop ==> call.Redirects(k)
    ensures forall n: nat, c: nat :: !call.Arrives(n, c)
  {
    hide Delivers, Api.IsHttps, Api.SameOrigin;
    forall n: nat, c: nat ensures !call.Arrives(n, c) {
      assert n < hop ==> call.Redirects(n);
    }
  }

  /** So does a redirect at every hop of the budget. */
  lemma Exhausted(call: Call)
    requires forall k: nat :: k < MAX_REDIRECTS + 1 ==> call.Redirects(k)
    ensures forall n: nat, c: nat :: !call.Arrives(n, c)
  {
    hide Delivers, Api.IsHttps, Api.SameOrigin;
    forall n: nat, c: nat ensures !call.Arrives(n, c) {
      assert n <= MAX_REDIRECTS ==> call.Redirects(n);
    }
  }

  /** The port a connection uses; 443 unless the URL names another. */
  predicate UsesPort(port: Option<int>, n: int) {
    if port.Some? && port.value != 0 then n == port.value else n == 443
  }

  /** The URL has the scheme, the host and the port of the API's base URL. */
  ghost predicate AtHome(api: Api, url: string) {
    && api.parse(url).Some? && api.parse(api.base).Some?
    && api.parse(url).value.scheme == api.parse(api.base).value.scheme
    && api.parse(url).value.hostname == api.parse(api.base).value.hostname
    && exists n :: UsesPort(api.parse(url).value.port, n) && UsesPort(api.parse(api.base).value.port, n)
  }

  lemma SameOriginIff(api: Api, url: string)
    ensures api.SameOrigin(url) <==> AtHome(api, url)
  {
    if api.SameOrigin(url) {
      assert UsesPort(api.parse(url).value.port, PortOf(api.parse(url).value));
    }
  }

  /** A printable HTTPS URL with a host, without credentials and fragment, and with a legal port. */
  ghost predicate IsSecure(api: Api, url: string) {
    && 0 < |url| <= 8192 && (forall i :: 0 <= i < |url| ==> '!' <= url[i] <= '~')
    && api.parse(url).Some?
    && api.parse(url).value.scheme == "https" && api.parse(url).value.hostname != ""
    && !api.parse(url).value.credentials && api.parse(url).value.fragment == ""
    && (api.parse(url).value.port == None || exists n :: 1 <= n <= 65535 && api.parse(url).value.port == Some(n))
  }

  lemma HttpsIff(api: Api, url: string)
    ensures api.IsHttps(url) <==> IsSecure(api, url)
  {
    if api.IsHttps(url) {
      assert forall i :: 0 <= i < |url| ==> url[i] in url;
    }
  }

  /** What a log means for the token and the origin: at most six requests, to different secure URLs; the token goes
      out at most once, with the first request, to the scheme, host and port of the base URL; a same-origin call
      never leaves them. */
  lemma TokenStaysHome(call: Call, log: seq<Sent>)
    requires Follows(call, log)
    ensures |log| <= 6 && forall i, j :: 0 <= i < j < |log| ==> log[i].url != log[j].url
    ensures forall i :: 0 <= i < |log| ==> IsSecure(call.api, log[i].url)
    ensures forall i :: 0 <= i < |log| && log[i].bearer.Some? ==> i == 0 && AtHome(call.api, log[i].url)
    ensures call.sameOriginOnly ==> forall i :: 0 <= i < |log| ==> AtHome(call.api, log[i].url)
  {
    hide Api.IsHttps, Api.SameOrigin, Call.Location, Call.UrlAt, AtHome, IsSecure;
    forall i | 0 <= i < |log|
      ensures call.api.SameOrigin(log[i].url) <==> AtHome(call.api, log[i].url)
      ensures call.api.IsHttps(log[i].url) <==> IsSecure(call.api, log[i].url)
    {
      SameOriginIff(call.api, log[i].url);
      HttpsIff(call.api, log[i].url);
    }
    forall i, j | 0 <= i < j < |log| ensures log[i].url != log[j].url {
      assert call.Admits(j);
    }
    if log != [] {
      FirstUrl(call);
    }
  }

  lemma FirstUrl(call: Call)
    ensures call.UrlAt(0) == call.url
  {
  }

  /** The reference to resolve: `path` without its leading slashes. */
  ghost predicate Unslashed(path: string, rest: string) {
    (rest == "" || rest[0] != '/') &&
    exists k :: 0 <= k <= |path| && rest == path[k..] && forall i :: 0 <= i < k ==> path[i] == '/'
  }

  lemma {:induction false} DropSlashesIff(path: string, rest: string)
    ensures DropSlashes(path) == rest <==> Unslashed(path, rest)
    decreases path
  {
    if path != "" && path[0] == '/' {
      DropSlashesIff(path[1..], rest);
      if Unslashed(path[1..], rest) {
        var k :| 0 <= k <= |path[1..]| && rest == path[1..][k..] && forall i :: 0 <= i < k ==> path[1..][i] == '/';
        assert rest == path[k + 1..];
        assert forall i :: 0 < i < k + 1 ==> path[i] == path[1..][i - 1];
      }
      if Unslashed(path, rest) {
        var k :| 0 <= k <= |path| && rest == path[k..] && forall i :: 0 <= i < k ==> path[i] == '/';
        assert k > 0 && rest == path[1..][k - 1..];
        assert forall i :: 0 <= i < k - 1 ==> path[1..][i] == path[i + 1];
      }
    } else {
      assert path == path[0..];
    }
  }

  /** A printable reference of at most 8192 bytes resolves to itself if it names its scheme, and otherwise against the
      base URL; the result must be secure. */
  lemma ResolveIff(api: Api, path: string, url: string)
    ensures api.Resolve(path) == Accepted(url) <==>
      && 0 < |path| <= 8192 && (forall i :: 0 <= i < |path| ==> '!' <= path[i] <= '~')
      && IsSecure(api, url)
      && (if "https://" <= path || "http://" <= path then url == path
          else exists rest :: Unslashed(path, rest) && url == api.join(api.base, rest))
  {
    hide Api.IsHttps, IsSecure, Unslashed, DropSlashes;
    HttpsIff(api, url);
    assert forall i :: 0 <= i < |path| ==> path[i] in path;
    forall rest ensures DropSlashes(path) == rest <==> Unslashed(path, rest) {
      DropSlashesIff(path, rest);
    }
  }

  /** A reply redirects to `text` exactly if it is an HTTP error with one of the five redirect codes whose one
      Location header spells that printable reference. */
  lemma LocationIff(call: Call, k: nat, text: string)
    ensures call.Location(k) == Some(text) <==>
      && call.server(k).HttpError? && call.server(k).code in {301, 302, 303, 307, 308}
      && Given(call.server(k).headers, "Location", text)
      && 0 < |text| <= 8192 && forall i :: 0 <= i < |text| ==> '!' <= text[i] <= '~'
  {
    hide Header, Given;
    if call.server(k).HttpError? {
      HeaderIff(call.server(k).headers, "Location", text);
    }
    assert forall i :: 0 <= i < |text| ==> text[i] in text;
  }

  /** The call that `get_json` and `get_bytes` make: the token is offered when the URL is on the API origin. */
  function CallFor(api: Api, url: string, json: bool, server: nat -> Reply, late: nat -> bool): Call {
    Call(api, url, api.SameOrigin(url), if json then MAX_JSON_RESPONSE_BYTES else MAX_ARCHIVE_BYTES, json, server, late)
  }

  /** `get_json`, up to the parsing of its body, and `get_bytes`. */
  method Get(api: Api, path: string, json: bool, server: nat -> Reply, late: nat -> bool)
    returns (r: Outcome<Response>, log: seq<Sent>, ghost count: nat)
    ensures |log| <= 6 && forall i, j :: 0 <= i < j < |log| ==> log[i].url != log[j].url
    ensures forall i :: 0 <= i < |log| ==> IsSecure(api, log[i].url)
    ensures forall i :: 0 <= i < |log| && log[i].bearer.Some? ==> i == 0 && AtHome(api, log[i].url)
    ensures json ==> forall i :: 0 <= i < |log| ==> AtHome(api, log[i].url)
    ensures log != [] ==> api.Resolve(path) == Accepted(log[0].url)
    ensures log != [] && AtHome(api, log[0].url) && api.token != "" ==> log[0].bearer == Some(api.token)
    ensures api.Resolve(path).Denied? ==> r.Denied? && log == []
    ensures r.Accepted? ==> |r.value.raw| <= if json then 16_777_216 else 268_435_456
    ensures api.Resolve(path).Accepted? ==>
      var call := CallFor(api, api.Resolve(path).value, json, server, late);
      if r.Accepted? then
        && log != [] && call.Arrives(|log| - 1, count)
        && r.value == Response(Joined(server(|log| - 1).chunks, count), log[|log| - 1].url)
      else forall n: nat, c: nat :: !call.Arrives(n, c)
  {
    hide Api.IsHttps, Api.SameOrigin, Api.Resolve, Call.Arrives, Call.Admits, AtHome, IsSecure;
    count := 0;
    var url := api.Resolve(path);
    if url.Denied? {
      return Denied, [], 0;
    }
    var call := CallFor(api, url.value, json, server, late);
    r, log, count := Request(call);
    TokenStaysHome(call, log);
    SameOriginIff(api, url.value);
  }
}
