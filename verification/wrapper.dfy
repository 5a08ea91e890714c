/** The two hooks the XMLHttpRequest wrapper runs around a request
    (xmlhttprequest-cookie.js): `cookie_recv` stores the cookies of the "Set-Cookie"
    response headers in the jar, `cookie_send` composes the "Cookie" request header from
    the cookies `findFuzzy` finds for the request URL. */
module Wrapper {
  import opened Errors
  import opened Seqs
  import opened JsText
  import opened CookieObj
  import opened Jar
  import opened JarProps
  import opened JarObject

  /** The parts of the request URL that `cookie_send` reads. */
  datatype Request = Request(protocol: string, hostname: string, pathname: string)

  // ---------------------------------------------------------------------------
  // cookie_recv

  /** `cookie_recv(url, xhr)`: builds and inserts each "Set-Cookie" header value in
      order (none when the header is absent or not a list).  A value that does not parse
      throws out of the loop, leaving the cookies inserted before it.  The shared jar
      need not be consistent (an earlier `remove` may have left it otherwise), only free
      of map entries past the end of its list. */
  method CookieRecv(url: Location, headers: Option<seq<string>>, jar: CookieJar, now: int, cal: Calendar)
    returns (outcome: Outcome)
    requires Bounded(jar.State())
    modifies jar
    ensures old(jar.Valid()) ==> jar.Valid()
    ensures Progress(jar.State(), outcome) ==
      Ingest(old(jar.State()), if headers.Some? then headers.value else [], Some(url), now, cal)
  {
    if headers.Some? && |headers.value| > 0 {
      var cookies := headers.value;
      ghost var start := jar.State();
      for i := 0 to |cookies|
        invariant old(jar.Valid()) ==> jar.Valid()
        invariant Ingest(start, cookies[..i], Some(url), now, cal) == Progress(jar.State(), Pass)
      {
        IngestSnoc(start, cookies[..i], cookies[i], Some(url), now, cal);
        TakeSnoc(cookies, i + 1);
        var cookie := Build(cookies[i], Some(url), now, cal);
        if cookie.Failure? {
          SplitAt(cookies, i + 1);
          IngestAfterFail(start, cookies[..i + 1], cookies[i + 1..], Some(url), now, cal);
          return Fail(cookie.error);
        }
        jar.Insert(cookie.value, now);
      }
      TakeAll(cookies);
    }
    return Pass;
  }

  /** Receiving keeps the jar's list and map in step, and a header list in which every
      value parses is received in full. */
  lemma RecvConsistent(st: Store, headers: seq<string>, url: Location, now: int, cal: Calendar)
    requires Consistent(st)
    requires forall i :: 0 <= i < |headers| ==> Parse(headers[i], Some(url), now, cal).Success?
    ensures Consistent(Ingest(st, headers, Some(url), now, cal).store)
    ensures Ingest(st, headers, Some(url), now, cal).outcome == Pass
  {
    IngestConsistent(st, headers, Some(url), now, cal);
    IngestPasses(st, headers, Some(url), now, cal);
  }

  // ---------------------------------------------------------------------------
  // cookie_send

  /** `protocol.match(/^https?:$/i) !== null`. */
  predicate IsHttpScheme(protocol: string) {
    Lower(protocol) == "http:" || Lower(protocol) == "https:"
  }

  /** Whether `cookie_send` passes a cookie on: a secure cookie only over "https:", an
      HttpOnly cookie only over HTTP or HTTPS. */
  predicate Sendable(c: Cookie, protocol: string) {
    && !(Truthy(c.secure) && protocol != "https:")
    && !(Truthy(c.httponly) && !IsHttpScheme(protocol))
  }

  /** `name=value` for one cookie; never empty. */
  function Pair(c: Cookie): (r: string)
    ensures |r| > |Text(c.name)| && r[|Text(c.name)|] == '='
  {
    Text(c.name) + "=" + Text(c.value)
  }

  /** One step of the loop: "; " unless the header text is empty, then the pair. */
  function AddPair(header: string, c: Cookie): string {
    (if header != "" then header + "; " else header) + Pair(c)
  }

  /** The header text after the loop has seen `cookies`, starting from `start`. */
  function Compose(start: string, cookies: seq<Cookie>, protocol: string): string
    decreases |cookies|
  {
    if cookies == [] then start
    else
      var before := Compose(start, cookies[..|cookies| - 1], protocol);
      var c := cookies[|cookies| - 1];
      if Sendable(c, protocol) then AddPair(before, c) else before
  }

  /** The "Cookie" header `cookie_send` sets, if any, given the header already set on the
      request and the cookies `findFuzzy` returned. */
  function SentHeader(existing: Option<string>, cookies: seq<Cookie>, protocol: string): Option<string> {
    var text := Compose(if existing.Some? then existing.value else "", cookies, protocol);
    if text == "" then None else Some(text)
  }

  /** `cookie_send(url, xhr)`: reads the jar and returns the header to set. */
  method CookieSend(existing: Option<string>, url: Request, jar: CookieJar, now: int)
    returns (header: Option<string>)
    ensures header == SentHeader(existing, Fuzzy(jar.cookieList, url.hostname, url.pathname, now), url.protocol)
  {
    var cookie := if existing.Some? then existing.value else "";
    ghost var start := cookie;
    var cookies := jar.FindFuzzy(url.hostname, url.pathname, now);
    for i := 0 to |cookies|
      invariant cookie == Compose(start, cookies[..i], url.protocol)
    {
      TakeTake(cookies, i + 1, i);
      assert Compose(start, cookies[..i + 1], url.protocol) ==
        if Sendable(cookies[i], url.protocol) then AddPair(cookie, cookies[i]) else cookie;
      if Truthy(cookies[i].secure) && url.protocol != "https:" {
        continue;
      }
      if Truthy(cookies[i].httponly) && !IsHttpScheme(url.protocol) {
        continue;
      }
      if cookie != "" {
        cookie := cookie + "; ";
      }
      cookie := cookie + (Text(cookies[i].name) + "=" + Text(cookies[i].value));
    }
    TakeAll(cookies);
    if cookie != "" {
      header := Some(cookie);
    } else {
      header := None;
    }
  }

  // ---------------------------------------------------------------------------
  // What the header holds

  /** The cookies the loop passes on, in order. */
  function Sent(cookies: seq<Cookie>, protocol: string): seq<Cookie>
    decreases |cookies|
  {
    if cookies == [] then []
    else
      var c := cookies[|cookies| - 1];
      Sent(cookies[..|cookies| - 1], protocol) + (if Sendable(c, protocol) then [c] else [])
  }

  /** The pairs of some cookies, in order. */
  function Pairs(cookies: seq<Cookie>): seq<string> {
    seq(|cookies|, i requires 0 <= i < |cookies| => Pair(cookies[i]))
  }

  /** The cookies passed on are exactly the sendable ones. */
  lemma {:induction false} SentMembers(cookies: seq<Cookie>, protocol: string)
    ensures forall c :: c in Sent(cookies, protocol) <==> c in cookies && Sendable(c, protocol)
    decreases |cookies|
  {
    if cookies != [] {
      SentMembers(cookies[..|cookies| - 1], protocol);
      InitLast(cookies);
    }
  }

  lemma JoinNonEmpty(pieces: seq<string>)
    requires |pieces| >= 1 && pieces[0] != ""
    ensures Join(pieces) != ""
  {
    if |pieces| > 1 {
      assert Join(pieces)[0] == pieces[0][0];
    }
  }

  /** The existing header text and some pairs, joined by "; ". */
  function Joined(start: string, pairs: seq<string>): string {
    if pairs == [] then start
    else if start == "" then Join(pairs)
    else start + "; " + Join(pairs)
  }

  /** Adding one more non-empty pair to joined text joins it as well. */
  lemma JoinedSnoc(start: string, pairs: seq<string>, y: string)
    requires pairs != [] ==> pairs[0] != ""
    ensures (if Joined(start, pairs) != "" then Joined(start, pairs) + "; " else Joined(start, pairs)) + y
      == Joined(start, pairs + [y])
  {
    if pairs != [] {
      JoinSnoc(pairs, y);
      JoinNonEmpty(pairs);
      assert (pairs + [y])[0] == pairs[0];
    } else {
      assert [] + [y] == [y];
      assert "" + y == y;
    }
  }

  lemma PairsSnoc(cookies: seq<Cookie>, c: Cookie)
    ensures Pairs(cookies + [c]) == Pairs(cookies) + [Pair(c)]
  {
  }

  /** The header text is the existing text and the pairs of the cookies passed on,
      in order, joined by "; ". */
  lemma {:induction false} ComposeJoin(start: string, cookies: seq<Cookie>, protocol: string)
    ensures Compose(start, cookies, protocol) == Joined(start, Pairs(Sent(cookies, protocol)))
    decreases |cookies|
  {
    if cookies != [] {
      var init := cookies[..|cookies| - 1];
      var c := cookies[|cookies| - 1];
      ComposeJoin(start, init, protocol);
      if Sendable(c, protocol) {
        var sent := Sent(init, protocol);
        PairsSnoc(sent, c);
        assert Pair(c) != "";
        assert Pairs(sent) != [] ==> Pairs(sent)[0] != "" by {
          if sent != [] {
            assert Pairs(sent)[0] == Pair(sent[0]);
          }
        }
        JoinedSnoc(start, Pairs(sent), Pair(c));
        var x := Joined(start, Pairs(sent));
        calc {
          Compose(start, cookies, protocol);
          AddPair(Compose(start, init, protocol), c);
          AddPair(x, c);
          (if x != "" then x + "; " else x) + Pair(c);
          Joined(start, Pairs(sent) + [Pair(c)]);
          Joined(start, Pairs(sent + [c]));
          { assert Sent(cookies, protocol) == sent + [c]; }
          Joined(start, Pairs(Sent(cookies, protocol)));
        }
      } else {
        assert Sent(cookies, protocol) == Sent(init, protocol) + [];
        assert Sent(init, protocol) + [] == Sent(init, protocol);
      }
    }
  }

  /** No header is set exactly when there was no existing text and no cookie is passed
      on. */
  lemma SentHeaderNone(existing: Option<string>, cookies: seq<Cookie>, protocol: string)
    ensures SentHeader(existing, cookies, protocol).None? <==>
      (existing.None? || existing.value == "") && forall c :: c in cookies ==> !Sendable(c, protocol)
  {
    var start := if existing.Some? then existing.value else "";
    var sent := Sent(cookies, protocol);
    ComposeJoin(start, cookies, protocol);
    SentMembers(cookies, protocol);
    if sent != [] {
      assert sent[0] in sent;
      assert Pairs(sent)[0] == Pair(sent[0]);
      JoinNonEmpty(Pairs(sent));
    }
  }

  /** Every cookie whose pair `cookie_send` adds is an unexpired cookie of the jar, for
      one of the visited domains and paths, and allowed over the request's protocol;
      in particular no secure cookie goes out over anything but "https:". */
  lemma SentFromJar(list: seq<Cookie>, url: Request, now: int, c: Cookie)
    requires c in Sent(Fuzzy(list, url.hostname, url.pathname, now), url.protocol)
    ensures c in list && !IsExpired(c, now)
    ensures c.domain.Str? && c.domain.s in Domains(url.hostname)
    ensures c.path.Str? && c.path.s in Paths(url.pathname)
    ensures Truthy(c.secure) ==> url.protocol == "https:"
    ensures Truthy(c.httponly) ==> IsHttpScheme(url.protocol)
  {
    SentMembers(Fuzzy(list, url.hostname, url.pathname, now), url.protocol);
    FuzzySound(list, url.hostname, url.pathname, now, c);
  }
}
