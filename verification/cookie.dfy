/** One HTTP cookie: its record, the "Set-Cookie"-style parser `build`, the serialiser
    `toString`, the expiry test and the jar lookup key (xmlhttprequest-cookie-obj.js).
    The syntax loosely follows section 4.1 of RFC 6265 (Set-Cookie) without its
    validation rules. */
module CookieObj {
  import opened Errors
  import opened Seqs
  import opened JsText

  /** A JavaScript Date's time value: milliseconds since the epoch, or NaN. */
  datatype Moment = Millis(ms: int) | InvalidDate

  /** The date conversions the cookie code calls but does not define:
      `new Date(string)` and `Date.prototype.toString`. */
  datatype Calendar = Calendar(parse: string -> Moment, format: Moment -> string)

  /** What a cookie field holds: a string, a boolean (`true` for a bare attribute,
      `false` as the flag default), or `undefined` (a value-less first segment). */
  datatype Field = Str(s: string) | Bool(b: bool) | Undefined

  /** What `expires` holds once a cookie is built: a Date, or the boolean `true` that a
      bare `Expires` attribute leaves behind. */
  datatype Expiry = Date(at: Moment) | Bare

  /** The parts of the request URL the cookie code reads. */
  datatype Location = Location(hostname: string, pathname: string)

  datatype Cookie = Cookie(
    name: Field,
    value: Field,
    domain: Field,
    path: Field,
    expires: Expiry,
    secure: Field,
    httponly: Field)

  /** 365 days in milliseconds: the default lifetime of a new cookie. */
  const OneYear: int := 31536000000

  /** The string a field turns into when concatenated with a string. */
  function Text(f: Field): string {
    match f
    case Str(s) => s
    case Bool(b) => if b then "true" else "false"
    case Undefined => "undefined"
  }

  /** Whether a field counts as true in an `if`. */
  predicate Truthy(f: Field) {
    match f
    case Str(s) => s != ""
    case Bool(b) => b
    case Undefined => false
  }

  /** The string `expires` turns into when concatenated with a string. */
  function ExpiresText(e: Expiry, cal: Calendar): string {
    match e
    case Date(m) => cal.format(m)
    case Bare => "true"
  }

  /** `new Cookie()`: every field at its default, expiring one year from `now`. */
  function Default(now: int): (c: Cookie)
    ensures !IsExpired(c, now)
  {
    Cookie(Str(""), Str(""), Str(""), Str("/"), Date(Millis(now + OneYear)), Bool(false), Bool(false))
  }

  /** `expired()`: the numeric value of `expires` is below `now`.  A NaN date never
      expires; the boolean `true` reads as 1. */
  predicate IsExpired(c: Cookie, now: int) {
    match c.expires
    case Date(Millis(ms)) => ms < now
    case Date(InvalidDate) => false
    case Bare => 1 < now
  }

  /** `toKey()`: the jar key, name, domain and path joined by ':'. */
  function ToKey(c: Cookie): string {
    Text(c.name) + ":" + Text(c.domain) + ":" + Text(c.path)
  }

  /** `toString()`: the "Set-Cookie"-style text of a cookie. */
  function Serialize(c: Cookie, cal: Calendar): string {
    Text(c.name) + "=" + Text(c.value)
    + "; Domain=" + Text(c.domain)
    + "; Path=" + Text(c.path)
    + "; Expires=" + ExpiresText(c.expires, cal)
    + (if Truthy(c.secure) then "; Secure" else "")
    + (if Truthy(c.httponly) then "; HttpOnly" else "")
  }

  // ---------------------------------------------------------------------------
  // The pattern /([^=]+)(?:=(.*))?/ applied, unanchored, to one segment

  predicate AllEquals(s: string) {
    forall i :: 0 <= i < |s| ==> s[i] == '='
  }

  predicate NoEquals(s: string) {
    forall i :: 0 <= i < |s| ==> s[i] != '='
  }

  predicate NoLineBreak(s: string) {
    forall i :: 0 <= i < |s| ==> !IsLineTerminator(s[i])
  }

  /** A successful match: group 1 (the key) and group 2 (the text after '=', if any). */
  datatype Param = Param(key: string, val: Option<string>)

  /** The number of '=' characters `s` starts with. */
  function LeadingEquals(s: string): (n: nat)
    ensures n <= |s| && AllEquals(s[..n])
    ensures n == |s| || s[n] != '='
    decreases |s|
  {
    if s != [] && s[0] == '=' then
      var n := 1 + LeadingEquals(s[1..]);
      assert s[..n] == [s[0]] + s[1..][..n - 1];
      n
    else 0
  }

  /** The longest prefix of `s` without '='. */
  function TakeName(s: string): (r: string)
    ensures r <= s && NoEquals(r)
    ensures |r| == |s| || s[|r|] == '='
    decreases |s|
  {
    if s == [] || s[0] == '=' then [] else [s[0]] + TakeName(s[1..])
  }

  /** The longest prefix of `s` without a line terminator (what `.*` matches). */
  function TakeLine(s: string): (r: string)
    ensures r <= s && NoLineBreak(r)
    ensures |r| == |s| || IsLineTerminator(s[|r|])
    decreases |s|
  {
    if s == [] || IsLineTerminator(s[0]) then [] else [s[0]] + TakeLine(s[1..])
  }

  /** `segment.match(/([^=]+)(?:=(.*))?/)`: skips leading '=', takes the maximal run
      of other characters as the key and, if an '=' follows, the rest of the line as
      the value.  It fails exactly on a segment made only of '=' (or empty). */
  function MatchParam(seg: string): (r: Option<Param>)
    ensures r.None? <==> AllEquals(seg)
    ensures r.Some? ==> r.value.key != [] && NoEquals(r.value.key)
    ensures r.Some? && r.value.val.Some? ==> NoLineBreak(r.value.val.value)
  {
    var body := seg[LeadingEquals(seg)..];
    if body == [] then None
    else
      var key := TakeName(body);
      var after := body[|key|..];
      Some(Param(key, if after == [] then None else Some(TakeLine(after[1..]))))
  }

  // ---------------------------------------------------------------------------
  // build

  /** The seven fields, as the attribute keys that address them. */
  datatype Attr = NameAttr | ValueAttr | DomainAttr | PathAttr | ExpiresAttr | SecureAttr | HttpOnlyAttr

  /** `cookie[key]` for a lower-cased key: the field it addresses, if any. */
  function AttrNamed(key: string): Option<Attr> {
    if key == "name" then Some(NameAttr)
    else if key == "value" then Some(ValueAttr)
    else if key == "domain" then Some(DomainAttr)
    else if key == "path" then Some(PathAttr)
    else if key == "expires" then Some(ExpiresAttr)
    else if key == "secure" then Some(SecureAttr)
    else if key == "httponly" then Some(HttpOnlyAttr)
    else None
  }

  /** `typeof cookie[attr] !== "undefined"`: the field holds something. */
  predicate HasAttribute(c: Cookie, a: Attr) {
    match a
    case NameAttr => !c.name.Undefined?
    case ValueAttr => !c.value.Undefined?
    case DomainAttr => !c.domain.Undefined?
    case PathAttr => !c.path.Undefined?
    case ExpiresAttr => true
    case SecureAttr => !c.secure.Undefined?
    case HttpOnlyAttr => !c.httponly.Undefined?
  }

  /** What an attribute stores: its text, or `true` for a bare attribute. */
  function AttrField(val: Option<string>): Field {
    if val.Some? then Str(val.value) else Bool(true)
  }

  /** `cookie[attr] = value or true`, with the date post-processing of `expires`
      applied to the stored string. */
  function Assign(c: Cookie, a: Attr, val: Option<string>, cal: Calendar): Cookie {
    var v := AttrField(val);
    match a
    case NameAttr => c.(name := v)
    case ValueAttr => c.(value := v)
    case DomainAttr => c.(domain := v)
    case PathAttr => c.(path := v)
    case ExpiresAttr => c.(expires := if val.Some? then Date(cal.parse(val.value)) else Bare)
    case SecureAttr => c.(secure := v)
    case HttpOnlyAttr => c.(httponly := v)
  }

  /** One later segment: a matching segment whose lower-cased key names a field that
      holds something sets that field; anything else is ignored. */
  function Apply(c: Cookie, seg: string, cal: Calendar): Cookie {
    match MatchParam(seg)
    case None => c
    case Some(p) =>
      match AttrNamed(Lower(p.key))
      case None => c
      case Some(a) => if HasAttribute(c, a) then Assign(c, a, p.val, cal) else c
  }

  /** All later segments, in order. */
  function ApplyAll(c: Cookie, segs: seq<string>, cal: Calendar): Cookie
    decreases |segs|
  {
    if segs == [] then c else ApplyAll(Apply(c, segs[0], cal), segs[1..], cal)
  }

  /** The cookie `build` starts from: the defaults, with domain and path taken from
      the URL when there is one. */
  function Seeded(now: int, url: Option<Location>): Cookie {
    if url.Some? then Default(now).(domain := Str(url.value.hostname), path := Str(url.value.pathname))
    else Default(now)
  }

  /** The first segment names the cookie and gives its value, absent without '='. */
  function Named(c: Cookie, p: Param): Cookie {
    c.(name := Str(p.key), value := if p.val.Some? then Str(p.val.value) else Undefined)
  }

  /** What `Cookie.build(text, url)` returns or throws. */
  function Parse(text: string, url: Option<Location>, now: int, cal: Calendar): Result<Cookie> {
    var params := SplitParams(text);
    match MatchParam(params[0])
    case None => Failure(Malformed)
    case Some(p) => Success(ApplyAll(Named(Seeded(now, url), p), params[1..], cal))
  }

  /** `Cookie.build(cookieString, url)`: creates a default cookie, seeds it from the
      URL, names it from the first "; "-segment (throwing when that segment has no
      character other than '='), then lets every later segment set a field. */
  method Build(cookieString: string, url: Option<Location>, now: int, cal: Calendar)
    returns (r: Result<Cookie>)
    ensures r == Parse(cookieString, url, now, cal)
  {
    var cookie := Default(now);
    if url.Some? {
      cookie := cookie.(domain := Str(url.value.hostname));
      cookie := cookie.(path := Str(url.value.pathname));
    }
    var cookieParams := SplitParams(cookieString);
    var first := MatchParam(cookieParams[0]);
    cookieParams := cookieParams[1..];
    if first.None? {
      return Failure(Malformed);
    }
    cookie := cookie.(name := Str(first.value.key));
    cookie := cookie.(value := if first.value.val.Some? then Str(first.value.val.value) else Undefined);
    ghost var named := cookie;
    assert named == Named(Seeded(now, url), first.value);
    for i := 0 to |cookieParams|
      invariant ApplyAll(cookie, cookieParams[i..], cal) == ApplyAll(named, cookieParams, cal)
    {
      ghost var before := cookie;
      var param := MatchParam(cookieParams[i]);
      if param.Some? {
        var attr := AttrNamed(Lower(param.value.key));
        if attr.Some? && HasAttribute(cookie, attr.value) {
          cookie := Assign(cookie, attr.value, param.value.val, cal);
        }
      }
      assert cookie == Apply(before, cookieParams[i], cal);
      DropCons(cookieParams, i, []);
    }
    return Success(cookie);
  }
}
