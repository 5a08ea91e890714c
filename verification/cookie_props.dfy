/** What `Cookie.build` computes, field by field, and how it relates to `toString`. */
module CookieProps {
  import opened Errors
  import opened Seqs
  import opened JsText
  import opened CookieObj

  // ---------------------------------------------------------------------------
  // The segment pattern, read backwards: which match each shape of segment gives

  lemma {:induction false} LeadingEqualsOf(e: string, x: string)
    requires AllEquals(e) && (x == [] || x[0] != '=')
    ensures LeadingEquals(e + x) == |e|
    decreases |e|
  {
    if e != [] {
      assert (e + x)[1..] == e[1..] + x;
      LeadingEqualsOf(e[1..], x);
    } else if x != [] {
      assert (e + x)[0] == x[0];
    }
  }

  lemma {:induction false} TakeNameOf(key: string, y: string)
    requires NoEquals(key) && (y == [] || y[0] == '=')
    ensures TakeName(key + y) == key
    decreases |key|
  {
    if key == [] {
      assert key + y == y;
    } else {
      assert (key + y)[0] == key[0];
      assert (key + y)[1..] == key[1..] + y;
      TakeNameOf(key[1..], y);
      assert key == [key[0]] + key[1..];
    }
  }

  lemma {:induction false} TakeLineOf(v: string, rest: string)
    requires NoLineBreak(v) && (rest == [] || IsLineTerminator(rest[0]))
    ensures TakeLine(v + rest) == v
    decreases |v|
  {
    if v == [] {
      assert v + rest == rest;
    } else {
      assert (v + rest)[0] == v[0];
      assert (v + rest)[1..] == v[1..] + rest;
      TakeLineOf(v[1..], rest);
      assert v == [v[0]] + v[1..];
    }
  }

  /** A segment `=…=key=value` followed by nothing or a line break matches with that
      key and that value; the value may itself contain '='. */
  lemma MatchWithValue(e: string, key: string, v: string, rest: string)
    requires AllEquals(e) && key != [] && NoEquals(key)
    requires NoLineBreak(v) && (rest == [] || IsLineTerminator(rest[0]))
    ensures MatchParam(e + key + "=" + v + rest) == Some(Param(key, Some(v)))
  {
    var tail := key + "=" + v + rest;
    var after := "=" + v + rest;
    Assoc(e, key, "=");
    Assoc(e, key + "=", v);
    Assoc(e, key + "=" + v, rest);
    Assoc(key, "=", v);
    Assoc(key, "=" + v, rest);
    assert tail[0] == key[0];
    LeadingEqualsOf(e, tail);
    TakeAppend(e, tail);
    TakeNameOf(key, after);
    TakeAppend(key, after);
    AppendTail("=" + v, rest);
    TakeAppend("=", v);
    TakeLineOf(v, rest);
  }

  /** A segment `=…=key` without a further '=' matches with that key and no value. */
  lemma MatchBare(e: string, key: string)
    requires AllEquals(e) && key != [] && NoEquals(key)
    ensures MatchParam(e + key) == Some(Param(key, None))
  {
    assert key[0] != '=';
    LeadingEqualsOf(e, key);
    assert (e + key)[|e|..] == key;
    TakeNameOf(key, []);
    assert key + [] == key;
  }

  // ---------------------------------------------------------------------------
  // The first segment

  /** `build` throws exactly when the text before the first "; " (all of it when there
      is none) holds no character other than '='. */
  lemma ParseFailsIff(text: string, k: nat, url: Option<Location>, now: int, cal: Calendar)
    requires k <= |text| && NoSep(text[..k])
    requires k == |text| || (k + 1 < |text| && text[k] == ';' && text[k + 1] == ' ')
    ensures Parse(text, url, now, cal).Failure? <==> AllEquals(text[..k])
  {
    FirstPiece(text, k);
  }

  // ---------------------------------------------------------------------------
  // The later segments: the last one naming a field decides it

  /** The field of `c` that `a` addresses, for the six fields other than `expires`. */
  function Get(c: Cookie, a: Attr): Field
    requires a != ExpiresAttr
  {
    match a
    case NameAttr => c.name
    case ValueAttr => c.value
    case DomainAttr => c.domain
    case PathAttr => c.path
    case SecureAttr => c.secure
    case HttpOnlyAttr => c.httponly
  }

  /** The value part (text, or None for a bare key) of the last matching segment whose
      lower-cased key addresses `a`; None when no segment does. */
  function LastSetting(segs: seq<string>, a: Attr): Option<Option<string>>
    decreases |segs|
  {
    if segs == [] then None
    else
      var later := LastSetting(segs[1..], a);
      if later.Some? then later
      else match MatchParam(segs[0])
        case Some(p) => if AttrNamed(Lower(p.key)) == Some(a) then Some(p.val) else None
        case None => None
  }

  /** A field after the segments: what the last segment naming it stores, else `otherwise`. */
  function Setting(segs: seq<string>, a: Attr, otherwise: Field): Field {
    match LastSetting(segs, a)
    case None => otherwise
    case Some(v) => AttrField(v)
  }

  /** What `expires` becomes from an attribute: the parsed date, or `true` when bare. */
  function ExpiryOf(val: Option<string>, cal: Calendar): Expiry {
    if val.Some? then Date(cal.parse(val.value)) else Bare
  }

  /** Each of the six plain fields ends up as the last segment naming it sets it, keeps
      its value when no segment names it, and stays undefined for good once undefined. */
  lemma {:induction false} ApplyAllField(c: Cookie, segs: seq<string>, a: Attr, cal: Calendar)
    requires a != ExpiresAttr
    ensures Get(ApplyAll(c, segs, cal), a) ==
      if Get(c, a).Undefined? then Undefined else Setting(segs, a, Get(c, a))
    decreases |segs|
  {
    if segs != [] {
      ApplyField(c, segs[0], a, cal);
      ApplyAllField(Apply(c, segs[0], cal), segs[1..], a, cal);
    }
  }

  /** One segment changes a plain field only when it addresses it and it holds something. */
  lemma ApplyField(c: Cookie, seg: string, a: Attr, cal: Calendar)
    requires a != ExpiresAttr
    ensures Get(Apply(c, seg, cal), a) ==
      match MatchParam(seg)
      case Some(p) =>
        if AttrNamed(Lower(p.key)) == Some(a) && !Get(c, a).Undefined? then AttrField(p.val) else Get(c, a)
      case None => Get(c, a)
  {
    match MatchParam(seg)
    case None =>
    case Some(p) =>
      var named := AttrNamed(Lower(p.key));
      if named.Some? && HasAttribute(c, named.value) {
        assert Apply(c, seg, cal) == Assign(c, named.value, p.val, cal);
        AssignGet(c, named.value, a, p.val, cal);
      } else {
        assert Apply(c, seg, cal) == c;
      }
      HasAttributeGet(c, a);
  }

  /** Assigning one field leaves the others alone. */
  lemma AssignGet(c: Cookie, b: Attr, a: Attr, val: Option<string>, cal: Calendar)
    requires a != ExpiresAttr
    ensures Get(Assign(c, b, val, cal), a) == if a == b then AttrField(val) else Get(c, a)
  {
  }

  lemma HasAttributeGet(c: Cookie, a: Attr)
    requires a != ExpiresAttr
    ensures HasAttribute(c, a) <==> !Get(c, a).Undefined?
  {
  }

  /** `expires` ends up as the last segment naming it sets it, or keeps its value. */
  lemma {:induction false} ApplyAllExpires(c: Cookie, segs: seq<string>, cal: Calendar)
    ensures ApplyAll(c, segs, cal).expires ==
      match LastSetting(segs, ExpiresAttr)
      case None => c.expires
      case Some(v) => ExpiryOf(v, cal)
    decreases |segs|
  {
    if segs != [] {
      var c1 := Apply(c, segs[0], cal);
      ApplyAllExpires(c1, segs[1..], cal);
      assert ApplyAll(c, segs, cal) == ApplyAll(c1, segs[1..], cal);
      if LastSetting(segs[1..], ExpiresAttr).None? {
        ApplyExpires(c, segs[0], cal);
      }
    }
  }

  /** One segment sets `expires` exactly when its lower-cased key is "expires". */
  lemma ApplyExpires(c: Cookie, seg: string, cal: Calendar)
    ensures Apply(c, seg, cal).expires ==
      match MatchParam(seg)
      case Some(p) => if AttrNamed(Lower(p.key)) == Some(ExpiresAttr) then ExpiryOf(p.val, cal) else c.expires
      case None => c.expires
  {
    match MatchParam(seg)
    case None =>
    case Some(p) =>
      var named := AttrNamed(Lower(p.key));
      if named.Some? && HasAttribute(c, named.value) {
        assert Apply(c, seg, cal) == Assign(c, named.value, p.val, cal);
      } else {
        assert Apply(c, seg, cal) == c;
      }
  }

  /** The cookie `build` returns, field by field: the name and value come from the first
      segment (the value absent without '=', and then never set by a `Value` attribute),
      domain and path default to the URL's or to "" and "/", expires to one year ahead,
      the flags to false; the last later segment naming a field, in any letter case,
      overrides it, with `true` for a bare attribute and a parsed date for `Expires`. */
  lemma ParseFields(text: string, url: Option<Location>, now: int, cal: Calendar)
    requires Parse(text, url, now, cal).Success?
    ensures
      var c := Parse(text, url, now, cal).value;
      var first := MatchParam(SplitParams(text)[0]).value;
      var rest := SplitParams(text)[1..];
      && c.name == Setting(rest, NameAttr, Str(first.key))
      && c.value == (if first.val.None? then Undefined else Setting(rest, ValueAttr, Str(first.val.value)))
      && c.domain == Setting(rest, DomainAttr, if url.Some? then Str(url.value.hostname) else Str(""))
      && c.path == Setting(rest, PathAttr, if url.Some? then Str(url.value.pathname) else Str("/"))
      && c.expires == (match LastSetting(rest, ExpiresAttr)
                       case None => Date(Millis(now + OneYear))
                       case Some(v) => ExpiryOf(v, cal))
      && c.secure == Setting(rest, SecureAttr, Bool(false))
      && c.httponly == Setting(rest, HttpOnlyAttr, Bool(false))
  {
    var first := MatchParam(SplitParams(text)[0]).value;
    var rest := SplitParams(text)[1..];
    var start := Named(Seeded(now, url), first);
    ApplyAllField(start, rest, NameAttr, cal);
    ApplyAllField(start, rest, ValueAttr, cal);
    ApplyAllField(start, rest, DomainAttr, cal);
    ApplyAllField(start, rest, PathAttr, cal);
    ApplyAllField(start, rest, SecureAttr, cal);
    ApplyAllField(start, rest, HttpOnlyAttr, cal);
    ApplyAllExpires(start, rest, cal);
  }

  // ---------------------------------------------------------------------------
  // toString, then build

  /** Text that survives being a field of a serialised cookie: it holds no "; " and no
      line terminator. */
  predicate Printable(s: string) {
    NoSep(s) && NoLineBreak(s)
  }

  lemma NoSepConcat(x: string, y: string)
    requires NoSep(x) && NoSep(y)
    requires x == [] || y == [] || x[|x| - 1] != ';' || y[0] != ' '
    ensures NoSep(x + y)
  {
    forall i | 0 <= i < |x + y| - 1
      ensures !((x + y)[i] == ';' && (x + y)[i + 1] == ' ')
    {
      if i + 1 < |x| {
        assert (x + y)[i] == x[i] && (x + y)[i + 1] == x[i + 1];
      } else if i >= |x| {
        assert (x + y)[i] == y[i - |x|] && (x + y)[i + 1] == y[i + 1 - |x|];
      }
    }
  }

  /** `key=value`, for a key without separator that ends in '='. */
  lemma NoSepAttr(key: string, v: string)
    requires NoSep(key) && key != [] && key[|key| - 1] == '='
    requires NoSep(v)
    ensures NoSep(key + v)
  {
    NoSepConcat(key, v);
  }

  lemma ApplyAllCons(c: Cookie, s: string, segs: seq<string>, cal: Calendar)
    ensures ApplyAll(c, [s] + segs, cal) == ApplyAll(Apply(c, s, cal), segs, cal)
  {
    assert ([s] + segs)[1..] == segs;
  }

  /** The optional trailing flags of `toString`. */
  function Flags(secure: bool, httponly: bool): seq<string> {
    (if secure then ["Secure"] else []) + (if httponly then ["HttpOnly"] else [])
  }

  /** The "; "-segments that `toString` writes. */
  function Pieces(c: Cookie, cal: Calendar): seq<string> {
    [Text(c.name) + "=" + Text(c.value), "Domain=" + Text(c.domain), "Path=" + Text(c.path),
     "Expires=" + ExpiresText(c.expires, cal)] + Flags(Truthy(c.secure), Truthy(c.httponly))
  }

  lemma Extend(x: string, tag: string, v: string)
    ensures x + ("; " + tag) + v == x + "; " + (tag + v)
  {
  }

  /** `toString` joins its pieces with "; ". */
  lemma SerializeIsJoin(c: Cookie, cal: Calendar)
    ensures Serialize(c, cal) == Join(Pieces(c, cal))
  {
    var base := [Text(c.name) + "=" + Text(c.value), "Domain=" + Text(c.domain), "Path=" + Text(c.path),
                 "Expires=" + ExpiresText(c.expires, cal)];
    JoinAttrs(Text(c.name) + "=" + Text(c.value), Text(c.domain), Text(c.path), ExpiresText(c.expires, cal));
    JoinFlags(base, Truthy(c.secure), Truthy(c.httponly));
  }

  /** The four leading pieces, joined. */
  lemma JoinAttrs(first: string, d: string, p: string, e: string)
    ensures Join([first, "Domain=" + d, "Path=" + p, "Expires=" + e])
      == first + "; Domain=" + d + "; Path=" + p + "; Expires=" + e
  {
    var s1 := first + "; Domain=" + d;
    var s2 := s1 + "; Path=" + p;
    TagTexts();
    assert [first] + ["Domain=" + d] == [first, "Domain=" + d];
    assert [first, "Domain=" + d] + ["Path=" + p] == [first, "Domain=" + d, "Path=" + p];
    assert [first, "Domain=" + d, "Path=" + p] + ["Expires=" + e] == [first, "Domain=" + d, "Path=" + p, "Expires=" + e];
    JoinSnocTag([first], first, "Domain=", d);
    JoinSnocTag([first, "Domain=" + d], s1, "Path=", p);
    JoinSnocTag([first, "Domain=" + d, "Path=" + p], s2, "Expires=", e);
  }

  /** Joining one more piece `tag + v` onto text `x` writes "; ", the tag and `v`. */
  lemma JoinSnocTag(pieces: seq<string>, x: string, tag: string, v: string)
    requires |pieces| >= 1 && Join(pieces) == x
    ensures Join(pieces + [tag + v]) == x + ("; " + tag) + v
  {
    JoinSnoc(pieces, tag + v);
    Extend(x, tag, v);
  }

  /** Joining the optional flags appends "; Secure" and "; HttpOnly" as they are set. */
  lemma JoinFlags(base: seq<string>, secure: bool, httponly: bool)
    requires |base| >= 1
    ensures Join(base + Flags(secure, httponly)) ==
      Join(base) + (if secure then "; Secure" else "") + (if httponly then "; HttpOnly" else "")
  {
    var b1 := base + (if secure then ["Secure"] else []);
    var y := Join(base) + (if secure then "; Secure" else "");
    assert base + Flags(secure, httponly) == b1 + (if httponly then ["HttpOnly"] else []);
    JoinOptional(base, secure, "Secure");
    JoinOptional(b1, httponly, "HttpOnly");
    FlagTexts();
  }

  /** Joining a piece that may be absent. */
  lemma JoinOptional(pieces: seq<string>, present: bool, flag: string)
    requires |pieces| >= 1
    ensures Join(pieces + (if present then [flag] else [])) == Join(pieces) + (if present then "; " + flag else "")
  {
    if present {
      JoinSnoc(pieces, flag);
      Assoc(Join(pieces), "; ", flag);
    } else {
      AppendNil(pieces);
      AppendNil(Join(pieces));
    }
  }

  /** The "; "-segments of `toString()`'s text, when no field holds "; ". */
  lemma SerializedParams(c: Cookie, cal: Calendar)
    requires NoSep(Text(c.name)) && NoSep(Text(c.value)) && NoSep(Text(c.domain))
    requires NoSep(Text(c.path)) && NoSep(ExpiresText(c.expires, cal))
    ensures SplitParams(Serialize(c, cal)) == Pieces(c, cal)
  {
    NoSepConcat(Text(c.name), "=");
    NoSepAttr(Text(c.name) + "=", Text(c.value));
    NoSepAttr("Domain=", Text(c.domain));
    NoSepAttr("Path=", Text(c.path));
    NoSepAttr("Expires=", ExpiresText(c.expires, cal));
    SerializeIsJoin(c, cal);
    SplitJoin(Pieces(c, cal));
  }

  /** The attribute segments `toString` writes each set their own field. */
  lemma ApplyAttr(c: Cookie, key: string, a: Attr, v: string, cal: Calendar)
    requires key != [] && NoEquals(key) && AttrNamed(Lower(key)) == Some(a) && NoLineBreak(v)
    requires HasAttribute(c, a)
    ensures Apply(c, key + "=" + v, cal) == Assign(c, a, Some(v), cal)
  {
    MatchWithValue([], key, v, []);
    AppendNil(key);
    AppendNil(key + "=" + v);
  }

  lemma ApplyFlag(c: Cookie, key: string, a: Attr, cal: Calendar)
    requires key != [] && NoEquals(key) && AttrNamed(Lower(key)) == Some(a)
    requires HasAttribute(c, a)
    ensures Apply(c, key, cal) == Assign(c, a, None, cal)
  {
    MatchBare([], key);
    AppendNil(key);
  }

  /** A segment `key=v` that addresses a field holding something sets that field, and
      the later segments go on from there. */
  lemma ApplyAttrCons(c: Cookie, key: string, a: Attr, v: string, rest: seq<string>, cal: Calendar)
    requires key != [] && NoEquals(key) && AttrNamed(Lower(key)) == Some(a) && NoLineBreak(v)
    requires HasAttribute(c, a)
    ensures ApplyAll(c, [key + "=" + v] + rest, cal) == ApplyAll(Assign(c, a, Some(v), cal), rest, cal)
  {
    ApplyAttr(c, key, a, v, cal);
    ApplyAllCons(c, key + "=" + v, rest, cal);
  }

  /** The same for a bare segment `key`, which stores `true`. */
  lemma ApplyFlagCons(c: Cookie, key: string, a: Attr, rest: seq<string>, cal: Calendar)
    requires key != [] && NoEquals(key) && AttrNamed(Lower(key)) == Some(a)
    requires HasAttribute(c, a)
    ensures ApplyAll(c, [key] + rest, cal) == ApplyAll(Assign(c, a, None, cal), rest, cal)
  {
    ApplyFlag(c, key, a, cal);
    ApplyAllCons(c, key, rest, cal);
  }

  /** The Domain, Path and Expires segments `toString` writes set those three fields
      (stated for any spelling of the three keys). */
  lemma ApplyAttrs(c: Cookie, kd: string, kp: string, ke: string,
                   dom: string, path: string, exp: string, rest: seq<string>, cal: Calendar)
    requires kd != [] && NoEquals(kd) && AttrNamed(Lower(kd)) == Some(DomainAttr)
    requires kp != [] && NoEquals(kp) && AttrNamed(Lower(kp)) == Some(PathAttr)
    requires ke != [] && NoEquals(ke) && AttrNamed(Lower(ke)) == Some(ExpiresAttr)
    requires NoLineBreak(dom) && NoLineBreak(path) && NoLineBreak(exp)
    requires !c.domain.Undefined? && !c.path.Undefined?
    ensures ApplyAll(c, [kd + "=" + dom, kp + "=" + path, ke + "=" + exp] + rest, cal) ==
      ApplyAll(c.(domain := Str(dom), path := Str(path), expires := Date(cal.parse(exp))), rest, cal)
  {
    var c1 := c.(domain := Str(dom));
    var c2 := c1.(path := Str(path));
    var tail := [ke + "=" + exp] + rest;
    Cons3(kd + "=" + dom, kp + "=" + path, ke + "=" + exp, rest);
    ApplyAttrCons(c, kd, DomainAttr, dom, [kp + "=" + path] + tail, cal);
    ApplyAttrCons(c1, kp, PathAttr, path, tail, cal);
    ApplyAttrCons(c2, ke, ExpiresAttr, exp, rest, cal);
  }

  /** The trailing flags set the flags to `true` (for any spelling of the two keys). */
  lemma ApplyFlags(c: Cookie, ks: string, kh: string, secure: bool, httponly: bool, cal: Calendar)
    requires ks != [] && NoEquals(ks) && AttrNamed(Lower(ks)) == Some(SecureAttr)
    requires kh != [] && NoEquals(kh) && AttrNamed(Lower(kh)) == Some(HttpOnlyAttr)
    requires !c.secure.Undefined? && !c.httponly.Undefined?
    ensures ApplyAll(c, (if secure then [ks] else []) + (if httponly then [kh] else []), cal) ==
      c.(secure := if secure then Bool(true) else c.secure,
         httponly := if httponly then Bool(true) else c.httponly)
  {
    var tail := if httponly then [kh] else [];
    var c1 := c.(secure := if secure then Bool(true) else c.secure);
    if secure {
      ApplyFlagCons(c, ks, SecureAttr, tail, cal);
    } else {
      AppendNil(tail);
    }
    if httponly {
      ApplyFlagCons(c1, kh, HttpOnlyAttr, [], cal);
      AppendNil([kh]);
    }
  }

  /** `build(toString(c))` gives back name, value, domain and path as strings, the flags
      as booleans, and expires as the date read back from its printed form, provided the
      name is non-empty without '=' and no field holds "; " or a line terminator.  An
      absent value comes back as the string "undefined". */
  lemma RoundTrip(c: Cookie, now: int, cal: Calendar)
    requires Text(c.name) != [] && NoEquals(Text(c.name)) && NoSep(Text(c.name))
    requires Printable(Text(c.value)) && Printable(Text(c.domain)) && Printable(Text(c.path))
    requires Printable(ExpiresText(c.expires, cal))
    ensures Parse(Serialize(c, cal), None, now, cal) == Success(Cookie(
      Str(Text(c.name)), Str(Text(c.value)), Str(Text(c.domain)), Str(Text(c.path)),
      Date(cal.parse(ExpiresText(c.expires, cal))),
      Bool(Truthy(c.secure)), Bool(Truthy(c.httponly))))
  {
    var c0 := Named(Seeded(now, None), Param(Text(c.name), Some(Text(c.value))));
    ParseSerialized(c, now, cal);
    ApplyPieces(c, c0, cal);
    var c3 := c0.(domain := Str(Text(c.domain)), path := Str(Text(c.path)),
                  expires := Date(cal.parse(ExpiresText(c.expires, cal))));
    ApplySerializedFlags(c3, Truthy(c.secure), Truthy(c.httponly), cal);
  }

  /** The attribute segments of `toString` set domain, path and expires, then the flags. */
  lemma ApplyPieces(c: Cookie, c0: Cookie, cal: Calendar)
    requires NoLineBreak(Text(c.domain)) && NoLineBreak(Text(c.path)) && NoLineBreak(ExpiresText(c.expires, cal))
    requires !c0.domain.Undefined? && !c0.path.Undefined?
    ensures ApplyAll(c0, Pieces(c, cal)[1..], cal) ==
      ApplyAll(c0.(domain := Str(Text(c.domain)), path := Str(Text(c.path)),
                   expires := Date(cal.parse(ExpiresText(c.expires, cal)))),
               Flags(Truthy(c.secure), Truthy(c.httponly)), cal)
  {
    PiecesTail(c, cal);
    KeysAddress();
    ApplyAttrs(c0, "Domain", "Path", "Expires", Text(c.domain), Text(c.path), ExpiresText(c.expires, cal),
               Flags(Truthy(c.secure), Truthy(c.httponly)), cal);
  }

  /** The "Secure" and "HttpOnly" segments of `toString` set the flags they name. */
  lemma ApplySerializedFlags(c: Cookie, secure: bool, httponly: bool, cal: Calendar)
    requires !c.secure.Undefined? && !c.httponly.Undefined?
    ensures ApplyAll(c, Flags(secure, httponly), cal) ==
      c.(secure := if secure then Bool(true) else c.secure,
         httponly := if httponly then Bool(true) else c.httponly)
  {
    KeysAddress();
    ApplyFlags(c, "Secure", "HttpOnly", secure, httponly, cal);
  }

  /** `build` names the cookie from the first segment and lets the others set fields. */
  lemma ParseOf(text: string, first: string, rest: seq<string>, p: Param,
                url: Option<Location>, now: int, cal: Calendar)
    requires SplitParams(text) == [first] + rest && MatchParam(first) == Some(p)
    ensures Parse(text, url, now, cal) == Success(ApplyAll(Named(Seeded(now, url), p), rest, cal))
  {
    assert SplitParams(text)[1..] == rest;
  }

  /** `build(toString(c))` names the cookie from the first segment and applies the
      attribute segments to it. */
  lemma ParseSerialized(c: Cookie, now: int, cal: Calendar)
    requires Text(c.name) != [] && NoEquals(Text(c.name)) && NoSep(Text(c.name))
    requires Printable(Text(c.value)) && Printable(Text(c.domain)) && Printable(Text(c.path))
    requires Printable(ExpiresText(c.expires, cal))
    ensures Parse(Serialize(c, cal), None, now, cal) == Success(ApplyAll(
      Named(Seeded(now, None), Param(Text(c.name), Some(Text(c.value)))), Pieces(c, cal)[1..], cal))
  {
    var p := Pieces(c, cal);
    var first := Text(c.name) + "=" + Text(c.value);
    assert SplitParams(Serialize(c, cal)) == [first] + p[1..] by {
      SerializedParams(c, cal);
      HeadTail(p);
    }
    assert MatchParam(first) == Some(Param(Text(c.name), Some(Text(c.value)))) by {
      MatchWithValue([], Text(c.name), Text(c.value), []);
      AppendNil(Text(c.name));
      AppendNil(first);
    }
    ParseOf(Serialize(c, cal), first, p[1..], Param(Text(c.name), Some(Text(c.value))), None, now, cal);
  }

  lemma PiecesTail(c: Cookie, cal: Calendar)
    ensures Pieces(c, cal)[1..] ==
      ["Domain" + "=" + Text(c.domain), "Path" + "=" + Text(c.path),
       "Expires" + "=" + ExpiresText(c.expires, cal)] + Flags(Truthy(c.secure), Truthy(c.httponly))
  {
    assert "Domain=" + Text(c.domain) == "Domain" + "=" + Text(c.domain);
    assert "Path=" + Text(c.path) == "Path" + "=" + Text(c.path);
    assert "Expires=" + ExpiresText(c.expires, cal) == "Expires" + "=" + ExpiresText(c.expires, cal);
  }

  /** The attribute keys `toString` writes address the fields they are named after. */
  lemma KeysAddress()
    ensures AttrNamed(Lower("Domain")) == Some(DomainAttr)
    ensures AttrNamed(Lower("Path")) == Some(PathAttr)
    ensures AttrNamed(Lower("Expires")) == Some(ExpiresAttr)
    ensures AttrNamed(Lower("Secure")) == Some(SecureAttr)
    ensures AttrNamed(Lower("HttpOnly")) == Some(HttpOnlyAttr)
  {
    assert Lower("Domain") == "domain";
    assert Lower("Path") == "path";
    assert Lower("Expires") == "expires";
    assert Lower("Secure") == "secure";
    assert Lower("HttpOnly") == "httponly";
  }

  /** A cookie in the form `build` produces from clean text: string fields, boolean
      flags, and a date that its printed form reads back as. The name is also kept
      free of line breaks: `build` alone would take them into the name, but `save`
      puts each cookie on a line of its own and `load` splits there, so the
      save/load round trip in SaveLoad needs it. */
  predicate Canonical(c: Cookie, cal: Calendar) {
    && c.name.Str? && c.value.Str? && c.domain.Str? && c.path.Str?
    && c.secure.Bool? && c.httponly.Bool? && c.expires.Date?
    && cal.parse(cal.format(c.expires.at)) == c.expires.at
    && c.name.s != [] && NoEquals(c.name.s) && NoSep(c.name.s) && NoLineBreak(c.name.s)
    && Printable(c.value.s) && Printable(c.domain.s) && Printable(c.path.s)
    && Printable(cal.format(c.expires.at))
  }

  /** A canonical cookie comes back from `build(toString(c))` unchanged. */
  lemma RoundTripCanonical(c: Cookie, now: int, cal: Calendar)
    requires Canonical(c, cal)
    ensures Parse(Serialize(c, cal), None, now, cal) == Success(c)
  {
    RoundTrip(c, now, cal);
  }

  /** The key is not injective: a ':' inside a field lets different name/domain pairs
      share one key. */
  lemma KeyIsNotInjective(now: int)
    ensures
      var a := Default(now).(name := Str("a:b"), domain := Str("c"));
      var b := Default(now).(name := Str("a"), domain := Str("b:c"));
      a.name != b.name && ToKey(a) == ToKey(b)
  {
  }
}
