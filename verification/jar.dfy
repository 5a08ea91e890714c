/** The cookie jar (xmlhttprequest-cookie-jar.js): a list of cookies in insertion order
    and a map from each cookie's key to its slot in the list.  The functions below
    describe every operation on a value copy of the two fields; the class `CookieJar`
    performs them in place and is proved to agree with them. */
module Jar {
  import opened Errors
  import opened Seqs
  import opened JsText
  import opened CookieObj

  /** The two fields of a jar, as a value. */
  datatype Store = Store(list: seq<Cookie>, index: map<string, nat>)

  /** A fresh or cleared jar. */
  const Empty: Store := Store([], map[])

  /** The list/map invariant: the map sends a key to slot i exactly when the cookie in
      slot i has that key. */
  predicate Consistent(st: Store) {
    && (forall k :: k in st.index ==> st.index[k] < |st.list| && ToKey(st.list[st.index[k]]) == k)
    && (forall i :: 0 <= i < |st.list| ==> ToKey(st.list[i]) in st.index && st.index[ToKey(st.list[i])] == i)
  }

  /** No mapped slot lies past the end of the list, so that writing to it never leaves
      a hole in the array. */
  predicate Bounded(st: Store) {
    forall k :: k in st.index ==> st.index[k] <= |st.list|
  }

  /** The cookie stored under `key`, if the map names a slot that exists. */
  function Lookup(st: Store, key: string): Option<Cookie> {
    if key in st.index && st.index[key] < |st.list| then Some(st.list[st.index[key]]) else None
  }

  // ---------------------------------------------------------------------------
  // insert and remove

  /** `insert(cookie)`: an expired cookie is dropped; a key the map knows overwrites its
      slot (a slot equal to the length appends, as a JavaScript array write does); a new
      key is appended and mapped to the old length. */
  function Inserted(st: Store, c: Cookie, now: int): (r: Store)
    requires Bounded(st)
    ensures Bounded(r)
  {
    if IsExpired(c, now) then st
    else
      var key := ToKey(c);
      if key in st.index then
        if st.index[key] < |st.list| then Store(st.list[st.index[key] := c], st.index)
        else Store(st.list + [c], st.index)
      else Store(st.list + [c], st.index[key := |st.list|])
  }

  /** `remove(cookie)`, as written: throws when the key is unmapped; otherwise deletes
      the map entry and splices the slot out of the list (nothing happens to the list
      when the slot lies past its end), without renumbering the later map entries. */
  function Removed(st: Store, c: Cookie): Result<Store> {
    var key := ToKey(c);
    if key !in st.index then Failure(NotInJar)
    else
      var idx := st.index[key];
      Success(Store(if idx < |st.list| then st.list[..idx] + st.list[idx + 1..] else st.list,
                    st.index - {key}))
  }

  /** `remove(cookie)` as evidently intended: the map entries after the removed slot
      move down by one together with their cookies. */
  function RemovedRenumbered(st: Store, c: Cookie): Result<Store> {
    var key := ToKey(c);
    if key !in st.index then Failure(NotInJar)
    else
      var idx := st.index[key];
      Success(Store(if idx < |st.list| then st.list[..idx] + st.list[idx + 1..] else st.list,
                    Renumber(st.index, key, idx)))
  }

  /** The map without `key`, the entries past slot `idx` moved down by one. */
  function Renumber(index: map<string, nat>, key: string, idx: nat): map<string, nat> {
    map k | k in index && k != key :: if index[k] > idx then index[k] - 1 else index[k]
  }

  // ---------------------------------------------------------------------------
  // find and findFuzzy

  /** The condition `find` tests: exact domain, exact path, not expired. */
  predicate Matches(c: Cookie, domain: string, path: string, now: int) {
    c.domain == Str(domain) && c.path == Str(path) && !IsExpired(c, now)
  }

  /** The cookies of `list` that `find(domain, path)` returns, in list order. */
  function Matching(list: seq<Cookie>, domain: string, path: string, now: int): seq<Cookie>
    decreases |list|
  {
    if list == [] then []
    else
      var last := list[|list| - 1];
      Matching(list[..|list| - 1], domain, path, now) + (if Matches(last, domain, path, now) then [last] else [])
  }

  /** The length of the run of non-'.' characters `d` starts with. */
  function LabelLength(d: string): (n: nat)
    ensures n <= |d| && (forall i :: 0 <= i < n ==> d[i] != '.')
    ensures n == |d| || d[n] == '.'
    decreases |d|
  {
    if d == [] || d[0] == '.' then 0 else 1 + LabelLength(d[1..])
  }

  /** `domain.replace(/^(?:[^.]+|\.)/, "")`: drops the leading label, or else one leading
      dot. */
  function StripLabel(d: string): (r: string)
    requires d != ""
    ensures |r| < |d| && r == d[|d| - |r|..]
    ensures d[0] == '.' ==> r == d[1..]
    ensures d[0] != '.' ==> (r == "" || r[0] == '.') && forall i :: 0 <= i < |d| - |r| ==> d[i] != '.'
  {
    if d[0] == '.' then d[1..] else d[LabelLength(d)..]
  }

  /** The length of the run of non-'/' characters `p` ends with. */
  function SegmentLength(p: string): (n: nat)
    ensures n <= |p| && (forall i :: |p| - n <= i < |p| ==> p[i] != '/')
    ensures n == |p| || p[|p| - n - 1] == '/'
    decreases |p|
  {
    if p == [] || p[|p| - 1] == '/' then 0 else 1 + SegmentLength(p[..|p| - 1])
  }

  /** `path.replace(/(?:[^\/]+|\/)$/, "")`: drops the last segment, or else one trailing
      slash. */
  function StripSegment(p: string): (r: string)
    requires p != ""
    ensures |r| < |p| && r == p[..|r|]
    ensures p[|p| - 1] == '/' ==> r == p[..|p| - 1]
    ensures p[|p| - 1] != '/' ==> (r == "" || r[|r| - 1] == '/') && forall i :: |r| <= i < |p| ==> p[i] != '/'
  {
    if p[|p| - 1] == '/' then p[..|p| - 1] else p[..|p| - SegmentLength(p)]
  }

  /** The domains `findFuzzy` visits, from `d` itself down to the last non-empty one. */
  function Domains(d: string): seq<string>
    decreases |d|
  {
    if d == "" then [] else [d] + Domains(StripLabel(d))
  }

  /** The paths `findFuzzy` visits for each domain. */
  function Paths(p: string): seq<string>
    decreases |p|
  {
    if p == "" then [] else [p] + Paths(StripSegment(p))
  }

  /** What `find` returns for one domain and each of `paths`, one after the other. */
  function Row(list: seq<Cookie>, domain: string, paths: seq<string>, now: int): seq<Cookie>
    decreases |paths|
  {
    if paths == [] then []
    else Matching(list, domain, paths[0], now) + Row(list, domain, paths[1..], now)
  }

  /** What `find` returns for each domain of `domains` and each path, in visiting order. */
  function Candidates(list: seq<Cookie>, domains: seq<string>, paths: seq<string>, now: int): seq<Cookie>
    decreases |domains|
  {
    if domains == [] then []
    else Row(list, domains[0], paths, now) + Candidates(list, domains[1..], paths, now)
  }

  /** The two accumulators of `findFuzzy`: the result so far and the names found. */
  datatype Acc = Acc(cookies: seq<Cookie>, found: set<string>)

  /** One candidate: kept unless its name was found before. */
  function Absorb(acc: Acc, x: Cookie): Acc {
    if Text(x.name) in acc.found then acc
    else Acc(acc.cookies + [x], acc.found + {Text(x.name)})
  }

  /** All candidates `xs`, in order. */
  function Absorbed(acc: Acc, xs: seq<Cookie>): Acc
    decreases |xs|
  {
    if xs == [] then acc else Absorbed(Absorb(acc, xs[0]), xs[1..])
  }

  /** The names a plain JavaScript object `{}` inherits from `Object.prototype`; each
      reads as a truthy value before anything is stored under it. */
  const InheritedNames: set<string> := {
    "constructor", "__defineGetter__", "__defineSetter__", "hasOwnProperty",
    "__lookupGetter__", "__lookupSetter__", "isPrototypeOf", "propertyIsEnumerable",
    "toString", "valueOf", "__proto__", "toLocaleString"}

  /** `findFuzzy(domain, path)` as written: its `found` object starts out answering
      true for every inherited name. */
  function FuzzyAsWritten(list: seq<Cookie>, domain: string, path: string, now: int): seq<Cookie> {
    Absorbed(Acc([], InheritedNames), Candidates(list, Domains(domain), Paths(path), now)).cookies
  }

  /** `findFuzzy(domain, path)` as intended, with `found` starting out empty. */
  function Fuzzy(list: seq<Cookie>, domain: string, path: string, now: int): seq<Cookie> {
    Absorbed(Acc([], {}), Candidates(list, Domains(domain), Paths(path), now)).cookies
  }

  /** The names (as property keys) of the cookies in `xs`. */
  function NamesOf(xs: seq<Cookie>): set<string> {
    set i | 0 <= i < |xs| :: Text(xs[i].name)
  }

  /** Absorbing two runs of candidates is absorbing one, then the other. */
  lemma {:induction false} AbsorbedAppend(acc: Acc, xs: seq<Cookie>, ys: seq<Cookie>)
    ensures Absorbed(acc, xs + ys) == Absorbed(Absorbed(acc, xs), ys)
    decreases |xs|
  {
    if xs == [] {
      assert xs + ys == ys;
    } else {
      assert (xs + ys)[1..] == xs[1..] + ys;
      AbsorbedAppend(Absorb(acc, xs[0]), xs[1..], ys);
    }
  }

  // ---------------------------------------------------------------------------
  // save and load

  /** `save()`: each cookie's `toString()` followed by CRLF, in list order. */
  function SaveText(list: seq<Cookie>, cal: Calendar): string
    decreases |list|
  {
    if list == [] then ""
    else SaveText(list[..|list| - 1], cal) + Serialize(list[|list| - 1], cal) + "\r\n"
  }

  /** A jar together with whether the operation that produced it returned or threw. */
  datatype Progress = Progress(store: Store, outcome: Outcome)

  /** Builds each text in order (with `url`) and inserts the cookie, stopping at the
      first text that does not parse; the cookies inserted before it stay. */
  function Ingest(st: Store, texts: seq<string>, url: Option<Location>, now: int, cal: Calendar): (r: Progress)
    requires Bounded(st)
    ensures Bounded(r.store)
    decreases |texts|
  {
    if texts == [] then Progress(st, Pass)
    else
      var before := Ingest(st, texts[..|texts| - 1], url, now, cal);
      if before.outcome.Fail? then before
      else match Parse(texts[|texts| - 1], url, now, cal)
        case Failure(e) => Progress(before.store, Fail(e))
        case Success(c) => Progress(Inserted(before.store, c, now), Pass)
  }

  /** The non-empty lines, in order. */
  function NonBlank(lines: seq<string>): seq<string>
    decreases |lines|
  {
    if lines == [] then []
    else NonBlank(lines[..|lines| - 1]) + (if lines[|lines| - 1] == "" then [] else [lines[|lines| - 1]])
  }

  /** `load(text)`: clears the jar, then builds and inserts each non-empty line. */
  function Loaded(text: string, now: int, cal: Calendar): Progress {
    Ingest(Empty, NonBlank(SplitLines(text)), None, now, cal)
  }

  /** Once a text has failed, the later ones are not looked at. */
  lemma {:induction false} IngestAfterFail(st: Store, xs: seq<string>, ys: seq<string>,
                                           url: Option<Location>, now: int, cal: Calendar)
    requires Bounded(st) && Ingest(st, xs, url, now, cal).outcome.Fail?
    ensures Ingest(st, xs + ys, url, now, cal) == Ingest(st, xs, url, now, cal)
    decreases |ys|
  {
    if ys == [] {
      assert xs + ys == xs;
    } else {
      AppendInit(xs, ys);
      IngestAfterFail(st, xs, ys[..|ys| - 1], url, now, cal);
    }
  }

  lemma {:induction false} NonBlankAppend(a: seq<string>, b: seq<string>)
    ensures NonBlank(a + b) == NonBlank(a) + NonBlank(b)
    decreases |b|
  {
    if b == [] {
      assert a + b == a;
    } else {
      AppendInit(a, b);
      NonBlankAppend(a, b[..|b| - 1]);
    }
  }

  lemma IngestSnoc(st: Store, xs: seq<string>, x: string, url: Option<Location>, now: int, cal: Calendar)
    requires Bounded(st) && Ingest(st, xs, url, now, cal).outcome == Pass
    ensures Ingest(st, xs + [x], url, now, cal) ==
      match Parse(x, url, now, cal)
      case Failure(e) => Progress(Ingest(st, xs, url, now, cal).store, Fail(e))
      case Success(c) => Progress(Inserted(Ingest(st, xs, url, now, cal).store, c, now), Pass)
  {
    TakeAppend(xs, [x]);
  }

  lemma NonBlankSnoc(lines: seq<string>, i: nat)
    requires i < |lines|
    ensures NonBlank(lines[..i + 1]) == NonBlank(lines[..i]) + (if lines[i] == "" then [] else [lines[i]])
  {
    TakeTake(lines, i + 1, i);
  }

  /** A line that throws ends `load`: the lines after it are not looked at. */
  lemma LoadStops(lines: seq<string>, i: nat, now: int, cal: Calendar)
    requires i < |lines| && Ingest(Empty, NonBlank(lines[..i + 1]), None, now, cal).outcome.Fail?
    ensures Ingest(Empty, NonBlank(lines), None, now, cal) == Ingest(Empty, NonBlank(lines[..i + 1]), None, now, cal)
  {
    SplitAt(lines, i + 1);
    NonBlankAppend(lines[..i + 1], lines[i + 1..]);
    IngestAfterFail(Empty, NonBlank(lines[..i + 1]), NonBlank(lines[i + 1..]), None, now, cal);
  }
}
