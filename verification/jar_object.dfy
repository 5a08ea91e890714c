/** The jar object: the two fields of `CookieJar` updated in place by its methods, each
    proved to agree with the function on `Store` that describes it.  `clear` and `load`
    leave the list and the map in step, `insert` keeps them so, and `remove` keeps them
    so only when it removes the last cookie. */
module JarObject {
  import opened Errors
  import opened Seqs
  import opened JsText
  import opened CookieObj
  import opened Jar
  import opened JarProps

  class CookieJar {
    var cookieList: seq<Cookie>
    var cookieMap: map<string, nat>

    /** The two fields as a value. */
    function State(): Store
      reads this
    {
      Store(cookieList, cookieMap)
    }

    /** The list and the map agree. */
    ghost predicate Valid()
      reads this
    {
      Consistent(State())
    }

    /** `new CookieJar()`: an empty list and an empty map. */
    constructor ()
      ensures Valid() && State() == Empty
    {
      cookieList := [];
      cookieMap := map[];
    }

    /** `clear()`: empties the list and the map. */
    method Clear()
      modifies this
      ensures Valid() && State() == Empty
    {
      cookieList := [];
      cookieMap := map[];
    }

    /** `save()`. */
    method Save(cal: Calendar) returns (text: string)
      ensures text == SaveText(cookieList, cal)
    {
      text := "";
      for i := 0 to |cookieList|
        invariant text == SaveText(cookieList[..i], cal)
      {
        TakeTake(cookieList, i + 1, i);
        text := text + Serialize(cookieList[i], cal) + "\r\n";
      }
      TakeAll(cookieList);
    }

    /** `load(text)`: the outcome is Fail when a line throws, and the jar then holds the
        cookies of the lines before it. */
    method Load(text: string, now: int, cal: Calendar) returns (outcome: Outcome)
      modifies this
      ensures Valid()
      ensures Progress(State(), outcome) == Loaded(text, now, cal)
    {
      Clear();
      var lines := SplitLines(text);
      for i := 0 to |lines|
        invariant Ingest(Empty, NonBlank(lines[..i]), None, now, cal) == Progress(State(), Pass)
      {
        ghost var done := NonBlank(lines[..i]);
        NonBlankSnoc(lines, i);
        if lines[i] == "" {
          assert NonBlank(lines[..i + 1]) == done;
          continue;
        }
        assert NonBlank(lines[..i + 1]) == done + [lines[i]];
        IngestSnoc(Empty, done, lines[i], None, now, cal);
        IngestConsistent(Empty, done, None, now, cal);
        var cookie := Build(lines[i], None, now, cal);
        if cookie.Failure? {
          LoadStops(lines, i, now, cal);
          LoadConsistent(text, now, cal);
          return Fail(cookie.error);
        }
        Insert(cookie.value, now);
        assert Ingest(Empty, done + [lines[i]], None, now, cal) == Progress(State(), Pass);
      }
      TakeAll(lines);
      LoadConsistent(text, now, cal);
      return Pass;
    }

    /** `insert(cookie)`: runs on any jar whose map names no slot past the end of the
        list, and keeps the list and the map in step when they were. */
    method Insert(cookie: Cookie, now: int)
      requires Bounded(State())
      modifies this
      ensures State() == Inserted(old(State()), cookie, now)
      ensures old(Valid()) ==> Valid()
    {
      if Valid() {
        InsertedConsistent(State(), cookie, now);
      }
      if !IsExpired(cookie, now) {
        var key := ToKey(cookie);
        if key in cookieMap {
          var idx := cookieMap[key];
          if idx < |cookieList| {
            cookieList := cookieList[idx := cookie];
          } else {
            cookieList := cookieList + [cookie];
          }
        } else {
          var idx := |cookieList|;
          cookieMap := cookieMap[key := idx];
          cookieList := cookieList + [cookie];
        }
      }
    }

    /** `remove(cookie)`: Fail(NotInJar) with the jar unchanged when the key is unmapped;
        otherwise the key is unmapped and its slot spliced out, without moving the later
        map entries down.  The list and the map stay in step exactly when the removed
        cookie was the last one. */
    method Remove(cookie: Cookie) returns (outcome: Outcome)
      modifies this
      ensures match Removed(old(State()), cookie)
        case Success(st) => outcome == Pass && State() == st
        case Failure(e) => outcome == Fail(e) && State() == old(State())
      ensures old(Valid()) && outcome == Pass ==>
        (Valid() <==> old(cookieMap[ToKey(cookie)]) == old(|cookieList|) - 1)
      ensures old(Valid()) ==> Bounded(State())
    {
      ghost var before := State();
      var key := ToKey(cookie);
      if key !in cookieMap {
        return Fail(NotInJar);
      }
      var idx := cookieMap[key];
      cookieMap := cookieMap - {key};
      if idx < |cookieList| {
        cookieList := cookieList[..idx] + cookieList[idx + 1..];
      }
      if Consistent(before) {
        RemovedConsistentIff(before, cookie);
        RemovedBounded(before, cookie);
      }
      return Pass;
    }

    /** `find(domain, path)`, with "" and "/" for an omitted domain or path. */
    method Find(domain: Option<string>, path: Option<string>, now: int) returns (cookies: seq<Cookie>)
      ensures cookies == Matching(cookieList, if domain.Some? then domain.value else "",
                                  if path.Some? then path.value else "/", now)
    {
      var d := if domain.Some? then domain.value else "";
      var p := if path.Some? then path.value else "/";
      cookies := [];
      for i := 0 to |cookieList|
        invariant cookies == Matching(cookieList[..i], d, p, now)
      {
        TakeTake(cookieList, i + 1, i);
        var cookie := cookieList[i];
        if cookie.domain == Str(d) && cookie.path == Str(p) && !IsExpired(cookie, now) {
          cookies := cookies + [cookie];
        }
      }
      TakeAll(cookieList);
    }

    /** `findFuzzy(domain, path)`: `find` for every visited domain and path, keeping
        only the first cookie of each name. */
    method FindFuzzy(domain: string, path: string, now: int) returns (cookies: seq<Cookie>)
      ensures cookies == Fuzzy(cookieList, domain, path, now)
    {
      cookies := [];
      var found: set<string> := {};
      var d := domain;
      while d != ""
        invariant Absorbed(Acc(cookies, found), Candidates(cookieList, Domains(d), Paths(path), now)) ==
                  Absorbed(Acc([], {}), Candidates(cookieList, Domains(domain), Paths(path), now))
        decreases |d|
      {
        ghost var rest := Candidates(cookieList, Domains(StripLabel(d)), Paths(path), now);
        assert Candidates(cookieList, Domains(d), Paths(path), now) == Row(cookieList, d, Paths(path), now) + rest;
        AbsorbedAppend(Acc(cookies, found), Row(cookieList, d, Paths(path), now), rest);
        cookies, found := ScanPaths(d, path, now, cookies, found);
        d := StripLabel(d);
      }
    }

    /** The inner loop of `findFuzzy`: one domain, every path from `path` down. */
    method ScanPaths(d: string, path: string, now: int, cookies: seq<Cookie>, found: set<string>)
      returns (cookies': seq<Cookie>, found': set<string>)
      ensures Acc(cookies', found') == Absorbed(Acc(cookies, found), Row(cookieList, d, Paths(path), now))
    {
      cookies', found' := cookies, found;
      var p := path;
      while p != ""
        invariant Absorbed(Acc(cookies', found'), Row(cookieList, d, Paths(p), now)) ==
                  Absorbed(Acc(cookies, found), Row(cookieList, d, Paths(path), now))
        decreases |p|
      {
        var here := Find(Some(d), Some(p), now);
        ghost var rest := Row(cookieList, d, Paths(StripSegment(p)), now);
        assert Row(cookieList, d, Paths(p), now) == here + rest;
        AbsorbedAppend(Acc(cookies', found'), here, rest);
        for i := 0 to |here|
          invariant Absorbed(Acc(cookies', found'), here[i..] + rest) ==
                    Absorbed(Acc(cookies, found), Row(cookieList, d, Paths(path), now))
        {
          DropCons(here, i, rest);
          if Text(here[i].name) !in found' {
            cookies' := cookies' + [here[i]];
            found' := found' + {Text(here[i].name)};
          }
        }
        DropAll(here, rest);
        p := StripSegment(p);
      }
    }
  }
}
