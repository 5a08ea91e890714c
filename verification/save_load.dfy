/** Saving a jar and loading the text back. */
module SaveLoad {
  import opened Errors
  import opened JsText
  import opened CookieObj
  import opened CookieProps
  import opened Jar
  import opened JarProps
  import opened Seqs

  /** The lines `save` writes, one per cookie. */
  function Lines(list: seq<Cookie>, cal: Calendar): seq<string> {
    seq(|list|, i requires 0 <= i < |list| => Serialize(list[i], cal))
  }

  /** Each line followed by CRLF, in order: the shape of saved text. */
  function Crlf(lines: seq<string>): string
    decreases |lines|
  {
    if lines == [] then "" else Crlf(lines[..|lines| - 1]) + lines[|lines| - 1] + "\r\n"
  }

  /** `save` writes the cookies' lines, each followed by CRLF. */
  lemma {:induction false} SaveTextCrlf(list: seq<Cookie>, cal: Calendar)
    ensures SaveText(list, cal) == Crlf(Lines(list, cal))
    decreases |list|
  {
    if list != [] {
      var n := |list|;
      SaveTextCrlf(list[..n - 1], cal);
      assert Lines(list, cal)[..n - 1] == Lines(list[..n - 1], cal);
    }
  }

  /** Saved text read from the front: the first line, CRLF, then the rest. */
  lemma {:induction false} CrlfCons(lines: seq<string>)
    requires lines != []
    ensures Crlf(lines) == lines[0] + "\r\n" + Crlf(lines[1..])
    decreases |lines|
  {
    var n := |lines|;
    var h := lines[0] + "\r\n";
    if n == 1 {
      assert Crlf(lines[1..]) == "" && Crlf(lines[..0]) == "";
      AppendNil(lines[0]);
      AppendNil(h);
    } else {
      var init := lines[..n - 1];
      CrlfCons(init);
      var x := Crlf(init[1..]);
      var last := lines[n - 1];
      assert init[0] == lines[0];
      assert lines[1..][..n - 2] == init[1..];
      assert Crlf(lines[1..]) == x + last + "\r\n";
      Assoc(h, x, last);
      Assoc(h, x + last, "\r\n");
    }
  }

  /** Splitting saved text at line breaks gives the lines back and a final empty line,
      provided no line holds a line feed. */
  lemma {:induction false} CrlfSplit(lines: seq<string>)
    requires forall i :: 0 <= i < |lines| ==> '\n' !in lines[i]
    ensures SplitLines(Crlf(lines)) == lines + [""]
    decreases |lines|
  {
    if lines != [] {
      CrlfCons(lines);
      CrlfSplit(lines[1..]);
      SplitLinesConcat(lines[0], Crlf(lines[1..]));
      assert lines == [lines[0]] + lines[1..];
    }
  }

  lemma {:induction false} NonBlankAll(lines: seq<string>)
    requires forall i :: 0 <= i < |lines| ==> lines[i] != ""
    ensures NonBlank(lines) == lines
    decreases |lines|
  {
    if lines != [] {
      NonBlankAll(lines[..|lines| - 1]);
    }
  }

  /** The text of a canonical cookie is one non-empty line. */
  lemma SerializedLine(c: Cookie, cal: Calendar)
    requires Canonical(c, cal)
    ensures '\n' !in Serialize(c, cal) && Serialize(c, cal) != ""
  {
    assert '\n' !in "; Domain=" && '\n' !in "; Path=" && '\n' !in "; Expires=";
    assert '\n' !in "; Secure" && '\n' !in "; HttpOnly" && '\n' !in "=";
  }

  /** Loading the lines of canonical, unexpired cookies with distinct keys rebuilds
      the list in order, with a consistent map. */
  lemma {:induction false} IngestLines(list: seq<Cookie>, k: nat, now: int, cal: Calendar)
    requires k <= |list|
    requires forall i :: 0 <= i < |list| ==> Canonical(list[i], cal) && !IsExpired(list[i], now)
    requires forall i, j :: 0 <= i < j < |list| ==> ToKey(list[i]) != ToKey(list[j])
    ensures var r := Ingest(Empty, Lines(list, cal)[..k], None, now, cal);
      r.outcome == Pass && r.store.list == list[..k] && Consistent(r.store)
    decreases k
  {
    if k > 0 {
      IngestLines(list, k - 1, now, cal);
      var prev := Lines(list, cal)[..k - 1];
      var c := list[k - 1];
      TakeSnoc(Lines(list, cal), k);
      IngestSnoc(Empty, prev, Serialize(c, cal), None, now, cal);
      RoundTripCanonical(c, now, cal);
      var before := Ingest(Empty, prev, None, now, cal).store;
      assert forall i :: 0 <= i < |before.list| ==> ToKey(before.list[i]) != ToKey(c) by {
        assert before.list == list[..k - 1];
      }
      InsertedFresh(before, c, now);
      TakeSnoc(list, k);
    }
  }

  /** The non-empty lines of saved canonical cookies are exactly their texts. */
  lemma SavedLines(list: seq<Cookie>, cal: Calendar)
    requires forall i :: 0 <= i < |list| ==> Canonical(list[i], cal)
    ensures NonBlank(SplitLines(SaveText(list, cal))) == Lines(list, cal)
  {
    var lines := Lines(list, cal);
    forall i | 0 <= i < |list| ensures '\n' !in lines[i] && lines[i] != "" {
      SerializedLine(list[i], cal);
    }
    SaveTextCrlf(list, cal);
    CrlfSplit(lines);
    assert (lines + [""])[..|lines|] == lines;
    NonBlankAll(lines);
  }

  /** Loading the whole of that text rebuilds the list with a consistent map. */
  lemma IngestAllLines(list: seq<Cookie>, now: int, cal: Calendar)
    requires forall i :: 0 <= i < |list| ==> Canonical(list[i], cal) && !IsExpired(list[i], now)
    requires forall i, j :: 0 <= i < j < |list| ==> ToKey(list[i]) != ToKey(list[j])
    ensures var r := Ingest(Empty, Lines(list, cal), None, now, cal);
      r.outcome == Pass && r.store.list == list && Consistent(r.store)
  {
    IngestLines(list, |list|, now, cal);
    assert Lines(list, cal)[..|list|] == Lines(list, cal);
    assert list[..|list|] == list;
  }

  /** `load(save())` gives back a consistent jar of canonical, unexpired cookies: the
      same list and the same map. */
  lemma SaveLoadRoundTrip(st: Store, now: int, cal: Calendar)
    requires Consistent(st)
    requires forall i :: 0 <= i < |st.list| ==> Canonical(st.list[i], cal) && !IsExpired(st.list[i], now)
    ensures Loaded(SaveText(st.list, cal), now, cal) == Progress(st, Pass)
  {
    SavedLines(st.list, cal);
    ConsistentKeysDistinct(st);
    IngestAllLines(st.list, now, cal);
    ConsistentUnique(Ingest(Empty, Lines(st.list, cal), None, now, cal).store, st);
  }
}
