/** The JavaScript string built-ins the cookie code relies on: `split` on the attribute
    separator "; ", `split` on line breaks `/\r?\n/`, `toLowerCase`, and the set of
    characters that a regular-expression `.` does not match. */
module JsText {
  import opened Seqs

  /** True when `s` holds no occurrence of the two-character separator "; ". */
  predicate NoSep(s: string) {
    forall i :: 0 <= i < |s| - 1 ==> !(s[i] == ';' && s[i + 1] == ' ')
  }

  /** `s.split("; ")`: the pieces between the non-overlapping occurrences of "; ",
      found from left to right.  The first piece ends at the first occurrence. */
  function SplitParams(s: string): (r: seq<string>)
    ensures |r| >= 1
    ensures r[0] <= s && NoSep(r[0])
    ensures |r[0]| == |s| || (|r[0]| + 1 < |s| && s[|r[0]|] == ';' && s[|r[0]| + 1] == ' ')
    decreases |s|
  {
    if |s| < 2 then [s]
    else if s[0] == ';' && s[1] == ' ' then [""] + SplitParams(s[2..])
    else
      var rest := SplitParams(s[1..]);
      [[s[0]] + rest[0]] + rest[1..]
  }

  /** `pieces.join("; ")`, the inverse of SplitParams. */
  function Join(pieces: seq<string>): string
    requires |pieces| >= 1
    decreases |pieces|
  {
    if |pieces| == 1 then pieces[0] else pieces[0] + "; " + Join(pieces[1..])
  }

  /** Splitting loses nothing: joining the pieces gives the text back. */
  lemma {:induction false} JoinSplit(s: string)
    ensures Join(SplitParams(s)) == s
    decreases |s|
  {
    if |s| < 2 {
    } else if s[0] == ';' && s[1] == ' ' {
      var rest := SplitParams(s[2..]);
      var q := [""] + rest;
      assert SplitParams(s) == q;
      JoinSplit(s[2..]);
      assert q[0] == "" && q[1..] == rest;
      JoinHead(q);
      AppendNil("; " + Join(rest));
      assert s == "; " + s[2..];
    } else {
      var rest := SplitParams(s[1..]);
      assert SplitParams(s) == [[s[0]] + rest[0]] + rest[1..];
      JoinSplit(s[1..]);
      JoinCons(s[0], rest);
      assert s == [s[0]] + s[1..];
    }
  }

  lemma JoinCons(c: char, pieces: seq<string>)
    requires |pieces| >= 1
    ensures Join([[c] + pieces[0]] + pieces[1..]) == [c] + Join(pieces)
  {
    var q := [[c] + pieces[0]] + pieces[1..];
    assert q[0] == [c] + pieces[0] && q[1..] == pieces[1..];
    if |pieces| > 1 {
      JoinHead(q);
      JoinHead(pieces);
      Assoc([c], pieces[0], "; " + Join(pieces[1..]));
    }
  }

  lemma JoinHead(pieces: seq<string>)
    requires |pieces| > 1
    ensures Join(pieces) == pieces[0] + ("; " + Join(pieces[1..]))
  {
  }

  /** No piece of a split contains the separator. */
  lemma {:induction false} SplitPiecesNoSep(s: string)
    ensures forall k :: 0 <= k < |SplitParams(s)| ==> NoSep(SplitParams(s)[k])
    decreases |s|
  {
    if |s| < 2 {
    } else if s[0] == ';' && s[1] == ' ' {
      SplitPiecesNoSep(s[2..]);
      assert forall k :: 1 <= k < |SplitParams(s)| ==> SplitParams(s)[k] == SplitParams(s[2..])[k - 1];
    } else {
      var rest := SplitParams(s[1..]);
      SplitPiecesNoSep(s[1..]);
      assert forall k :: 1 <= k < |SplitParams(s)| ==> SplitParams(s)[k] == rest[k];
    }
  }

  /** A text without the separator is a single piece. */
  lemma {:induction false} SplitSingle(a: string)
    requires NoSep(a)
    ensures SplitParams(a) == [a]
    decreases |a|
  {
    if |a| >= 2 {
      SplitSingle(a[1..]);
      assert a == [a[0]] + a[1..];
    }
  }

  /** Splitting `a + "; " + b` cuts exactly at the separator after `a` when `a` has
      none of its own. */
  lemma {:induction false} SplitConcat(a: string, b: string)
    requires NoSep(a)
    ensures SplitParams(a + "; " + b) == [a] + SplitParams(b)
    decreases |a|
  {
    var s := a + "; " + b;
    if a == [] {
      assert s[2..] == b;
    } else {
      assert s[1..] == a[1..] + "; " + b;
      SplitConcat(a[1..], b);
      assert a == [a[0]] + a[1..];
    }
  }

  /** Joining pieces without the separator and splitting again gives the pieces back. */
  lemma {:induction false} SplitJoin(pieces: seq<string>)
    requires |pieces| >= 1
    requires forall k :: 0 <= k < |pieces| ==> NoSep(pieces[k])
    ensures SplitParams(Join(pieces)) == pieces
    decreases |pieces|
  {
    if |pieces| == 1 {
      SplitSingle(pieces[0]);
    } else {
      SplitJoin(pieces[1..]);
      SplitConcat(pieces[0], Join(pieces[1..]));
    }
  }

  /** Joining one more piece appends the separator and that piece. */
  lemma {:induction false} JoinSnoc(pieces: seq<string>, y: string)
    requires |pieces| >= 1
    ensures Join(pieces + [y]) == Join(pieces) + "; " + y
    decreases |pieces|
  {
    if |pieces| == 1 {
      assert (pieces + [y])[1..] == [y];
    } else {
      assert (pieces + [y])[1..] == pieces[1..] + [y];
      JoinSnoc(pieces[1..], y);
    }
  }

  /** The first piece of a split ends at the first separator. */
  lemma FirstPiece(s: string, k: nat)
    requires k <= |s| && NoSep(s[..k])
    requires k == |s| || (k + 1 < |s| && s[k] == ';' && s[k + 1] == ' ')
    ensures SplitParams(s)[0] == s[..k]
  {
    if k == |s| {
      TakeAll(s);
      SplitSingle(s);
    } else {
      assert s[k..k + 2] == "; ";
      Around(s, k, "; ");
      SplitConcat(s[..k], s[k + 2..]);
    }
  }

  /** The separator written before the three attributes `toString` always adds. */
  lemma TagTexts()
    ensures "; " + "Domain=" == "; Domain=" && "; " + "Path=" == "; Path=" && "; " + "Expires=" == "; Expires="
  {
  }

  /** The separator written before the two flags `toString` may add. */
  lemma FlagTexts()
    ensures "; " + "Secure" == "; Secure" && "; " + "HttpOnly" == "; HttpOnly"
  {
  }

  /** `s.split(/\r?\n/)`: the pieces between line breaks, where a line break is a
      line feed together with the carriage return right before it, if any. */
  function SplitLines(s: string): (r: seq<string>)
    ensures |r| >= 1
    ensures forall k :: 0 <= k < |r| ==> '\n' !in r[k]
    decreases |s|
  {
    if s == [] then [""]
    else if s[0] == '\n' then [""] + SplitLines(s[1..])
    else if |s| >= 2 && s[0] == '\r' && s[1] == '\n' then [""] + SplitLines(s[2..])
    else
      var rest := SplitLines(s[1..]);
      [[s[0]] + rest[0]] + rest[1..]
  }

  /** A line without a line feed, then CRLF, is one whole piece. */
  lemma {:induction false} SplitLinesConcat(a: string, b: string)
    requires '\n' !in a
    ensures SplitLines(a + "\r\n" + b) == [a] + SplitLines(b)
    decreases |a|
  {
    var s := a + "\r\n" + b;
    if a == [] {
      assert s[2..] == b;
    } else {
      assert s[1..] == a[1..] + "\r\n" + b;
      assert '\n' !in a[1..] by {
        assert forall i :: 0 <= i < |a[1..]| ==> a[1..][i] == a[i + 1];
      }
      SplitLinesConcat(a[1..], b);
      assert s[0] == a[0];
      assert a == [a[0]] + a[1..];
    }
  }

  /** `toLowerCase` on one character, for the ASCII letters. */
  function LowerChar(c: char): char {
    if 'A' <= c <= 'Z' then (c as int + 32) as char else c
  }

  /** `toLowerCase`, with only the ASCII upper-case letters folded. */
  function Lower(s: string): string {
    seq(|s|, i requires 0 <= i < |s| => LowerChar(s[i]))
  }

  /** The characters that `.` in a JavaScript regular expression does not match. */
  predicate IsLineTerminator(c: char) {
    c == '\n' || c == '\r' || c == '\U{2028}' || c == '\U{2029}'
  }
}
