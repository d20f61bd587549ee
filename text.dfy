/**
 * The string operations the chat bot leans on: Qt's QString/QStringView calls
 * (trimmed, mid, lastIndexOf, split, toHtmlEscaped) and the project's own
 * StringView::Take/First/Last window helpers. Strings are sequences of
 * characters; UTF-16 surrogate pairs and normalisation are not modelled.
 */
module Text {
  import opened Wrappers

  /** QChar::isSpace: the characters Qt counts as white space. */
  predicate IsSpace(c: char) {
    || c == ' '
    || ('\t' <= c <= '\r')
    || c == '\U{85}' || c == '\U{A0}' || c == '\U{1680}'
    || ('\U{2000}' <= c <= '\U{200A}')
    || c == '\U{2028}' || c == '\U{2029}' || c == '\U{202F}' || c == '\U{205F}' || c == '\U{3000}'
  }

  /** `s` with its leading white space removed. */
  function TrimStart(s: string): (r: string)
    ensures |r| <= |s| && r == s[|s| - |r|..]
    ensures forall i :: 0 <= i < |s| - |r| ==> IsSpace(s[i])
    ensures r == [] || !IsSpace(r[0])
  {
    if s != [] && IsSpace(s[0]) then TrimStart(s[1..]) else s
  }

  /** `s` with its trailing white space removed. */
  function TrimEnd(s: string): (r: string)
    ensures |r| <= |s| && r == s[..|r|]
    ensures forall i :: |r| <= i < |s| ==> IsSpace(s[i])
    ensures r == [] || !IsSpace(r[|r| - 1])
  {
    if s != [] && IsSpace(s[|s| - 1]) then TrimEnd(s[..|s| - 1]) else s
  }

  /** QString::trimmed: white space removed from both ends and kept inside. */
  function Trimmed(s: string): (r: string)
    ensures r == [] || (!IsSpace(r[0]) && !IsSpace(r[|r| - 1]))
    ensures |r| <= |s|
  {
    TrimEnd(TrimStart(s))
  }

  /** Trimming twice is trimming once. */
  lemma TrimmedIdempotent(s: string)
    ensures Trimmed(Trimmed(s)) == Trimmed(s)
  {
    TrimmedUnchanged(Trimmed(s));
  }

  /** A string with no white space at either end is its own trimming. */
  lemma TrimmedUnchanged(s: string)
    requires s == [] || (!IsSpace(s[0]) && !IsSpace(s[|s| - 1]))
    ensures Trimmed(s) == s
  {
  }

  /**
   * QStringView::mid(pos, n), clamped as Qt clamps it: a start past the end gives
   * the empty view, and a negative length or one that runs past the end takes the rest.
   */
  function Mid(s: string, pos: int, n: int): (r: string)
    ensures 0 <= pos <= |s| && 0 <= n && pos + n <= |s| ==> r == s[pos..pos + n]
    ensures 0 <= pos <= |s| && (n < 0 || pos + n > |s|) ==> r == s[pos..]
    ensures pos > |s| ==> r == []
  {
    if pos > |s| then []
    else if pos < 0 then
      (if n < 0 || n + pos >= |s| then s else if n + pos <= 0 then [] else s[..n + pos])
    else if n < 0 || n > |s| - pos then s[pos..]
    else s[pos..pos + n]
  }

  /** QStringView::indexOf(c): the first position holding `c`, or -1. */
  function IndexOf(s: string, c: char): (i: int)
    ensures -1 <= i < |s|
    ensures i >= 0 ==> s[i] == c
  {
    if s == [] then -1
    else if s[0] == c then 0
    else var k := IndexOf(s[1..], c); if k < 0 then -1 else k + 1
  }

  /** IndexOf finds the first occurrence: no `c` comes before it, and there is none at all when it is -1. */
  lemma {:induction false} IndexOfFirst(s: string, c: char)
    ensures forall j :: 0 <= j < |s| && (IndexOf(s, c) < 0 || j < IndexOf(s, c)) ==> s[j] != c
    decreases |s|
  {
    if s != [] && s[0] != c {
      IndexOfFirst(s[1..], c);
      assert forall j :: 1 <= j < |s| ==> s[j] == s[1..][j - 1];
    }
  }

  /** QStringView::lastIndexOf(c): the last position holding `c`, or -1. */
  function LastIndexOf(s: string, c: char): (i: int)
    ensures -1 <= i < |s|
    ensures i >= 0 ==> s[i] == c
  {
    if s == [] then -1
    else if s[|s| - 1] == c then |s| - 1
    else LastIndexOf(s[..|s| - 1], c)
  }

  /** LastIndexOf finds the last occurrence: no `c` comes after it. */
  lemma {:induction false} LastIndexOfLast(s: string, c: char)
    ensures forall j :: LastIndexOf(s, c) < j < |s| ==> s[j] != c
    decreases |s|
  {
    if s != [] && s[|s| - 1] != c {
      LastIndexOfLast(s[..|s| - 1], c);
      assert forall j :: 0 <= j < |s| - 1 ==> s[j] == s[..|s| - 1][j];
    }
  }

  /** QStringView::contains(sub). */
  predicate Contains(s: string, sub: string)
    decreases |s|
  {
    sub <= s || (s != [] && Contains(s[1..], sub))
  }

  /**
   * StringView::Take(window, d): the piece of the window before the first `d`
   * (all of it when there is no `d`) and the window left after that `d`.
   * Nothing is taken from an empty window; a non-empty window always shrinks.
   */
  function Take(w: string, d: char): (r: (Option<string>, string))
    ensures r.0.None? <==> w == []
    ensures r.0.None? ==> r.1 == []
    ensures r.0.Some? ==> |r.1| < |w|
  {
    if w == [] then (None, [])
    else
      var i := IndexOf(w, d);
      if i < 0 then (Some(w), []) else (Some(w[..i]), w[i + 1..])
  }

  /** What Take cuts: a piece free of `d`, then the delimiter and the rest, or the whole window. */
  lemma TakeMeaning(w: string, d: char)
    requires w != []
    ensures d !in Take(w, d).0.value
    ensures d in w ==> w == Take(w, d).0.value + [d] + Take(w, d).1
    ensures d !in w ==> Take(w, d).0.value == w && Take(w, d).1 == []
  {
    var i := IndexOf(w, d);
    IndexOfFirst(w, d);
    if i >= 0 {
      Around(w, i);
    }
  }

  /** The first `c` is found at `i` when `s[i]` is one and none comes before it. */
  lemma IndexOfAt(s: string, c: char, i: int)
    requires 0 <= i < |s| && s[i] == c && c !in s[..i]
    ensures IndexOf(s, c) == i
  {
    IndexOfFirst(s, c);
    assert IndexOf(s, c) >= 0;
  }

  /** A Take over a window whose first `d` is at `i` cuts the window there. */
  lemma TakeAt(w: string, d: char, i: int)
    requires 0 <= i < |w| && w[i] == d && d !in w[..i]
    ensures Take(w, d).0 == Some(w[..i]) && Take(w, d).1 == w[i + 1..]
  {
    IndexOfAt(w, d, i);
  }

  /** StringView::First(view, d): the piece before the first `d` (all of it without one), missing when empty. */
  function First(w: string, d: char): (r: Option<string>)
    ensures r.None? <==> w == [] || w[0] == d
  {
    var i := IndexOf(w, d);
    var p := if i < 0 then w else w[..i];
    if p == [] then None else Some(p)
  }

  /** The piece First returns is free of `d`, starts the view and ends at the first `d` or the end. */
  lemma FirstMeaning(w: string, d: char)
    requires First(w, d).Some?
    ensures var p := First(w, d).value;
      && d !in p && p <= w
      && (|p| == |w| || w[|p|] == d)
      && (d !in w ==> p == w)
  {
    IndexOfFirst(w, d);
  }

  /** StringView::Last(view, d): the piece after the last `d` (all of it without one), missing when empty. */
  function Last(w: string, d: char): (r: Option<string>)
    ensures r.None? <==> w == [] || w[|w| - 1] == d
    ensures r.Some? ==> |r.value| <= |w|
  {
    var i := LastIndexOf(w, d);
    var p := w[i + 1..];
    if p == [] then None else Some(p)
  }

  /** The piece Last returns is free of `d`, ends the view and starts after the last `d` or at the start. */
  lemma LastMeaning(w: string, d: char)
    requires Last(w, d).Some?
    ensures var p := Last(w, d).value;
      && d !in p && p == w[|w| - |p|..]
      && (|p| == |w| || w[|w| - |p| - 1] == d)
      && (d !in w ==> p == w)
  {
    LastIndexOfLast(w, d);
  }

  /** Around the only `d` of a string, First finds what comes before it and Last what comes after. */
  lemma FirstLastAround(a: string, b: string, d: char)
    requires a != [] && b != [] && d !in a && d !in b
    ensures First(a + [d] + b, d) == Some(a) && Last(a + [d] + b, d) == Some(b)
  {
    var w := a + [d] + b;
    assert w[..|a|] == a && w[|a|] == d;
    TakeAt(w, d, |a|);
    assert w[|a| + 1..] == b;
    LastMeaning(w, d);
  }

  /**
   * After a Take that found `d`, the piece `v` Last finds in what remains is a
   * non-empty end of the whole window, free of `d` and preceded by a `d`.
   */
  lemma TakeThenLast(w: string, d: char, v: string)
    requires d in w && Last(Take(w, d).1, d) == Some(v)
    ensures v != [] && d !in v && |v| < |w|
    ensures v == w[|w| - |v|..] && w[|w| - |v| - 1] == d
  {
    var front, rest := Take(w, d).0.value + [d], Take(w, d).1;
    TakeMeaning(w, d);
    LastMeaning(rest, d);
    Ends(w, front, rest, v, d);
  }

  /** An end of the end of a string that is preceded by `d` is an end of the string preceded by `d`. */
  lemma Ends(w: string, front: string, rest: string, v: string, d: char)
    requires w == front + rest && front != [] && front[|front| - 1] == d
    requires |v| <= |rest| && v == rest[|rest| - |v|..] && (|v| == |rest| || rest[|rest| - |v| - 1] == d)
    ensures |v| < |w| && v == w[|w| - |v|..] && w[|w| - |v| - 1] == d
  {
    assert w[|front|..] == rest;
    assert w[|w| - |v|..] == rest[|rest| - |v|..];
  }

  /** The pieces a loop of Take calls cuts a window into, in order. */
  function Pieces(w: string, d: char): (ps: seq<string>)
    ensures w == [] <==> ps == []
    decreases |w|
  {
    if w == [] then []
    else
      var t := Take(w, d);
      [t.0.value] + Pieces(t.1, d)
  }

  /** A non-empty window is the piece Take cuts followed by the pieces of what remains. */
  lemma PiecesStep(w: string, d: char)
    requires w != []
    ensures Pieces(w, d) == [Take(w, d).0.value] + Pieces(Take(w, d).1, d)
  {
  }

  /** Two pieces free of `d`, joined by one `d`, are cut back into those two pieces. */
  lemma PiecesPair(first: string, second: string, d: char)
    requires first != [] && second != [] && d !in first && d !in second
    ensures Pieces(first + [d] + second, d) == [first, second]
  {
    var w := first + [d] + second;
    assert w[..|first|] == first && w[|first| + 1..] == second;
    TakeAt(w, d, |first|);
    TakeMeaning(second, d);
    assert Pieces(second, d) == [second];
  }

  /** One more Take call moves one piece from the window to the pieces cut so far. */
  lemma PiecesAdvance(whole: string, done: seq<string>, w: string, d: char)
    requires w != [] && Pieces(whole, d) == done + Pieces(w, d)
    ensures Pieces(whole, d) == (done + [Take(w, d).0.value]) + Pieces(Take(w, d).1, d)
  {
    PiecesStep(w, d);
  }

  /** No piece holds the delimiter. */
  lemma {:induction false} PiecesFree(w: string, d: char)
    ensures forall k :: 0 <= k < |Pieces(w, d)| ==> d !in Pieces(w, d)[k]
    decreases |w|
  {
    if w != [] {
      TakeMeaning(w, d);
      PiecesFree(Take(w, d).1, d);
    }
  }

  /** The pieces joined with `sep` between neighbours. */
  function Join(ps: seq<string>, sep: string): string
  {
    if ps == [] then [] else if |ps| == 1 then ps[0] else ps[0] + sep + Join(ps[1..], sep)
  }

  /** Cutting a window with Take loses nothing but a single trailing delimiter. */
  lemma {:induction false} PiecesJoin(w: string, d: char)
    ensures w == Join(Pieces(w, d), [d]) || w == Join(Pieces(w, d), [d]) + [d]
    decreases |w|
  {
    if w != [] {
      TakeMeaning(w, d);
      var p, rest := Take(w, d).0.value, Take(w, d).1;
      assert Pieces(w, d) == [p] + Pieces(rest, d);
      PiecesJoin(rest, d);
      if rest == [] {
        assert Pieces(w, d) == [p];
        assert w == p || w == p + [d];
      } else {
        JoinCons(p, Pieces(rest, d), [d]);
        Rejoined(w, p, rest, Join(Pieces(rest, d), [d]), Join(Pieces(w, d), [d]), d);
      }
    }
  }

  /** Putting a piece and a delimiter back in front keeps "equal, or equal but for a trailing delimiter". */
  lemma Rejoined(w: string, p: string, rest: string, j: string, joined: string, d: char)
    requires w == p + [d] + rest && joined == p + [d] + j
    requires rest == j || rest == j + [d]
    ensures w == joined || w == joined + [d]
  {
    if rest != j {
      assert w == (p + [d] + j) + [d];
    }
  }

  /** QString::split(d) keeping empty parts: there is always at least one part. */
  function Split(s: string, d: char): (ps: seq<string>)
    ensures |ps| >= 1
    decreases |s|
  {
    var i := IndexOf(s, d);
    if i < 0 then [s] else [s[..i]] + Split(s[i + 1..], d)
  }

  /** No part of a split holds the delimiter. */
  lemma {:induction false} SplitFree(s: string, d: char)
    ensures forall k :: 0 <= k < |Split(s, d)| ==> d !in Split(s, d)[k]
    decreases |s|
  {
    var i := IndexOf(s, d);
    IndexOfFirst(s, d);
    if i >= 0 {
      var head, rest := s[..i], s[i + 1..];
      SplitFree(rest, d);
      assert Split(s, d) == [head] + Split(rest, d);
      assert d !in head;
    } else {
      assert Split(s, d) == [s];
    }
  }

  /** Joining a piece in front of at least one other puts one separator between them. */
  lemma JoinCons(p: string, tail: seq<string>, sep: string)
    requires tail != []
    ensures Join([p] + tail, sep) == p + sep + Join(tail, sep)
  {
    assert ([p] + tail)[1..] == tail;
  }

  /** A string is what comes before one of its characters, that character, and what follows it. */
  lemma Around(s: string, i: int)
    requires 0 <= i < |s|
    ensures s == s[..i] + [s[i]] + s[i + 1..]
  {
    assert s == s[..i] + s[i..];
    assert s[i..] == [s[i]] + s[i + 1..];
  }

  /** Joining the parts of a split with the delimiter gives back the string. */
  lemma {:induction false} JoinSplit(s: string, d: char)
    ensures Join(Split(s, d), [d]) == s
    decreases |s|
  {
    var i := IndexOf(s, d);
    if i >= 0 {
      var head, rest := s[..i], s[i + 1..];
      assert Split(s, d) == [head] + Split(rest, d);
      JoinSplit(rest, d);
      JoinCons(head, Split(rest, d), [d]);
      Around(s, i);
    } else {
      assert Split(s, d) == [s];
    }
  }

  /** The text QString::toHtmlEscaped puts in place of one character. */
  function EscapedChar(c: char): string
  {
    if c == '<' then "&lt;"
    else if c == '>' then "&gt;"
    else if c == '&' then "&amp;"
    else if c == '"' then "&quot;"
    else [c]
  }

  /** QString::toHtmlEscaped: `<`, `>`, `&` and `"` become character entities. */
  function HtmlEscaped(s: string): (r: string)
    ensures forall i :: 0 <= i < |r| ==> r[i] != '<' && r[i] != '>' && r[i] != '"'
    ensures |r| >= |s|
  {
    if s == [] then [] else EscapedChar(s[0]) + HtmlEscaped(s[1..])
  }

  /** The reading a browser gives to the four entities HtmlEscaped writes. */
  function HtmlUnescaped(s: string): string
    decreases |s|
  {
    if s == [] then []
    else if "&lt;" <= s then ['<'] + HtmlUnescaped(s[4..])
    else if "&gt;" <= s then ['>'] + HtmlUnescaped(s[4..])
    else if "&amp;" <= s then ['&'] + HtmlUnescaped(s[5..])
    else if "&quot;" <= s then ['"'] + HtmlUnescaped(s[6..])
    else [s[0]] + HtmlUnescaped(s[1..])
  }

  /** A string that differs from `p` at a shared position does not start with `p`. */
  lemma NotPrefix(p: string, e: string, k: nat)
    requires k < |p| && k < |e| && p[k] != e[k]
    ensures !(p <= e)
  {
  }

  /** Escaping loses nothing: the displayed text reads back as the original. */
  lemma {:induction false} HtmlEscapedRoundTrip(s: string)
    ensures HtmlUnescaped(HtmlEscaped(s)) == s
  {
    if s != [] {
      var c, tail := s[0], HtmlEscaped(s[1..]);
      HtmlEscapedRoundTrip(s[1..]);
      var e := EscapedChar(c) + tail;
      assert HtmlEscaped(s) == e;
      if c == '<' {
        assert e[..4] == "&lt;" && e[4..] == tail;
      } else if c == '>' {
        NotPrefix("&lt;", e, 1);
        assert e[..4] == "&gt;" && e[4..] == tail;
      } else if c == '&' {
        NotPrefix("&lt;", e, 1);
        NotPrefix("&gt;", e, 1);
        assert e[..5] == "&amp;" && e[5..] == tail;
      } else if c == '"' {
        NotPrefix("&lt;", e, 1);
        NotPrefix("&gt;", e, 1);
        NotPrefix("&amp;", e, 1);
        assert e[..6] == "&quot;" && e[6..] == tail;
      } else {
        assert e[0] == c && e[1..] == tail;
        NotPrefix("&lt;", e, 0);
        NotPrefix("&gt;", e, 0);
        NotPrefix("&amp;", e, 0);
        NotPrefix("&quot;", e, 0);
      }
    }
  }
}
