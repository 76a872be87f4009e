/** Parsing of the ticker field: the text is split on every comma and each
    piece is stripped of surrounding whitespace. Empty pieces are kept. */
module TickerParsing {

  /** The characters Python's `str.isspace` accepts, which `str.strip()` removes. */
  predicate IsSpace(c: char) {
    || ('\U{0009}' <= c <= '\U{000D}')
    || ('\U{001C}' <= c <= '\U{0020}')
    || c == '\U{0085}' || c == '\U{00A0}' || c == '\U{1680}'
    || ('\U{2000}' <= c <= '\U{200A}')
    || c == '\U{2028}' || c == '\U{2029}' || c == '\U{202F}' || c == '\U{205F}'
    || c == '\U{3000}'
  }

  predicate AllSpace(s: string) {
    forall i :: 0 <= i < |s| ==> IsSpace(s[i])
  }

  /** Neither end of `s` is whitespace. */
  predicate Trimmed(s: string) {
    s == [] || (!IsSpace(s[0]) && !IsSpace(s[|s| - 1]))
  }

  function Occurrences(s: string, c: char): (n: nat)
    ensures n <= |s|
  {
    if s == [] then 0 else (if s[0] == c then 1 else 0) + Occurrences(s[1..], c)
  }

  /** The pieces glued back together with `sep` between neighbours. */
  function Join(pieces: seq<string>, sep: char): string
    requires pieces != []
  {
    if |pieces| == 1 then pieces[0] else pieces[0] + [sep] + Join(pieces[1..], sep)
  }

  /** `str.split(sep)`: one piece per separator plus one, none containing it. */
  function Split(s: string, sep: char): (pieces: seq<string>)
    ensures |pieces| == Occurrences(s, sep) + 1
    ensures forall i :: 0 <= i < |pieces| ==> sep !in pieces[i]
  {
    if s == [] then [""]
    else
      var rest := Split(s[1..], sep);
      if s[0] == sep then [""] + rest else [[s[0]] + rest[0]] + rest[1..]
  }

  /** Joining the pieces of a split gives back the text. */
  lemma {:induction false} JoinSplit(s: string, sep: char)
    ensures Join(Split(s, sep), sep) == s
  {
    if s != [] {
      var rest := Split(s[1..], sep);
      JoinSplit(s[1..], sep);
      if s[0] != sep {
        var pieces := Split(s, sep);
        assert pieces == [[s[0]] + rest[0]] + rest[1..];
        if |rest| == 1 {
          assert Join(pieces, sep) == [s[0]] + rest[0];
        } else {
          assert pieces[1..] == rest[1..];
          assert Join(pieces, sep) == [s[0]] + rest[0] + [sep] + Join(rest[1..], sep);
          assert Join(rest, sep) == rest[0] + [sep] + Join(rest[1..], sep);
        }
      } else {
        assert s == [sep] + s[1..];
      }
    }
  }

  /** Splitting pieces that hold no separator after joining them gives them back. */
  lemma {:induction false} SplitJoin(pieces: seq<string>, sep: char)
    requires pieces != []
    requires forall i :: 0 <= i < |pieces| ==> sep !in pieces[i]
    ensures Split(Join(pieces, sep), sep) == pieces
  {
    if |pieces| == 1 {
      SplitPiece(pieces[0], [], sep);
      assert pieces[0] + [] == pieces[0];
    } else {
      SplitJoin(pieces[1..], sep);
      var tail := Join(pieces[1..], sep);
      SplitPiece(pieces[0], [sep] + tail, sep);
      assert pieces[0] + [sep] + tail == pieces[0] + ([sep] + tail);
      assert ([sep] + tail)[1..] == tail;
    }
  }

  /** A separator-free piece in front of text ending a piece or starting with
      the separator extends the first piece of the split. */
  lemma {:induction false} SplitPiece(w: string, t: string, sep: char)
    requires sep !in w
    requires t == [] || t[0] == sep
    ensures Split(w + t, sep) == if t == [] then [w] else [w] + Split(t[1..], sep)
  {
    if w != [] {
      SplitPiece(w[1..], t, sep);
      assert (w + t)[1..] == w[1..] + t;
      assert [w[0]] + w[1..] == w;
    } else {
      assert w + t == t;
    }
  }

  /** The end of the run of whitespace starting at position `i`. */
  function SpaceRunEnd(s: string, i: nat): (n: nat)
    requires i <= |s|
    ensures i <= n <= |s|
    ensures forall j :: i <= j < n ==> IsSpace(s[j])
    ensures n == |s| || !IsSpace(s[n])
    decreases |s| - i
  {
    if i < |s| && IsSpace(s[i]) then SpaceRunEnd(s, i + 1) else i
  }

  /** The start of the run of whitespace ending just before position `j`,
      going no further left than `lo`. */
  function SpaceRunStart(s: string, j: nat, lo: nat): (n: nat)
    requires lo <= j <= |s|
    ensures lo <= n <= j
    ensures forall k :: n <= k < j ==> IsSpace(s[k])
    ensures n == lo || !IsSpace(s[n - 1])
    decreases j
  {
    if j > lo && IsSpace(s[j - 1]) then SpaceRunStart(s, j - 1, lo) else j
  }

  /** `str.strip()`: the text between its leading and its trailing whitespace. */
  function Strip(s: string): (r: string)
    ensures Trimmed(r)
    ensures var k := SpaceRunEnd(s, 0);
            && k + |r| <= |s|
            && r == s[k..k + |r|]
            && AllSpace(s[..k]) && AllSpace(s[k + |r|..])
  {
    var start := SpaceRunEnd(s, 0);
    var end := SpaceRunStart(s, |s|, start);
    s[start..end]
  }

  /** Stripping removes exactly the surrounding whitespace: any text that
      neither starts nor ends with whitespace, padded on both sides with
      whitespace, strips back to itself. */
  lemma StripPadded(a: string, m: string, b: string)
    requires AllSpace(a) && AllSpace(b) && Trimmed(m)
    ensures Strip(a + m + b) == m
  {
    var s := a + m + b;
    var start := SpaceRunEnd(s, 0);
    var end := SpaceRunStart(s, |s|, start);
    if m == [] {
      assert forall j :: 0 <= j < |s| ==> IsSpace(s[j]);
      assert start == |s|;
    } else {
      assert s[|a|] == m[0];
      assert start == |a|;
      assert s[|a| + |m| - 1] == m[|m| - 1];
      assert end == |a| + |m|;
      assert s[start..end] == m;
    }
  }

  /** Stripping twice is stripping once. */
  lemma StripIdempotent(s: string)
    ensures Strip(Strip(s)) == Strip(s)
  {
    var m := Strip(s);
    assert [] + m + [] == m;
    StripPadded([], m, []);
  }

  /** The ticker list: each comma-separated piece, stripped, empty pieces included. */
  function ParseTickers(input: string): (tickers: seq<string>)
    ensures |tickers| == Occurrences(input, ',') + 1
    ensures forall i :: 0 <= i < |tickers| ==> ',' !in tickers[i] && Trimmed(tickers[i])
  {
    var pieces := Split(input, ',');
    seq(|pieces|, i requires 0 <= i < |pieces| => Strip(pieces[i]))
  }

  /** Every parsed ticker is the corresponding comma-separated piece of the
      input with only its surrounding whitespace removed. */
  lemma ParsedTickerIsPiece(input: string, i: nat)
    requires i < |ParseTickers(input)|
    ensures var piece := Split(input, ',')[i];
            var k := SpaceRunEnd(piece, 0);
            var t := ParseTickers(input)[i];
            && k + |t| <= |piece|
            && t == piece[k..k + |t|]
            && AllSpace(piece[..k]) && AllSpace(piece[k + |t|..])
  {
    var piece := Split(input, ',')[i];
    var t := Strip(piece);
    assert ParseTickers(input)[i] == t;
  }

  /** Parsing a comma-joined list of trimmed, comma-free tickers, each padded
      with whitespace, yields exactly those tickers, empty ones included. */
  lemma {:induction false} ParseJoined(tickers: seq<string>, lead: seq<string>, trail: seq<string>)
    requires |lead| == |trail| == |tickers| > 0
    requires forall i :: 0 <= i < |tickers| ==>
      AllSpace(lead[i]) && AllSpace(trail[i]) && Trimmed(tickers[i]) && ',' !in tickers[i]
    ensures ParseTickers(Join(Padded(lead, tickers, trail), ',')) == tickers
  {
    var padded := Padded(lead, tickers, trail);
    forall i | 0 <= i < |tickers|
      ensures ',' !in padded[i]
    {
      assert ',' !in lead[i] && ',' !in trail[i];
    }
    SplitJoin(padded, ',');
    var parsed := ParseTickers(Join(padded, ','));
    forall i | 0 <= i < |tickers|
      ensures parsed[i] == tickers[i]
    {
      StripPadded(lead[i], tickers[i], trail[i]);
    }
  }

  /** Each ticker with its whitespace padding on either side. */
  function Padded(lead: seq<string>, tickers: seq<string>, trail: seq<string>): (padded: seq<string>)
    requires |lead| == |trail| == |tickers|
    ensures |padded| == |tickers|
    ensures forall i :: 0 <= i < |tickers| ==> padded[i] == lead[i] + tickers[i] + trail[i]
  {
    seq(|tickers|, i requires 0 <= i < |tickers| => lead[i] + tickers[i] + trail[i])
  }

  /** A doubled comma gives an empty ticker, which is kept. */
  lemma ParseKeepsEmptyPiece()
    ensures ParseTickers(" AAPL ,, MSFT") == ["AAPL", "", "MSFT"]
  {
    var tickers := ["AAPL", "", "MSFT"];
    var lead, trail := [" ", "", " "], [" ", "", ""];
    var padded := Padded(lead, tickers, trail);
    assert padded[0] == " AAPL " && padded[1] == "" && padded[2] == " MSFT";
    assert padded == [" AAPL ", "", " MSFT"];
    assert Join([" AAPL ", "", " MSFT"], ',') == " AAPL ,, MSFT";
    ParseJoined(tickers, lead, trail);
  }
}
