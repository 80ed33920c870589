/**
 Breaking text into lines (src/font.rs:179-298). The width of a string, and which characters are
 white space, are parameters; widths are real numbers, and never shrink when a string is extended.
 */
module LineBreaking {
  import opened Prelude

  datatype Metrics = Metrics(width: string -> real, space: char -> bool)

  ghost predicate Monotone(m: Metrics) {
    && m.width("") == 0.0
    && forall a: string, b: string :: a <= b ==> m.width(a) <= m.width(b)
  }

  datatype Mode = Word | Char

  datatype Line = Line(width: real, text: string)

  // ---------------------------------------------------------------- text

  function Trim(m: Metrics, s: string): (r: string)
    ensures r <= s
  {
    if s != "" && m.space(s[|s| - 1]) then Trim(m, s[..|s| - 1]) else s
  }

  /** `trim_wrapped_line` */
  function TrimFor(m: Metrics, mode: Mode, s: string): string {
    if mode.Word? then Trim(m, s) else s
  }

  lemma {:induction false} TrimOfPrefix(m: Metrics, a: string, b: string)
    requires a <= b
    ensures Trim(m, a) <= Trim(m, b)
    decreases |b|
  {
    if a == b {
    } else if m.space(b[|b| - 1]) {
      TrimOfPrefix(m, a, b[..|b| - 1]);
    } else {
      assert Trim(m, a) <= a <= b;
    }
  }

  lemma WidthOfPrefix(m: Metrics, mode: Mode, a: string, b: string)
    requires Monotone(m) && a <= b
    ensures m.width(TrimFor(m, mode, a)) <= m.width(TrimFor(m, mode, b))
  {
    TrimOfPrefix(m, a, b);
  }

  function NonSpaces(m: Metrics, s: string): string {
    if s == "" then "" else NonSpaces(m, s[..|s| - 1]) + (if m.space(s[|s| - 1]) then "" else [s[|s| - 1]])
  }

  lemma {:induction false} NonSpacesAppend(m: Metrics, a: string, b: string)
    ensures NonSpaces(m, a + b) == NonSpaces(m, a) + NonSpaces(m, b)
    decreases |b|
  {
    if b == "" {
      assert a + b == a;
    } else {
      assert (a + b)[..|a + b| - 1] == a + b[..|b| - 1];
      NonSpacesAppend(m, a, b[..|b| - 1]);
    }
  }

  lemma {:induction false} TrimKeepsNonSpaces(m: Metrics, s: string)
    ensures NonSpaces(m, Trim(m, s)) == NonSpaces(m, s)
    decreases |s|
  {
    if s != "" && m.space(s[|s| - 1]) { TrimKeepsNonSpaces(m, s[..|s| - 1]); }
  }

  // ---------------------------------------------------------------- wrap points

  /** Where a line may be wrapped: between characters, or before a word that follows white space; and at its end. */
  predicate IsWrapPoint(m: Metrics, line: string, mode: Mode, i: nat) {
    i == |line| || (0 < i < |line| && (mode.Word? ==> m.space(line[i - 1]) && !m.space(line[i])))
  }

  predicate Increasing(points: seq<nat>) {
    forall j, k :: 0 <= j < k < |points| ==> points[j] < points[k]
  }

  /** All wrap points below `limit`, in order. */
  ghost predicate PointsBelow(m: Metrics, line: string, mode: Mode, points: seq<nat>, limit: nat) {
    Increasing(points) && forall i: nat :: i in points <==> i < limit && i < |line| && IsWrapPoint(m, line, mode, i)
  }

  method FindSpace(m: Metrics, line: string, from: nat, wanted: bool) returns (r: Option<nat>)
    requires from <= |line|
    ensures match r
            case Some(i) => from <= i < |line| && m.space(line[i]) == wanted && forall j :: from <= j < i ==>
              m.space(line[j]) != wanted
            case None => forall j :: from <= j < |line| ==> m.space(line[j]) != wanted
  {
    for i := from to |line|
      invariant forall j :: from <= j < i ==> m.space(line[j]) != wanted
    {
      if m.space(line[i]) == wanted { return Some(i); }
    }
    return None;
  }

  lemma PointsReach(m: Metrics, line: string, mode: Mode, points: seq<nat>, a: nat, b: nat)
    requires PointsBelow(m, line, mode, points, a) && a <= b
    requires forall i :: a <= i < b && i < |line| ==> !IsWrapPoint(m, line, mode, i)
    ensures PointsBelow(m, line, mode, points, b)
  {
  }

  lemma PointsGrow(m: Metrics, line: string, mode: Mode, points: seq<nat>, i: nat)
    requires PointsBelow(m, line, mode, points, i) && i < |line| && IsWrapPoint(m, line, mode, i)
    ensures PointsBelow(m, line, mode, points + [i], i + 1)
  {
    forall j | 0 <= j < |points| ensures points[j] < i { assert points[j] in points; }
  }

  method FindWrapPoints(m: Metrics, line: string, mode: Mode) returns (points: seq<nat>)
    ensures Increasing(points) && forall i: nat :: i in points <==> IsWrapPoint(m, line, mode, i) && i <= |line|
    ensures points != [] && points[|points| - 1] == |line|
  {
    points := [];
    if mode.Word? {
      var wordStart := 0;
      while true
        invariant wordStart <= |line| && PointsBelow(m, line, mode, points, wordStart + 1)
        invariant wordStart == 0 || (wordStart < |line| && !m.space(line[wordStart]))
        decreases |line| - wordStart
      {
        var end := FindSpace(m, line, wordStart, true);
        if end.None? {
          PointsReach(m, line, mode, points, wordStart + 1, |line| + 1);
          break;
        }
        var next := FindSpace(m, line, end.value, false);
        if next.None? {
          PointsReach(m, line, mode, points, wordStart + 1, |line| + 1);
          break;
        }
        PointsReach(m, line, mode, points, wordStart + 1, next.value);
        PointsGrow(m, line, mode, points, next.value);
        points := points + [next.value];
        wordStart := next.value;
      }
    } else {
      var charEnd := 1;
      while charEnd < |line|
        invariant 1 <= charEnd && PointsBelow(m, line, mode, points, charEnd)
      {
        PointsGrow(m, line, mode, points, charEnd);
        points := points + [charEnd];
        charEnd := charEnd + 1;
      }
      PointsReach(m, line, mode, points, charEnd, if charEnd > |line| + 1 then charEnd else |line| + 1);
    }
    forall j | 0 <= j < |points| ensures points[j] < |line| { assert points[j] in points; }
    points := points + [|line|];
  }

  // ---------------------------------------------------------------- what a broken line should be

  /** A stretch of the line and the text emitted for it; `broken` if it is part of a word too wide to fit. */
  datatype Piece = Piece(from: nat, to: nat, text: string, broken: bool)

  predicate Covers(pieces: seq<Piece>, a: nat, b: nat) {
    if pieces == [] then a == b
    else
      var p := pieces[|pieces| - 1];
      p.from <= p.to == b && Covers(pieces[..|pieces| - 1], a, p.from)
  }

  /** A run of characters that fits, or a single one, and could not reach further without reaching the wrap width. */
  ghost predicate CharPiece(m: Metrics, line: string, w: real, p: Piece, limit: nat) {
    && p.from <= p.to <= limit <= |line| && (p.from < p.to || limit == 0) && p.text == line[p.from..p.to]
    && (m.width(p.text) <= w || p.to == p.from + 1)
    && forall q: nat :: p.to < q <= limit ==> m.width(line[p.from..q]) >= w
  }

  /** Whole words whose width without trailing white space fits, and no more words could have been taken. */
  ghost predicate WordPiece(m: Metrics, line: string, w: real, p: Piece) {
    && p.from <= p.to <= |line| && (p.from < p.to || |line| == 0) && IsWrapPoint(m, line, Word, p.to)
    && p.text == (if p.to == |line| then line[p.from..p.to] else Trim(m, line[p.from..p.to]))
    && m.width(Trim(m, line[p.from..p.to])) <= w
    && forall q: nat :: p.to < q <= |line| && IsWrapPoint(m, line, Word, q) ==> m.width(Trim(m, line[p.from..q])) >= w
  }

  /** Between wrap points `a` and `b`, with none between them, lies a word too wide to fit. */
  ghost predicate WideWord(m: Metrics, line: string, w: real, a: nat, b: nat) {
    && a < b <= |line| && IsWrapPoint(m, line, Word, b)
    && (forall q: nat :: a < q < b ==> !IsWrapPoint(m, line, Word, q))
    && m.width(Trim(m, line[a..b])) > w
  }

  ghost predicate BrokenPiece(m: Metrics, line: string, w: real, p: Piece) {
    exists a: nat, b: nat :: WideWord(m, line, w, a, b) && a <= p.from && CharPiece(m, line, w, p, b)
  }

  ghost predicate PieceOk(m: Metrics, line: string, mode: Mode, w: real, p: Piece) {
    if mode.Char? then !p.broken && CharPiece(m, line, w, p, |line|)
    else if p.broken then BrokenPiece(m, line, w, p)
    else WordPiece(m, line, w, p)
  }

  ghost predicate Broken(m: Metrics, line: string, mode: Mode, w: real, lines: seq<Line>, pieces: seq<Piece>,
          end: nat) {
    && |lines| == |pieces| && Covers(pieces, 0, end)
    && (forall k :: 0 <= k < |pieces| ==>
       PieceOk(m, line, mode, w, pieces[k]) && lines[k] == Line(m.width(pieces[k].text), pieces[k].text))
  }

  /** A line that fits, or that cannot be broken further. */
  predicate FitsOrSingle(l: Line, w: real) { l.width <= w || |l.text| == 1 }

  /** A line of whole words is too wide exactly when it ends the text line, and is so with the white space there. */
  lemma WordsOverflowIff(m: Metrics, line: string, w: real, lines: seq<Line>, pieces: seq<Piece>, k: nat)
    requires Broken(m, line, Word, w, lines, pieces, |line|) && k < |lines| && !pieces[k].broken
    ensures pieces[k].from <= |line|
    ensures lines[k].width > w <==> pieces[k].to == |line| && m.width(line[pieces[k].from..]) > w
    ensures m.width(Trim(m, lines[k].text)) <= w && (pieces[k].to == |line| ==> lines[k].text == line[pieces[k].from..])
  {
    var p := pieces[k];
    assert PieceOk(m, line, Word, w, p);
    TrimTwice(m, line[p.from..p.to]);
    assert line[p.from..|line|] == line[p.from..];
  }

  /** Between characters, and inside a word too wide, what is emitted fits or is a single character. */
  lemma CharactersFit(m: Metrics, line: string, mode: Mode, w: real, lines: seq<Line>, pieces: seq<Piece>, k: nat)
    requires Monotone(m) && w >= 0.0 && Broken(m, line, mode, w, lines, pieces, |line|) && k < |lines|
    requires mode.Char? || pieces[k].broken
    ensures FitsOrSingle(lines[k], w)
  {
    assert PieceOk(m, line, mode, w, pieces[k]);
  }

  /** Some line of whole words ends the text line in white space that does not fit. */
  ghost predicate OverflowsAtEnd(m: Metrics, line: string, w: real, pieces: seq<Piece>) {
    exists k :: 0 <= k < |pieces| && EndsTooWide(m, line, w, pieces[k])
  }

  predicate EndsTooWide(m: Metrics, line: string, w: real, p: Piece) {
    !p.broken && p.to == |line| && p.from <= |line| && |line| - p.from != 1 && m.width(line[p.from..]) > w
  }

  /**
   Every emitted line fits or is one character, exactly unless the last words do not fit with the
   white space after them.
   */
  lemma EmittedLinesFitIff(m: Metrics, line: string, mode: Mode, w: real, lines: seq<Line>, pieces: seq<Piece>)
    requires Monotone(m) && w >= 0.0 && Broken(m, line, mode, w, lines, pieces, |line|)
    ensures (forall k :: 0 <= k < |lines| ==> FitsOrSingle(lines[k], w)) <==>
            !(mode.Word? && OverflowsAtEnd(m, line, w, pieces))
  {
    forall k | 0 <= k < |lines|
      ensures FitsOrSingle(lines[k], w) <==> !(mode.Word? && EndsTooWide(m, line, w, pieces[k]))
    {
      if mode.Char? || pieces[k].broken {
        CharactersFit(m, line, mode, w, lines, pieces, k);
      } else {
        WordsOverflowIff(m, line, w, lines, pieces, k);
        assert PieceOk(m, line, mode, w, pieces[k]);
      }
    }
  }

  /** A line without white space at its end always fits. */
  lemma TrimmedLinesFit(m: Metrics, line: string, mode: Mode, w: real, lines: seq<Line>, pieces: seq<Piece>)
    requires Monotone(m) && w >= 0.0 && Broken(m, line, mode, w, lines, pieces, |line|) && Trim(m, line) == line
    ensures forall k :: 0 <= k < |lines| ==> FitsOrSingle(lines[k], w)
  {
    hide PieceOk, Monotone;
    forall k | 0 <= k < |lines| ensures FitsOrSingle(lines[k], w) {
      if mode.Char? || pieces[k].broken {
        CharactersFit(m, line, mode, w, lines, pieces, k);
      } else {
        WordsOverflowIff(m, line, w, lines, pieces, k);
        TrimmedTail(m, line, pieces[k].from);
      }
    }
  }

  lemma {:induction false} TrimmedTail(m: Metrics, line: string, from: nat)
    requires from <= |line| && Trim(m, line) == line
    ensures Trim(m, line[from..]) == line[from..]
  {
    if from < |line| { assert line[from..][|line| - from - 1] == line[|line| - 1]; }
  }

  lemma {:induction false} TrimTwice(m: Metrics, s: string)
    ensures Trim(m, Trim(m, s)) == Trim(m, s)
    decreases |s|
  {
    if s != "" && m.space(s[|s| - 1]) { TrimTwice(m, s[..|s| - 1]); }
  }

  // ---------------------------------------------------------------- nothing is lost

  function Concat(texts: seq<string>): string {
    if texts == [] then "" else Concat(texts[..|texts| - 1]) + texts[|texts| - 1]
  }

  function Texts(lines: seq<Line>): (r: seq<string>)
    ensures |r| == |lines| && forall k :: 0 <= k < |r| ==> r[k] == lines[k].text
  {
    seq(|lines|, k requires 0 <= k < |lines| => lines[k].text)
  }

  lemma PieceKeepsNonSpaces(m: Metrics, line: string, mode: Mode, w: real, p: Piece)
    requires PieceOk(m, line, mode, w, p)
    ensures p.from <= p.to <= |line| && NonSpaces(m, p.text) == NonSpaces(m, line[p.from..p.to])
  {
    if mode.Word? && !p.broken { TrimKeepsNonSpaces(m, line[p.from..p.to]); }
  }

  lemma NoSpacesInNothing(m: Metrics)
    ensures NonSpaces(m, "") == ""
  {
  }

  lemma {:induction false} NoCharacterLost(m: Metrics, line: string, mode: Mode, w: real, lines: seq<Line>,
          pieces: seq<Piece>, end: nat)
    requires Broken(m, line, mode, w, lines, pieces, end) && end <= |line|
    ensures NonSpaces(m, Concat(Texts(lines))) == NonSpaces(m, line[..end])
    decreases |lines|
  {
    hide PieceOk, NonSpaces;
    if lines == [] {
      assert line[..0] == "" && NonSpaces(m, "") == "" by { NoSpacesInNothing(m); }
    } else {
      var n := |lines| - 1;
      var p := pieces[n];
      assert PieceOk(m, line, mode, w, p);
      PieceKeepsNonSpaces(m, line, mode, w, p);
      NoCharacterLost(m, line, mode, w, lines[..n], pieces[..n], p.from);
      assert Texts(lines)[..n] == Texts(lines[..n]);
      NonSpacesAppend(m, Concat(Texts(lines[..n])), p.text);
      NonSpacesAppend(m, line[..p.from], line[p.from..p.to]);
      assert line[..end] == line[..p.from] + line[p.from..p.to];
    }
  }

  // ---------------------------------------------------------------- breaking

  datatype Search = Found(index: nat) | Missing(index: nat)

  /** The width the search compares: from `start` to wrap point number `j`. */
  ghost function WidthTo(m: Metrics, line: string, mode: Mode, points: seq<nat>, start: nat, j: nat): real
    requires j < |points| && start <= points[j] <= |line|
  {
    m.width(TrimFor(m, mode, line[start..points[j]]))
  }

  /** `binary_search_by` on the wrap points from number `first` on. */
  method SearchWidths(m: Metrics, line: string, mode: Mode, w: real, points: seq<nat>, start: nat, first: nat)
          returns (r: Search)
    requires Monotone(m) && Increasing(points) && first < |points|
    requires forall j :: first <= j < |points| ==> start <= points[j] <= |line|
    ensures first <= r.index <= |points| &&
            (r.Found? ==> r.index < |points| && WidthTo(m, line, mode, points, start, r.index) == w)
    ensures r.Missing? ==> forall j :: first <= j < |points| ==>
              if j < r.index then WidthTo(m, line, mode, points, start, j) < w
                else WidthTo(m, line, mode, points, start, j) > w
  {
    hide Monotone, Increasing;
    var lo, hi := first, |points|;
    while lo < hi
      invariant first <= lo <= hi <= |points|
      invariant forall j :: first <= j < lo ==> WidthTo(m, line, mode, points, start, j) < w
      invariant forall j :: hi <= j < |points| ==> WidthTo(m, line, mode, points, start, j) > w
    {
      var mid := (lo + hi) / 2;
      assert start <= points[mid] <= |line|;
      var width := m.width(TrimFor(m, mode, line[start..points[mid]]));
      if width == w { return Found(mid); }
      if width < w {
        forall j | first <= j <= mid ensures WidthTo(m, line, mode, points, start, j) < w {
          WidthsGrow(m, line, mode, points, start, j, mid);
        }
        lo := mid + 1;
      } else {
        forall j | mid <= j < |points| ensures WidthTo(m, line, mode, points, start, j) > w {
          WidthsGrow(m, line, mode, points, start, mid, j);
        }
        hi := mid;
      }
    }
    return Missing(lo);
  }

  lemma WidthsGrow(m: Metrics, line: string, mode: Mode, points: seq<nat>, start: nat, j: nat, k: nat)
    requires Monotone(m) && Increasing(points) && j <= k < |points|
    requires start <= points[j] <= |line| && start <= points[k] <= |line|
    ensures WidthTo(m, line, mode, points, start, j) <= WidthTo(m, line, mode, points, start, k)
  {
    assert points[j] <= points[k];
    assert line[start..points[j]] == line[start..points[k]][..points[j] - start];
    WidthOfPrefix(m, mode, line[start..points[j]], line[start..points[k]]);
  }

  /** The lines of a text: between newlines, without a carriage return before one. */
  function Lines(s: string): seq<string>
    decreases |s|
  {
    if s == "" then []
    else
      var i := NewlineIn(s);
      if i == |s| then [s] else [WithoutCr(s[..i])] + Lines(s[i + 1..])
  }

  function NewlineIn(s: string): (i: nat)
    ensures i <= |s| && '\n' !in s[..i] && (i < |s| ==> s[i] == '\n')
  {
    if s == "" || s[0] == '\n' then 0
    else
      var i := NewlineIn(s[1..]);
      assert s[..i + 1] == [s[0]] + s[1..][..i];
      i + 1
  }

  function WithoutCr(s: string): string {
    if s != "" && s[|s| - 1] == '\r' then s[..|s| - 1] else s
  }

  /** The wrap points still to come, `next` being the first, after the line start. */
  ghost predicate Ahead(points: seq<nat>, next: nat, start: nat, size: nat) {
    && next <= |points| && (forall j :: next <= j < |points| ==> start <= points[j] <= size)
    && (forall j :: 0 <= j < next ==> points[j] <= start)
    && (start == if next == 0 then 0 else points[next - 1])
  }

  ghost predicate ArePoints(m: Metrics, line: string, mode: Mode, points: seq<nat>) {
    && Increasing(points) && (forall i: nat :: i in points <==> IsWrapPoint(m, line, mode, i) && i <= |line|)
    && points != [] && points[|points| - 1] == |line|
  }

  function EmittedText(m: Metrics, line: string, mode: Mode, start: nat, end: nat): string
    requires start <= end <= |line|
  {
    if end != |line| then TrimFor(m, mode, line[start..end]) else line[start..end]
  }

  lemma NothingIsNarrow(m: Metrics, w: real)
    requires Monotone(m) && w >= 0.0
    ensures m.width("") <= w
  {
  }

  /**
   What the search says about the point chosen: it fits, or is the first in character mode, and
   later ones are no narrower than `w`.
   */
  ghost predicate WellChosen(m: Metrics, line: string, mode: Mode, w: real, points: seq<nat>, start: nat, next: nat,
          chosen: nat)
    requires next <= chosen < |points| && forall j :: next <= j < |points| ==> start <= points[j] <= |line|
  {
    && (WidthTo(m, line, mode, points, start, chosen) <= w || (mode.Char? && chosen == next))
    && (forall j :: chosen < j < |points| ==> WidthTo(m, line, mode, points, start, j) >= w)
  }

  lemma SearchChoosesWell(m: Metrics, line: string, mode: Mode, w: real, points: seq<nat>, start: nat, next: nat,
          r: Search, chosen: nat)
    requires Monotone(m) && Increasing(points) && next <= chosen < |points|
    requires forall j :: next <= j < |points| ==> start <= points[j] <= |line|
    requires r.Found? ==> r.index == chosen && WidthTo(m, line, mode, points, start, chosen) == w
    requires r.Missing? ==>
               && (r.index == chosen + 1 || (r.index == chosen == next && mode.Char?))
               && forall j :: next <= j < |points| ==>
                    if j < r.index then WidthTo(m, line, mode, points, start, j) < w
                      else WidthTo(m, line, mode, points, start, j) > w
    ensures WellChosen(m, line, mode, w, points, start, next, chosen)
  {
    hide WidthTo, Monotone;
    if r.Found? {
      forall j | chosen < j < |points| ensures WidthTo(m, line, mode, points, start, j) >= w {
        WidthsGrow(m, line, mode, points, start, chosen, j);
      }
    }
  }

  lemma LaterWrapPoint(m: Metrics, line: string, mode: Mode, w: real, points: seq<nat>, start: nat, next: nat,
          chosen: nat, q: nat)
    requires ArePoints(m, line, mode, points) && next <= chosen < |points|
    requires forall j :: next <= j < |points| ==> start <= points[j] <= |line|
    requires WellChosen(m, line, mode, w, points, start, next, chosen)
    requires points[chosen] < q <= |line| && IsWrapPoint(m, line, mode, q)
    ensures m.width(TrimFor(m, mode, line[start..q])) >= w
  {
    assert q in points;
    var j :| 0 <= j < |points| && points[j] == q;
    assert j > chosen;
    assert WidthTo(m, line, mode, points, start, j) >= w;
  }

  /** The piece that ends at the last wrap point not too wide for it, or at the first one in character mode. */
  lemma ChosenPiece(m: Metrics, line: string, mode: Mode, w: real, points: seq<nat>, start: nat, next: nat, chosen: nat)
    requires ArePoints(m, line, mode, points) && Ahead(points, next, start, |line|) && next <= chosen < |points|
    requires WellChosen(m, line, mode, w, points, start, next, chosen) && m.width("") <= w
    ensures PieceOk(m, line, mode, w,
            Piece(start, points[chosen], EmittedText(m, line, mode, start, points[chosen]), false))
  {
    var end := points[chosen];
    assert end in points;
    forall q: nat | end < q <= |line| && IsWrapPoint(m, line, mode, q)
      ensures m.width(TrimFor(m, mode, line[start..q])) >= w
    {
      LaterWrapPoint(m, line, mode, w, points, start, next, chosen, q);
    }
    AdvancesToPoint(m, line, mode, points, start, next, chosen);
    if mode.Char? {
      CharPoints(m, line, points, start, next, chosen);
      CharChosen(m, line, w, start, end, Piece(start, end, line[start..end], false));
    }
  }

  lemma CharChosen(m: Metrics, line: string, w: real, start: nat, end: nat, p: Piece)
    requires start <= end <= |line| && (start < end || |line| == 0) && p == Piece(start, end, line[start..end], false)
    requires m.width(line[start..end]) <= w || |line| == 0 || end == start + 1
    requires |line| == 0 ==> m.width("") <= w
    requires forall q: nat :: end < q <= |line| && IsWrapPoint(m, line, Char, q) ==>
             m.width(TrimFor(m, Char, line[start..q])) >= w
    ensures CharPiece(m, line, w, p, |line|)
  {
    forall q: nat | end < q <= |line| ensures m.width(line[start..q]) >= w {
      assert IsWrapPoint(m, line, Char, q);
    }
    if |line| == 0 { assert line[start..end] == ""; }
  }

  lemma AdvancesToPoint(m: Metrics, line: string, mode: Mode, points: seq<nat>, start: nat, next: nat, chosen: nat)
    requires ArePoints(m, line, mode, points) && Ahead(points, next, start, |line|) && next <= chosen < |points|
    ensures start < points[chosen] || |line| == 0
  {
    if next > 0 { assert points[next - 1] < points[chosen]; } else { assert points[chosen] in points; }
  }

  /** In character mode the wrap points are consecutive, so the first one ahead is one character away. */
  lemma CharPoints(m: Metrics, line: string, points: seq<nat>, start: nat, next: nat, chosen: nat)
    requires ArePoints(m, line, Char, points) && Ahead(points, next, start, |line|) && next <= chosen < |points|
    ensures (start < points[chosen] || |line| == 0) && (chosen == next && |line| > 0 ==> points[chosen] == start + 1)
  {
    if |line| > 0 {
      assert points[chosen] in points;
      if start < |line| {
        assert start + 1 in points;
        var j :| 0 <= j < |points| && points[j] == start + 1;
        assert j >= next;
      }
      if next > 0 { assert points[next - 1] < points[next]; } else { assert points[0] in points; }
    }
  }

  function Shift(pieces: seq<Piece>, offset: nat): seq<Piece> {
    seq(|pieces|, k requires 0 <= k < |pieces| =>
      Piece(pieces[k].from + offset, pieces[k].to + offset, pieces[k].text, true))
  }

  lemma {:induction false} CoversShifted(pieces: seq<Piece>, a: nat, b: nat, offset: nat)
    requires Covers(pieces, a, b)
    ensures Covers(Shift(pieces, offset), a + offset, b + offset)
    decreases |pieces|
  {
    if pieces != [] {
      var init := pieces[..|pieces| - 1];
      CoversShifted(init, a, pieces[|pieces| - 1].from, offset);
      assert Shift(pieces, offset)[..|pieces| - 1] == Shift(init, offset);
    }
  }

  lemma {:induction false} CoversAppend(p: seq<Piece>, q: seq<Piece>, a: nat, b: nat, c: nat)
    requires Covers(p, a, b) && Covers(q, b, c)
    ensures Covers(p + q, a, c)
    decreases |q|
  {
    if q == [] {
      assert p + q == p;
    } else {
      CoversAppend(p, q[..|q| - 1], a, b, q[|q| - 1].from);
      assert (p + q)[..|p + q| - 1] == p + q[..|q| - 1];
    }
  }

  lemma AppendPiece(m: Metrics, line: string, mode: Mode, w: real, lines: seq<Line>, pieces: seq<Piece>, p: Piece)
    requires Broken(m, line, mode, w, lines, pieces, p.from) && PieceOk(m, line, mode, w, p) && p.from <= p.to
    ensures Broken(m, line, mode, w, lines + [Line(m.width(p.text), p.text)], pieces + [p], p.to)
  {
    hide PieceOk;
    assert (pieces + [p])[..|pieces|] == pieces;
  }

  lemma SliceOfSlice(s: string, a: nat, b: nat, i: nat, j: nat)
    requires a <= b <= |s| && i <= j <= b - a
    ensures s[a..b][i..j] == s[a + i..a + j]
  {
    var x, y := s[a..b][i..j], s[a + i..a + j];
    forall k | 0 <= k < j - i ensures x[k] == y[k] {
      assert x[k] == s[a..b][i + k] == s[a + (i + k)];
    }
    assert |x| == |y| == j - i;
  }

  /** The characters of a word too wide for a line, broken by themselves, are pieces of the line. */
  lemma BrokenWord(m: Metrics, line: string, w: real, start: nat, end: nat, p: Piece)
    requires WideWord(m, line, w, start, end) && PieceOk(m, line[start..end], Char, w, p)
    ensures PieceOk(m, line, Word, w, Piece(p.from + start, p.to + start, p.text, true))
  {
    var word := line[start..end];
    var q := Piece(p.from + start, p.to + start, p.text, true);
    forall j: nat | q.to < j <= end ensures m.width(line[q.from..j]) >= w {
      SliceOfSlice(line, start, end, p.from, j - start);
    }
    SliceOfSlice(line, start, end, p.from, p.to);
    assert CharPiece(m, line, w, q, end);
  }

  lemma AppendWord(m: Metrics, line: string, w: real, lines: seq<Line>, pieces: seq<Piece>, start: nat, end: nat,
                   wordLines: seq<Line>, wordPieces: seq<Piece>)
    requires Broken(m, line, Word, w, lines, pieces, start) && WideWord(m, line, w, start, end)
    requires Broken(m, line[start..end], Char, w, wordLines, wordPieces, end - start)
    ensures Broken(m, line, Word, w, lines + wordLines, pieces + Shift(wordPieces, start), end)
  {
    hide PieceOk;
    CoversShifted(wordPieces, 0, end - start, start);
    CoversAppend(pieces, Shift(wordPieces, start), 0, start, end);
    forall k | 0 <= k < |wordPieces| ensures PieceOk(m, line, Word, w, Shift(wordPieces, start)[k]) {
      BrokenWord(m, line, w, start, end, wordPieces[k]);
    }
  }

  /** When even the first word ahead does not fit, it is a word too wide. */
  lemma NothingFits(m: Metrics, line: string, w: real, points: seq<nat>, start: nat, next: nat)
    requires Monotone(m) && w >= 0.0 && ArePoints(m, line, Word, points) && Ahead(points, next, start, |line|) &&
             next < |points|
    requires WidthTo(m, line, Word, points, start, next) > w
    ensures WideWord(m, line, w, start, points[next])
  {
    assert line[start..start] == "" && Trim(m, "") == "";
    assert points[next] in points;
    forall q: nat | start < q < points[next] ensures !IsWrapPoint(m, line, Word, q) {
      NoPointBetween(points, next, start, |line|, q);
    }
  }

  lemma NoPointBetween(points: seq<nat>, next: nat, start: nat, size: nat, q: nat)
    requires Increasing(points) && Ahead(points, next, start, size) && next < |points| && start < q < points[next]
    ensures q !in points
  {
    forall j | 0 <= j < |points| ensures points[j] != q {
      if j > next { assert points[next] < points[j]; }
    }
  }

  lemma AheadMoves(points: seq<nat>, next: nat, start: nat, size: nat, chosen: nat)
    requires Increasing(points) && Ahead(points, next, start, size) && next <= chosen < |points|
    ensures Ahead(points, chosen + 1, points[chosen], size)
  {
  }

  lemma OneLine(s: string)
    requires s != "" && '\n' !in s
    ensures Lines(s) == [s]
  {
    assert forall k :: 0 <= k < |s| ==> s[k] in s;
  }

  /** One line without newlines. A word too wide to fit is broken between characters by a recursive call. */
  method BreakLine(m: Metrics, line: string, mode: Mode, w: real) returns (lines: seq<Line>, ghost pieces: seq<Piece>)
    requires Monotone(m) && w >= 0.0 && '\n' !in line
    ensures Broken(m, line, mode, w, lines, pieces, |line|)
    decreases if mode.Word? then 1 else 0, 0
  {
    hide PieceOk, Broken, Monotone, WidthTo, WideWord, IsWrapPoint;
    var points := FindWrapPoints(m, line, mode);
    assert forall j :: 0 <= j < |points| ==> points[j] in points && points[j] <= |line|;
    lines, pieces := [], [];
    var next: nat, lineStart: nat := 0, 0;
    NothingYet(m, line, mode, w);
    while next < |points|
      invariant Ahead(points, next, lineStart, |line|) && Broken(m, line, mode, w, lines, pieces, lineStart)
    {
      assert lineStart <= points[next] <= |line|;
      var found := SearchWidths(m, line, mode, w, points, lineStart, next);
      var chosen := next;
      if found.Found? {
        chosen := found.index;
      } else if found.index > next {
        chosen := found.index - 1;
      } else if mode.Word? {
        var wordEnd := points[next];
        NothingFits(m, line, w, points, lineStart, next);
        WideWordIsText(m, line, w, lineStart, wordEnd);
        var word := line[lineStart..wordEnd];
        OneLine(word);
        ghost var parts, wordPieces;
        var brokenWords;
        brokenWords, parts, wordPieces := BreakLines(m, word, Some((w, Char)));
        assert Flatten(parts) == parts[0] by { FlattenOne(parts); }
        AppendWord(m, line, w, lines, pieces, lineStart, wordEnd, brokenWords, wordPieces[0]);
        lines := lines + brokenWords;
        pieces := pieces + Shift(wordPieces[0], lineStart);
        AheadMoves(points, next, lineStart, |line|, next);
        next := next + 1;
        lineStart := wordEnd;
        continue;
      }
      SearchChoosesWell(m, line, mode, w, points, lineStart, next, found, chosen);
      NothingIsNarrow(m, w);
      ChosenPiece(m, line, mode, w, points, lineStart, next, chosen);
      var lineEnd := points[chosen];
      var trimmed := EmittedText(m, line, mode, lineStart, lineEnd);
      AppendPiece(m, line, mode, w, lines, pieces, Piece(lineStart, lineEnd, trimmed, false));
      lines := lines + [Line(m.width(trimmed), trimmed)];
      pieces := pieces + [Piece(lineStart, lineEnd, trimmed, false)];
      AheadMoves(points, next, lineStart, |line|, chosen);
      next := chosen + 1;
      lineStart := lineEnd;
    }
  }

  lemma NothingYet(m: Metrics, line: string, mode: Mode, w: real)
    ensures Broken(m, line, mode, w, [], [], 0)
  {
  }

  lemma WideWordIsText(m: Metrics, line: string, w: real, a: nat, b: nat)
    requires WideWord(m, line, w, a, b)
    ensures a < b <= |line| && line[a..b] != "" && ('\n' !in line ==> '\n' !in line[a..b])
  {
  }

  function Flatten(parts: seq<seq<Line>>): seq<Line> {
    if parts == [] then [] else Flatten(parts[..|parts| - 1]) + parts[|parts| - 1]
  }

  lemma FlattenOne(parts: seq<seq<Line>>)
    requires |parts| == 1
    ensures Flatten(parts) == parts[0]
  {
    assert Flatten(parts[..0]) == [];
  }

  /** How the lines `parts` made of one line of the text come about. */
  ghost predicate LineBroken(m: Metrics, line: string, wrap: Option<(real, Mode)>, parts: seq<Line>,
          pieces: seq<Piece>) {
    match wrap
    case None => parts == [Line(m.width(line), line)]
    case Some((w, mode)) => Broken(m, line, mode, w, parts, pieces, |line|)
  }

  lemma {:induction false} LinesHaveNoNewlines(s: string, k: nat)
    requires k < |Lines(s)|
    ensures '\n' !in Lines(s)[k]
    decreases |s|
  {
    var i := NewlineIn(s);
    if i == |s| {
      assert s[..i] == s;
    } else if k > 0 {
      LinesHaveNoNewlines(s[i + 1..], k - 1);
    }
  }

  /** `break_lines` */
  method BreakLines(m: Metrics, text: string, wrap: Option<(real, Mode)>)
    returns (lines: seq<Line>, ghost parts: seq<seq<Line>>, ghost pieces: seq<seq<Piece>>)
    requires Monotone(m) && (wrap.Some? ==> wrap.value.0 >= 0.0)
    ensures lines == Flatten(parts) && |parts| == |pieces| == |Lines(text)|
    ensures forall k :: 0 <= k < |parts| ==> LineBroken(m, Lines(text)[k], wrap, parts[k], pieces[k])
    decreases if wrap.Some? && wrap.value.1.Word? then 1 else 0, 1
  {
    hide Broken, Monotone;
    lines, parts, pieces := [], [], [];
    var each := Lines(text);
    for k := 0 to |each|
      invariant lines == Flatten(parts) && |parts| == |pieces| == k
      invariant forall j :: 0 <= j < k ==> LineBroken(m, each[j], wrap, parts[j], pieces[j])
    {
      LinesHaveNoNewlines(text, k);
      var made: seq<Line>;
      ghost var madePieces: seq<Piece> := [];
      if wrap.None? {
        made := [Line(m.width(each[k]), each[k])];
      } else {
        made, madePieces := BreakLine(m, each[k], wrap.value.1, wrap.value.0);
      }
      assert (parts + [made])[..|parts|] == parts;
      lines, parts, pieces := lines + made, parts + [made], pieces + [madePieces];
    }
  }

  // ---------------------------------------------------------------- whole texts

  lemma {:induction false} ConcatAppends(a: seq<string>, b: seq<string>)
    ensures Concat(a + b) == Concat(a) + Concat(b)
    decreases |b|
  {
    if b == [] {
      assert a + b == a;
    } else {
      assert (a + b)[..|a + b| - 1] == a + b[..|b| - 1];
      ConcatAppends(a, b[..|b| - 1]);
    }
  }

  lemma ConcatOne(s: string)
    ensures Concat([s]) == s
  {
    assert [s][..0] == [];
    assert Concat([s][..0]) == "";
  }

  lemma NonSpacesOfSpace(m: Metrics, c: char)
    requires m.space(c)
    ensures NonSpaces(m, [c]) == ""
  {
    assert [c][..0] == "";
  }

  /** Splitting into lines drops nothing but line ends. */
  lemma {:induction false} LinesKeepNonSpaces(m: Metrics, s: string)
    requires m.space('\n') && m.space('\r')
    ensures NonSpaces(m, Concat(Lines(s))) == NonSpaces(m, s)
    decreases |s|
  {
    hide NonSpaces, Concat, WithoutCr;
    var i := NewlineIn(s);
    if s == "" {
      assert Concat([]) == "" by { ConcatNone(); }
    } else if i == |s| {
      ConcatOne(s);
    } else {
      var first, rest := WithoutCr(s[..i]), s[i + 1..];
      LinesKeepNonSpaces(m, rest);
      ConcatAppends([first], Lines(rest));
      ConcatOne(first);
      NonSpacesAppend(m, first, Concat(Lines(rest)));
      CrIsSpace(m, s[..i]);
      LineEndIsSpace(m, s[..i], rest);
      assert s == s[..i] + (['\n'] + rest);
    }
  }

  lemma ConcatNone()
    ensures Concat([]) == ""
  {
  }

  lemma LineEndIsSpace(m: Metrics, a: string, b: string)
    requires m.space('\n')
    ensures NonSpaces(m, a + (['\n'] + b)) == NonSpaces(m, a) + NonSpaces(m, b)
  {
    NonSpacesOfSpace(m, '\n');
    NonSpacesAppend(m, a, ['\n'] + b);
    NonSpacesAppend(m, ['\n'], b);
  }

  lemma CrIsSpace(m: Metrics, s: string)
    requires m.space('\r')
    ensures NonSpaces(m, WithoutCr(s)) == NonSpaces(m, s)
  {
  }

  lemma {:induction false} PartsKeepNonSpaces(m: Metrics, each: seq<string>, wrap: Option<(real, Mode)>,
                                              parts: seq<seq<Line>>, pieces: seq<seq<Piece>>)
    requires |parts| == |pieces| == |each|
    requires forall k :: 0 <= k < |parts| ==> LineBroken(m, each[k], wrap, parts[k], pieces[k])
    ensures NonSpaces(m, Concat(Texts(Flatten(parts)))) == NonSpaces(m, Concat(each))
    decreases |parts|
  {
    hide LineBroken;
    if parts != [] {
      var n := |parts| - 1;
      PartsKeepNonSpaces(m, each[..n], wrap, parts[..n], pieces[..n]);
      LineKeepsNonSpaces(m, each[n], wrap, parts[n], pieces[n]);
      assert Texts(Flatten(parts)) == Texts(Flatten(parts[..n])) + Texts(parts[n]);
      ConcatAppends(Texts(Flatten(parts[..n])), Texts(parts[n]));
      NonSpacesAppend(m, Concat(Texts(Flatten(parts[..n]))), Concat(Texts(parts[n])));
      NonSpacesAppend(m, Concat(each[..n]), each[n]);
    }
  }

  lemma LineKeepsNonSpaces(m: Metrics, line: string, wrap: Option<(real, Mode)>, part: seq<Line>, pieces: seq<Piece>)
    requires LineBroken(m, line, wrap, part, pieces)
    ensures NonSpaces(m, Concat(Texts(part))) == NonSpaces(m, line)
  {
    match wrap
    case None =>
      assert Texts(part) == [line];
      ConcatOne(line);
    case Some((w, mode)) =>
      NoCharacterLost(m, line, mode, w, part, pieces, |line|);
      assert line[..|line|] == line;
  }

  /** However a text is broken, no other character than white space is lost, duplicated or moved. */
  lemma NothingLostInText(m: Metrics, text: string, wrap: Option<(real, Mode)>, parts: seq<seq<Line>>,
          pieces: seq<seq<Piece>>)
    requires m.space('\n') && m.space('\r') && |parts| == |pieces| == |Lines(text)|
    requires forall k :: 0 <= k < |parts| ==> LineBroken(m, Lines(text)[k], wrap, parts[k], pieces[k])
    ensures NonSpaces(m, Concat(Texts(Flatten(parts)))) == NonSpaces(m, text)
  {
    PartsKeepNonSpaces(m, Lines(text), wrap, parts, pieces);
    LinesKeepNonSpaces(m, text);
  }

  /** Widths counted in characters, and the space as the only white space. */
  const COUNTING: Metrics := Metrics((s: string) => |s| as real, (c: char) => c == ' ')

  /** Pieces join up. */
  lemma {:induction false} CoversLinks(pieces: seq<Piece>, a: nat, b: nat)
    requires Covers(pieces, a, b)
    ensures forall k :: 0 <= k < |pieces| - 1 ==> pieces[k].to == pieces[k + 1].from
    ensures pieces != [] ==> pieces[0].from == a && pieces[|pieces| - 1].to == b
    ensures |pieces| > 1 ==> pieces[1].from == pieces[0].to
    decreases |pieces|
  {
    if |pieces| > 1 {
      var init := pieces[..|pieces| - 1];
      CoversLinks(init, a, pieces[|pieces| - 1].from);
      assert init[|init| - 1] == pieces[|pieces| - 2] && forall k :: 0 <= k < |init| ==> init[k] == pieces[k];
    } else if pieces != [] {
      assert pieces[..0] == [];
    }
  }

  /** A line that fits, but not with the white space at its end, is emitted whole, and too wide. */
  lemma TrailingSpaceOverflows(m: Metrics, line: string, w: real, lines: seq<Line>, pieces: seq<Piece>)
    requires Monotone(m) && w >= 0.0 && Broken(m, line, Word, w, lines, pieces, |line|)
    requires m.width(Trim(m, line)) < w < m.width(line)
    ensures lines == [Line(m.width(line), line)]
  {
    hide PieceOk, Monotone;
    WideIsNotEmpty(m, line, w);
    CoversLinks(pieces, 0, |line|);
    assert line[0..|line|] == line;
    forall k | 0 <= k < |pieces| ensures pieces[k].from < |line| { StartsInside(m, line, w, pieces[k]); }
    FirstReachesEnd(m, line, w, pieces[0]);
    assert |lines| == 1 && lines[0] == Line(m.width(line), line);
  }

  lemma WideIsNotEmpty(m: Metrics, line: string, w: real)
    requires Monotone(m) && w >= 0.0 && m.width(line) > w
    ensures line != ""
  {
  }

  lemma StartsInside(m: Metrics, line: string, w: real, p: Piece)
    requires line != "" && PieceOk(m, line, Word, w, p)
    ensures p.from < |line|
  {
  }

  lemma {:induction false} FirstReachesEnd(m: Metrics, line: string, w: real, p: Piece)
    requires Monotone(m) && w >= 0.0 && PieceOk(m, line, Word, w, p) && p.from == 0 && line != "" &&
             m.width(Trim(m, line)) < w
    ensures !p.broken && p.to == |line| && p.text == line
  {
    hide CharPiece;
    assert line[0..|line|] == line;
    if p.broken {
      var a: nat, b: nat :| WideWord(m, line, w, a, b) && a <= p.from && CharPiece(m, line, w, p, b);
      TrimOfPrefix(m, line[0..b], line);
      assert false;
    }
    assert IsWrapPoint(m, line, Word, |line|);
  }

  /** Broken to width `w`, the line always yields one that is too wide. */
  ghost predicate Overflows(m: Metrics, line: string, w: real) {
    w >= 0.0 && forall lines: seq<Line>, pieces: seq<Piece> :: Broken(m, line, Word, w, lines, pieces, |line|) ==>
                  exists k :: 0 <= k < |lines| && !FitsOrSingle(lines[k], w)
  }

  /** Broken to width `w`, the line never yields one that is too wide. */
  ghost predicate AllFit(m: Metrics, line: string, w: real) {
    forall lines: seq<Line>, pieces: seq<Piece> :: Broken(m, line, Word, w, lines, pieces, |line|) ==>
      forall k :: 0 <= k < |lines| ==> FitsOrSingle(lines[k], w)
  }

  /**
   What a caller can tell from the line alone: if trimming makes it narrower there is a width for
   which it overflows, and if there is nothing to trim there is none.
   */
  lemma OverflowsForSomeWidth(m: Metrics, line: string)
    requires Monotone(m)
    ensures |line| > 1 && m.width(Trim(m, line)) < m.width(line) ==> exists w: real :: Overflows(m, line, w)
    ensures Trim(m, line) == line ==> forall w: real :: w >= 0.0 ==> AllFit(m, line, w)
  {
    hide Broken, Monotone;
    if |line| > 1 && m.width(Trim(m, line)) < m.width(line) {
      var w := (m.width(Trim(m, line)) + m.width(line)) / 2.0;
      WidthsAreNotNegative(m, Trim(m, line));
      assert Overflows(m, line, w) by {
        forall lines: seq<Line>, pieces: seq<Piece> | Broken(m, line, Word, w, lines, pieces, |line|)
          ensures exists k :: 0 <= k < |lines| && !FitsOrSingle(lines[k], w)
        {
          TrailingSpaceOverflows(m, line, w, lines, pieces);
          assert !FitsOrSingle(lines[0], w);
        }
      }
    }
    if Trim(m, line) == line {
      forall w: real | w >= 0.0 ensures AllFit(m, line, w) {
        forall lines: seq<Line>, pieces: seq<Piece> | Broken(m, line, Word, w, lines, pieces, |line|)
          ensures forall k :: 0 <= k < |lines| ==> FitsOrSingle(lines[k], w)
        {
          TrimmedLinesFit(m, line, Word, w, lines, pieces);
        }
      }
    }
  }

  lemma WidthsAreNotNegative(m: Metrics, s: string)
    requires Monotone(m)
    ensures m.width(s) >= 0.0
  {
    assert "" <= s;
  }

  /** "a" and two spaces, in a width of two. */
  method BreakWithTrailingSpace() returns (lines: seq<Line>)
    ensures lines == [Line(3.0, "a  ")]
  {
    var line := "a  ";
    ghost var pieces;
    lines, pieces := BreakLine(COUNTING, line, Word, 2.0);
    assert Trim(COUNTING, line) == "a" by {
      assert line[..2] == "a " && "a "[..1] == "a";
      assert Trim(COUNTING, "a ") == "a";
    }
    TrailingSpaceOverflows(COUNTING, line, 2.0, lines, pieces);
  }
}
