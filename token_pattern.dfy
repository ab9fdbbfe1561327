/** The README start marker of bin/update-readmes.js,
      TOKEN_PATTERN = /<!-- START TOKEN\((.+?(?:\|(.+?))?)\) -->/g
    read the way a backtracking regular-expression engine reads it, and
    `String.prototype.matchAll` over it.

    At a start position the engine needs the literal `<!-- START TOKEN(`.
    The body `.+?` is lazy: it takes one character, then two, and so on.
    After each length it first tries the optional group (a `|`, then a lazy
    path `.+?`, then `) -->`) and only then `) -->` straight away.
    `.` never takes a line terminator. Capture 1, the token, is the whole
    body; capture 2, the path, is the text of the group when it was taken. */
module TokenPattern {
  import opened Wrappers
  import opened Text

  const Open: string := "<!-- START TOKEN("
  const Close: string := ") -->"

  /** Where a matched body ends (the position of its `) -->`), and the
      position of the `|` before its path when the optional group took part. */
  datatype Body = Body(end: nat, bar: Option<nat>)

  /** One result of `matchAll`: the span text[start..end] of the whole
      marker, capture 1 and capture 2. */
  datatype Match = Match(start: nat, end: nat, token: string, path: Option<string>)

  // ---------------------------------------------------------------------
  // The engine, in the order the engine tries things.

  /** A lazy `.+?` that has taken text[..e] and now looks for `) -->`:
      try the close, else take one more character if it is not a line
      terminator. Gives the position of the close. */
  function LazyCloseFrom(text: string, e: nat): Option<nat>
    decreases |text| - e
  {
    if LiteralAt(text, e, Close) then Some(e)
    else if e < |text| && !IsLineTerminator(text[e]) then LazyCloseFrom(text, e + 1)
    else None
  }

  /** `(.+?)\) -->` starting at position p. */
  function LazyClose(text: string, p: nat): Option<nat> {
    if p < |text| && !IsLineTerminator(text[p]) then LazyCloseFrom(text, p + 1) else None
  }

  /** The body `.+?` has taken text[b..q]: first the optional group
      `\|(.+?)` followed by `\) -->`, then `\) -->` alone, then one more
      character. */
  function BodyFrom(text: string, q: nat): Option<Body>
    decreases |text| - q
  {
    if q < |text| && text[q] == '|' && LazyClose(text, q + 1).Some? then
      Some(Body(LazyClose(text, q + 1).value, Some(q)))
    else if LiteralAt(text, q, Close) then Some(Body(q, None))
    else if q < |text| && !IsLineTerminator(text[q]) then BodyFrom(text, q + 1)
    else None
  }

  /** The body and the close, starting at position b. */
  function BodyAt(text: string, b: nat): Option<Body> {
    if b < |text| && !IsLineTerminator(text[b]) then BodyFrom(text, b + 1) else None
  }

  /** The whole pattern tried at position i. */
  function MatchAt(text: string, i: nat): (r: Option<Match>)
    ensures r.Some? ==> r.value.start == i && i < r.value.end <= |text|
  {
    if !LiteralAt(text, i, Open) then None
    else
      var b := i + |Open|;
      BodyAtShape(text, b);
      match BodyAt(text, b)
      case None => None
      case Some(body) =>
        var path := if body.bar.Some? then Some(text[body.bar.value + 1..body.end]) else None;
        Some(Match(i, body.end + |Close|, text[b..body.end], path))
  }

  /** `matchAll` from position i: try the pattern at each position in turn;
      after a match, resume at its end. */
  function Matches(text: string, i: nat): seq<Match>
    decreases |text| - i
  {
    if i >= |text| then []
    else
      match MatchAt(text, i)
      case Some(m) => [m] + Matches(text, m.end)
      case None => Matches(text, i + 1)
  }

  // ---------------------------------------------------------------------
  // What the engine is meant to find, stated without the search.

  /** text[lo..hi] holds no line terminator. */
  ghost predicate NoBreak(text: string, lo: nat, hi: nat) {
    lo <= hi <= |text| && forall k :: lo <= k < hi ==> !IsLineTerminator(text[k])
  }

  /** A way to finish the body at b: `.+?` takes text[b..q], the group is
      skipped and `) -->` follows at q. */
  ghost predicate SkipAt(text: string, b: nat, q: nat) {
    b < q && NoBreak(text, b, q) && LiteralAt(text, q, Close)
  }

  /** A way to finish the body at b: `.+?` takes text[b..q], then `|`, then
      the path text[q + 1..e], then `) -->` at e. */
  ghost predicate GroupAt(text: string, b: nat, q: nat, e: nat) {
    b < q && q + 1 < e && NoBreak(text, b, e) && text[q] == '|' && LiteralAt(text, e, Close)
  }

  /** No way to finish the body at b lets `.+?` stop before q. */
  ghost predicate NoCandidateBefore(text: string, b: nat, q: nat) {
    (forall q' :: b < q' < q ==> !SkipAt(text, b, q'))
    && (forall q', e :: b < q' < q ==> !GroupAt(text, b, q', e))
  }

  /** No way at all to finish the body at b. */
  ghost predicate NoCandidate(text: string, b: nat) {
    (forall q :: !SkipAt(text, b, q)) && (forall q, e :: !GroupAt(text, b, q, e))
  }

  /** `body` is the first way to finish the body at b in the engine's order:
      the shortest body `.+?` first; for one body, the group before the
      skip; for one group, the shortest path. */
  ghost predicate IsRegexBody(text: string, b: nat, body: Body) {
    match body.bar
    case Some(q) =>
      GroupAt(text, b, q, body.end) && NoCandidateBefore(text, b, q)
      && forall e: nat :: e < body.end ==> !GroupAt(text, b, q, e)
    case None =>
      SkipAt(text, b, body.end) && NoCandidateBefore(text, b, body.end)
      && forall e :: !GroupAt(text, b, body.end, e)
  }

  /** The position of the token/path separator in a match, if any: the
      first `|` after the first character that still has a character
      after it. */
  ghost predicate PathRule(token: string, path: Option<string>) {
    match path
    case None => forall k :: 1 <= k < |token| - 1 ==> token[k] != '|'
    case Some(p) =>
      exists k :: 1 <= k < |token| - 1 && token[k] == '|'
                  && (forall j :: 1 <= j < k ==> token[j] != '|') && p == token[k + 1..]
  }

  /** `ms` is what `matchAll` yields from position i: the first match at or
      after i, then what it yields from that match's end; no match when no
      position at or after i matches. */
  ghost predicate IsScan(text: string, i: nat, ms: seq<Match>)
    decreases |ms|
  {
    if ms == [] then forall j :: i <= j ==> MatchAt(text, j).None?
    else
      i <= ms[0].start && MatchAt(text, ms[0].start) == Some(ms[0])
      && (forall j :: i <= j < ms[0].start ==> MatchAt(text, j).None?)
      && IsScan(text, ms[0].end, ms[1..])
  }

  // ---------------------------------------------------------------------
  // The engine finds what it is meant to find.

  /** The lazy path search stops at the first `) -->` reachable on the line. */
  lemma {:induction false} LazyCloseFromIsFirst(text: string, p: nat, e0: nat)
    requires p < e0 && NoBreak(text, p, e0)
    requires forall e :: p < e < e0 ==> !LiteralAt(text, e, Close)
    ensures match LazyCloseFrom(text, e0)
            case Some(e) =>
              e0 <= e && NoBreak(text, p, e) && LiteralAt(text, e, Close)
              && forall e' :: p < e' < e ==> !LiteralAt(text, e', Close)
            case None => forall e :: p < e && NoBreak(text, p, e) ==> !LiteralAt(text, e, Close)
    decreases |text| - e0
  {
    if LiteralAt(text, e0, Close) {
    } else if e0 < |text| && !IsLineTerminator(text[e0]) {
      LazyCloseFromIsFirst(text, p, e0 + 1);
    }
  }

  /** `(.+?)\) -->` at p ends at the first `) -->` after p on the same line. */
  lemma LazyCloseIsFirst(text: string, p: nat)
    ensures match LazyClose(text, p)
            case Some(e) =>
              p < e && NoBreak(text, p, e) && LiteralAt(text, e, Close)
              && forall e' :: p < e' < e ==> !LiteralAt(text, e', Close)
            case None => forall e :: p < e && NoBreak(text, p, e) ==> !LiteralAt(text, e, Close)
  {
    if p < |text| && !IsLineTerminator(text[p]) {
      LazyCloseFromIsFirst(text, p, p + 1);
    }
  }

  /** When the path search after a `|` at q fails, no group has its `|` at q. */
  lemma NoGroupAt(text: string, b: nat, q: nat)
    requires !(q < |text| && text[q] == '|' && LazyClose(text, q + 1).Some?)
    ensures forall e :: !GroupAt(text, b, q, e)
  {
    LazyCloseIsFirst(text, q + 1);
    forall e | GroupAt(text, b, q, e) && q < |text| && text[q] == '|'
      ensures NoBreak(text, q + 1, e)
    {
    }
  }

  /** When the path search after a `|` at q succeeds, that group is the
      first with its `|` at q. */
  lemma FirstGroupAt(text: string, b: nat, q: nat)
    requires b < q && NoBreak(text, b, q)
    requires q < |text| && text[q] == '|' && LazyClose(text, q + 1).Some?
    ensures var e := LazyClose(text, q + 1).value;
            GroupAt(text, b, q, e) && forall e': nat :: e' < e ==> !GroupAt(text, b, q, e')
  {
    LazyCloseIsFirst(text, q + 1);
  }

  /** The body cannot be taken past a line terminator or the end of the text. */
  lemma DeadEnd(text: string, b: nat, q: nat)
    requires b < q && NoCandidateBefore(text, b, q)
    requires forall e :: !GroupAt(text, b, q, e)
    requires !LiteralAt(text, q, Close)
    requires !(q < |text| && !IsLineTerminator(text[q]))
    ensures NoCandidate(text, b)
  {
    forall q' | q < q' ensures !NoBreak(text, b, q') {
      if q < |text| {
        assert IsLineTerminator(text[q]);
      }
    }
  }

  /** Having taken text[b..q] with nothing to stop at before q, the search
      finds the engine's choice, or proves there is none. */
  lemma {:induction false} BodyFromChoosesFirst(text: string, b: nat, q: nat)
    requires b < q && NoBreak(text, b, q) && NoCandidateBefore(text, b, q)
    ensures match BodyFrom(text, q)
            case Some(body) => IsRegexBody(text, b, body)
            case None => NoCandidate(text, b)
    decreases |text| - q
  {
    if q < |text| && text[q] == '|' && LazyClose(text, q + 1).Some? {
      FirstGroupAt(text, b, q);
    } else {
      NoGroupAt(text, b, q);
      if LiteralAt(text, q, Close) {
        assert SkipAt(text, b, q);
      } else if q < |text| && !IsLineTerminator(text[q]) {
        assert NoBreak(text, b, q + 1);
        assert NoCandidateBefore(text, b, q + 1);
        BodyFromChoosesFirst(text, b, q + 1);
      } else {
        DeadEnd(text, b, q);
      }
    }
  }

  /** The search at b finds the engine's choice, or proves there is none. */
  lemma BodyAtChoosesFirst(text: string, b: nat)
    ensures match BodyAt(text, b)
            case Some(body) => IsRegexBody(text, b, body)
            case None => NoCandidate(text, b)
  {
    if b < |text| && !IsLineTerminator(text[b]) {
      assert NoBreak(text, b, b + 1);
      BodyFromChoosesFirst(text, b, b + 1);
    }
  }

  /** Where a way to finish the body stops `.+?`: at its `|`, or at its close. */
  function Stop(body: Body): nat {
    match body.bar
    case Some(q) => q
    case None => body.end
  }

  /** The engine's choice is unique. */
  lemma RegexBodyUnique(text: string, b: nat, x: Body, y: Body)
    requires IsRegexBody(text, b, x) && IsRegexBody(text, b, y)
    ensures x == y
  {
    assert Stop(x) <= Stop(y);
    assert Stop(y) <= Stop(x);
    assert x.bar.Some? == y.bar.Some?;
  }

  /** The search at b gives exactly the engine's choice. */
  lemma BodyAtIsRegexBody(text: string, b: nat, body: Body)
    ensures BodyAt(text, b) == Some(body) <==> IsRegexBody(text, b, body)
  {
    BodyAtChoosesFirst(text, b);
    if IsRegexBody(text, b, body) && BodyAt(text, b).Some? {
      RegexBodyUnique(text, b, body, BodyAt(text, b).value);
    }
  }

  /** A body found at b lies on one line, after b, and is followed by the
      close; a path follows a `|` that is not the body's first character. */
  lemma BodyAtShape(text: string, b: nat)
    ensures BodyAt(text, b).Some? ==>
              var body := BodyAt(text, b).value;
              b < body.end && NoBreak(text, b, body.end) && LiteralAt(text, body.end, Close)
              && (body.bar.Some? ==> b < body.bar.value && body.bar.value + 1 < body.end
                                     && text[body.bar.value] == '|')
  {
    BodyAtChoosesFirst(text, b);
  }

  /** A match spans the opening literal, the token and the close; the token
      is non-empty and on one line; a path is the token's tail after a `|`
      that is not the token's first character. */
  lemma MatchShape(text: string, i: nat)
    requires MatchAt(text, i).Some?
    ensures var m := MatchAt(text, i).value;
            text[i..m.end] == Open + m.token + Close
            && |m.token| >= 1 && OnOneLine(m.token)
            && (m.path.Some? ==>
                  1 <= |m.path.value| && |m.path.value| + 2 <= |m.token|
                  && m.token[|m.token| - |m.path.value| - 1] == '|'
                  && m.token[|m.token| - |m.path.value|..] == m.path.value)
  {
    var b := i + |Open|;
    BodyAtShape(text, b);
    var body := BodyAt(text, b).value;
    SpanOfMatch(text, i, body.end);
    NoBreakOnOneLine(text, b, body.end);
    if body.bar.Some? {
      TailAfterBar(text, b, body.bar.value, body.end);
    }
  }

  /** The span of a match is the literal, the body and the close. */
  lemma SpanOfMatch(text: string, i: nat, e: nat)
    requires LiteralAt(text, i, Open) && i + |Open| <= e && LiteralAt(text, e, Close)
    ensures text[i..e + |Close|] == Open + text[i + |Open|..e] + Close
  {
    var b := i + |Open|;
    assert text[i..e + |Close|] == text[i..b] + text[b..e] + text[e..e + |Close|];
  }

  /** A stretch without line terminators is on one line. */
  lemma NoBreakOnOneLine(text: string, lo: nat, hi: nat)
    requires NoBreak(text, lo, hi)
    ensures OnOneLine(text[lo..hi])
  {
    forall k | 0 <= k < hi - lo ensures !IsLineTerminator(text[lo..hi][k]) {
      assert text[lo..hi][k] == text[lo + k];
    }
  }

  /** The path text[q + 1..e] is the tail of the body text[b..e] after its
      `|` at q. */
  lemma TailAfterBar(text: string, b: nat, q: nat, e: nat)
    requires b < q && q + 1 < e <= |text| && text[q] == '|'
    ensures var token, path := text[b..e], text[q + 1..e];
            1 <= |path| && |path| + 2 <= |token|
            && token[|token| - |path| - 1] == '|' && token[|token| - |path|..] == path
  {
    var token := text[b..e];
    assert token[q - b] == text[q];
    assert token[q - b + 1..] == text[q + 1..e];
  }

  /** The pattern matches at i exactly when the marker opens at i and the
      body can be finished in some way. */
  lemma MatchAtIffMarker(text: string, i: nat)
    ensures MatchAt(text, i).Some? <==> LiteralAt(text, i, Open) && !NoCandidate(text, i + |Open|)
  {
    BodyAtChoosesFirst(text, i + |Open|);
  }

  /** Capture 2 is the text after the first `|` of the token that is neither
      its first nor its last character; without such a `|` there is no
      capture 2. */
  lemma MatchPathRule(text: string, i: nat)
    requires MatchAt(text, i).Some?
    ensures PathRule(MatchAt(text, i).value.token, MatchAt(text, i).value.path)
  {
    var b := i + |Open|;
    BodyAtChoosesFirst(text, b);
    var body := BodyAt(text, b).value;
    match body.bar
    case Some(q) =>
      GroupPathRule(text, b, q, body.end);
    case None =>
      SkipPathRule(text, b, body.end);
  }

  /** When the engine takes the group with its `|` at q, the path follows the
      first `|` of the token after its first character. */
  lemma GroupPathRule(text: string, b: nat, q: nat, e: nat)
    requires GroupAt(text, b, q, e) && NoCandidateBefore(text, b, q)
    ensures PathRule(text[b..e], Some(text[q + 1..e]))
  {
    var token := text[b..e];
    var k := q - b;
    forall j | 1 <= j < k ensures token[j] != '|' {
      assert !GroupAt(text, b, b + j, e);
    }
    assert token[k] == '|';
    assert token[k + 1..] == text[q + 1..e];
  }

  /** When the engine closes the body at q without the group, the token has
      no `|` between its first and its last character. */
  lemma SkipPathRule(text: string, b: nat, q: nat)
    requires SkipAt(text, b, q) && NoCandidateBefore(text, b, q)
    ensures PathRule(text[b..q], None)
  {
    var token := text[b..q];
    forall k | 1 <= k < |token| - 1 ensures token[k] != '|' {
      assert !GroupAt(text, b, b + k, q);
    }
  }

  /** `Matches` is `matchAll`: it yields every match, in order, resuming
      after each one. */
  lemma {:induction false} MatchesIsScan(text: string, i: nat)
    ensures IsScan(text, i, Matches(text, i))
    decreases |text| - i
  {
    if i >= |text| {
      assert Matches(text, i) == [];
      assert forall j :: i <= j ==> MatchAt(text, j).None?;
    } else if MatchAt(text, i).Some? {
      var m := MatchAt(text, i).value;
      var rest := Matches(text, m.end);
      MatchesIsScan(text, m.end);
      assert Matches(text, i) == [m] + rest;
      assert ([m] + rest)[1..] == rest;
    } else {
      var ms := Matches(text, i + 1);
      MatchesIsScan(text, i + 1);
      assert Matches(text, i) == ms;
      ScanFromEarlier(text, i, ms);
    }
  }

  /** A scan from i + 1 is a scan from i when nothing matches at i. */
  lemma ScanFromEarlier(text: string, i: nat, ms: seq<Match>)
    requires MatchAt(text, i).None? && IsScan(text, i + 1, ms)
    ensures IsScan(text, i, ms)
  {
  }

  /** Only one sequence is what `matchAll` yields. */
  lemma {:induction false} ScanUnique(text: string, i: nat, ms: seq<Match>)
    requires IsScan(text, i, ms)
    ensures ms == Matches(text, i)
    decreases |text| - i
  {
    if i >= |text| {
    } else {
      match MatchAt(text, i)
      case Some(m) =>
        assert ms != [];
        assert ms[0].start == i;
        ScanUnique(text, m.end, ms[1..]);
        assert ms == [ms[0]] + ms[1..];
      case None =>
        if ms != [] {
          assert ms[0].start != i;
        }
        ScanUnique(text, i + 1, ms);
    }
  }

  /** The matches are genuine, in text order, and do not overlap. */
  lemma MatchesInOrder(text: string, i: nat)
    ensures forall k :: 0 <= k < |Matches(text, i)| ==>
              i <= Matches(text, i)[k].start < Matches(text, i)[k].end <= |text|
    ensures forall k :: 0 <= k < |Matches(text, i)| ==>
              MatchAt(text, Matches(text, i)[k].start) == Some(Matches(text, i)[k])
    ensures forall k :: 0 <= k < |Matches(text, i)| - 1 ==>
              Matches(text, i)[k].end <= Matches(text, i)[k + 1].start
  {
    MatchesIsScan(text, i);
    ScanInOrder(text, i, Matches(text, i));
  }

  /** The matches of a scan are genuine, in text order, and do not overlap. */
  lemma {:induction false} ScanInOrder(text: string, i: nat, ms: seq<Match>)
    requires IsScan(text, i, ms)
    ensures forall k :: 0 <= k < |ms| ==> i <= ms[k].start < ms[k].end <= |text|
    ensures forall k :: 0 <= k < |ms| ==> MatchAt(text, ms[k].start) == Some(ms[k])
    ensures forall k :: 0 <= k < |ms| - 1 ==> ms[k].end <= ms[k + 1].start
    decreases |ms|
  {
    if ms != [] {
      var rest := ms[1..];
      ScanInOrder(text, ms[0].end, rest);
      assert forall k :: 1 <= k < |ms| ==> ms[k] == rest[k - 1];
    }
  }

  /** `matchAll` yields nothing exactly when no position matches. */
  lemma NoMatchesIffNoMarker(text: string, i: nat)
    ensures Matches(text, i) == [] <==> forall j :: i <= j ==> MatchAt(text, j).None?
  {
    MatchesIsScan(text, i);
    if forall j :: i <= j ==> MatchAt(text, j).None? {
      ScanUnique(text, i, []);
    }
  }

  /** Writing a marker around a token and scanning it gives the token back,
      as the only match, provided the token is non-empty, on one line, and
      no `) -->` starts inside it. */
  lemma MarkerRoundTrip(t: string)
    requires |t| >= 1 && OnOneLine(t)
    requires forall e :: 0 <= e < |t| ==> !LiteralAt(t + Close, e, Close)
    ensures var text := Open + t + Close;
            |Matches(text, 0)| == 1 && Matches(text, 0)[0].token == t
            && Matches(text, 0)[0].start == 0 && Matches(text, 0)[0].end == |text|
  {
    var text := Open + t + Close;
    MarkerBodyEnd(t);
    var m := MatchAt(text, 0).value;
    assert text[|Open|..|Open| + |t|] == t;
    assert m.token == t;
    assert Matches(text, 0) == [m] + Matches(text, m.end);
  }

  /** The body of a marker written around such a token ends where the token
      ends. */
  lemma MarkerBodyEnd(t: string)
    requires |t| >= 1 && OnOneLine(t)
    requires forall e :: 0 <= e < |t| ==> !LiteralAt(t + Close, e, Close)
    ensures LiteralAt(Open + t + Close, 0, Open)
    ensures BodyAt(Open + t + Close, |Open|).Some?
    ensures BodyAt(Open + t + Close, |Open|).value.end == |Open| + |t|
  {
    var text := Open + t + Close;
    var b := |Open|;
    MarkerSkip(t);
    BodyAtExists(text, b, b + |t|);
    BodyAtShape(text, b);
    var end := BodyAt(text, b).value.end;
    assert text == Open + (t + Close);
    ShiftedClose(Open, t + Close, end - b);
  }

  /** In a marker written around a token, the body can be closed right
      after the token. */
  lemma MarkerSkip(t: string)
    requires |t| >= 1 && OnOneLine(t)
    ensures LiteralAt(Open + t + Close, 0, Open)
    ensures SkipAt(Open + t + Close, |Open|, |Open| + |t|)
  {
    var text := Open + t + Close;
    var b := |Open|;
    assert text[..b] == Open;
    assert text[b + |t|..] == Close;
    forall k | b <= k < b + |t| ensures !IsLineTerminator(text[k]) {
      assert text[k] == t[k - b];
    }
  }

  /** A close after a prefix is a close in what follows the prefix. */
  lemma ShiftedClose(prefix: string, u: string, e: nat)
    requires LiteralAt(prefix + u, |prefix| + e, Close)
    ensures LiteralAt(u, e, Close)
  {
    assert (prefix + u)[|prefix| + e..|prefix| + e + |Close|] == u[e..e + |Close|];
  }

  /** The body search succeeds when some way to finish the body exists. */
  lemma BodyAtExists(text: string, b: nat, q: nat)
    requires SkipAt(text, b, q)
    ensures BodyAt(text, b).Some?
  {
    BodyAtChoosesFirst(text, b);
  }

  /** The body does not always end at the first `) -->` after it: with the
      body `a|) -->` the close at position 19 comes first, yet the engine
      takes the `|` right after `a` and lets the lazy path run to the second
      close, so capture 1 is `a|) -->`. */
  lemma BodyPassesFirstClose()
    ensures LiteralAt(Open + "a|) -->) -->", 19, Close)
    ensures MatchAt(Open + "a|) -->) -->", 0).Some?
    ensures MatchAt(Open + "a|) -->) -->", 0).value.token == "a|) -->"
    ensures MatchAt(Open + "a|) -->) -->", 0).value.path == Some(") -->")
  {
    var s := "a|) -->) -->";
    var t := Open + s;
    assert |t| == 29;
    assert forall k :: 17 <= k < 29 ==> t[k] == s[k - 17];
    assert t[19..24] == Close;
    assert LiteralAt(t, 0, Open);
    assert t[24..29] == Close;
    assert LazyCloseFrom(t, 24) == Some(24);
    assert t[23] == '>' && t[23..28][0] == t[23];
    assert LazyCloseFrom(t, 23) == Some(24);
    assert t[22] == '-' && t[22..27][0] == t[22];
    assert LazyCloseFrom(t, 22) == Some(24);
    assert t[21] == '-' && t[21..26][0] == t[21];
    assert LazyCloseFrom(t, 21) == Some(24);
    assert t[20] == ' ' && t[20..25][0] == t[20];
    assert LazyCloseFrom(t, 20) == Some(24);
    assert t[19] == ')';
    assert LazyClose(t, 19) == Some(24);
    assert t[18] == '|';
    assert BodyFrom(t, 18) == Some(Body(24, Some(18)));
    assert t[17] == 'a';
    assert BodyAt(t, 17) == Some(Body(24, Some(18)));
    assert t[17..24] == "a|) -->";
    assert t[19..24] == ") -->";
  }
}
