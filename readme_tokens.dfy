/** `filterTokenTransform.transform` of bin/update-readmes.js: the tokens of
    one README file, as `(token, sourcePath)` pairs, and whether the file is
    passed on at all. */
module ReadmeTokens {
  import opened Wrappers
  import opened Text
  import opened TokenPattern

  /** The source path used for a marker without a `|path` part. */
  const DefaultPath: string := "src/index.js"

  /** One `(token, sourcePath)` pair (`WPReadmeFileTokens`). */
  datatype TokenRef = TokenRef(token: string, path: string)

  /** What the transform passes on for a README (`WPReadmeFileData`). */
  datatype ReadmeData = ReadmeData(file: string, tokens: seq<TokenRef>)

  /** The pair read from one match: capture 1, and capture 2 or the default. */
  function RefOf(m: Match): TokenRef {
    TokenRef(m.token, m.path.GetOr(DefaultPath))
  }

  /** The pairs of a list of matches, in order. */
  function RefsOf(ms: seq<Match>): (refs: seq<TokenRef>)
    ensures |refs| == |ms|
    ensures forall k :: 0 <= k < |ms| ==> refs[k] == RefOf(ms[k])
    decreases |ms|
  {
    if ms == [] then [] else [RefOf(ms[0])] + RefsOf(ms[1..])
  }

  /** The pairs of every marker of a README text. */
  function TokenRefs(text: string): seq<TokenRef> {
    RefsOf(Matches(text, 0))
  }

  /** The transform for one README: `content` is None when reading the file
      failed. The file is passed on with its pairs when its content is
      non-empty and holds at least one marker. */
  method Transform(file: string, content: Option<string>) returns (pushed: Option<ReadmeData>)
    ensures pushed.Some? <==> content.Some? && content.value != "" && TokenRefs(content.value) != []
    ensures pushed.Some? ==> pushed.value == ReadmeData(file, TokenRefs(content.value))
  {
    pushed := None;
    if content.Some? && content.value != "" {
      var text := content.value;
      var tokens: seq<TokenRef> := [];
      var i := 0;
      while i < |text|
        invariant i <= |text|
        invariant tokens + RefsOf(Matches(text, i)) == TokenRefs(text)
        decreases |text| - i
      {
        var m := MatchAt(text, i);
        if m.Some? {
          assert Matches(text, i) == [m.value] + Matches(text, m.value.end);
          assert RefsOf(Matches(text, i)) == [RefOf(m.value)] + RefsOf(Matches(text, m.value.end));
          tokens := tokens + [RefOf(m.value)];
          i := m.value.end;
        } else {
          i := i + 1;
        }
      }
      if |tokens| > 0 {
        pushed := Some(ReadmeData(file, tokens));
      }
    }
  }

  /** A pair is well formed: the token is non-empty and on one line; the path
      is the text after the first `|` of the token that is neither its first
      nor its last character, or the default path when there is no such `|`. */
  ghost predicate WellFormed(r: TokenRef) {
    |r.token| >= 1 && OnOneLine(r.token)
    && if exists k :: 1 <= k < |r.token| - 1 && r.token[k] == '|' then
         exists k :: 1 <= k < |r.token| - 1 && r.token[k] == '|'
                     && (forall j :: 1 <= j < k ==> r.token[j] != '|') && r.path == r.token[k + 1..]
       else r.path == DefaultPath
  }

  /** Every pair of a README is well formed. */
  lemma {:induction false} TokenRefsWellFormed(text: string)
    ensures forall k :: 0 <= k < |TokenRefs(text)| ==> WellFormed(TokenRefs(text)[k])
  {
    var ms := Matches(text, 0);
    MatchesInOrder(text, 0);
    forall k | 0 <= k < |ms| ensures WellFormed(RefOf(ms[k])) {
      MatchShape(text, ms[k].start);
      MatchPathRule(text, ms[k].start);
    }
  }

  /** The pairs come one per match of `matchAll`, in the order of the markers,
      each the marker's capture 1 and capture 2 (or the default path). */
  lemma TokenRefsFollowMarkers(text: string)
    ensures IsScan(text, 0, Matches(text, 0))
    ensures |TokenRefs(text)| == |Matches(text, 0)|
    ensures forall k :: 0 <= k < |TokenRefs(text)| ==>
              var m := Matches(text, 0)[k];
              m.start < m.end <= |text| && text[m.start..m.end] == Open + TokenRefs(text)[k].token + Close
  {
    var ms := Matches(text, 0);
    MatchesIsScan(text, 0);
    MatchesInOrder(text, 0);
    forall k | 0 <= k < |ms| ensures text[ms[k].start..ms[k].end] == Open + RefOf(ms[k]).token + Close {
      MatchShape(text, ms[k].start);
    }
  }

  /** A README yields no pairs exactly when no position of it matches the
      marker pattern; in particular an empty text yields none. */
  lemma NoTokensIffNoMarker(text: string)
    ensures TokenRefs(text) == [] <==> forall j :: MatchAt(text, j).None?
  {
    NoMatchesIffNoMarker(text, 0);
  }
}
