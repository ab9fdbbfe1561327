/** The docgen runs of bin/update-readmes.js: for every `(token, path)` of
    a README, one docgen process that reads the package's source file and
    rewrites the section of the README behind the token; the processes of
    one README run one after another, in token order. */
module Docgen {
  import opened Wrappers
  import opened TokenPattern
  import opened ReadmeTokens
  import opened Packages

  /** The docgen executable, relative to the repository root. */
  const DocgenBin: string := "node_modules/.bin/docgen"

  const OutputFlag: string := "--output "
  const UseTokenFlag: string := "--use-token \""
  const IgnoreOption: string := "--ignore \"/unstable|experimental/i\""

  /** One process start: the executable and its arguments. */
  datatype Invocation = Invocation(command: string, args: seq<string>)

  /** The docgen process for one `(token, path)` of a README in package `pkg`. */
  function DocgenCall(pkg: string, r: TokenRef): Invocation {
    Invocation(DocgenBin, [
      "packages/" + pkg + "/" + r.path,
      OutputFlag + "packages/" + pkg + "/README.md",
      "--to-token",
      UseTokenFlag + r.token + "\"",
      IgnoreOption
    ])
  }

  /** The token a docgen call works on, read back from its `--use-token`
      argument. */
  function UsedToken(call: Invocation): Option<string> {
    if |call.args| == 5 && UseTokenFlag <= call.args[3] && |call.args[3]| > |UseTokenFlag|
       && call.args[3][|call.args[3]| - 1] == '"'
    then Some(call.args[3][|UseTokenFlag|..|call.args[3]| - 1])
    else None
  }

  /** The file a docgen call writes, read back from its `--output` argument. */
  function OutputFile(call: Invocation): Option<string> {
    if |call.args| == 5 && OutputFlag <= call.args[1]
    then Some(call.args[1][|OutputFlag|..])
    else None
  }

  /** The file a docgen call reads. */
  function SourceFile(call: Invocation): Option<string> {
    if |call.args| == 5 then Some(call.args[0]) else None
  }

  /** A call names its token, reads `packages/<pkg>/<path>` and writes
      `packages/<pkg>/README.md`. */
  lemma DocgenCallReadsBack(pkg: string, r: TokenRef)
    ensures UsedToken(DocgenCall(pkg, r)) == Some(r.token)
    ensures SourceFile(DocgenCall(pkg, r)) == Some("packages/" + pkg + "/" + r.path)
    ensures OutputFile(DocgenCall(pkg, r)) == Some("packages/" + pkg + "/README.md")
  {
    var a := UseTokenFlag + r.token + "\"";
    assert UseTokenFlag <= a;
    assert a[|UseTokenFlag|..|a| - 1] == r.token;
    var o := OutputFlag + "packages/" + pkg + "/README.md";
    assert OutputFlag <= o;
    assert o[|OutputFlag|..] == "packages/" + pkg + "/README.md";
  }

  /** A README found by the glob, `<root>/packages/<pkg>/README.md`, is the
      very file its docgen calls write (relative to the repository root). */
  lemma DocgenWritesItsReadme(root: string, pkg: string, r: TokenRef)
    requires '/' !in pkg
    ensures var dir := root + "/packages";
            var file := dir + "/" + pkg + "/README.md";
            IsBelow(dir, file)
            && OutputFile(DocgenCall(FilePackage(dir, file), r)) == Some(file[|root| + 1..])
  {
    var dir := root + "/packages";
    var file := dir + "/" + pkg + "/README.md";
    ReadmePackage(dir, pkg);
    DocgenCallReadsBack(pkg, r);
    assert file == root + "/" + ("packages/" + pkg + "/README.md");
  }

  /** `tokens.reduce( async ( result, [ token, path ] ) => { await result; … },
      Promise.resolve() )`: each call starts once the calls before it
      (`started`) are done. */
  function RunInOrder(started: seq<Invocation>, pkg: string, refs: seq<TokenRef>): seq<Invocation>
    decreases |refs|
  {
    if refs == [] then started
    else RunInOrder(started + [DocgenCall(pkg, refs[0])], pkg, refs[1..])
  }

  /** The calls for one README passed on by the transform. */
  function ReadmeCalls(dir: string, data: ReadmeData): seq<Invocation>
    requires IsBelow(dir, data.file)
  {
    RunInOrder([], FilePackage(dir, data.file), data.tokens)
  }

  /** The fold keeps the calls already started and adds one call per pair,
      in the pairs' order. */
  lemma {:induction false} RunInOrderCalls(started: seq<Invocation>, pkg: string, refs: seq<TokenRef>)
    ensures |RunInOrder(started, pkg, refs)| == |started| + |refs|
    ensures RunInOrder(started, pkg, refs)[..|started|] == started
    ensures forall k :: 0 <= k < |refs| ==>
              RunInOrder(started, pkg, refs)[|started| + k] == DocgenCall(pkg, refs[k])
    decreases |refs|
  {
    if refs != [] {
      var next := started + [DocgenCall(pkg, refs[0])];
      RunInOrderCalls(next, pkg, refs[1..]);
      var all := RunInOrder(started, pkg, refs);
      assert all == RunInOrder(next, pkg, refs[1..]);
      assert all[..|started|] == next[..|next|][..|started|];
      forall k | 0 <= k < |refs| ensures all[|started| + k] == DocgenCall(pkg, refs[k]) {
        if k > 0 {
          assert all[|next| + (k - 1)] == DocgenCall(pkg, refs[1..][k - 1]);
        }
      }
    }
  }

  /** End to end: for a README below `dir` with text `text`, the calls run
      one per marker, in the markers' order, each on its marker's body, and
      all of them write the README's own package README. */
  lemma ReadmeCallsFollowMarkers(dir: string, file: string, text: string)
    requires IsBelow(dir, file)
    ensures var calls := ReadmeCalls(dir, ReadmeData(file, TokenRefs(text)));
            var ms := Matches(text, 0);
            |calls| == |ms|
            && (forall k :: 0 <= k < |ms| ==> UsedToken(calls[k]) == Some(ms[k].token))
            && (forall k :: 0 <= k < |ms| ==>
                  OutputFile(calls[k]) == Some("packages/" + FilePackage(dir, file) + "/README.md"))
  {
    var pkg := FilePackage(dir, file);
    var refs := TokenRefs(text);
    RunInOrderCalls([], pkg, refs);
    var calls := ReadmeCalls(dir, ReadmeData(file, refs));
    forall k | 0 <= k < |refs|
      ensures UsedToken(calls[k]) == Some(refs[k].token)
      ensures OutputFile(calls[k]) == Some("packages/" + pkg + "/README.md")
    {
      assert calls[k] == DocgenCall(pkg, refs[k]);
      DocgenCallReadsBack(pkg, refs[k]);
    }
  }
}
