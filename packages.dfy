/** Package names in bin/update-readmes.js: `getFilePackage` and the glob
    fragment `packages` that selects which package READMEs to update.
    Paths are `/`-separated strings. */
module Packages {
  import opened Text

  /** `file` lies below the packages directory `dir`. */
  predicate IsBelow(dir: string, file: string) {
    dir + "/" <= file
  }

  /** `path.relative(dir, file)` for a file below `dir`. */
  function Relative(dir: string, file: string): (rel: string)
    requires IsBelow(dir, file)
    ensures dir + "/" + rel == file
  {
    file[|dir| + 1..]
  }

  /** `getFilePackage`: the first segment of the path relative to the
      packages directory: the longest prefix free of `/`. */
  function FilePackage(dir: string, file: string): (name: string)
    requires IsBelow(dir, file)
    ensures '/' !in name
    ensures name <= Relative(dir, file)
    ensures name == Relative(dir, file) || Relative(dir, file)[|name|] == '/'
  {
    SplitHead(Relative(dir, file), '/');
    Split(Relative(dir, file), '/')[0]
  }

  /** A file anywhere inside the directory of package `name` belongs to
      `name`; so does the directory itself. */
  lemma FilePackageOf(dir: string, name: string, rest: string)
    requires '/' !in name
    ensures IsBelow(dir, dir + "/" + name) && FilePackage(dir, dir + "/" + name) == name
    ensures IsBelow(dir, dir + "/" + name + "/" + rest)
            && FilePackage(dir, dir + "/" + name + "/" + rest) == name
  {
    var file := dir + "/" + name;
    assert (dir + "/") + name == file;
    var p := FilePackage(dir, file);
    assert Relative(dir, file) == name;
    FirstSegmentIs(name, name, p);
    var file' := dir + "/" + name + "/" + rest;
    assert (dir + "/") + (name + "/" + rest) == file';
    assert Relative(dir, file') == name + "/" + rest;
    FirstSegmentIs(name + "/" + rest, name, FilePackage(dir, file'));
  }

  /** The README at the top of package `pkg` belongs to `pkg`. */
  lemma ReadmePackage(dir: string, pkg: string)
    requires '/' !in pkg
    ensures IsBelow(dir, dir + "/" + pkg + "/README.md")
    ensures FilePackage(dir, dir + "/" + pkg + "/README.md") == pkg
  {
    FilePackageOf(dir, pkg, "README.md");
    assert dir + "/" + pkg + "/" + "README.md" == dir + "/" + pkg + "/README.md";
  }

  /** Two descriptions of the first segment of `rel` agree. */
  lemma FirstSegmentIs(rel: string, name: string, p: string)
    requires '/' !in name && name <= rel && (name == rel || rel[|name|] == '/')
    requires '/' !in p && p <= rel && (p == rel || rel[|p|] == '/')
    ensures p == name
  {
    assert forall i :: 0 <= i < |name| ==> rel[i] == name[i];
    assert forall i :: 0 <= i < |p| ==> rel[i] == p[i];
    assert |p| >= |name|;
    assert |name| >= |p|;
  }

  /** The package names of the file arguments, in argument order
      (`files.map( getFilePackage )`). */
  function PackageNames(dir: string, files: seq<string>): (names: seq<string>)
    requires forall k :: 0 <= k < |files| ==> IsBelow(dir, files[k])
    ensures |names| == |files|
    ensures forall k :: 0 <= k < |files| ==> names[k] == FilePackage(dir, files[k])
    decreases |files|
  {
    if files == [] then [] else [FilePackage(dir, files[0])] + PackageNames(dir, files[1..])
  }

  /** The glob fragment as the script builds it: `*` without file arguments,
      else the package names joined by `,`. */
  function PackagesGlob(dir: string, files: seq<string>): string
    requires forall k :: 0 <= k < |files| ==> IsBelow(dir, files[k])
  {
    if |files| > 0 then Join(PackageNames(dir, files), ',') else "*"
  }

  /** The fragment is `*` without file arguments; otherwise it lists the
      package names of the arguments, in argument order, separated by `,`
      (read back exactly when no name holds a `,`). */
  lemma PackagesGlobLists(dir: string, files: seq<string>)
    requires forall k :: 0 <= k < |files| ==> IsBelow(dir, files[k])
    ensures files == [] ==> PackagesGlob(dir, files) == "*"
    ensures files != [] && (forall k :: 0 <= k < |files| ==> ',' !in FilePackage(dir, files[k])) ==>
              Split(PackagesGlob(dir, files), ',') == PackageNames(dir, files)
  {
    if files != [] && (forall k :: 0 <= k < |files| ==> ',' !in FilePackage(dir, files[k])) {
      SplitJoin(PackageNames(dir, files), ',');
    }
  }

  // ---------------------------------------------------------------------
  // What the fragment selects.

  /** How the glob library reads the package segment of
      `<packages>/<fragment>/README.md` against a package directory name,
      for fragments made of plain names: `*` is any name not starting with
      `.`; `{a,b,...}` is any one of the listed names; anything else, a
      bare `,` included, stands for itself. */
  predicate SegmentMatches(pattern: string, name: string) {
    if pattern == "*" then name != "" && name[0] != '.'
    else if |pattern| >= 2 && pattern[0] == '{' && pattern[|pattern| - 1] == '}' && ',' in pattern
    then name in Split(pattern[1..|pattern| - 1], ',')
    else name == pattern
  }

  /** A directory name with none of the characters the glob syntax above
      gives a meaning, and not hidden. */
  predicate PlainName(name: string) {
    name != "" && name[0] != '.'
    && forall c :: c in name ==> c != ',' && c != '{' && c != '}' && c != '*'
  }

  /** As written, two or more file arguments give a fragment such as
      `blocks,data`, which names no package directory at all: no README is
      updated. */
  lemma PackagesGlobMissesWithTwoFiles(dir: string, files: seq<string>, name: string)
    requires forall k :: 0 <= k < |files| ==> IsBelow(dir, files[k])
    requires |files| >= 2 && PlainName(FilePackage(dir, files[0]))
    requires PlainName(name)
    ensures !SegmentMatches(PackagesGlob(dir, files), name)
  {
    var names := PackageNames(dir, files);
    var pattern := PackagesGlob(dir, files);
    assert pattern == names[0] + [','] + Join(names[1..], ',');
    assert pattern[|names[0]|] == ',';
    assert ',' in pattern;
    assert pattern[0] == names[0][0] && names[0][0] in names[0];
    assert pattern != name;
  }

  /** The fragment the script evidently means: `*` without file arguments,
      the one name for one argument, and the names as a brace alternative
      `{a,b}` for several. */
  function PackagesGlobFixed(dir: string, files: seq<string>): string
    requires forall k :: 0 <= k < |files| ==> IsBelow(dir, files[k])
  {
    if |files| == 0 then "*"
    else if |files| == 1 then FilePackage(dir, files[0])
    else "{" + Join(PackageNames(dir, files), ',') + "}"
  }

  /** The corrected fragment selects exactly the packages of the file
      arguments, or every package when there are none. */
  lemma PackagesGlobFixedSelects(dir: string, files: seq<string>, name: string)
    requires forall k :: 0 <= k < |files| ==> IsBelow(dir, files[k])
    requires forall k :: 0 <= k < |files| ==> PlainName(FilePackage(dir, files[k]))
    requires PlainName(name)
    ensures SegmentMatches(PackagesGlobFixed(dir, files), name)
            <==> files == [] || name in PackageNames(dir, files)
  {
    var names := PackageNames(dir, files);
    if |files| == 1 {
      LiteralSelects(names[0], name);
      assert names == [names[0]];
    } else if |files| >= 2 {
      BraceListSelects(names, name);
    }
  }

  /** A plain name as a fragment selects that name alone. */
  lemma LiteralSelects(pattern: string, name: string)
    requires PlainName(pattern)
    ensures SegmentMatches(pattern, name) <==> name == pattern
  {
    assert pattern[0] in pattern;
  }

  /** Two or more plain names as a brace list select exactly those names. */
  lemma BraceListSelects(names: seq<string>, name: string)
    requires |names| >= 2 && forall k :: 0 <= k < |names| ==> PlainName(names[k])
    ensures SegmentMatches("{" + Join(names, ',') + "}", name) <==> name in names
  {
    var joined := Join(names, ',');
    var pattern := "{" + joined + "}";
    assert joined == names[0] + [','] + Join(names[1..], ',');
    assert pattern[1 + |names[0]|] == ',';
    assert pattern[1..|pattern| - 1] == joined;
    SplitJoin(names, ',');
  }
}
