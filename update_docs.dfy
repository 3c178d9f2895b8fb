/**
 * The `UpdateDocs` object (lib/index.ts:30-203): the documentation and test
 * files it holds in memory, and the operations that collect examples from
 * the test files, rewrite the documentation files with them, replace tokens
 * in the documentation, and write the documentation back.
 *
 * The file system enters as parameters: `glob` stands for `globSync`,
 * `readFile` for `fs.readFileSync(path).toString()`, and a map from path to
 * contents for what `write` leaves on disk.
 */
module UpdateDocs {
  import opened Wrappers
  import opened ExampleMaps
  import Text
  import TestBlocks
  import DocBlocks
  import TokenReplacer

  /** A file held in memory; `replaceExamples` and `replaceToken` update its contents in place. */
  class File {
    const path: string
    var contents: string

    constructor (path: string, contents: string)
      ensures this.path == path && this.contents == contents
    {
      this.path := path;
      this.contents := contents;
    }
  }

  /** The value given to `replaceToken`: a string, or a value `stringifyValue` turns into JSON text. */
  datatype Value =
    | Str(s: string)
    | Num(n: int)
    | Bool(b: bool)
    | Null
    | List(items: seq<Value>)
    | Object(fields: map<string, Value>)

  predicate Distinct(paths: seq<string>)
  {
    forall i, j :: 0 <= i < j < |paths| ==> paths[i] != paths[j]
  }

  function Paths(files: seq<File>): (r: seq<string>)
    ensures |r| == |files| && forall i :: 0 <= i < |files| ==> r[i] == files[i].path
  {
    seq(|files|, i requires 0 <= i < |files| => files[i].path)
  }

  function Contents(files: seq<File>): (r: seq<string>)
    reads files
    decreases |files|
    ensures |r| == |files| && forall i :: 0 <= i < |files| ==> r[i] == files[i].contents
  {
    if files == [] then [] else [files[0].contents] + Contents(files[1..])
  }

  /** Files with the same path are the same object. */
  predicate SharedByPath(files: seq<File>)
  {
    forall i, j :: 0 <= i < |files| && 0 <= j < |files| && files[i].path == files[j].path ==> files[i] == files[j]
  }

  /**
   * `readFiles` inside `read`: the file for each path, taken from `loaded`
   * when that path has been read before, and otherwise read now and added
   * to `loaded`.
   */
  method ReadFiles(paths: seq<string>, loaded: map<string, File>, readFile: string -> string)
    returns (files: seq<File>, loaded': map<string, File>)
    requires forall p :: p in loaded ==> loaded[p].path == p
    ensures Paths(files) == paths
    ensures forall i :: 0 <= i < |paths| ==> paths[i] in loaded' && files[i] == loaded'[paths[i]]
    ensures forall p :: p in loaded ==> p in loaded' && loaded'[p] == loaded[p]
    ensures forall p :: p in loaded' ==> loaded'[p].path == p
    ensures forall p :: p in loaded' && p !in loaded ==> fresh(loaded'[p]) && loaded'[p].contents == readFile(p)
  {
    files := [];
    loaded' := loaded;
    var i := 0;
    while i < |paths|
      invariant 0 <= i <= |paths| && |files| == i
      invariant forall j :: 0 <= j < i ==> files[j].path == paths[j]
      invariant forall j :: 0 <= j < i ==> paths[j] in loaded' && files[j] == loaded'[paths[j]]
      invariant forall p :: p in loaded ==> p in loaded' && loaded'[p] == loaded[p]
      invariant forall p :: p in loaded' ==> loaded'[p].path == p
      invariant forall p :: p in loaded' && p !in loaded ==> fresh(loaded'[p]) && loaded'[p].contents == readFile(p)
    {
      var path := paths[i];
      if path !in loaded' {
        var f := new File(path, readFile(path));
        loaded' := loaded'[path := f];
      }
      files := files + [loaded'[path]];
      i := i + 1;
    }
  }

  /** The blocks collected from each text in turn, nested blocks after the block holding them. */
  function CollectAll(texts: seq<string>): seq<Entry>
    decreases |texts|
  {
    if texts == [] then [] else TestBlocks.Collect(texts[0]) + CollectAll(texts[1..])
  }

  lemma {:induction false} CollectAllConcat(a: seq<string>, b: seq<string>)
    ensures CollectAll(a + b) == CollectAll(a) + CollectAll(b)
    decreases |a|
  {
    if a == [] {
      assert a + b == b;
    } else {
      assert (a + b)[1..] == a[1..] + b;
      CollectAllConcat(a[1..], b);
    }
  }

  lemma CollectAllStep(texts: seq<string>, i: nat)
    requires i < |texts|
    ensures CollectAll(texts[..i + 1]) == CollectAll(texts[..i]) + TestBlocks.Collect(texts[i])
  {
    assert texts[..i + 1] == texts[..i] + [texts[i]];
    CollectAllConcat(texts[..i], [texts[i]]);
    assert [texts[i]][1..] == [];
  }

  /** The codes collected under `name` from each text, concatenated in text order. */
  function CodesAcross(texts: seq<string>, name: string): seq<string>
    decreases |texts|
  {
    if texts == [] then [] else CodesNamed(TestBlocks.Collect(texts[0]), name) + CodesAcross(texts[1..], name)
  }

  /**
   * Blocks for the same example are concatenated: under every name, the
   * collected map holds the blocks of the first file, then those of the
   * second, and so on, each file's in the order its scan pushes them.
   */
  lemma ExamplesAcrossFiles(texts: seq<string>, name: string)
    ensures Get(AddEntries(map[], CollectAll(texts)), name) == CodesAcross(texts, name)
  {
    AddEntriesGet(map[], CollectAll(texts), name);
    CodesAcrossAll(texts, name);
  }

  lemma {:induction false} CodesAcrossAll(texts: seq<string>, name: string)
    ensures CodesNamed(CollectAll(texts), name) == CodesAcross(texts, name)
    decreases |texts|
  {
    if texts != [] {
      CodesNamedConcat(TestBlocks.Collect(texts[0]), CollectAll(texts[1..]), name);
      CodesAcrossAll(texts[1..], name);
    }
  }

  class UpdateDocs {
    const documentationGlobs: seq<string>
    const testGlobs: seq<string>
    /** How `stringifyValue` indents object and array values. */
    const indent: string
    /** The pretty-printer `stringifyValue` uses for values that are not strings, given the value and the indent. */
    const stringify: (Value, string) -> string

    var documentationFiles: seq<File>
    var testFiles: seq<File>

    function Files(): seq<File>
      reads this
    {
      documentationFiles + testFiles
    }

    /**
     * Each list names a path once, and a file that is both a documentation
     * file and a test file is one object in both lists.
     */
    predicate Valid()
      reads this
    {
      && Distinct(Paths(documentationFiles))
      && Distinct(Paths(testFiles))
      && SharedByPath(Files())
    }

    /** The constructor, which reads the files right away. */
    constructor (documentationGlobs: seq<string>, testGlobs: seq<string>, indent: string,
                 stringify: (Value, string) -> string,
                 glob: seq<string> -> seq<string>, readFile: string -> string)
      requires Distinct(glob(documentationGlobs)) && Distinct(glob(testGlobs))
      ensures this.documentationGlobs == documentationGlobs && this.testGlobs == testGlobs
      ensures this.indent == indent && this.stringify == stringify
      ensures Valid()
      ensures Paths(documentationFiles) == glob(documentationGlobs) && Paths(testFiles) == glob(testGlobs)
      ensures forall f :: f in Files() ==> fresh(f) && f.contents == readFile(f.path)
    {
      this.documentationGlobs := documentationGlobs;
      this.testGlobs := testGlobs;
      this.indent := indent;
      this.stringify := stringify;
      new;
      Read(glob, readFile);
    }

    /**
     * `read`: both lists are read anew, into fresh files; a path matched by
     * both globs is read once and shared.
     */
    method Read(glob: seq<string> -> seq<string>, readFile: string -> string)
      requires Distinct(glob(documentationGlobs)) && Distinct(glob(testGlobs))
      modifies this
      ensures Valid()
      ensures Paths(documentationFiles) == glob(documentationGlobs) && Paths(testFiles) == glob(testGlobs)
      ensures forall f :: f in Files() ==> fresh(f) && f.contents == readFile(f.path)
    {
      var docs, loaded := ReadFiles(glob(documentationGlobs), map[], readFile);
      var tests, loaded' := ReadFiles(glob(testGlobs), loaded, readFile);
      documentationFiles := docs;
      testFiles := tests;
      assert forall i :: 0 <= i < |Files()| ==> Files()[i] == loaded'[Files()[i].path] by {
        forall i | 0 <= i < |Files()| ensures Files()[i] == loaded'[Files()[i].path] {
          if i >= |docs| {
            assert Files()[i] == tests[i - |docs|];
          }
        }
      }
    }

    /**
     * `write`: every documentation file's contents are stored under its
     * path; nothing else on disk changes, test files included.
     */
    method Write(disk: map<string, string>) returns (written: map<string, string>)
      requires Valid()
      ensures forall f :: f in documentationFiles ==> f.path in written && written[f.path] == f.contents
      ensures forall p :: p in written <==> p in disk || p in Paths(documentationFiles)
      ensures forall p :: p in disk && p !in Paths(documentationFiles) ==> written[p] == disk[p]
    {
      written := disk;
      var i := 0;
      while i < |documentationFiles|
        invariant 0 <= i <= |documentationFiles|
        invariant forall j :: 0 <= j < i ==> documentationFiles[j].path in written && written[documentationFiles[j].path] == documentationFiles[j].contents
        invariant forall p :: p in written <==> p in disk || p in Paths(documentationFiles[..i])
        invariant forall p :: p in disk && p !in Paths(documentationFiles[..i]) ==> written[p] == disk[p]
      {
        var f := documentationFiles[i];
        assert Paths(documentationFiles[..i + 1]) == Paths(documentationFiles[..i]) + [f.path];
        written := written[f.path := f.contents];
        i := i + 1;
      }
      assert documentationFiles[..i] == documentationFiles;
    }

    /**
     * `collectExamples`: the test files are scanned in order into one map,
     * which holds every block pushed while scanning them.
     */
    method CollectExamples() returns (result: ExampleMap)
      ensures result == AddEntries(map[], CollectAll(Contents(testFiles)))
    {
      ghost var texts := Contents(testFiles);
      result := map[];
      var i := 0;
      while i < |testFiles|
        invariant 0 <= i <= |testFiles|
        invariant result == AddEntries(map[], CollectAll(texts[..i]))
      {
        assert testFiles[i].contents == texts[i];
        CollectAllStep(texts, i);
        AddEntriesConcat(map[], CollectAll(texts[..i]), TestBlocks.Collect(texts[i]));
        result := TestBlocks.Scan(testFiles[i].contents, result);
        i := i + 1;
      }
      assert texts[..i] == texts;
    }

    /** `replaceExamples`: every documentation file is rewritten with the examples, and only those files change. */
    method ReplaceExamples(examples: ExampleMap)
      requires Valid()
      modifies documentationFiles
      ensures forall i :: 0 <= i < |documentationFiles| ==>
        documentationFiles[i].contents == DocBlocks.ReplaceExamplesText(old(documentationFiles[i].contents), examples)
    {
      var i := 0;
      while i < |documentationFiles|
        invariant 0 <= i <= |documentationFiles|
        invariant forall j :: 0 <= j < i ==>
          documentationFiles[j].contents == DocBlocks.ReplaceExamplesText(old(documentationFiles[j].contents), examples)
        invariant forall j :: i <= j < |documentationFiles| ==> documentationFiles[j].contents == old(documentationFiles[j].contents)
      {
        var f := documentationFiles[i];
        f.contents := DocBlocks.ReplaceExamplesText(f.contents, examples);
        i := i + 1;
      }
    }

    /**
     * `updateExamples`: the examples are collected from the test files as
     * they were before the call, then every documentation file is rewritten
     * with them.
     */
    method UpdateExamples()
      requires Valid()
      modifies documentationFiles
      ensures forall i :: 0 <= i < |documentationFiles| ==>
        documentationFiles[i].contents
          == DocBlocks.ReplaceExamplesText(old(documentationFiles[i].contents), AddEntries(map[], CollectAll(old(Contents(testFiles)))))
    {
      var examples := CollectExamples();
      ReplaceExamples(examples);
    }

    /** `stringifyValue`: a string is used as it is, any other value is pretty-printed with the configured indent. */
    function StringifyValue(value: Value): (r: string)
      reads this
      ensures value.Str? ==> r == value.s
      ensures !value.Str? ==> r == stringify(value, indent)
    {
      if value.Str? then value.s else stringify(value, indent)
    }

    /**
     * A string value goes into the documentation as it is: when a file's
     * rewrite succeeds, every block anchored with the name keeps its header
     * and closing fence, and its body becomes the text before the token,
     * the string, and the text after the token.
     */
    lemma StringValueInserted(t: string, name: string, token: string, s: string)
      requires TokenReplacer.ReplaceTokenText(t, name, token, StringifyValue(Str(s))).Success?
      ensures var bs := DocBlocks.NamedBlocks(t, name);
        && DocBlocks.Laid(t, 0, bs) && DocBlocks.Inside(t, bs)
        && TokenReplacer.ReplaceTokenText(t, name, token, s).value
             == DocBlocks.Splice(t, 0, bs, TokenReplacer.TokenBodies(t, bs, token, s))
        && TokenReplacer.Inserted(t, bs, token, s, TokenReplacer.TokenBodies(t, bs, token, s))
    {
      assert StringifyValue(Str(s)) == s;
      TokenReplacer.ReplaceTokenSuccess(t, name, token, s);
      var bs := DocBlocks.NamedBlocks(t, name);
      TokenReplacer.TokenBodiesOnce(t, bs, token, s);
    }

    /**
     * `replaceToken`: the documentation files are rewritten in order until
     * one of them throws. The first `rewritten` files have their new
     * contents; when one throws, its error is returned and it and the files
     * after it keep their contents, since nothing is rolled back.
     */
    method ReplaceToken(name: string, token: string, value: Value)
      returns (error: Option<TokenReplacer.TokenError>, ghost rewritten: nat)
      requires Valid()
      modifies documentationFiles
      ensures rewritten <= |documentationFiles|
      ensures var v := StringifyValue(value);
        forall j :: 0 <= j < rewritten ==>
          TokenReplacer.ReplaceTokenText(old(documentationFiles[j].contents), name, token, v).Success?
          && documentationFiles[j].contents == TokenReplacer.ReplaceTokenText(old(documentationFiles[j].contents), name, token, v).value
      ensures forall j :: rewritten <= j < |documentationFiles| ==> documentationFiles[j].contents == old(documentationFiles[j].contents)
      ensures error.None? <==> rewritten == |documentationFiles|
      ensures var v := StringifyValue(value);
        error.Some? ==>
          TokenReplacer.ReplaceTokenText(old(documentationFiles[rewritten].contents), name, token, v)
            == Failure(error.value)
    {
      var v := StringifyValue(value);
      var i := 0;
      while i < |documentationFiles|
        invariant i <= |documentationFiles|
        invariant forall j :: 0 <= j < i ==>
          TokenReplacer.ReplaceTokenText(old(documentationFiles[j].contents), name, token, v).Success?
          && documentationFiles[j].contents == TokenReplacer.ReplaceTokenText(old(documentationFiles[j].contents), name, token, v).value
        invariant forall j :: i <= j < |documentationFiles| ==> documentationFiles[j].contents == old(documentationFiles[j].contents)
      {
        var f := documentationFiles[i];
        var r := TokenReplacer.ReplaceTokenText(f.contents, name, token, v);
        if r.Failure? {
          return Some(r.error), i;
        }
        f.contents := r.value;
        i := i + 1;
      }
      return None, i;
    }
  }
}
