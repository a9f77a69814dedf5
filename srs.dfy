/**
 * Rule-set generation: reading a domain list back (`domains_from_file`),
 * the rule-set document, the per-category batch and the compile sweep over
 * the JSON directory. The external compiler is a function from the JSON
 * path and the target path to "exit status was 0".
 */
module Srs {

  import opened Wrappers
  import opened Strings
  import opened Ordering
  import opened Config
  import opened Glob
  import opened Aggregate

  datatype Rule = Rule(domainSuffix: seq<string>)

  /** The JSON document handed to the compiler, as a structure (its text rendering is not modelled). */
  datatype RuleSet = RuleSet(version: int, rules: seq<Rule>)

  /** `{"version": 3, "rules": [{"domain_suffix": domains}]}`. */
  function RuleDocument(domains: seq<string>): RuleSet
  {
    RuleSet(3, [Rule(domains)])
  }

  /** The domain list of a document of the shape `RuleDocument` builds. */
  function DocumentDomains(doc: RuleSet): Option<seq<string>>
  {
    if doc.version == 3 && |doc.rules| == 1 then Some(doc.rules[0].domainSuffix) else None
  }

  /** Every document built has version 3 and one rule holding exactly the input list. */
  lemma RuleDocumentRoundTrip(domains: seq<string>)
    ensures RuleDocument(domains).version == 3 && |RuleDocument(domains).rules| == 1
    ensures DocumentDomains(RuleDocument(domains)) == Some(domains)
  {
  }

  // ---------------------------------------------------------------------------
  // domains_from_file (convert.py:125-135) and the comprehension of line 174
  // ---------------------------------------------------------------------------

  /** The stripped lines that are not empty, in file order. */
  function StrippedLines(lines: seq<string>): seq<string>
  {
    if lines == [] then []
    else
      var n := |lines| - 1;
      StrippedLines(lines[..n]) + (if Strip(lines[n]) == [] then [] else [Strip(lines[n])])
  }

  /** Some line of `lines` strips to `d`. */
  predicate SomeLineStripsTo(lines: seq<string>, d: string)
  {
    exists j :: 0 <= j < |lines| && Strip(lines[j]) == d
  }

  /**
   * Every kept entry is a non-empty stripped line of the file, and every line
   * that is not blank is kept.
   */
  lemma StrippedLinesSpec(lines: seq<string>)
    ensures |StrippedLines(lines)| <= |lines|
    ensures forall d :: d in StrippedLines(lines) ==> d != [] && IsStripped(d)
    ensures forall d :: d in StrippedLines(lines) <==> d != [] && SomeLineStripsTo(lines, d)
  {
    StrippedLinesShape(lines);
    StrippedLinesMembers(lines);
  }

  lemma {:induction false} StrippedLinesShape(lines: seq<string>)
    ensures |StrippedLines(lines)| <= |lines|
    ensures forall d :: d in StrippedLines(lines) ==> d != [] && IsStripped(d)
  {
    if lines != [] {
      var n := |lines| - 1;
      StrippedLinesShape(lines[..n]);
      StripSpec(lines[n]);
    }
  }

  lemma {:induction false} StrippedLinesMembers(lines: seq<string>)
    ensures forall d :: d in StrippedLines(lines) <==> d != [] && SomeLineStripsTo(lines, d)
  {
    if lines != [] {
      var n := |lines| - 1;
      var prefix := lines[..n];
      StrippedLinesMembers(prefix);
      assert StrippedLines(lines) == StrippedLines(prefix) + (if Strip(lines[n]) == [] then [] else [Strip(lines[n])]);
      forall d ensures d in StrippedLines(lines) <==> d != [] && SomeLineStripsTo(lines, d)
      {
        if d != [] && SomeLineStripsTo(lines, d) {
          var j :| 0 <= j < |lines| && Strip(lines[j]) == d;
          if j < n {
            assert prefix[j] == lines[j];
            assert SomeLineStripsTo(prefix, d);
          }
        }
        if d in StrippedLines(prefix) {
          var j :| 0 <= j < n && Strip(prefix[j]) == d;
          assert lines[j] == prefix[j];
        }
      }
    }
  }

  /** Every line stripped, blank or not. */
  function StripAll(lines: seq<string>): seq<string>
  {
    seq(|lines|, i requires 0 <= i < |lines| => Strip(lines[i]))
  }

  /**
   * The kept entries are the stripped lines in file order with exactly the
   * blank ones left out: every non-blank line is kept, repeats included.
   */
  lemma StrippedLinesInOrder(lines: seq<string>)
    ensures IsSubseq(StrippedLines(lines), StripAll(lines))
    ensures forall d :: d != [] ==> multiset(StrippedLines(lines))[d] == multiset(StripAll(lines))[d]
    ensures multiset(StrippedLines(lines))[[]] == 0
  {
    StrippedLinesSubseq(lines);
    StrippedLinesCounts(lines);
  }

  lemma {:induction false} StrippedLinesSubseq(lines: seq<string>)
    ensures IsSubseq(StrippedLines(lines), StripAll(lines))
  {
    if lines != [] {
      var n := |lines| - 1;
      StrippedLinesSubseq(lines[..n]);
      assert StripAll(lines) == StripAll(lines[..n]) + [Strip(lines[n])];
      SubseqAppend(StrippedLines(lines[..n]), StripAll(lines[..n]), Strip(lines[n]));
      if Strip(lines[n]) == [] {
        assert StrippedLines(lines) == StrippedLines(lines[..n]);
      } else {
        assert StrippedLines(lines) == StrippedLines(lines[..n]) + [Strip(lines[n])];
      }
    }
  }

  lemma {:induction false} StrippedLinesCounts(lines: seq<string>)
    ensures forall d :: d != [] ==> multiset(StrippedLines(lines))[d] == multiset(StripAll(lines))[d]
    ensures multiset(StrippedLines(lines))[[]] == 0
  {
    StrippedIsWithout(lines);
    WithoutCounts(StripAll(lines), []);
  }

  /** `xs` with every occurrence of `blank` left out. */
  function Without<T(==)>(xs: seq<T>, blank: T): seq<T>
  {
    if xs == [] then []
    else
      var n := |xs| - 1;
      Without(xs[..n], blank) + (if xs[n] == blank then [] else [xs[n]])
  }

  lemma {:induction false} StrippedIsWithout(lines: seq<string>)
    ensures StrippedLines(lines) == Without(StripAll(lines), [])
  {
    if lines != [] {
      var n := |lines| - 1;
      StrippedIsWithout(lines[..n]);
      var all := StripAll(lines);
      assert all[..n] == StripAll(lines[..n]);
      assert all[n] == Strip(lines[n]);
    }
  }

  lemma {:induction false} WithoutCounts<T>(xs: seq<T>, blank: T)
    ensures forall d :: d != blank ==> multiset(Without(xs, blank))[d] == multiset(xs)[d]
    ensures multiset(Without(xs, blank))[blank] == 0
  {
    if xs != [] {
      var n := |xs| - 1;
      WithoutCounts(xs[..n], blank);
      assert xs == xs[..n] + [xs[n]];
      CountsStep(Without(xs[..n], blank), xs[..n], xs[n], if xs[n] == blank then [] else [xs[n]], blank);
    }
  }

  /** Appending `x` to both sides, or dropping it when it is `blank`, keeps the counts of the other values equal. */
  lemma CountsStep<T>(kept: seq<T>, all: seq<T>, x: T, tail: seq<T>, blank: T)
    requires forall d :: d != blank ==> multiset(kept)[d] == multiset(all)[d]
    requires multiset(kept)[blank] == 0
    requires tail == if x == blank then [] else [x]
    ensures forall d :: d != blank ==> multiset(kept + tail)[d] == multiset(all + [x])[d]
    ensures multiset(kept + tail)[blank] == 0
  {
    assert multiset(kept + tail) == multiset(kept) + multiset(tail);
    assert multiset(all + [x]) == multiset(all) + multiset{x};
  }

  /**
   * `domains_from_file`: `file` is `None` when opening raises
   * `FileNotFoundError`, which yields the empty list.
   */
  method DomainsFromFile(file: Option<seq<string>>) returns (domains: seq<string>)
    ensures file.None? ==> domains == []
    ensures file.Some? ==> domains == StrippedLines(file.value)
    ensures forall d :: d in domains ==> d != [] && IsStripped(d)
    ensures file.Some? ==> IsSubseq(domains, StripAll(file.value))
  {
    domains := [];
    if file.Some? {
      var lines := file.value;
      for i := 0 to |lines|
        invariant domains == StrippedLines(lines[..i])
      {
        assert lines[..i + 1][..i] == lines[..i];
        var d := Strip(lines[i]);
        if d != [] {
          domains := domains + [d];
        }
      }
      assert lines[..|lines|] == lines;
      StrippedLinesSpec(lines);
      StrippedLinesInOrder(lines);
    }
  }

  /** A non-empty stripped entry comes back unchanged from a line holding it and a newline. */
  lemma StripTerminated(e: string)
    requires e != [] && IsStripped(e) && HasNoLineBreak(e)
    ensures Strip(e + "\n") == e
  {
    var t := e + "\n";
    assert !IsSpace(t[0]);
    assert LStrip(t) == t;
    assert IsSpace(t[|t| - 1]);
    assert t[..|t| - 1] == e;
    assert RStrip(e) == e;
  }

  lemma {:induction false} StrippedTerminated(entries: seq<string>)
    requires forall i :: 0 <= i < |entries| ==> entries[i] != [] && IsStripped(entries[i]) && HasNoLineBreak(entries[i])
    ensures StrippedLines(Terminated(entries)) == entries
  {
    if entries != [] {
      var n := |entries| - 1;
      var lines := Terminated(entries);
      assert lines[..n] == Terminated(entries[..n]);
      StrippedTerminated(entries[..n]);
      StripTerminated(entries[n]);
      assert lines[n] == entries[n] + "\n";
      assert entries == entries[..n] + [entries[n]];
    }
  }

  /**
   * The `russia_inside` rule set: reading `Russia/inside-raw.lst` back and
   * filtering it gives the raw entries without the video-service names,
   * still strictly ascending.
   */
  lemma RussiaInsideRuleSet(entries: seq<string>)
    requires Ascending(entries)
    requires forall i :: 0 <= i < |entries| ==> entries[i] != [] && IsStripped(entries[i]) && HasNoLineBreak(entries[i])
    ensures DocumentDomains(RuleDocument(FilterRussia(StrippedLines(ReadLines(RawText(entries)))))) == Some(FilterRussia(entries))
    ensures Ascending(FilterRussia(entries))
    ensures forall d :: d in FilterRussia(entries) <==> d in entries && !IsRussiaVideoDomain(d)
  {
    RawTextReadBack(entries);
    StrippedTerminated(entries);
    FilterRussiaSpec(entries);
    SubseqAscending(FilterRussia(entries), entries);
  }

  // ---------------------------------------------------------------------------
  // generate_srs_domains (convert.py:138-159)
  // ---------------------------------------------------------------------------

  /** One call of the compiler: its two paths and whether it exited with status 0. */
  datatype CompileResult = CompileResult(jsonPath: string, srsPath: string, ok: bool)

  /** Whether `sing-box rule-set compile <json> -o <srs>` succeeds. */
  type Compiler = (string, string) -> bool

  datatype JsonWrite = JsonWrite(path: string, doc: RuleSet)

  datatype SrsOutput = SrsOutput(json: JsonWrite, compiled: CompileResult)

  /** The JSON file written and the compile attempt made; a failed compile is only reported. */
  function GenerateSrsDomains(domains: seq<string>, outputName: string, jsonDir: string, srsDir: string,
                              compile: Compiler): SrsOutput
  {
    var jsonPath := PathJoin(jsonDir, outputName + ".json");
    var srsPath := PathJoin(srsDir, outputName + ".srs");
    SrsOutput(JsonWrite(jsonPath, RuleDocument(domains)),
              CompileResult(jsonPath, srsPath, compile(jsonPath, srsPath)))
  }

  /** The compiler reads the JSON file just written, and the document holds the given list. */
  lemma GenerateSrsDomainsSpec(domains: seq<string>, outputName: string, jsonDir: string, srsDir: string,
                               compile: Compiler)
    ensures GenerateSrsDomains(domains, outputName, jsonDir, srsDir, compile).compiled.jsonPath
            == GenerateSrsDomains(domains, outputName, jsonDir, srsDir, compile).json.path
    ensures EndsWith(GenerateSrsDomains(domains, outputName, jsonDir, srsDir, compile).json.path, outputName + ".json")
    ensures !StartsWith(outputName, "/") ==>
              StartsWith(GenerateSrsDomains(domains, outputName, jsonDir, srsDir, compile).json.path, jsonDir) &&
              StartsWith(GenerateSrsDomains(domains, outputName, jsonDir, srsDir, compile).compiled.srsPath, srsDir)
    ensures EndsWith(GenerateSrsDomains(domains, outputName, jsonDir, srsDir, compile).compiled.srsPath, outputName + ".srs")
    ensures DocumentDomains(GenerateSrsDomains(domains, outputName, jsonDir, srsDir, compile).json.doc) == Some(domains)
    ensures !StartsWith(outputName, "/") ==>
              JoinedUnder(GenerateSrsDomains(domains, outputName, jsonDir, srsDir, compile).json.path,
                          jsonDir, outputName + ".json") &&
              JoinedUnder(GenerateSrsDomains(domains, outputName, jsonDir, srsDir, compile).compiled.srsPath,
                          srsDir, outputName + ".srs")
  {
    if !StartsWith(outputName, "/") {
      RelativeStaysRelative(outputName, ".json");
      RelativeStaysRelative(outputName, ".srs");
    }
  }

  /**
   * With the default directories, as in the calls of convert.py:225-231, a
   * name not starting with `/` is written to `JSON/<name>.json` and compiled
   * to `SRS/<name>.srs`.
   */
  lemma DefaultOutputPaths(domains: seq<string>, outputName: string, compile: Compiler)
    ensures !StartsWith(outputName, "/") ==>
              GenerateSrsDomains(domains, outputName, "JSON", "SRS", compile).json.path == "JSON/" + outputName + ".json" &&
              GenerateSrsDomains(domains, outputName, "JSON", "SRS", compile).compiled.srsPath == "SRS/" + outputName + ".srs"
  {
    if !StartsWith(outputName, "/") {
      RelativeStaysRelative(outputName, ".json");
      RelativeStaysRelative(outputName, ".srs");
      assert "JSON" + "/" + (outputName + ".json") == "JSON/" + outputName + ".json";
      assert "SRS" + "/" + (outputName + ".srs") == "SRS/" + outputName + ".srs";
    }
  }

  /** Appending a relative suffix to a name that does not start with `/` gives a name that does not either. */
  lemma RelativeStaysRelative(name: string, ext: string)
    requires !StartsWith(name, "/") && (ext == [] || ext[0] != '/')
    ensures !StartsWith(name + ext, "/")
  {
    if name != [] {
      assert (name + ext)[..1] == name[..1];
    } else {
      assert name + ext == ext;
      if ext != [] {
        assert ext[..1] == [ext[0]];
      }
    }
  }

  // ---------------------------------------------------------------------------
  // generate_srs_for_categories (convert.py:162-191)
  // ---------------------------------------------------------------------------

  /** The skip test of convert.py:171 on a directory entry name. */
  predicate SkipCategoryFile(fname: string)
  {
    var (name, ext) := SplitExt(fname);
    ext != ".lst" || exists k :: k in CategoryExcludeKeywords && IsInfix(k, name)
  }

  /**
   * A file is processed exactly when its name ends in `.lst` after a stem
   * that is not only dots, and that stem contains none of the keywords.
   */
  lemma CategoryFileRule(fname: string)
    ensures !SkipCategoryFile(fname) <==>
              EndsWith(fname, ".lst") && !OnlyDotsBefore(fname, |fname| - 4) &&
              forall k :: k in CategoryExcludeKeywords ==> !IsInfix(k, fname[..|fname| - 4])
  {
    SplitExtLst(fname);
  }

  /** A directory scanned for category lists: its entries in `os.listdir` order. */
  datatype CategoryDir = CategoryDir(files: seq<SourceFile>)

  /** The JSON file written for one processed list. */
  function CategoryWrite(jsonDir: string, f: SourceFile): JsonWrite
  {
    JsonWrite(PathJoin(jsonDir, SplitExt(f.name).0 + ".json"), RuleDocument(StrippedLines(f.lines)))
  }

  /** What the loop body writes for one directory entry: nothing for a skipped name. */
  type Emit = SourceFile -> seq<JsonWrite>

  function CategoryEmit(jsonDir: string): Emit
  {
    (f: SourceFile) => if SkipCategoryFile(f.name) then [] else [CategoryWrite(jsonDir, f)]
  }

  /** The writes for the entries of one directory, in listing order. */
  function FilesOutput(emit: Emit, files: seq<SourceFile>): seq<JsonWrite>
  {
    if files == [] then []
    else
      var n := |files| - 1;
      FilesOutput(emit, files[..n]) + emit(files[n])
  }

  /** The writes for all directories, in the order given. */
  function DirsOutput(emit: Emit, dirs: seq<CategoryDir>): seq<JsonWrite>
  {
    if dirs == [] then []
    else
      var n := |dirs| - 1;
      DirsOutput(emit, dirs[..n]) + FilesOutput(emit, dirs[n].files)
  }

  /** The JSON files the first loop of `generate_srs_for_categories` writes, in order. */
  function CategoryWrites(jsonDir: string, dirs: seq<CategoryDir>): seq<JsonWrite>
  {
    DirsOutput(CategoryEmit(jsonDir), dirs)
  }

  predicate EmittedIn(emit: Emit, files: seq<SourceFile>, w: JsonWrite)
  {
    exists f :: f in files && w in emit(f)
  }

  predicate Emitted(emit: Emit, dirs: seq<CategoryDir>, w: JsonWrite)
  {
    exists i :: 0 <= i < |dirs| && EmittedIn(emit, dirs[i].files, w)
  }

  lemma {:induction false} FilesOutputMember(emit: Emit, files: seq<SourceFile>, w: JsonWrite)
    ensures w in FilesOutput(emit, files) <==> EmittedIn(emit, files, w)
  {
    if files != [] {
      var n := |files| - 1;
      FilesOutputMember(emit, files[..n], w);
      assert files == files[..n] + [files[n]];
    }
  }

  lemma EmittedSnoc(emit: Emit, dirs: seq<CategoryDir>, w: JsonWrite)
    requires dirs != []
    ensures Emitted(emit, dirs, w) <==>
            Emitted(emit, dirs[..|dirs| - 1], w) || EmittedIn(emit, dirs[|dirs| - 1].files, w)
  {
    var n := |dirs| - 1;
    var prefix := dirs[..n];
    if Emitted(emit, dirs, w) {
      var i :| 0 <= i < |dirs| && EmittedIn(emit, dirs[i].files, w);
      if i < n {
        assert prefix[i] == dirs[i];
      }
    }
    if Emitted(emit, prefix, w) {
      var i :| 0 <= i < n && EmittedIn(emit, prefix[i].files, w);
      assert dirs[i] == prefix[i];
    }
  }

  lemma {:induction false} DirsOutputMember(emit: Emit, dirs: seq<CategoryDir>, w: JsonWrite)
    ensures w in DirsOutput(emit, dirs) <==> Emitted(emit, dirs, w)
  {
    if dirs != [] {
      var n := |dirs| - 1;
      DirsOutputMember(emit, dirs[..n], w);
      FilesOutputMember(emit, dirs[n].files, w);
      EmittedSnoc(emit, dirs, w);
    }
  }

  /** `w` is the write for a processed list `f` of one of the directories. */
  predicate WrittenFor(jsonDir: string, dirs: seq<CategoryDir>, w: JsonWrite)
  {
    exists i, f :: 0 <= i < |dirs| && f in dirs[i].files && !SkipCategoryFile(f.name) &&
                   w == CategoryWrite(jsonDir, f)
  }

  /**
   * A JSON file is written exactly for each processed list of each
   * directory, and it holds that list's non-blank stripped lines.
   */
  lemma CategoryWritesSpec(jsonDir: string, dirs: seq<CategoryDir>)
    ensures forall w :: w in CategoryWrites(jsonDir, dirs) <==> WrittenFor(jsonDir, dirs, w)
  {
    forall w ensures w in CategoryWrites(jsonDir, dirs) <==> WrittenFor(jsonDir, dirs, w) {
      DirsOutputMember(CategoryEmit(jsonDir), dirs, w);
      EmittedIsWritten(jsonDir, dirs, w);
    }
  }

  /** The generic membership of the emitted writes, read for the category emitter. */
  lemma EmittedIsWritten(jsonDir: string, dirs: seq<CategoryDir>, w: JsonWrite)
    ensures Emitted(CategoryEmit(jsonDir), dirs, w) <==> WrittenFor(jsonDir, dirs, w)
  {
    var emit := CategoryEmit(jsonDir);
    if Emitted(emit, dirs, w) {
      var i :| 0 <= i < |dirs| && EmittedIn(emit, dirs[i].files, w);
      var f :| f in dirs[i].files && w in emit(f);
      EmitMember(jsonDir, f, w);
    }
    if WrittenFor(jsonDir, dirs, w) {
      var i, f :| 0 <= i < |dirs| && f in dirs[i].files && !SkipCategoryFile(f.name) &&
                  w == CategoryWrite(jsonDir, f);
      EmitMember(jsonDir, f, w);
      assert EmittedIn(emit, dirs[i].files, w);
    }
  }

  lemma EmitMember(jsonDir: string, f: SourceFile, w: JsonWrite)
    ensures w in CategoryEmit(jsonDir)(f) <==> !SkipCategoryFile(f.name) && w == CategoryWrite(jsonDir, f)
  {
  }

  /** The inner loop over one directory's entries: skipped names write nothing. */
  method WriteDirDocuments(jsonDir: string, files: seq<SourceFile>) returns (writes: seq<JsonWrite>)
    ensures writes == FilesOutput(CategoryEmit(jsonDir), files)
  {
    ghost var emit := CategoryEmit(jsonDir);
    writes := [];
    for j := 0 to |files|
      invariant writes == FilesOutput(emit, files[..j])
    {
      assert files[..j + 1][..j] == files[..j];
      var f := files[j];
      if SkipCategoryFile(f.name) {
        assert emit(f) == [];
        continue;
      }
      var w := CategoryWrite(jsonDir, f);
      assert emit(f) == [w];
      writes := writes + [w];
    }
    assert files[..|files|] == files;
  }

  /** The loop that writes one JSON file per processed list. */
  method WriteCategoryDocuments(jsonDir: string, dirs: seq<CategoryDir>) returns (writes: seq<JsonWrite>)
    ensures writes == CategoryWrites(jsonDir, dirs)
  {
    ghost var emit := CategoryEmit(jsonDir);
    writes := [];
    for i := 0 to |dirs|
      invariant writes == DirsOutput(emit, dirs[..i])
    {
      assert dirs[..i + 1][..i] == dirs[..i];
      var dirWrites := WriteDirDocuments(jsonDir, dirs[i].files);
      writes := writes + dirWrites;
    }
    assert dirs[..|dirs|] == dirs;
  }

  /** The compile attempt for one entry of the JSON directory. */
  function CompileOne(jf: string, jsonDir: string, srsDir: string, compile: Compiler): CompileResult
  {
    var jp := PathJoin(jsonDir, jf);
    var sp := PathJoin(srsDir, SplitExt(jf).0 + ".srs");
    CompileResult(jp, sp, compile(jp, sp))
  }

  /** The attempts of the compile sweep over a directory listing, in listing order. */
  function CompileSweep(listing: seq<string>, jsonDir: string, srsDir: string, compile: Compiler): seq<CompileResult>
  {
    if listing == [] then []
    else
      var n := |listing| - 1;
      CompileSweep(listing[..n], jsonDir, srsDir, compile) +
      (if EndsWith(listing[n], ".json") then [CompileOne(listing[n], jsonDir, srsDir, compile)] else [])
  }

  /**
   * The sweep attempts every `.json` entry of the listing and nothing else; a
   * failed compile does not stop it.
   */
  lemma {:induction false} CompileSweepSpec(listing: seq<string>, jsonDir: string, srsDir: string, compile: Compiler)
    ensures forall r :: r in CompileSweep(listing, jsonDir, srsDir, compile) <==>
              exists jf :: jf in listing && EndsWith(jf, ".json") && r == CompileOne(jf, jsonDir, srsDir, compile)
  {
    if listing != [] {
      var n := |listing| - 1;
      CompileSweepSpec(listing[..n], jsonDir, srsDir, compile);
      assert listing == listing[..n] + [listing[n]];
    }
  }

  /** The compile loop over the JSON directory. */
  method CompileAll(listing: seq<string>, jsonDir: string, srsDir: string, compile: Compiler)
    returns (results: seq<CompileResult>)
    ensures results == CompileSweep(listing, jsonDir, srsDir, compile)
  {
    results := [];
    for i := 0 to |listing|
      invariant results == CompileSweep(listing[..i], jsonDir, srsDir, compile)
    {
      assert listing[..i + 1][..i] == listing[..i];
      var jf := listing[i];
      if EndsWith(jf, ".json") {
        var jp := PathJoin(jsonDir, jf);
        var sp := PathJoin(srsDir, SplitExt(jf).0 + ".srs");
        var ok := compile(jp, sp);
        results := results + [CompileResult(jp, sp, ok)];
      }
    }
    assert listing[..|listing|] == listing;
  }

  /**
   * `generate_srs_for_categories`: the JSON files written for the processed
   * lists, then the compile attempts over `listing`, the entries of the JSON
   * directory after the writes (in `os.listdir` order).
   */
  method GenerateSrsForCategories(dirs: seq<CategoryDir>, jsonDir: string, srsDir: string,
                                  listing: seq<string>, compile: Compiler)
    returns (writes: seq<JsonWrite>, results: seq<CompileResult>)
    ensures writes == CategoryWrites(jsonDir, dirs)
    ensures results == CompileSweep(listing, jsonDir, srsDir, compile)
    ensures forall w :: w in writes <==> WrittenFor(jsonDir, dirs, w)
    ensures forall r :: r in results <==>
              exists jf :: jf in listing && EndsWith(jf, ".json") && r == CompileOne(jf, jsonDir, srsDir, compile)
  {
    writes := WriteCategoryDocuments(jsonDir, dirs);
    results := CompileAll(listing, jsonDir, srsDir, compile);
    CategoryWritesSpec(jsonDir, dirs);
    CompileSweepSpec(listing, jsonDir, srsDir, compile);
  }

  /**
   * Every JSON file written for a category is compiled when the directory
   * listing shows it, whatever the other compiles do.
   */
  lemma SweepCoversWrites(dirs: seq<CategoryDir>, jsonDir: string, srsDir: string,
                          listing: seq<string>, compile: Compiler, f: SourceFile, i: nat)
    requires i < |dirs| && f in dirs[i].files && !SkipCategoryFile(f.name)
    requires SplitExt(f.name).0 + ".json" in listing
    ensures CategoryWrite(jsonDir, f) in CategoryWrites(jsonDir, dirs)
    ensures exists r :: r in CompileSweep(listing, jsonDir, srsDir, compile) &&
                        r.jsonPath == CategoryWrite(jsonDir, f).path &&
                        r.srsPath == PathJoin(srsDir, SplitExt(f.name).0 + ".srs")
  {
    CategoryWritesSpec(jsonDir, dirs);
    assert WrittenFor(jsonDir, dirs, CategoryWrite(jsonDir, f));
    CompileSweepSpec(listing, jsonDir, srsDir, compile);
    var jf := SplitExt(f.name).0 + ".json";
    JsonNameOfList(f.name);
    assert CompileOne(jf, jsonDir, srsDir, compile) in CompileSweep(listing, jsonDir, srsDir, compile);
  }

  /**
   * The JSON name written for a processed list ends in `.json`, and the sweep
   * splits it back into the list's stem.
   */
  lemma JsonNameOfList(fname: string)
    requires !SkipCategoryFile(fname)
    ensures EndsWith(SplitExt(fname).0 + ".json", ".json")
    ensures SplitExt(SplitExt(fname).0 + ".json").0 == SplitExt(fname).0
  {
    var stem := SplitExt(fname).0;
    var jf := stem + ".json";
    assert jf[|jf| - 5..] == ".json";
    SplitExtSpec(fname);
    assert !OnlyDotsBefore(stem, |stem|) by {
      assert forall i :: 0 <= i < |stem| ==> stem[i] == fname[i];
    }
    SplitExtAppend(stem, ".json");
  }
}
