# allowdomains list generator — Dafny model

This project models `convert.py`, the generator that turns the repository's
domain lists into the published artefacts: the sorted `*-raw.lst` lists, the
`*-dnsmasq.lst` directive lists, and the sing-box rule-set documents (JSON),
which are compiled to `.srs` files. The model covers:

- the configuration constants;
- the source-file selection shared by `raw` and `dnsmasq`;
- the per-line normalisation and its decision rule on the label returned by
  the public-suffix extractor;
- the sort, the removal sets and both output formats;
- `domains_from_file`;
- `filter_russia` and the glob matching it relies on;
- the rule-set document;
- `generate_srs_domains`;
- both loops of `generate_srs_for_categories`.

Modules, one file each:

- `Wrappers`: `Option`.
- `Strings`: Python's `str.strip`, reading text-mode lines with universal
  newlines, and `os.path.join` / `os.path.splitext` on POSIX.
- `Ordering`: Python's `<` on `str`, `sorted` of a set, and order-preserving
  subsequences.
- `Config`: the constants of convert.py:15-37.
- `Glob`: `fnmatch.fnmatch` for `*`, `?` and literal patterns, and
  `filter_russia`.
- `Normalize`: the extracted triple and the decision rule of convert.py:84-89.
- `Aggregate`: `raw` and `dnsmasq`.
- `Srs`: `domains_from_file`, `generate_srs_domains`,
  `generate_srs_for_categories`, and the `russia_inside` rule set of the
  main block.

Effects become values or parameters:

- `tldextract.extract` is a function parameter (`Extractor`). The
  public-suffix list is library data.
- The `sing-box rule-set compile` subprocess is a function parameter
  (`Compiler`). It maps the two paths to "exit status 0".
- A source path is given as what the filesystem shows: a directory with its
  children in glob order, a regular file, or neither.
- A file is given as the sequence of lines its text-mode reader yields.
- Written files are returned as values: the text of a list, or a path with
  its rule-set document.
- The entries of a directory (`os.listdir`) are a sequence in listing order.

Loops of the source are methods with loop invariants. Each one is proved
equal to a recursive specification function, and the properties are proved
about those functions as lemmas.

## Model

| member | source | states |
|---|---|---|
| Ordering.SortedList | convert.py:91 | `sorted` of a set of strings is strictly ascending under Python's string order, holds exactly the set's members and has the set's size |
| Ordering.AscendingUnique | convert.py:91 | two strictly ascending sequences with the same members are equal, so the sorted output is determined by the domain set alone |
| Ordering.BelowTotal | convert.py:91 | any two different strings are ordered one way or the other, so sorting adds no ties |
| Ordering.BelowTransitive | convert.py:91 | Python's string `<` is transitive |
| Ordering.AscendingSubsetIsSubseq | convert.py:116 | an ascending list whose entries all occur in another ascending list is an order-preserving subsequence of it |
| Glob.LiteralMatch | convert.py:64 | a pattern without `*`, `?` or `[` matches exactly the name it spells |
| Glob.ContainsMatch | convert.py:29-31 | a pattern `*lit*` matches exactly the names that contain `lit` somewhere |
| Glob.FilterOut | convert.py:64 | the comprehension is a subsequence of its input that keeps every copy of each entry no pattern matches and no copy of an entry some pattern matches |
| Glob.FilterOutMonotone | convert.py:64 | filtering with a superset of the patterns yields a subsequence of filtering with the subset, and never a longer list |
| Glob.RussiaPatternsMeaning | convert.py:28-37 | a name matches one of the eight constant patterns exactly when it contains `youtube`, `tiktok` or `ytimg`, or is one of the five listed host names |
| Glob.PatternMeaning | convert.py:28-37 | each of the first three patterns matches exactly the names containing its word, and each of the other five matches only the name it spells |
| Glob.FilterRussiaSpec | convert.py:62-64 | `filter_russia` output is a subsequence of its input that keeps every copy of each entry that is not a video-service name and drops every copy of each one that is |
| Normalize.SearchOutsideClass | convert.py:86 | the search finds the first character outside `[а-я\-]`, and finds none exactly when the label consists of such characters only (an empty label included) |
| Normalize.DecideSpec | convert.py:85-89 | a line yields a name exactly when its suffix is non-empty and its label is empty or not purely Cyrillic; the name ends with `.` + suffix, ends with label `.` suffix for a non-empty label, and is exactly `.` + suffix for an empty label |
| Normalize.DecisionByLabel | convert.py:85-89 | with a suffix present, a non-Cyrillic label gives the fqdn, an empty label gives `.` + suffix, and a purely Cyrillic non-empty label gives nothing |
| Normalize.NoSuffixDropped | convert.py:84-85 | a line whose extracted suffix is empty contributes nothing |
| Normalize.DecisionExamples | convert.py:84-89 | `cdn.example.com` is kept whole, a bare `ru` gives `.ru`, `почта.ru` is dropped, and `ёлка.рф` is kept because `ё` lies outside `а-я` |
| Strings.StripSpec | convert.py:84 | `strip()` returns the infix left after cutting whitespace from both ends; the result neither starts nor ends with whitespace, and only whitespace was cut |
| Strings.SplitExtSpec | convert.py:170 | root and extension make up the file name; a non-empty extension is one dot followed by no dot, and its root is not only dots; with no extension, every dot in the name has only dots before it |
| Strings.SplitExtAppend | convert.py:184-186 | a root that is not only dots followed by a dot-then-no-dot extension splits back into exactly that root and extension |
| Strings.SplitExtLst | convert.py:170-171 | the extension is `.lst` exactly when the name ends in `.lst` after a stem that is not only dots, and the root is then that stem |
| Strings.PathJoin | convert.py:148-149 | the joined path ends with the second component and is that component when it is absolute; otherwise it is the second component alone under an empty first one, and else the first component, exactly one `/` (the one it already ends with, or a new one), then the second |
| Aggregate.SelectedSpec | convert.py:72-79 | a file is selected exactly when its name is not excluded and it is a given regular file or a child of a given directory; a path that is neither contributes nothing |
| Aggregate.SelectedMember | convert.py:74-79 | the same selection rule for one file, by induction over the source paths |
| Aggregate.SelectFiles | convert.py:72-79 | the selection loop returns the selection in source order, and no selected file has an excluded name |
| Aggregate.FilesDomainsSpec | convert.py:81-89 | a name is in the collected set exactly when some line of some selected file normalises to it |
| Aggregate.CollectDomains | convert.py:81-89 | the reading loop builds exactly the set of names that some line of some file normalises to |
| Aggregate.CollectedDomainsShape | convert.py:85-89 | every collected name ends with a dot followed by a non-empty suffix |
| Aggregate.WriteRaw | convert.py:92-94 | the write loop produces each entry followed by a newline, in order |
| Aggregate.RawTextReadBack | convert.py:92-94 | reading the raw list back line by line yields each entry with its newline, in order, when no entry holds a line break |
| Aggregate.Raw | convert.py:70-94 | the raw list is strictly ascending and holds exactly the names collected from the selected, non-excluded files, one per line |
| Aggregate.WriteDnsmasq | convert.py:117-119 | the write loop produces `domain=/<name>/#` per entry, in order, with no separator |
| Aggregate.Dnsmasq | convert.py:97-119 | the dnsmasq entries are the collected names minus the removal set, strictly ascending; no removed name appears; the text is their directives concatenated |
| Aggregate.DnsmasqRoundTrip | convert.py:119 | the dnsmasq text determines its entry list when no entry contains `#` |
| Aggregate.ParseDirective | convert.py:119 | one directive `domain=/<name>/#` at the front of a text parses back to `<name>` followed by the parse of the rest |
| Aggregate.DnsmasqNoNewline | convert.py:119 | the dnsmasq text is a single line unless an entry brings a newline |
| Aggregate.DnsmasqExample | convert.py:119 | the entries `a.com`, `b.com` give exactly `domain=/a.com/#domain=/b.com/#` |
| Aggregate.RemoveMonotone | convert.py:116 | a larger removal set gives a subsequence of the entries of a smaller one |
| Aggregate.RemovalSetsNested | convert.py:18-23 | the Mikrotik and Kvas removal sets contain the default one |
| Srs.RuleDocumentRoundTrip | convert.py:143-146 | the rule-set document has version 3 and a single rule whose `domain_suffix` is exactly the given list |
| Srs.StrippedLinesSpec | convert.py:129-132 | the kept entries are non-empty and stripped; an entry is kept exactly when it is the non-empty strip of some line; there are never more entries than lines |
| Srs.StrippedLinesShape | convert.py:129-132 | every kept entry is non-empty and stripped, and there are never more entries than lines |
| Srs.StrippedLinesMembers | convert.py:129-132 | an entry is kept exactly when it is the non-empty strip of some line |
| Srs.StrippedLinesInOrder | convert.py:129-132 | the kept entries are a subsequence of the stripped lines in file order that holds every non-empty stripped line as often as it occurs, and no empty one |
| Srs.DomainsFromFile | convert.py:125-135 | a missing file gives the empty list; otherwise the non-blank stripped lines in file order, each non-empty and stripped |
| Srs.RussiaInsideRuleSet | convert.py:222-225 | for a raw list whose entries are strictly ascending, non-empty, stripped and free of line breaks, reading it back and filtering it gives exactly the raw entries that are not video-service names, still strictly ascending, and that list is what the rule set holds |
| Srs.GenerateSrsDomainsSpec | convert.py:143-156 | the JSON path ends with `<name>.json` and, for a name not starting with `/`, starts with the JSON directory; the document holds the given list; the compiler is run on that same JSON path with a target that ends with `<name>.srs` and starts with the SRS directory; for such a name each path is its directory, exactly one `/`, then the file name |
| Srs.DefaultOutputPaths | convert.py:138-149 | with the default directories, a name not starting with `/` is written to `JSON/<name>.json` and compiled to `SRS/<name>.srs` |
| Srs.CategoryFileRule | convert.py:170-172 | a directory entry is processed exactly when it ends in `.lst` after a stem that is not only dots and that stem contains none of the seven keywords |
| Srs.CategoryWritesSpec | convert.py:168-179 | a JSON file is written exactly for each processed entry of each directory, holding that entry's non-blank stripped lines |
| Srs.WriteDirDocuments | convert.py:169-179 | the loop over one directory's entries writes one document per processed entry, in listing order, and nothing for a skipped entry |
| Srs.WriteCategoryDocuments | convert.py:168-179 | the category loop writes the documents in directory order, then listing order |
| Srs.CompileSweepSpec | convert.py:183-191 | the sweep makes one compile attempt for each listing entry ending in `.json` and for nothing else; an attempt that exits with a non-zero status does not stop it |
| Srs.CompileAll | convert.py:183-191 | the compile loop makes the attempts of the sweep, in listing order |
| Srs.GenerateSrsForCategories | convert.py:162-191 | the writes are exactly those of the processed lists, and the compile attempts are exactly one per `.json` entry of the listing |
| Srs.SweepCoversWrites | convert.py:177-188 | a processed list whose JSON file appears in the listing is written and gets a compile attempt on that very path, with target `<stem>.srs` in the SRS directory |
| Srs.JsonNameOfList | convert.py:177-186 | the JSON name written for a processed list ends in `.json`, and splitting it again gives back the list's stem |

## Left out

- Downloading the Ukrainian lists (convert.py:201-202): network I/O. The downloaded files enter the model as ordinary source files.
- The `__main__` orchestration (convert.py:196-235), the `print` logging, `os.makedirs` and `Path.mkdir`: these are effects with no result to state. Only the `russia_inside` chain of lines 222-225 is modelled, as `Srs.RussiaInsideRuleSet`.
- The `clashx`, `kvas` and `mikrotik_fwd` generators: their code is not part of this model. Their removal sets are modelled as constants.
- `tldextract` and its public-suffix list: a parameter. `Fqdn` joins the non-empty parts of the triple with dots, as `ExtractResult.fqdn` does. Its empty-result guard for a missing label or suffix never applies, because the rule uses the fqdn only when the suffix is non-empty and the label holds a character outside the class.
- The `sing-box` binary: a parameter giving the exit status. Its output file and its messages are not modelled.
- JSON text: documents are modelled as structures. The `indent=4` rendering is not modelled.
- Filesystem order: glob order and `os.listdir` order are given as sequences.
- The JSON directory listing after the writes is a parameter of `GenerateSrsForCategories`. The model does not derive it from the writes, so stale `.json` files left by an earlier run are covered only by taking the listing as given.
- A directory child is assumed to be a regular file. Python would raise when opening a subdirectory found by `glob('*')`.
- The `isinstance(src, list)` guard (convert.py:73, 100): `src` is always a list here. A non-list `src` selects no files, which the model does not represent.
- `fnmatch` character classes `[...]` and `os.path.normcase`: no constant pattern uses a class, and normcase is the identity on POSIX.
- Starting `sing-box` (convert.py:156, 188) and listing a category directory (convert.py:169) can raise `OSError`, including `FileNotFoundError` when the binary or the directory is missing. Nothing catches these, so the run aborts. The model does not represent this: `Compiler` gives an exit status for every call, and every directory comes with its listing. The statement that a failed attempt does not stop the sweep covers only a non-zero exit.
- The directory path of a category directory is used only to open its entries (convert.py:173). The files enter the model already read, so `CategoryDir` holds only its entries.
- Exceptions other than `FileNotFoundError` in `domains_from_file` are not modelled. A `UnicodeDecodeError`, or a category list that vanishes while being read, would abort the run.
- Text decoding: files are given as decoded lines.
- Idempotence of a whole run depends on the extractor and the filesystem. The model states the determinism part: `Ordering.AscendingUnique` shows the sorted output depends only on the domain set.
- `Srs.WriteCategoryDocuments`: two directories holding lists with the same stem each produce a write of the same JSON path. The model returns both writes in order, and the later one is the file that remains.
- `Aggregate.SelectedSpec`: a source path that is neither a directory nor a regular file is skipped silently and contributes nothing (convert.py:76-79); no error is modelled for it.
- `Srs.RussiaInsideRuleSet`: it assumes the raw entries are non-empty, stripped and free of line breaks. `Aggregate.Raw` does not establish this, because the extractor is a parameter and may return such names.
- `Srs.CategoryFileRule`: the keyword test applies to the stem returned by `os.path.splitext`, not to the whole file name. This follows the code.
