/**
 * The `raw` and `dnsmasq` list generators: source selection, per-line
 * normalisation into a domain set, sorting, exclusion and the two text
 * formats they write.
 */
module Aggregate {

  import opened Wrappers
  import opened Strings
  import opened Ordering
  import opened Config
  import opened Normalize

  /** A readable file: its base name and its lines as the text-mode reader yields them. */
  datatype SourceFile = SourceFile(name: string, lines: seq<string>)

  /**
   * What a source path turns out to be: a directory with its children in
   * glob order, a regular file, or neither (a path that does not exist).
   */
  datatype SourcePath = Directory(children: seq<SourceFile>) | RegularFile(file: SourceFile) | Absent

  // ---------------------------------------------------------------------------
  // File selection (convert.py:72-79)
  // ---------------------------------------------------------------------------

  /** The children of a directory whose names are not excluded, in glob order. */
  function KeptChildren(children: seq<SourceFile>, excluded: set<string>): seq<SourceFile>
  {
    if children == [] then []
    else
      var n := |children| - 1;
      KeptChildren(children[..n], excluded) +
      (if children[n].name in excluded then [] else [children[n]])
  }

  /** The files one source path contributes. */
  function FromPath(p: SourcePath, excluded: set<string>): seq<SourceFile>
  {
    match p
    case Directory(children) => KeptChildren(children, excluded)
    case RegularFile(f) => if f.name in excluded then [] else [f]
    case Absent => []
  }

  /** The `files` list after the selection loop over `src`. */
  function Selected(src: seq<SourcePath>, excluded: set<string>): seq<SourceFile>
  {
    if src == [] then []
    else
      var n := |src| - 1;
      Selected(src[..n], excluded) + FromPath(src[n], excluded)
  }

  /** Where a file can come from: a regular-file path or a child of a directory path. */
  predicate Reaches(p: SourcePath, f: SourceFile)
  {
    p == RegularFile(f) || (p.Directory? && f in p.children)
  }

  lemma {:induction false} KeptChildrenSpec(children: seq<SourceFile>, excluded: set<string>)
    ensures forall f :: f in KeptChildren(children, excluded) <==> f in children && f.name !in excluded
  {
    if children != [] {
      var n := |children| - 1;
      KeptChildrenSpec(children[..n], excluded);
      assert children == children[..n] + [children[n]];
    }
  }

  /**
   * A file is selected exactly when some source path reaches it and its name
   * is not excluded: an excluded name is never read, whether it is a
   * directory child or a direct path.
   */
  lemma SelectedSpec(src: seq<SourcePath>, excluded: set<string>)
    ensures forall f :: f in Selected(src, excluded) <==>
              f.name !in excluded && exists i :: 0 <= i < |src| && Reaches(src[i], f)
  {
    forall f ensures f in Selected(src, excluded) <==> f.name !in excluded && SomeSourceReaches(src, f) {
      SelectedMember(src, excluded, f);
    }
  }

  predicate SomeSourceReaches(src: seq<SourcePath>, f: SourceFile)
  {
    exists i :: 0 <= i < |src| && Reaches(src[i], f)
  }

  lemma FromPathMember(p: SourcePath, excluded: set<string>, f: SourceFile)
    ensures f in FromPath(p, excluded) <==> f.name !in excluded && Reaches(p, f)
  {
    if p.Directory? {
      KeptChildrenSpec(p.children, excluded);
    }
  }

  lemma {:induction false} SelectedMember(src: seq<SourcePath>, excluded: set<string>, f: SourceFile)
    ensures f in Selected(src, excluded) <==> f.name !in excluded && SomeSourceReaches(src, f)
  {
    if src != [] {
      var n := |src| - 1;
      var prefix := src[..n];
      SelectedMember(prefix, excluded, f);
      FromPathMember(src[n], excluded, f);
      if SomeSourceReaches(src, f) {
        var i :| 0 <= i < |src| && Reaches(src[i], f);
        if i < n {
          assert prefix[i] == src[i];
          assert SomeSourceReaches(prefix, f);
        }
      }
      if SomeSourceReaches(prefix, f) {
        var i :| 0 <= i < n && Reaches(prefix[i], f);
        assert src[i] == prefix[i];
      }
    }
  }

  /** The selection loop of `raw` and `dnsmasq`. */
  method SelectFiles(src: seq<SourcePath>, excluded: set<string>) returns (files: seq<SourceFile>)
    ensures files == Selected(src, excluded)
    ensures forall f :: f in files ==> f.name !in excluded
    ensures forall f :: f in files <==> f.name !in excluded && exists i :: 0 <= i < |src| && Reaches(src[i], f)
  {
    files := [];
    for i := 0 to |src|
      invariant files == Selected(src[..i], excluded)
    {
      assert src[..i + 1][..i] == src[..i];
      match src[i]
      case Directory(children) =>
        for j := 0 to |children|
          invariant files == Selected(src[..i], excluded) + KeptChildren(children[..j], excluded)
        {
          assert children[..j + 1][..j] == children[..j];
          if children[j].name !in excluded {
            files := files + [children[j]];
          }
        }
        assert children[..|children|] == children;
      case RegularFile(f) =>
        if f.name !in excluded {
          files := files + [f];
        }
      case Absent =>
    }
    assert src[..|src|] == src;
    SelectedSpec(src, excluded);
  }

  // ---------------------------------------------------------------------------
  // Collecting the domain set (convert.py:81-89)
  // ---------------------------------------------------------------------------

  /**
   * What a line contributes, as a function; the set functions and their
   * lemmas below hold for any such function, and `raw` and `dnsmasq` use
   * `LineNormalizer(extract)`.
   */
  type Normalizer = string -> Option<string>

  function LineNormalizer(extract: Extractor): Normalizer
  {
    line => NormalizeLine(extract, line)
  }

  /** What one line adds to the domain set. */
  function LineDomains(norm: Normalizer, line: string): set<string>
  {
    match norm(line)
    case Some(d) => {d}
    case None => {}
  }

  function LinesDomains(norm: Normalizer, lines: seq<string>): set<string>
  {
    if lines == [] then {}
    else
      var n := |lines| - 1;
      LinesDomains(norm, lines[..n]) + LineDomains(norm, lines[n])
  }

  /** The `domains` set after every line of every selected file was added. */
  function FilesDomains(norm: Normalizer, files: seq<SourceFile>): set<string>
  {
    if files == [] then {}
    else
      var n := |files| - 1;
      FilesDomains(norm, files[..n]) + LinesDomains(norm, files[n].lines)
  }

  /** `d` comes from line `j` of `lines`. */
  predicate FromLine(norm: Normalizer, lines: seq<string>, j: int, d: string)
  {
    0 <= j < |lines| && norm(lines[j]) == Some(d)
  }

  lemma {:induction false} LinesDomainsComplete(norm: Normalizer, lines: seq<string>, j: nat, d: string)
    requires FromLine(norm, lines, j, d)
    ensures d in LinesDomains(norm, lines)
  {
    var n := |lines| - 1;
    if j < n {
      assert FromLine(norm, lines[..n], j, d) by { assert lines[..n][j] == lines[j]; }
      LinesDomainsComplete(norm, lines[..n], j, d);
    }
  }

  lemma {:induction false} LinesDomainsWitness(norm: Normalizer, lines: seq<string>, d: string) returns (j: nat)
    requires d in LinesDomains(norm, lines)
    ensures FromLine(norm, lines, j, d)
  {
    var n := |lines| - 1;
    if d in LinesDomains(norm, lines[..n]) {
      j := LinesDomainsWitness(norm, lines[..n], d);
      assert lines[..n][j] == lines[j];
    } else {
      j := n;
    }
  }

  /** A domain is in the set of a file's lines exactly when one of the lines normalises to it. */
  lemma LinesDomainsSpec(norm: Normalizer, lines: seq<string>)
    ensures forall d :: d in LinesDomains(norm, lines) <==> exists j :: FromLine(norm, lines, j, d)
  {
    forall d | d in LinesDomains(norm, lines)
      ensures exists j :: FromLine(norm, lines, j, d)
    {
      var j := LinesDomainsWitness(norm, lines, d);
    }
    forall d, j | FromLine(norm, lines, j, d)
      ensures d in LinesDomains(norm, lines)
    {
      LinesDomainsComplete(norm, lines, j, d);
    }
  }

  /** `d` comes from line `j` of the `i`-th file. */
  predicate FromFile(norm: Normalizer, files: seq<SourceFile>, i: int, j: int, d: string)
  {
    0 <= i < |files| && FromLine(norm, files[i].lines, j, d)
  }

  lemma {:induction false} FilesDomainsComplete(norm: Normalizer, files: seq<SourceFile>, i: nat, j: nat, d: string)
    requires FromFile(norm, files, i, j, d)
    ensures d in FilesDomains(norm, files)
  {
    var n := |files| - 1;
    if i < n {
      assert FromFile(norm, files[..n], i, j, d) by { assert files[..n][i] == files[i]; }
      FilesDomainsComplete(norm, files[..n], i, j, d);
    } else {
      LinesDomainsComplete(norm, files[n].lines, j, d);
    }
  }

  lemma {:induction false} FilesDomainsWitness(norm: Normalizer, files: seq<SourceFile>, d: string)
    returns (i: nat, j: nat)
    requires d in FilesDomains(norm, files)
    ensures FromFile(norm, files, i, j, d)
  {
    var n := |files| - 1;
    if d in FilesDomains(norm, files[..n]) {
      i, j := FilesDomainsWitness(norm, files[..n], d);
      assert files[..n][i] == files[i];
    } else {
      i := n;
      j := LinesDomainsWitness(norm, files[n].lines, d);
    }
  }

  /**
   * A domain is in the set exactly when some line of some selected file
   * normalises to it; so a line contributes its normalisation and nothing else.
   */
  lemma FilesDomainsSpec(norm: Normalizer, files: seq<SourceFile>)
    ensures forall d :: d in FilesDomains(norm, files) <==>
              exists i, j :: FromFile(norm, files, i, j, d)
  {
    forall d | d in FilesDomains(norm, files)
      ensures exists i, j :: FromFile(norm, files, i, j, d)
    {
      var i, j := FilesDomainsWitness(norm, files, d);
    }
    forall d, i, j | FromFile(norm, files, i, j, d)
      ensures d in FilesDomains(norm, files)
    {
      FilesDomainsComplete(norm, files, i, j, d);
    }
  }

  /** Every collected domain is non-empty and ends in a dot and a non-empty suffix. */
  lemma CollectedDomainsShape(extract: Extractor, files: seq<SourceFile>)
    ensures forall d :: d in FilesDomains(LineNormalizer(extract), files) ==>
              exists suffix :: suffix != [] && EndsWith(d, "." + suffix)
  {
    var norm := LineNormalizer(extract);
    FilesDomainsSpec(norm, files);
    forall d | d in FilesDomains(norm, files)
      ensures exists suffix :: suffix != [] && EndsWith(d, "." + suffix)
    {
      var i, j :| FromFile(norm, files, i, j, d);
      var t := extract(Strip(files[i].lines[j]));
      assert norm(files[i].lines[j]) == Decide(t);
      DecideSpec(t);
    }
  }

  /** Collecting the normalised lines of a list of files into one set. */
  method CollectDomains(extract: Extractor, files: seq<SourceFile>) returns (domains: set<string>)
    ensures domains == FilesDomains(LineNormalizer(extract), files)
    ensures forall d :: d in domains <==> exists i, j :: FromFile(LineNormalizer(extract), files, i, j, d)
  {
    ghost var norm := LineNormalizer(extract);
    domains := {};
    for i := 0 to |files|
      invariant domains == FilesDomains(norm, files[..i])
    {
      assert files[..i + 1][..i] == files[..i];
      var lines := files[i].lines;
      for j := 0 to |lines|
        invariant domains == FilesDomains(norm, files[..i]) + LinesDomains(norm, lines[..j])
      {
        assert lines[..j + 1][..j] == lines[..j];
        ghost var before := domains;
        var t := extract(Strip(lines[j]));
        if t.suffix != [] {
          if SearchOutsideClass(t.domain).Some? {
            domains := domains + {Fqdn(t)};
          } else if t.domain == [] {
            domains := domains + {"." + t.suffix};
          }
        }
        assert domains == before + LineDomains(norm, lines[j]) by {
          assert norm(lines[j]) == Decide(t);
        }
      }
      assert lines[..|lines|] == lines;
    }
    assert files[..|files|] == files;
    FilesDomainsSpec(norm, files);
  }

  // ---------------------------------------------------------------------------
  // The raw list (convert.py:91-94)
  // ---------------------------------------------------------------------------

  /** The text of `<out>-raw.lst`: every entry followed by a newline. */
  function RawText(entries: seq<string>): string
  {
    if entries == [] then "" else entries[0] + "\n" + RawText(entries[1..])
  }

  lemma {:induction false} RawTextAppend(entries: seq<string>, name: string)
    ensures RawText(entries + [name]) == RawText(entries) + name + "\n"
  {
    if entries != [] {
      assert (entries + [name])[1..] == entries[1..] + [name];
      RawTextAppend(entries[1..], name);
    }
  }

  /** Each entry with its line terminator: the lines reading a raw list back yields. */
  function Terminated(entries: seq<string>): seq<string>
  {
    seq(|entries|, i requires 0 <= i < |entries| => entries[i] + "\n")
  }

  /**
   * Reading the raw list back line by line recovers every entry, in order,
   * each with its newline, as long as no entry holds a line break itself.
   */
  lemma {:induction false} RawTextReadBack(entries: seq<string>)
    requires forall i :: 0 <= i < |entries| ==> HasNoLineBreak(entries[i])
    ensures ReadLines(RawText(entries)) == Terminated(entries)
  {
    if entries != [] {
      var s := RawText(entries);
      var e := entries[0];
      assert s == e + "\n" + RawText(entries[1..]);
      BreakAfter(e, RawText(entries[1..]));
      assert s[|e| + 1..] == RawText(entries[1..]);
      assert s[..|e|] == e;
      RawTextReadBack(entries[1..]);
      assert Terminated(entries) == [e + "\n"] + Terminated(entries[1..]);
    }
  }

  /** The first line break of `e + "\n" + rest` is the one after `e`. */
  lemma {:induction false} BreakAfter(e: string, rest: string)
    requires HasNoLineBreak(e)
    ensures FirstBreak(e + "\n" + rest) == |e|
  {
    if e != [] {
      assert (e + "\n" + rest)[1..] == e[1..] + "\n" + rest;
      BreakAfter(e[1..], rest);
    }
  }

  /** The write loop of `raw`, one entry at a time. */
  method WriteRaw(entries: seq<string>) returns (text: string)
    ensures text == RawText(entries)
  {
    text := "";
    for i := 0 to |entries|
      invariant text == RawText(entries[..i])
    {
      RawTextAppend(entries[..i], entries[i]);
      assert entries[..i + 1] == entries[..i] + [entries[i]];
      text := text + entries[i] + "\n";
    }
    assert entries[..|entries|] == entries;
  }

  /**
   * `raw(src, out)`: the entries of `<out>-raw.lst` are the domain set of the
   * selected files in strictly ascending order, without duplicates, and the
   * text is these entries one per line.
   */
  method Raw(extract: Extractor, src: seq<SourcePath>) returns (entries: seq<string>, text: string)
    ensures Ascending(entries)
    ensures Elems(entries) == FilesDomains(LineNormalizer(extract), Selected(src, ExcludeServices))
    ensures |entries| == |FilesDomains(LineNormalizer(extract), Selected(src, ExcludeServices))|
    ensures text == RawText(entries)
  {
    var files := SelectFiles(src, ExcludeServices);
    var domains := CollectDomains(extract, files);
    entries := SortedList(domains);
    text := WriteRaw(entries);
  }

  // ---------------------------------------------------------------------------
  // The dnsmasq list (convert.py:116-119)
  // ---------------------------------------------------------------------------

  /** One dnsmasq directive; no newline follows it. */
  function Directive(name: string): string
  {
    "domain=/" + name + "/#"
  }

  /** The text of `<out>-dnsmasq.lst`: the directives concatenated. */
  function DnsmasqText(entries: seq<string>): string
  {
    if entries == [] then "" else Directive(entries[0]) + DnsmasqText(entries[1..])
  }

  lemma {:induction false} DnsmasqTextAppend(entries: seq<string>, name: string)
    ensures DnsmasqText(entries + [name]) == DnsmasqText(entries) + Directive(name)
  {
    if entries != [] {
      assert (entries + [name])[1..] == entries[1..] + [name];
      DnsmasqTextAppend(entries[1..], name);
    }
  }

  /** The write loop of `dnsmasq`, one directive at a time. */
  method WriteDnsmasq(entries: seq<string>) returns (text: string)
    ensures text == DnsmasqText(entries)
  {
    text := "";
    for i := 0 to |entries|
      invariant text == DnsmasqText(entries[..i])
    {
      DnsmasqTextAppend(entries[..i], entries[i]);
      assert entries[..i + 1] == entries[..i] + [entries[i]];
      text := text + "domain=/" + entries[i] + "/#";
    }
    assert entries[..|entries|] == entries;
  }

  /**
   * `dnsmasq(src, out, remove)`: the entries are the domain set minus
   * `remove`, strictly ascending; no removed name appears; the text is their
   * directives concatenated.
   */
  method Dnsmasq(extract: Extractor, src: seq<SourcePath>, remove: set<string>)
    returns (entries: seq<string>, text: string)
    ensures Ascending(entries)
    ensures Elems(entries) == FilesDomains(LineNormalizer(extract), Selected(src, ExcludeServices)) - remove
    ensures forall d :: d in remove ==> d !in entries
    ensures text == DnsmasqText(entries)
  {
    var files := SelectFiles(src, ExcludeServices);
    var domains := CollectDomains(extract, files);
    entries := SortedList(domains - remove);
    text := WriteDnsmasq(entries);
  }

  function IndexOf(s: string, c: char): (k: nat)
    ensures k <= |s|
    ensures forall i :: 0 <= i < k ==> s[i] != c
    ensures k < |s| ==> s[k] == c
  {
    if s == [] || s[0] == c then 0 else 1 + IndexOf(s[1..], c)
  }

  /**
   * Splitting a dnsmasq text back into names: each directive runs from
   * `domain=/` to the first `#`, which must follow a `/`.
   */
  function ParseDnsmasq(text: string): Option<seq<string>>
    decreases |text|
  {
    if text == [] then Some([])
    else if !StartsWith(text, "domain=/") then None
    else
      var body := text[8..];
      var k := IndexOf(body, '#');
      if k == |body| || k == 0 || body[k - 1] != '/' then None
      else
        match ParseDnsmasq(body[k + 1..])
        case None => None
        case Some(rest) => Some([body[..k - 1]] + rest)
  }

  /** The dnsmasq text determines its entries, provided no entry contains `#`. */
  lemma {:induction false} DnsmasqRoundTrip(entries: seq<string>)
    requires forall i :: 0 <= i < |entries| ==> '#' !in entries[i]
    ensures ParseDnsmasq(DnsmasqText(entries)) == Some(entries)
  {
    if entries != [] {
      DnsmasqRoundTrip(entries[1..]);
      ParseDirective(entries[0], DnsmasqText(entries[1..]));
      assert entries == [entries[0]] + entries[1..];
    }
  }

  /** Parsing reads one directive off the front and goes on with the rest. */
  lemma ParseDirective(e: string, rest: string)
    requires '#' !in e
    ensures ParseDnsmasq(Directive(e) + rest) ==
            if ParseDnsmasq(rest).Some? then Some([e] + ParseDnsmasq(rest).value) else None
  {
    var text := Directive(e) + rest;
    assert text == "domain=/" + (e + "/#" + rest);
    assert StartsWith(text, "domain=/") by {
      assert text[..8] == "domain=/";
    }
    var body := text[8..];
    assert body == e + "/#" + rest;
    HashAfter(e, rest);
    assert body[|e|] == '/';
    assert body[..|e|] == e;
    assert body[|e| + 2..] == rest;
  }

  lemma {:induction false} HashAfter(e: string, rest: string)
    requires '#' !in e
    ensures IndexOf(e + "/#" + rest, '#') == |e| + 1
  {
    if e != [] {
      assert (e + "/#" + rest)[1..] == e[1..] + "/#" + rest;
      HashAfter(e[1..], rest);
    } else {
      assert (e + "/#" + rest)[1..] == "#" + rest;
    }
  }

  /** The dnsmasq text has no line breaks unless an entry brings one. */
  lemma {:induction false} DnsmasqNoNewline(entries: seq<string>)
    requires forall i :: 0 <= i < |entries| ==> '\n' !in entries[i]
    ensures '\n' !in DnsmasqText(entries)
  {
    if entries != [] {
      DnsmasqNoNewline(entries[1..]);
      assert '\n' !in Directive(entries[0]);
    }
  }

  /** The serialisation of `{a.com, b.com}`. */
  lemma DnsmasqExample()
    ensures DnsmasqText(["a.com", "b.com"]) == "domain=/a.com/#domain=/b.com/#"
  {
    assert ["a.com", "b.com"][1..] == ["b.com"];
    assert DnsmasqText(["b.com"]) == "domain=/b.com/#";
  }

  /**
   * A larger removal set can only shrink the dnsmasq entry list: the
   * entries for the larger set are a subsequence of those for the smaller.
   */
  lemma RemoveMonotone(domains: set<string>, fewer: set<string>, more: set<string>,
                       kept: seq<string>, keptLess: seq<string>)
    requires fewer <= more
    requires Ascending(kept) && Elems(kept) == domains - fewer
    requires Ascending(keptLess) && Elems(keptLess) == domains - more
    ensures IsSubseq(keptLess, kept)
    ensures |keptLess| <= |kept|
  {
    AscendingSubsetIsSubseq(keptLess, kept);
    IsSubseqLength(keptLess, kept);
  }

  /** The Mikrotik and Kvas removal sets extend the default one. */
  lemma RemovalSetsNested()
    ensures RemoveDomains <= RemoveDomainsMikrotik && RemoveDomains <= RemoveDomainsKvas
  {
  }
}
