/**
 * The per-line normalisation shared by `raw` and `dnsmasq`: the stripped line
 * is split by the public-suffix extractor, and a decision rule on the
 * extracted label and suffix says what, if anything, the line adds.
 */
module Normalize {

  import opened Wrappers
  import opened Strings

  /** The (subdomain, domain, suffix) triple that `tldextract.extract` returns. */
  datatype Extracted = Extracted(subdomain: string, domain: string, suffix: string)

  /**
   * The public-suffix-list lookup is library data, so the extractor is a
   * parameter of every operation that uses it.
   */
  type Extractor = string -> Extracted

  /** The non-empty parts of the triple joined by dots, as `ExtractResult.fqdn` builds them. */
  function Fqdn(t: Extracted): string
  {
    (if t.subdomain == [] then "" else t.subdomain + ".") +
    (if t.domain == [] then "" else t.domain + ".") + t.suffix
  }

  /** A character of the regex class `[а-я\-]`: U+0430 to U+044F (so not `ё`), or the hyphen. */
  predicate InLabelClass(c: char)
  {
    ('\U{430}' <= c <= '\U{44F}') || c == '-'
  }

  /** A label made only of `[а-я\-]` characters. */
  predicate PurelyCyrillic(part: string)
  {
    forall i :: 0 <= i < |part| ==> InLabelClass(part[i])
  }

  /** `re.search(r'[^а-я\-]', label)`: the position of the first character outside the class. */
  function SearchOutsideClass(part: string): (r: Option<nat>)
    ensures r.Some? ==> r.value < |part| && !InLabelClass(part[r.value])
                        && forall i :: 0 <= i < r.value ==> InLabelClass(part[i])
    ensures r.None? <==> PurelyCyrillic(part)
  {
    if part == [] then None
    else if !InLabelClass(part[0]) then Some(0)
    else
      match SearchOutsideClass(part[1..])
      case None => None
      case Some(k) => Some(k + 1)
  }

  /** The decision rule of convert.py:85-89 for one extracted triple. */
  function Decide(t: Extracted): Option<string>
  {
    if t.suffix == [] then None
    else if SearchOutsideClass(t.domain).Some? then Some(Fqdn(t))
    else if t.domain == [] then Some("." + t.suffix)
    else None
  }

  /**
   * A triple yields a name exactly when it has a suffix and its label is
   * either empty or not purely Cyrillic; the name always ends with
   * `.` + suffix, and it ends with label `.` suffix when the label is non-empty.
   */
  lemma DecideSpec(t: Extracted)
    ensures Decide(t).Some? <==> t.suffix != [] && (t.domain == [] || !PurelyCyrillic(t.domain))
    ensures Decide(t).Some? ==> EndsWith(Decide(t).value, "." + t.suffix)
    ensures Decide(t).Some? && t.domain != [] ==> EndsWith(Decide(t).value, t.domain + "." + t.suffix)
    ensures Decide(t).Some? && t.domain == [] ==> Decide(t).value == "." + t.suffix
  {
    if t.suffix != [] && t.domain != [] && !PurelyCyrillic(t.domain) {
      assert Fqdn(t) == (if t.subdomain == [] then "" else t.subdomain + ".") + (t.domain + "." + t.suffix);
    }
  }

  /** What one raw line contributes: the decision rule applied to the extraction of the stripped line. */
  function NormalizeLine(extract: Extractor, line: string): Option<string>
  {
    Decide(extract(Strip(line)))
  }

  /** A line whose extracted suffix is empty contributes nothing. */
  lemma NoSuffixDropped(extract: Extractor, line: string)
    requires extract(Strip(line)).suffix == []
    ensures NormalizeLine(extract, line) == None
  {
  }

  /**
   * With a suffix present, the contribution depends on the label only: a
   * label with a character outside `[а-я\-]` gives the fqdn, an empty label
   * gives `.` + suffix, and a non-empty purely Cyrillic label gives nothing.
   */
  lemma DecisionByLabel(t: Extracted)
    requires t.suffix != []
    ensures !PurelyCyrillic(t.domain) ==> Decide(t) == Some(Fqdn(t))
    ensures t.domain == [] ==> Decide(t) == Some("." + t.suffix)
    ensures t.domain != [] && PurelyCyrillic(t.domain) ==> Decide(t) == None
  {
  }

  /** Sample extractions: a mixed-script name, a bare suffix, a Cyrillic-only label and a label with `ё`. */
  lemma DecisionExamples()
    ensures Decide(Extracted("cdn", "example", "com")) == Some("cdn.example.com")
    ensures Decide(Extracted("", "", "ru")) == Some(".ru")
    ensures Decide(Extracted("", "почта", "ru")) == None
    ensures Decide(Extracted("", "ёлка", "рф")) == Some("ёлка.рф")
  {
    assert !InLabelClass("example"[0]);
    assert Fqdn(Extracted("cdn", "example", "com")) == "cdn.example.com";
    assert "." + "ru" == ".ru";
    assert !InLabelClass("ёлка"[0]);
    assert Fqdn(Extracted("", "ёлка", "рф")) == "ёлка.рф";
    assert PurelyCyrillic("почта");
  }
}
