/**
 * `fnmatch.fnmatch` on POSIX (no case folding) for patterns built from `*`,
 * `?` and literal characters, and the pattern filter `filter_russia`.
 */
module Glob {

  import opened Strings
  import opened Ordering
  import opened Config

  /** A pattern without `*`, `?` or `[` stands for itself only. */
  predicate IsLiteral(p: string)
  {
    forall i :: 0 <= i < |p| ==> p[i] != '*' && p[i] != '?' && p[i] != '['
  }

  /**
   * Whole-string glob match: `*` matches any run of characters (newlines
   * included), `?` any single character, every other character itself.
   */
  predicate Match(name: string, pat: string)
    decreases |name| + |pat|
  {
    if pat == [] then name == []
    else if pat[0] == '*' then Match(name, pat[1..]) || (name != [] && Match(name[1..], pat))
    else if pat[0] == '?' then name != [] && Match(name[1..], pat[1..])
    else name != [] && name[0] == pat[0] && Match(name[1..], pat[1..])
  }

  /** A literal pattern matches exactly the string it spells. */
  lemma {:induction false} LiteralMatch(name: string, lit: string)
    requires IsLiteral(lit)
    ensures Match(name, lit) <==> name == lit
  {
    if lit != [] && name != [] {
      LiteralMatch(name[1..], lit[1..]);
      assert name == [name[0]] + name[1..] && lit == [lit[0]] + lit[1..];
    }
  }

  /** `*` alone matches every string. */
  lemma {:induction false} StarMatchesAll(name: string)
    ensures Match(name, "*")
  {
    if name != [] {
      StarMatchesAll(name[1..]);
    }
  }

  /** A literal followed by `*` matches exactly the strings that start with the literal. */
  lemma {:induction false} LiteralStarMatch(name: string, lit: string)
    requires IsLiteral(lit)
    ensures Match(name, lit + "*") <==> StartsWith(name, lit)
  {
    if lit == [] {
      assert lit + "*" == "*";
      StarMatchesAll(name);
    } else {
      assert (lit + "*")[1..] == lit[1..] + "*";
      if name != [] {
        LiteralStarMatch(name[1..], lit[1..]);
        assert StartsWith(name, lit) <==> name[0] == lit[0] && StartsWith(name[1..], lit[1..]) by {
          if name[0] == lit[0] && StartsWith(name[1..], lit[1..]) {
            assert name[..|lit|] == [name[0]] + name[1..][..|lit| - 1];
            assert lit == [lit[0]] + lit[1..];
          }
          if StartsWith(name, lit) {
            assert name[0] == name[..|lit|][0];
            assert name[1..][..|lit| - 1] == name[..|lit|][1..];
          }
        }
      }
    }
  }

  /** A leading `*` lets the rest of the pattern match any suffix of the name. */
  lemma {:induction false} LeadingStarMatch(name: string, q: string)
    ensures Match(name, "*" + q) <==> exists k :: 0 <= k <= |name| && Match(name[k..], q)
  {
    if Match(name, "*" + q) {
      LeadingStarWitness(name, q);
    }
    if exists k :: 0 <= k <= |name| && Match(name[k..], q) {
      var k :| 0 <= k <= |name| && Match(name[k..], q);
      LeadingStarFromWitness(name, q, k);
    }
  }

  lemma {:induction false} LeadingStarWitness(name: string, q: string)
    requires Match(name, "*" + q)
    ensures exists k :: 0 <= k <= |name| && Match(name[k..], q)
  {
    assert ("*" + q)[1..] == q;
    if Match(name, q) {
      assert name[0..] == name;
    } else {
      LeadingStarWitness(name[1..], q);
      var k :| 0 <= k <= |name[1..]| && Match(name[1..][k..], q);
      assert name[1..][k..] == name[k + 1..];
    }
  }

  lemma {:induction false} LeadingStarFromWitness(name: string, q: string, k: nat)
    requires k <= |name| && Match(name[k..], q)
    ensures Match(name, "*" + q)
  {
    assert ("*" + q)[1..] == q;
    if k == 0 {
      assert name[0..] == name;
    } else {
      assert name[1..][k - 1..] == name[k..];
      LeadingStarFromWitness(name[1..], q, k - 1);
    }
  }

  /** `*lit*` matches exactly the strings that contain the literal. */
  lemma ContainsMatch(name: string, lit: string)
    requires IsLiteral(lit)
    ensures Match(name, "*" + lit + "*") <==> IsInfix(lit, name)
  {
    assert "*" + lit + "*" == "*" + (lit + "*");
    LeadingStarMatch(name, lit + "*");
    forall k | 0 <= k <= |name|
      ensures Match(name[k..], lit + "*") <==> StartsWith(name[k..], lit)
    {
      LiteralStarMatch(name[k..], lit);
    }
  }

  /** `any(fnmatch.fnmatch(d, pat) for pat in patterns)`. */
  predicate AnyMatch(d: string, patterns: seq<string>)
  {
    exists p :: p in patterns && Match(d, p)
  }

  /**
   * The list comprehension of `filter_russia` over a given pattern list:
   * the entries matched by no pattern, in their original order.
   */
  function FilterOut(domains: seq<string>, patterns: seq<string>): (r: seq<string>)
    ensures IsSubseq(r, domains)
    ensures forall d :: d in r <==> d in domains && !AnyMatch(d, patterns)
    ensures forall d :: multiset(r)[d] == if AnyMatch(d, patterns) then 0 else multiset(domains)[d]
  {
    if domains == [] then []
    else
      var rest := FilterOut(domains[1..], patterns);
      assert forall d :: d in domains <==> d == domains[0] || d in domains[1..];
      assert domains == [domains[0]] + domains[1..];
      if AnyMatch(domains[0], patterns) then
        assert IsSubseq(rest, domains) by { SubseqOfTail(rest, domains); }
        rest
      else [domains[0]] + rest
  }

  /**
   * Adding patterns never grows the output: filtering with more patterns
   * yields a subsequence of filtering with fewer.
   */
  lemma {:induction false} FilterOutMonotone(domains: seq<string>, few: seq<string>, more: seq<string>)
    requires forall p :: p in few ==> p in more
    ensures IsSubseq(FilterOut(domains, more), FilterOut(domains, few))
    ensures |FilterOut(domains, more)| <= |FilterOut(domains, few)|
  {
    if domains != [] {
      FilterOutMonotone(domains[1..], few, more);
      var m := FilterOut(domains[1..], more);
      var f := FilterOut(domains[1..], few);
      if AnyMatch(domains[0], more) {
        if !AnyMatch(domains[0], few) {
          SubseqOfTail(m, [domains[0]] + f);
        }
      } else {
        assert !AnyMatch(domains[0], few);
        assert ([domains[0]] + m)[1..] == m && ([domains[0]] + f)[1..] == f;
      }
    }
    IsSubseqLength(FilterOut(domains, more), FilterOut(domains, few));
  }

  /** `filter_russia`: the entries matched by none of `RemoveRussiaInsideSrs`. */
  function FilterRussia(domains: seq<string>): (r: seq<string>)
  {
    FilterOut(domains, RemoveRussiaInsideSrs)
  }

  /** A video-service name under the constant patterns: what `filter_russia` drops. */
  predicate IsRussiaVideoDomain(d: string)
  {
    IsInfix("youtube", d) || IsInfix("tiktok", d) || IsInfix("ytimg", d) ||
    d in {"googlevideo.com", "yt3.ggpht.com", "yt4.ggpht.com",
          "jnn-pa.googleapis.com", "yt-video-upload.l.google.com"}
  }

  /**
   * The constant patterns drop exactly the names containing `youtube`,
   * `tiktok` or `ytimg`, and the five listed names.
   */
  lemma RussiaPatternsMeaning(d: string)
    ensures AnyMatch(d, RemoveRussiaInsideSrs) <==> IsRussiaVideoDomain(d)
  {
    if AnyMatch(d, RemoveRussiaInsideSrs) {
      MatchedIsVideo(d);
    }
    if IsRussiaVideoDomain(d) {
      VideoIsMatched(d);
    }
  }

  lemma MatchedIsVideo(d: string)
    requires AnyMatch(d, RemoveRussiaInsideSrs)
    ensures IsRussiaVideoDomain(d)
  {
    var p :| p in RemoveRussiaInsideSrs && Match(d, p);
    PatternMeaning(d, p);
  }

  lemma VideoIsMatched(d: string)
    requires IsRussiaVideoDomain(d)
    ensures AnyMatch(d, RemoveRussiaInsideSrs)
  {
    if IsInfix("youtube", d) {
      InfixPatternMeaning(d, RemoveRussiaInsideSrs[0], "youtube");
    } else if IsInfix("tiktok", d) {
      InfixPatternMeaning(d, RemoveRussiaInsideSrs[1], "tiktok");
    } else if IsInfix("ytimg", d) {
      InfixPatternMeaning(d, RemoveRussiaInsideSrs[2], "ytimg");
    } else {
      assert d in RemoveRussiaInsideSrs[3..];
      HostPatternMeaning(d, d);
    }
  }

  /** What each of the constant patterns matches. */
  lemma PatternMeaning(d: string, p: string)
    requires p in RemoveRussiaInsideSrs
    ensures p == "*youtube*" ==> (Match(d, p) <==> IsInfix("youtube", d))
    ensures p == "*tiktok*" ==> (Match(d, p) <==> IsInfix("tiktok", d))
    ensures p == "*ytimg*" ==> (Match(d, p) <==> IsInfix("ytimg", d))
    ensures p !in {"*youtube*", "*tiktok*", "*ytimg*"} ==> (Match(d, p) <==> d == p)
  {
    if p == "*youtube*" {
      InfixPatternMeaning(d, p, "youtube");
    } else if p == "*tiktok*" {
      InfixPatternMeaning(d, p, "tiktok");
    } else if p == "*ytimg*" {
      InfixPatternMeaning(d, p, "ytimg");
    } else {
      HostPatternMeaning(d, p);
    }
  }

  /** The five host-name patterns are literal. */
  lemma HostPatternMeaning(d: string, p: string)
    requires p in RemoveRussiaInsideSrs[3..]
    ensures Match(d, p) <==> d == p
  {
    if p == "googlevideo.com" {
      assert IsLiteral("googlevideo.com");
    } else if p == "yt3.ggpht.com" {
      assert IsLiteral("yt3.ggpht.com");
    } else if p == "yt4.ggpht.com" {
      assert IsLiteral("yt4.ggpht.com");
    } else if p == "jnn-pa.googleapis.com" {
      assert IsLiteral("jnn-pa.googleapis.com");
    } else {
      assert IsLiteral("yt-video-upload.l.google.com");
    }
    LiteralMatch(d, p);
  }

  lemma InfixPatternMeaning(d: string, pat: string, lit: string)
    requires pat == "*" + lit + "*" && IsLiteral(lit)
    ensures Match(d, pat) <==> IsInfix(lit, d)
  {
    ContainsMatch(d, lit);
  }

  /**
   * `filter_russia` keeps, in order, exactly the entries that are not video
   * service names; every dropped entry is one.
   */
  lemma FilterRussiaSpec(domains: seq<string>)
    ensures IsSubseq(FilterRussia(domains), domains)
    ensures forall d :: d in FilterRussia(domains) <==> d in domains && !IsRussiaVideoDomain(d)
    ensures forall d :: multiset(FilterRussia(domains))[d] == if IsRussiaVideoDomain(d) then 0 else multiset(domains)[d]
  {
    forall d {
      RussiaPatternsMeaning(d);
    }
  }
}
