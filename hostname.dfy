/**
 * Matching a host name against a certificate's common name, label by label
 * from the right, with '*' as a wildcard inside each label.
 */
module Hostname {

  /** std::string::find_first_of(c): the first index holding `c`, or |s| when there is none. */
  function IndexOf(s: string, c: char): (r: nat)
    ensures r <= |s|
    ensures r < |s| ==> s[r] == c
    ensures forall j | 0 <= j < r :: s[j] != c
  {
    if s == [] then 0 else if s[0] == c then 0 else 1 + IndexOf(s[1..], c)
  }

  /**
   * std::string::find_first_of(chars, from): the first index at or after
   * `from` whose character is ANY of `chars`, or |s| when there is none.
   */
  function FindFirstOf(s: string, chars: string, from: nat): (r: nat)
    ensures r <= |s| && (from <= |s| ==> from <= r)
    ensures r < |s| ==> s[r] in chars
    ensures forall j | from <= j < r :: s[j] !in chars
    decreases |s| - from
  {
    if from >= |s| then |s| else if s[from] in chars then from else FindFirstOf(s, chars, from + 1)
  }

  /** std::string::substr(0, n): at most the first n characters. */
  function Prefix(s: string, n: nat): (r: string)
    ensures |r| <= n
  {
    if n <= |s| then s[..n] else s
  }

  /**
   * _cert_subdomain_wildcard_match.  The literal before the first '*' must
   * start the subdomain; a trailing '*' matches anything; otherwise the
   * literal that follows the '*' (up to the next '*') is looked for in the
   * rest of the subdomain with find_first_of, which stops at every position
   * holding any one of its CHARACTERS, and the remaining wildcard is matched
   * recursively from each such position.
   */
  function SubdomainMatches(sub: string, wc: string): bool
    decreases |wc|, 1
  {
    var p := IndexOf(wc, '*');
    if p == |wc| then sub == wc
    else if Prefix(sub, p) != wc[..p] then false
    else AfterStar(sub[p..], wc[p + 1..])
  }

  /** The rest `ns` of the subdomain against the rest `nw` of the wildcard after its first '*'. */
  function AfterStar(ns: string, nw: string): bool
    decreases |nw| + 1, 0
  {
    if nw == [] then true
    else
      var m := nw[..IndexOf(nw, '*')];
      exists i | 0 <= i < |ns| && ns[i] in m :: SubdomainMatches(ns[i..], nw)
  }

  method SubdomainMatch(subdomain: string, wildcard: string) returns (r: bool)
    ensures r == SubdomainMatches(subdomain, wildcard)
    decreases |wildcard|, 1
  {
    var p := IndexOf(wildcard, '*');
    if p == |wildcard| {
      return subdomain == wildcard;
    }
    if Prefix(subdomain, p) != wildcard[..p] {
      return false;
    }
    var nw := wildcard[p + 1..];
    if nw == [] {
      return true;
    }
    r := SearchAfterStar(subdomain[p..], nw);
  }

  /**
   * The loop over the candidate positions find_first_of reports for the
   * literal after the '*': each is tried with the rest of the wildcard.
   */
  method SearchAfterStar(ns: string, nw: string) returns (r: bool)
    requires nw != []
    ensures r == AfterStar(ns, nw)
    decreases |nw| + 1, 0
  {
    var m := nw[..IndexOf(nw, '*')];
    var pos := FindFirstOf(ns, m, 0);
    while pos < |ns|
      invariant pos <= |ns|
      invariant pos < |ns| ==> ns[pos] in m
      invariant forall j | 0 <= j < pos && ns[j] in m :: !SubdomainMatches(ns[j..], nw)
      decreases |ns| - pos
    {
      var found := SubdomainMatch(ns[pos..], nw);
      if found {
        return true;
      }
      pos := FindFirstOf(ns, m, pos + 1);
    }
    return false;
  }

  // ---- What the matcher means: shell-style glob matching ----

  /** Reference definition: '*' matches any run of characters, every other character itself. */
  function Glob(s: string, w: string): bool
    decreases |w|
  {
    if w == [] then s == []
    else if w[0] == '*' then exists i | 0 <= i <= |s| :: Glob(s[i..], w[1..])
    else |s| > 0 && s[0] == w[0] && Glob(s[1..], w[1..])
  }

  predicate NoStar(w: string)
  {
    forall i | 0 <= i < |w| :: w[i] != '*'
  }

  /** No two '*' in a row. */
  predicate NoDoubleStar(w: string)
  {
    forall i | 0 <= i < |w| - 1 :: !(w[i] == '*' && w[i + 1] == '*')
  }

  /** A pattern without '*' matches exactly itself. */
  lemma {:induction false} GlobLiteral(s: string, w: string)
    requires NoStar(w)
    ensures Glob(s, w) <==> s == w
    decreases |w|
  {
    if w != [] {
      assert w[0] != '*';
      if |s| > 0 {
        GlobLiteral(s[1..], w[1..]);
        assert s == [s[0]] + s[1..];
        assert w == [w[0]] + w[1..];
      }
    }
  }

  /** A literal prefix of the pattern must be a literal prefix of the string. */
  lemma {:induction false} GlobLiteralPrefix(s: string, w: string, p: nat)
    requires p <= |w| && forall i | 0 <= i < p :: w[i] != '*'
    ensures Glob(s, w) <==> (p <= |s| && s[..p] == w[..p] && Glob(s[p..], w[p..]))
    decreases p
  {
    if p > 0 && |s| > 0 {
      GlobLiteralPrefix(s[1..], w[1..], p - 1);
      if p <= |s| {
        assert s[..p] == [s[0]] + s[1..][..p - 1];
        assert s[1..][p - 1..] == s[p..];
      }
      assert w[..p] == [w[0]] + w[1..][..p - 1];
      assert w[1..][p - 1..] == w[p..];
    }
  }

  /** Without "**" the find_first_of shortcut is only a filter: the matcher is glob matching. */
  lemma {:induction false} SubdomainMatchesIsGlob(s: string, w: string)
    requires NoDoubleStar(w)
    ensures SubdomainMatches(s, w) == Glob(s, w)
    decreases |w|, 1
  {
    var p := IndexOf(w, '*');
    if p == |w| {
      GlobLiteral(s, w);
    } else {
      GlobLiteralPrefix(s, w, p);
      assert Prefix(s, p) == w[..p] <==> p <= |s| && s[..p] == w[..p];
      if p <= |s| && s[..p] == w[..p] {
        var ns, nw := s[p..], w[p + 1..];
        assert SubdomainMatches(s, w) == AfterStar(ns, nw);
        assert w[p..][0] == '*' && w[p..][1..] == nw;
        assert Glob(ns, w[p..]) == exists i | 0 <= i <= |ns| :: Glob(ns[i..], nw);
        NoDoubleStarAfter(w, p);
        AfterStarIsGlob(ns, nw);
      }
    }
  }

  /** What follows a '*' of a pattern without "**" has no "**" and does not start with '*'. */
  lemma NoDoubleStarAfter(w: string, p: nat)
    requires NoDoubleStar(w) && p < |w| && w[p] == '*'
    ensures NoDoubleStar(w[p + 1..])
    ensures w[p + 1..] != [] ==> w[p + 1..][0] != '*'
  {
    var nw := w[p + 1..];
    forall i | 0 <= i < |nw| - 1 ensures !(nw[i] == '*' && nw[i + 1] == '*') {
      assert nw[i] == w[p + 1 + i] && nw[i + 1] == w[p + 1 + i + 1];
    }
    if nw != [] {
      assert nw[0] == w[p + 1];
    }
  }

  lemma {:induction false} AfterStarIsGlob(ns: string, nw: string)
    requires NoDoubleStar(nw) && (nw != [] ==> nw[0] != '*')
    ensures AfterStar(ns, nw) == exists i | 0 <= i <= |ns| :: Glob(ns[i..], nw)
    decreases |nw| + 1, 0
  {
    if nw == [] {
      assert Glob(ns[|ns|..], nw);
    } else {
      var m := nw[..IndexOf(nw, '*')];
      assert m[0] == nw[0];
      forall i | 0 <= i <= |ns| ensures SubdomainMatches(ns[i..], nw) == Glob(ns[i..], nw) {
        SubdomainMatchesIsGlob(ns[i..], nw);
      }
      if exists i | 0 <= i <= |ns| :: Glob(ns[i..], nw) {
        var i :| 0 <= i <= |ns| && Glob(ns[i..], nw);
        assert i < |ns| && ns[i] == nw[0];
        assert ns[i] in m;
      }
    }
  }

  /** A "**" anywhere in the wildcard: find_first_of("") finds nothing, so nothing matches. */
  lemma {:induction false} DoubleStarNeverMatches(s: string, w: string)
    requires !NoDoubleStar(w)
    ensures !SubdomainMatches(s, w)
    decreases |w|
  {
    var k :| 0 <= k < |w| - 1 && w[k] == '*' && w[k + 1] == '*';
    var p := IndexOf(w, '*');
    assert p <= k;
    if Prefix(s, p) == w[..p] {
      var nw := w[p + 1..];
      assert nw != [];
      assert SubdomainMatches(s, w) == AfterStar(s[p..], nw);
      if p == k {
        assert nw[0] == '*';
        assert IndexOf(nw, '*') == 0;
      } else {
        assert nw[k - p - 1] == '*' && nw[k - p] == '*';
        var ns := s[p..];
        forall i | 0 <= i < |ns| ensures !SubdomainMatches(ns[i..], nw) {
          DoubleStarNeverMatches(ns[i..], nw);
        }
        assert !AfterStar(ns, nw);
      }
    }
  }

  /** A wildcard without '*' matches exactly itself. */
  lemma SubdomainMatchesLiteral(s: string, w: string)
    requires NoStar(w)
    ensures SubdomainMatches(s, w) <==> s == w
  {
    assert IndexOf(w, '*') == |w|;
  }

  /** Glob matching of a string against "*" followed by a non-'*' character that the string lacks fails. */
  lemma GlobMissingLiteral(s: string, c: char, rest: string)
    requires c != '*' && forall i | 0 <= i < |s| :: s[i] != c
    ensures !Glob(s, ['*', c] + rest)
  {
    var w := ['*', c] + rest;
    assert w[1..] == [c] + rest;
    forall i | 0 <= i <= |s| ensures !Glob(s[i..], w[1..]) {
      assert w[1..][0] == c;
      if i < |s| {
        assert s[i..][0] == s[i];
      }
    }
  }

  // ---- The host name against the common name, label by label ----

  /** std::string::find_last_of('.'): the last index holding '.', or -1 for npos. */
  function LastDot(s: string): (r: int)
    ensures -1 <= r < |s|
    ensures r >= 0 ==> s[r] == '.'
    ensures forall j | r < j < |s| :: s[j] != '.'
  {
    if s == [] then -1 else if s[|s| - 1] == '.' then |s| - 1 else LastDot(s[..|s| - 1])
  }

  /** One trailing '.' (a fully qualified name) is dropped. */
  function StripTrailingDot(s: string): (r: string)
    ensures |s| > 0 && s[|s| - 1] == '.' ==> r == s[..|s| - 1]
    ensures !(|s| > 0 && s[|s| - 1] == '.') ==> r == s
  {
    if |s| > 0 && s[|s| - 1] == '.' then s[..|s| - 1] else s
  }

  /**
   * While both names still hold a '.', their last labels must match; then a
   * remaining common name of exactly "*" accepts whatever is left of the
   * host name (so child domains too), else the remainders must match.
   */
  function LabelsMatch(h: string, c: string): bool
    decreases |h|
  {
    var dh, dc := LastDot(h), LastDot(c);
    if dh >= 0 && dc >= 0 then SubdomainMatches(h[dh + 1..], c[dc + 1..]) && LabelsMatch(h[..dh], c[..dc])
    else c == "*" || SubdomainMatches(h, c)
  }

  /** _cert_hostname_wildcard_match */
  function HostnameMatches(hostname: string, commonName: string): bool
  {
    LabelsMatch(StripTrailingDot(hostname), StripTrailingDot(commonName))
  }

  method HostnameMatch(hostname: string, commonName: string) returns (r: bool)
    ensures r == HostnameMatches(hostname, commonName)
  {
    var h, c := StripTrailingDot(hostname), StripTrailingDot(commonName);
    var dh, dc := LastDot(h), LastDot(c);
    while dc >= 0 && dh >= 0
      invariant dh == LastDot(h) && dc == LastDot(c)
      invariant LabelsMatch(h, c) == HostnameMatches(hostname, commonName)
      decreases |h|
    {
      var part := SubdomainMatch(h[dh + 1..], c[dc + 1..]);
      if !part {
        return false;
      }
      h, c := h[..dh], c[..dc];
      dh, dc := LastDot(h), LastDot(c);
    }
    if c == "*" {
      return true;
    }
    r := SubdomainMatch(h, c);
  }

  /** The last '.' of x + y is in y when y has one, else it is x's. */
  lemma LastDotAppend(x: string, y: string)
    ensures LastDot(x + y) == if LastDot(y) >= 0 then |x| + LastDot(y) else LastDot(x)
    decreases |y|
  {
    if y != [] {
      assert (x + y)[..|x + y| - 1] == x + y[..|y| - 1];
      LastDotAppend(x, y[..|y| - 1]);
    } else {
      assert x + y == x;
    }
  }

  /** A common name without '*' matches exactly the equal host name. */
  lemma {:induction false} LabelsMatchLiteral(h: string, c: string)
    requires NoStar(c)
    ensures LabelsMatch(h, c) <==> h == c
    decreases |h|
  {
    var dh, dc := LastDot(h), LastDot(c);
    if dh >= 0 && dc >= 0 {
      SubdomainMatchesLiteral(h[dh + 1..], c[dc + 1..]);
      LabelsMatchLiteral(h[..dh], c[..dc]);
      assert h == h[..dh] + [h[dh]] + h[dh + 1..];
      assert c == c[..dc] + [c[dc]] + c[dc + 1..];
    } else {
      assert |c| > 0 ==> c[0] != '*';
      SubdomainMatchesLiteral(h, c);
    }
  }

  /** Without a wildcard the names must be equal, up to one trailing '.' on either. */
  lemma HostnameMatchesLiteral(hostname: string, commonName: string)
    requires NoStar(commonName)
    ensures HostnameMatches(hostname, commonName) <==> StripTrailingDot(hostname) == StripTrailingDot(commonName)
  {
    LabelsMatchLiteral(StripTrailingDot(hostname), StripTrailingDot(commonName));
  }

  /** A common name of just "*" accepts every host name. */
  lemma StarMatchesEveryHost(hostname: string)
    ensures HostnameMatches(hostname, "*")
  {
  }

  predicate NoDot(s: string)
  {
    forall i | 0 <= i < |s| :: s[i] != '.'
  }

  /** x + "." + lab, where lab has no '.', splits back at its last '.'. */
  lemma SplitLastLabel(x: string, lab: string)
    requires NoDot(lab)
    ensures var h := x + "." + lab;
      LastDot(h) == |x| && h[..|x|] == x && h[|x| + 1..] == lab
  {
    LastDotAppend(x + ".", lab);
    LastDotAppend(x, ".");
    assert LastDot(lab) == -1;
  }

  /** x splits into its part before the last '.', the '.', and its last label. */
  lemma LastLabelSplit(x: string)
    requires LastDot(x) >= 0
    ensures var d := LastDot(x);
      x == x[..d] + "." + x[d + 1..] && NoDot(x[d + 1..])
  {
    var d := LastDot(x);
    assert x == x[..d] + [x[d]] + x[d + 1..];
  }

  /** Two names that both have a last label compare those labels, then what precedes them. */
  lemma LabelsMatchSplit(x: string, y: string, lx: string, ly: string)
    requires NoDot(lx) && NoDot(ly)
    ensures LabelsMatch(x + "." + lx, y + "." + ly) == (SubdomainMatches(lx, ly) && LabelsMatch(x, y))
  {
    SplitLastLabel(x, lx);
    SplitLastLabel(y, ly);
  }

  /** Equal trailing labels without '*' are peeled off both names. */
  lemma {:induction false} LabelsMatchCommonSuffix(a: string, b: string, t: string)
    requires NoStar(t)
    ensures LabelsMatch(a + "." + t, b + "." + t) == LabelsMatch(a, b)
    decreases |t|
  {
    var d := LastDot(t);
    if d >= 0 {
      LastLabelSplit(t);
      var t1, lab := t[..d], t[d + 1..];
      assert a + "." + t == (a + "." + t1) + "." + lab;
      assert b + "." + t == (b + "." + t1) + "." + lab;
      LabelsMatchSplit(a + "." + t1, b + "." + t1, lab, lab);
      SubdomainMatchesLiteral(lab, lab);
      LabelsMatchCommonSuffix(a, b, t1);
    } else {
      LabelsMatchSplit(a, b, t, t);
      SubdomainMatchesLiteral(t, t);
    }
  }

  /**
   * "*." + suffix accepts ANY host name ending in "." + suffix, however many
   * labels stand in for the '*' (none, one or several).
   */
  lemma WildcardSpansLabels(left: string, suffix: string)
    requires NoStar(suffix) && |suffix| > 0
    ensures HostnameMatches(left + "." + suffix, "*." + suffix)
  {
    var s := StripTrailingDot(suffix);
    assert StripTrailingDot(left + "." + suffix) == left + "." + s;
    assert StripTrailingDot("*." + suffix) == "*" + "." + s;
    LabelsMatchCommonSuffix(left, "*", s);
  }

  /** "*." + suffix never accepts the suffix itself. */
  lemma {:induction false} LabelsNotBareSuffix(s: string)
    requires NoStar(s)
    ensures !LabelsMatch(s, "*." + s)
    decreases |s|
  {
    var d := LastDot(s);
    if d >= 0 {
      assert s == s[..d] + "." + s[d + 1..];
      assert "*." + s == ("*." + s[..d]) + "." + s[d + 1..];
      LabelsMatchCommonSuffix(s[..d], "*." + s[..d], s[d + 1..]);
      LabelsNotBareSuffix(s[..d]);
    } else {
      OneLabelNotBareSuffix(s);
    }
  }

  /** The base case: a name of one label does not match "*." followed by itself. */
  lemma OneLabelNotBareSuffix(s: string)
    requires NoStar(s) && LastDot(s) < 0
    ensures !LabelsMatch(s, "*." + s)
  {
    var c := "*." + s;
    LastDotAppend("*.", s);
    assert c[1] == '.';
    assert c != "*";
    assert NoDoubleStar(c) by {
      forall i | 0 <= i < |c| - 1 ensures !(c[i] == '*' && c[i + 1] == '*') {
        if i >= 2 { assert c[i] == s[i - 2]; }
      }
    }
    SubdomainMatchesIsGlob(s, c);
    GlobMissingLiteral(s, '.', s);
  }

  lemma BareSuffixDoesNotMatch(suffix: string)
    requires NoStar(suffix) && |suffix| > 0
    ensures !HostnameMatches(suffix, "*." + suffix)
  {
    var s := StripTrailingDot(suffix);
    assert StripTrailingDot("*." + suffix) == "*." + s;
    LabelsNotBareSuffix(s);
  }
}
