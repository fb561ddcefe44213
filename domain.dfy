/**
 * `ETLDiskJob.get_domain` (`urlparse(url).netloc.replace("www.", "")`) and
 * the first label `domain.split(".")[0]` that `create_df` matches against
 * "ebay" and the registered site rules. Python's `replace` and `split` scan
 * left to right and never let two matches overlap.
 */
module Domain {

  /** `pat in s`: `pat` occurs somewhere in `s`. */
  predicate Occurs(pat: string, s: string)
    decreases |s|
  {
    |pat| <= |s| && (s[..|pat|] == pat || (s != [] && Occurs(pat, s[1..])))
  }

  /** `s.replace(pat, "")`. */
  function DeleteAll(s: string, pat: string): string
    requires pat != []
    decreases |s|
  {
    if |s| < |pat| then s
    else if s[..|pat|] == pat then DeleteAll(s[|pat|..], pat)
    else [s[0]] + DeleteAll(s[1..], pat)
  }

  /** `s.split(sep)`: the pieces between non-overlapping occurrences of `sep`. */
  function Split(s: string, sep: string): (parts: seq<string>)
    requires sep != []
    ensures |parts| >= 1
    decreases |s|
  {
    if |s| < |sep| then [s]
    else if s[..|sep|] == sep then [[]] + Split(s[|sep|..], sep)
    else
      var rest := Split(s[1..], sep);
      [[s[0]] + rest[0]] + rest[1..]
  }

  /** `sep.join(parts)`. */
  function Join(parts: seq<string>, sep: string): string
    requires |parts| >= 1
    decreases |parts|
  {
    if |parts| == 1 then parts[0] else parts[0] + sep + Join(parts[1..], sep)
  }

  /** `"".join(parts)`. */
  function Concat(parts: seq<string>): string
    decreases |parts|
  {
    if parts == [] then [] else parts[0] + Concat(parts[1..])
  }

  lemma JoinExtendHead(c: char, parts: seq<string>, sep: string)
    requires |parts| >= 1
    ensures Join([[c] + parts[0]] + parts[1..], sep) == [c] + Join(parts, sep)
  {
    var q := [[c] + parts[0]] + parts[1..];
    assert q[0] == [c] + parts[0] && q[1..] == parts[1..];
  }

  lemma JoinEmptyHead(parts: seq<string>, sep: string)
    requires |parts| >= 1
    ensures Join([[]] + parts, sep) == sep + Join(parts, sep)
  {
    var q := [[]] + parts;
    assert q[0] == [] && q[1..] == parts;
  }

  /** Joining the pieces of a split with the separator restores the string. */
  lemma {:induction false} JoinSplit(s: string, sep: string)
    requires sep != []
    ensures Join(Split(s, sep), sep) == s
    decreases |s|
  {
    if |s| < |sep| {
    } else if s[..|sep|] == sep {
      JoinSplit(s[|sep|..], sep);
      JoinEmptyHead(Split(s[|sep|..], sep), sep);
      assert s == sep + s[|sep|..];
    } else {
      JoinSplit(s[1..], sep);
      JoinExtendHead(s[0], Split(s[1..], sep), sep);
      assert s == [s[0]] + s[1..];
    }
  }

  /**
   * The pieces are cut at leftmost occurrences: no piece but the last,
   * followed by all but the last character of the separator, holds the
   * separator (so the cut after it is the first occurrence that begins inside
   * or right after it), and the last piece holds no separator at all.
   */
  predicate CutAtLeftmost(parts: seq<string>, sep: string)
    requires |parts| >= 1 && sep != []
  {
    && (forall i | 0 <= i < |parts| - 1 :: !Occurs(sep, parts[i] + sep[..|sep| - 1]))
    && !Occurs(sep, parts[|parts| - 1])
  }

  /** `Split` cuts at the leftmost occurrences, as `str.split` does. */
  lemma {:induction false} SplitCutsAtLeftmost(s: string, sep: string)
    requires sep != []
    ensures CutAtLeftmost(Split(s, sep), sep)
    decreases |s|
  {
    if |s| < |sep| {
    } else if s[..|sep|] == sep {
      SplitCutsAtLeftmost(s[|sep|..], sep);
      CutAfterSeparator(Split(s[|sep|..], sep), sep);
    } else {
      SplitCutsAtLeftmost(s[1..], sep);
      JoinSplit(s[1..], sep);
      var rest := Split(s[1..], sep);
      if |rest| == 1 {
        OccursStep(sep, s);
        assert s == [s[0]] + rest[0];
      } else {
        HeadKeepsPrefix(s, rest, sep);
        CutAfterChar(s[0], rest, sep);
      }
    }
  }

  /** `pat` occurs in `s` exactly when it starts `s` or occurs in the tail. */
  lemma OccursStep(pat: string, s: string)
    ensures Occurs(pat, s) <==> |pat| <= |s| && (s[..|pat|] == pat || (s != [] && Occurs(pat, s[1..])))
  {
  }

  lemma CutAfterSeparator(rest: seq<string>, sep: string)
    requires |rest| >= 1 && sep != [] && CutAtLeftmost(rest, sep)
    ensures CutAtLeftmost([[]] + rest, sep)
  {
    var parts := [[]] + rest;
    forall i | 0 <= i < |parts| - 1
      ensures !Occurs(sep, parts[i] + sep[..|sep| - 1])
    {
      if i == 0 {
        assert parts[i] + sep[..|sep| - 1] == sep[..|sep| - 1];
      } else {
        assert parts[i] == rest[i - 1];
      }
    }
    assert parts[|parts| - 1] == rest[|rest| - 1];
  }

  lemma CutAfterChar(c: char, rest: seq<string>, sep: string)
    requires |rest| >= 2 && sep != [] && CutAtLeftmost(rest, sep)
    requires var x := [c] + rest[0] + sep[..|sep| - 1]; |x| >= |sep| && x[..|sep|] != sep
    ensures CutAtLeftmost([[c] + rest[0]] + rest[1..], sep)
  {
    var parts := [[c] + rest[0]] + rest[1..];
    forall i | 0 <= i < |parts| - 1
      ensures !Occurs(sep, parts[i] + sep[..|sep| - 1])
    {
      if i == 0 {
        var x := [c] + rest[0] + sep[..|sep| - 1];
        OccursStep(sep, x);
        assert x[1..] == rest[0] + sep[..|sep| - 1];
        assert parts[i] + sep[..|sep| - 1] == x;
      } else {
        assert parts[i] == rest[i];
      }
    }
    assert parts[|parts| - 1] == rest[|rest| - 1];
  }

  /** The first piece with the separator's beginning after it starts like the string itself. */
  lemma HeadKeepsPrefix(s: string, rest: seq<string>, sep: string)
    requires sep != [] && s != [] && |rest| >= 2 && Join(rest, sep) == s[1..]
    ensures var x := [s[0]] + rest[0] + sep[..|sep| - 1];
            |x| >= |sep| && x[..|sep|] == s[..|sep|]
  {
    var y := [s[0]] + rest[0] + sep;
    assert Join(rest, sep) == rest[0] + sep + Join(rest[1..], sep);
    assert s == [s[0]] + s[1..];
    assert s == y + Join(rest[1..], sep);
    assert s[..|y|] == y;
  }

  /**
   * Deleting every occurrence is the same as splitting at them and joining
   * the pieces with nothing: the result is the input with exactly the
   * separators of `Split` taken out (together with JoinSplit).
   */
  lemma {:induction false} DeleteAllIsConcatOfSplit(s: string, pat: string)
    requires pat != []
    ensures DeleteAll(s, pat) == Concat(Split(s, pat))
    decreases |s|
  {
    if |s| < |pat| {
    } else if s[..|pat|] == pat {
      DeleteAllIsConcatOfSplit(s[|pat|..], pat);
    } else {
      DeleteAllIsConcatOfSplit(s[1..], pat);
      var rest := Split(s[1..], pat);
      assert Concat([[s[0]] + rest[0]] + rest[1..]) == [s[0]] + rest[0] + Concat(rest[1..]);
    }
  }

  /** A string in which `pat` does not occur is returned unchanged. */
  lemma {:induction false} DeleteAllAbsent(s: string, pat: string)
    requires pat != [] && !Occurs(pat, s)
    ensures DeleteAll(s, pat) == s
    decreases |s|
  {
    if |s| >= |pat| {
      DeleteAllAbsent(s[1..], pat);
      assert s == [s[0]] + s[1..];
    }
  }

  /** Deletion never lengthens the string, and removes at least one copy of `pat` when it occurs. */
  lemma {:induction false} DeleteAllShrinks(s: string, pat: string)
    requires pat != []
    ensures |DeleteAll(s, pat)| <= |s|
    ensures Occurs(pat, s) ==> |DeleteAll(s, pat)| <= |s| - |pat|
    decreases |s|
  {
    if |s| < |pat| {
    } else if s[..|pat|] == pat {
      DeleteAllShrinks(s[|pat|..], pat);
    } else {
      DeleteAllShrinks(s[1..], pat);
    }
  }

  /** A pattern cannot occur in a string that lacks the pattern's first character. */
  lemma {:induction false} LacksFirstChar(pat: string, s: string)
    requires pat != [] && forall i | 0 <= i < |s| :: s[i] != pat[0]
    ensures !Occurs(pat, s)
    decreases |s|
  {
    if s != [] && |pat| <= |s| {
      assert s[..|pat|][0] != pat[0];
      LacksFirstChar(pat, s[1..]);
    }
  }

  /** `get_domain`: the network location with every "www." deleted; `urlparse` is a parameter. */
  function GetDomain(url: string, netloc: string -> string): string {
    DeleteAll(netloc(url), "www.")
  }

  /** `domain.split(".")[0]`. */
  function FirstLabel(domain: string): string {
    Split(domain, ".")[0]
  }

  /**
   * The first label is the longest prefix of the domain without a dot: it
   * is a prefix, holds no dot, and is either the whole domain or followed by one.
   */
  lemma {:induction false} FirstLabelIsDotFreePrefix(domain: string)
    ensures var first := FirstLabel(domain);
            && |first| <= |domain| && domain[..|first|] == first
            && (forall i | 0 <= i < |first| :: first[i] != '.')
            && (|first| == |domain| || domain[|first|] == '.')
    decreases |domain|
  {
    if domain != [] && domain[0] != '.' {
      FirstLabelIsDotFreePrefix(domain[1..]);
      FirstLabelStep(domain);
    } else if domain != [] {
      FirstLabelStep(domain);
    }
  }

  /** One character of the split: a dot ends the first label, anything else extends it. */
  lemma FirstLabelStep(domain: string)
    requires domain != []
    ensures domain[0] == '.' ==> FirstLabel(domain) == []
    ensures domain[0] != '.' ==> FirstLabel(domain) == [domain[0]] + FirstLabel(domain[1..])
  {
    assert domain[..1] == [domain[0]];
  }

  /** The first label of "w.t" is w when w holds no dot. */
  lemma {:induction false} FirstLabelOfDotted(w: string, t: string)
    requires forall i | 0 <= i < |w| :: w[i] != '.'
    ensures FirstLabel(w + "." + t) == w
    decreases |w|
  {
    var d := w + "." + t;
    FirstLabelStep(d);
    if w != [] {
      FirstLabelOfDotted(w[1..], t);
      assert d[0] == w[0] && d[1..] == w[1..] + "." + t;
      assert w == [w[0]] + w[1..];
    } else {
      assert d[0] == '.';
    }
  }

  /** A host name as the crawler sees it: "www.ebay.co.uk" becomes "ebay.co.uk", whose first label is "ebay". */
  lemma EbayExample(netloc: string -> string, url: string)
    requires netloc(url) == "www.ebay.co.uk"
    ensures GetDomain(url, netloc) == "ebay.co.uk"
    ensures FirstLabel(GetDomain(url, netloc)) == "ebay"
    ensures Occurs("ebay", FirstLabel(GetDomain(url, netloc)))
  {
    var host := netloc(url);
    var rest := host[4..];
    var ebay := host[4..8];
    assert host[..4] == "www.";
    assert rest == ebay + "." + host[9..];
    LacksFirstChar("www.", rest);
    DeleteAllAbsent(rest, "www.");
    FirstLabelOfDotted(ebay, host[9..]);
    assert ebay == "ebay" && rest == "ebay.co.uk";
    assert ebay[..4] == "ebay";
  }
}
