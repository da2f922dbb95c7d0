/**
 * The domain splitter of the updater: a configured name such as
 * "sub.example.com" is cut into the subdomain ("sub") and the root
 * ("example.com") on which the DNS provider keeps its records
 * (`newSplitDomain` in main.go).
 */
module Domains {
  import opened Wrappers

  /** The separator between the labels of a domain name. */
  const Dot: char := '.'

  /**
   * Go's `strings.Split(s, sep)` for a one-character separator: the pieces
   * of `s` between occurrences of `sep`. There is always at least one piece
   * (the empty string splits into one empty piece), and no piece contains
   * the separator.
   */
  function Split(s: string, sep: char): (parts: seq<string>)
    ensures |parts| >= 1
    ensures forall i :: 0 <= i < |parts| ==> sep !in parts[i]
    decreases |s|
  {
    if |s| == 0 then [""]
    else
      var rest := Split(s[1..], sep);
      if s[0] == sep then [""] + rest
      else [[s[0]] + rest[0]] + rest[1..]
  }

  /** Go's `strings.Join(parts, sep)` for a one-character separator. */
  function Join(parts: seq<string>, sep: char): string
  {
    if |parts| == 0 then ""
    else if |parts| == 1 then parts[0]
    else parts[0] + [sep] + Join(parts[1..], sep)
  }

  /** No piece of `parts` contains `sep`. */
  predicate SeparatorFree(parts: seq<string>, sep: char)
  {
    forall i :: 0 <= i < |parts| ==> sep !in parts[i]
  }

  /** Joining the pieces of a split gives back the string that was split. */
  lemma {:induction false} JoinSplit(s: string, sep: char)
    ensures Join(Split(s, sep), sep) == s
    decreases |s|
  {
    if |s| > 0 {
      var rest := Split(s[1..], sep);
      JoinSplit(s[1..], sep);
      if s[0] == sep {
        assert ([""] + rest)[1..] == rest;
      } else if |rest| > 1 {
        var parts := [[s[0]] + rest[0]] + rest[1..];
        assert parts[1..] == rest[1..];
        assert s == [s[0]] + s[1..];
      } else {
        assert s == [s[0]] + s[1..];
      }
    }
  }

  /** A string without the separator splits into itself alone. */
  lemma {:induction false} SplitSeparatorFree(s: string, sep: char)
    requires sep !in s
    ensures Split(s, sep) == [s]
    decreases |s|
  {
    if |s| > 0 {
      SplitSeparatorFree(s[1..], sep);
      assert s == [s[0]] + s[1..];
    }
  }

  /** A string splits into more than one piece exactly when it contains the separator. */
  lemma {:induction false} SplitSingle(s: string, sep: char)
    ensures |Split(s, sep)| == 1 <==> sep !in s
    decreases |s|
  {
    if sep !in s {
      SplitSeparatorFree(s, sep);
    } else {
      SplitSingle(s[1..], sep);
      if s[0] != sep {
        assert sep in s[1..] by {
          var k :| 0 <= k < |s| && s[k] == sep;
          assert s[1..][k - 1] == sep;
        }
      }
    }
  }

  /** Splitting `x . y`, where `x` has no separator, gives `x` and then the pieces of `y`. */
  lemma {:induction false} SplitAfterFirst(x: string, y: string, sep: char)
    requires sep !in x
    ensures Split(x + [sep] + y, sep) == [x] + Split(y, sep)
    decreases |x|
  {
    var s := x + [sep] + y;
    if |x| == 0 {
      assert s[1..] == y;
    } else {
      SplitAfterFirst(x[1..], y, sep);
      assert s[1..] == x[1..] + [sep] + y;
      assert x == [x[0]] + x[1..];
    }
  }

  /** Splitting a join of separator-free pieces gives back the pieces. */
  lemma {:induction false} SplitJoin(parts: seq<string>, sep: char)
    requires |parts| >= 1
    requires SeparatorFree(parts, sep)
    ensures Split(Join(parts, sep), sep) == parts
    decreases |parts|
  {
    if |parts| == 1 {
      SplitSeparatorFree(parts[0], sep);
    } else {
      SplitJoin(parts[1..], sep);
      SplitAfterFirst(parts[0], Join(parts[1..], sep), sep);
      assert parts == [parts[0]] + parts[1..];
    }
  }

  /** Joining two non-empty runs of pieces puts one separator between their joins. */
  lemma {:induction false} JoinAppend(a: seq<string>, b: seq<string>, sep: char)
    requires |a| >= 1 && |b| >= 1
    ensures Join(a + b, sep) == Join(a, sep) + [sep] + Join(b, sep)
    decreases |a|
  {
    if |a| > 1 {
      JoinAppend(a[1..], b, sep);
      assert (a + b)[1..] == a[1..] + b;
    } else {
      assert (a + b)[1..] == b;
    }
  }

  /** A configured domain cut into its subdomain (possibly empty) and its root. */
  datatype SplitDomain = SplitDomain(sub: string, root: string)

  /** The labels of a domain name. */
  function Labels(domain: string): seq<string>
  {
    Split(domain, Dot)
  }

  /**
   * `newSplitDomain`: no result for a name of fewer than two labels; for two
   * labels, an empty subdomain and the whole name as root; for more, the
   * last two labels joined as root and the earlier ones joined as subdomain.
   */
  function NewSplitDomain(domain: string): (r: Option<SplitDomain>)
    ensures r.None? <==> |Labels(domain)| < 2
  {
    var parts := Labels(domain);
    var n := |parts|;
    if n < 2 then None
    else if n == 2 then Some(SplitDomain("", domain))
    else Some(SplitDomain(Join(parts[..n - 2], Dot), Join(parts[n - 2..], Dot)))
  }

  /** A name is rejected exactly when it has no dot at all ("" and "localhost" among them). */
  lemma RejectedIffNoDot(domain: string)
    ensures NewSplitDomain(domain).None? <==> Dot !in domain
  {
    SplitSingle(domain, Dot);
  }

  /**
   * What the splitter keeps: the root splits back into exactly the last two
   * labels of the input; with exactly two labels the subdomain is empty and
   * the root is the input itself; with more, the subdomain splits back into
   * all earlier labels and `sub . root` is the input again.
   */
  lemma SplitDomainLabels(domain: string)
    requires NewSplitDomain(domain).Some?
    ensures var parts, d := Labels(domain), NewSplitDomain(domain).value;
      && Labels(d.root) == parts[|parts| - 2..]
      && (|parts| == 2 ==> d.sub == "" && d.root == domain)
      && (|parts| > 2 ==> Labels(d.sub) == parts[..|parts| - 2] && d.sub + [Dot] + d.root == domain)
  {
    var parts, d := Labels(domain), NewSplitDomain(domain).value;
    var n := |parts|;
    if n == 2 {
      JoinSplit(domain, Dot);
      assert parts[n - 2..] == parts;
    } else {
      SplitJoin(parts[..n - 2], Dot);
      SplitJoin(parts[n - 2..], Dot);
      JoinAppend(parts[..n - 2], parts[n - 2..], Dot);
      assert parts[..n - 2] + parts[n - 2..] == parts;
      JoinSplit(domain, Dot);
    }
  }

  /**
   * The round trip of the splitter: every accepted name is recovered from its
   * parts, either as the root alone (empty subdomain) or as `sub . root`, and
   * the root always has exactly two labels.
   */
  lemma SplitDomainRoundTrip(domain: string)
    requires NewSplitDomain(domain).Some?
    ensures var d := NewSplitDomain(domain).value;
      && |Labels(d.root)| == 2
      && ((d.sub == "" && d.root == domain) || d.sub + [Dot] + d.root == domain)
  {
    SplitDomainLabels(domain);
  }

  /** "sub.example.com" has subdomain "sub" and root "example.com". */
  lemma SplitSubdomainExample()
    ensures NewSplitDomain("sub.example.com") == Some(SplitDomain("sub", "example.com"))
  {
    var parts := ["sub", "example", "com"];
    assert Join(parts[2..], Dot) == "com";
    assert Join(parts[1..], Dot) == "example.com";
    assert Join(parts, Dot) == "sub.example.com";
    SplitJoin(parts, Dot);
    assert parts[..1] == ["sub"] && parts[1..] == ["example", "com"];
  }

  /** "example.com" has an empty subdomain and is its own root. */
  lemma SplitRootExample()
    ensures NewSplitDomain("example.com") == Some(SplitDomain("", "example.com"))
  {
    var parts := ["example", "com"];
    assert Join(parts, Dot) == "example.com";
    SplitJoin(parts, Dot);
  }

  /** "localhost" and the empty name are rejected. */
  lemma SplitRejectedExamples()
    ensures NewSplitDomain("localhost") == None
    ensures NewSplitDomain("") == None
  {
    RejectedIffNoDot("localhost");
    RejectedIffNoDot("");
  }

  /**
   * ".example.com" has three labels, the first of them empty, so its
   * subdomain is empty while its root is "example.com", not the whole name.
   */
  lemma LeadingDotExample()
    ensures NewSplitDomain(".example.com") == Some(SplitDomain("", "example.com"))
  {
    var parts := ["", "example", "com"];
    assert Join(parts[2..], Dot) == "com";
    assert Join(parts[1..], Dot) == "example.com";
    assert Join(parts, Dot) == ".example.com";
    SplitJoin(parts, Dot);
    assert parts[..1] == [""] && parts[1..] == ["example", "com"];
  }

  /**
   * An empty subdomain does not imply that the root is the whole name: the
   * round trip of the splitter holds only as a disjunction.
   */
  lemma EmptySubdomainNotWholeName()
    ensures exists domain :: EmptySubdomainOtherRoot(domain)
  {
    LeadingDotExample();
    assert EmptySubdomainOtherRoot(".example.com");
  }

  /** `domain` is accepted with an empty subdomain and a root other than itself. */
  predicate EmptySubdomainOtherRoot(domain: string)
  {
    match NewSplitDomain(domain)
    case None => false
    case Some(d) => d.sub == "" && d.root != domain
  }
}
