/**
 * Worked inputs for normalize_url and extract_domain
 * (ConsoleApplication1.cpp lines 71-152).  Each result is reached through
 * the general lemmas of `Url` and `Domain`, one step of the C++ code at a
 * time, rather than by evaluating the whole function on the literal.
 */
module Scenarios {
  import opened CppString
  import opened Url
  import opened Domain

  // ---- lines 118-132 on strings already in normal form ----

  lemma KeptPage()
    ensures CollapseAfterScheme(DefaultScheme("http://a.com/page")) == "http://a.com/page"
  {
    HttpSchemeFixed("http://a.com/page");
  }

  lemma KeptP()
    ensures CollapseAfterScheme(DefaultScheme("http://a.com/p")) == "http://a.com/p"
  {
    HttpSchemeFixed("http://a.com/p");
  }

  lemma KeptRootSlash()
    ensures CollapseAfterScheme(DefaultScheme("http://a.com/")) == "http://a.com/"
  {
    HttpSchemeFixed("http://a.com/");
  }

  lemma KeptHost()
    ensures CollapseAfterScheme(DefaultScheme("http://a.com")) == "http://a.com"
  {
    HttpSchemeFixed("http://a.com");
  }

  lemma KeptFoo()
    ensures CollapseAfterScheme(DefaultScheme("http://a.com/foo")) == "http://a.com/foo"
  {
    HttpSchemeFixed("http://a.com/foo");
  }

  lemma KeptBarFoo()
    ensures CollapseAfterScheme(DefaultScheme("http://a.com/bar/foo")) == "http://a.com/bar/foo"
  {
    HttpSchemeFixed("http://a.com/bar/foo");
  }

  // ---- query, fragment and case: "http://A.com/Page?x=1#frag" ----

  lemma CutQueryFragment()
    ensures CutAt(CutAt("http://A.com/Page?x=1#frag", '?'), '#') == "http://A.com/Page"
  {
    CutAtFirst("http://A.com/Page?x=1#frag", '?', 17);
    assert "http://A.com/Page?x=1#frag"[..17] == "http://A.com/Page";
  }

  lemma LowerPage()
    ensures Lower("http://A.com/Page") == "http://a.com/page"
  {
    assert "http://A.com/Page" == "http://" + "A.com/" + "Page";
    LowerConcat("http://" + "A.com/", "Page");
    LowerConcat("http://", "A.com/");
    assert Lower("A.com/") == "a.com/";
    assert Lower("Page") == "page";
  }

  /** Lines 74-82: the query and the fragment go and the letters are
      lowered. */
  lemma NormalizeQueryFragment()
    ensures Normalize("http://A.com/Page?x=1#frag", "") == "http://a.com/page"
  {
    CutQueryFragment();
    LowerPage();
    KeptPage();
  }

  // ---- trailing slashes, and the failure of idempotence ----

  lemma DropP()
    ensures Prepare("http://a.com/p/") == "http://a.com/p"
  {
    PrepareDrop("http://a.com/p/");
  }

  lemma DropDouble()
    ensures Prepare("http://a.com//") == "http://a.com/"
  {
    PrepareDrop("http://a.com//");
  }

  lemma DropSingle()
    ensures Prepare("http://a.com/") == "http://a.com"
  {
    PrepareDrop("http://a.com/");
  }

  /** Lines 84-86: one trailing '/' is dropped. */
  lemma NormalizeTrailingSlash()
    ensures Normalize("http://a.com/p/", "") == "http://a.com/p"
  {
    DropP();
    KeptP();
  }

  /** normalize_url is not idempotent: of the two trailing slashes of
      "http://a.com//" line 84 drops one, and a second call drops the
      other. */
  lemma NormalizeNotIdempotent()
    ensures Normalize("http://a.com//", "") == "http://a.com/"
    ensures Normalize(Normalize("http://a.com//", ""), "") == "http://a.com"
  {
    DropDouble();
    DropSingle();
    KeptRootSlash();
    KeptHost();
  }

  // ---- resolution against "http://a.com/bar/baz" ----

  lemma PrepareFoo()
    ensures Prepare("/foo") == "/foo"
    ensures Prepare("foo") == "foo"
  {
    PrepareFixed("/foo");
    PrepareFixed("foo");
  }

  lemma BaseScheme()
    ensures Find("http://a.com/bar/baz", "://") == Some(4)
  {
  }

  lemma ResolveRootedFoo()
    ensures ResolveIfRelative("/foo", "http://a.com/bar/baz") == "http://a.com/foo"
  {
    FindZeroIffPrefix("/foo", "http");
    BaseScheme();
    assert AuthorityEnd("http://a.com/bar/baz", 12);
    ResolveRooted("/foo", "http://a.com/bar/baz", 12);
  }

  /** Lines 90-101: a rooted link replaces the base's path. */
  lemma NormalizeRootedLink()
    ensures Normalize("/foo", "http://a.com/bar/baz") == "http://a.com/foo"
  {
    PrepareFoo();
    ResolveRootedFoo();
    KeptFoo();
  }

  lemma ResolveRelativeFoo()
    ensures ResolveIfRelative("foo", "http://a.com/bar/baz") == "http://a.com/bar/foo"
  {
    FindZeroIffPrefix("foo", "http");
    BaseScheme();
    ResolveRelative("foo", "http://a.com/bar/baz", 16);
  }

  /** Lines 104-110: any other link replaces the base's last segment. */
  lemma NormalizeRelativeLink()
    ensures Normalize("foo", "http://a.com/bar/baz") == "http://a.com/bar/foo"
  {
    PrepareFoo();
    ResolveRelativeFoo();
    KeptBarFoo();
  }

  // ---- the "http" prefix test of line 88 ----

  lemma HttpPrefixStage()
    ensures Prepare("httpfoo") == "httpfoo"
    ensures ResolveIfRelative("httpfoo", "http://a.com/b") == "httpfoo"
  {
    PrepareFixed("httpfoo");
    FindZeroIffPrefix("httpfoo", "http");
  }

  lemma HttpPrefixNoScheme()
    ensures !Contains("httpfoo", "://")
  {
  }

  lemma HttpPrefixShape()
    ensures NoDoubleSlash("httpfoo")
    ensures "http://" + "httpfoo" == "http://httpfoo"
  {
  }

  lemma HttpPrefixScheme()
    ensures CollapseAfterScheme(DefaultScheme("httpfoo")) == "http://httpfoo"
  {
    HttpPrefixNoScheme();
    HttpPrefixShape();
    HttpSchemeAdded("httpfoo");
  }

  /** Line 88 counts any link starting with "http" as absolute, so
      "httpfoo" is not resolved and gets the default scheme instead. */
  lemma NormalizeHttpPrefixIsAbsolute()
    ensures Normalize("httpfoo", "http://a.com/b") == "http://httpfoo"
  {
    HttpPrefixStage();
    HttpPrefixScheme();
  }

  lemma OtherSchemePrepare()
    ensures Prepare("ftp://x") == "ftp://x"
    ensures Find("ftp://x", "http") != Some(0)
  {
    PrepareFixed("ftp://x");
    FindZeroIffPrefix("ftp://x", "http");
  }

  lemma OtherSchemeResolve()
    ensures Resolve("ftp://x", "http://a.com/b") == "http://a.com/ftp://x"
  {
    assert Find("http://a.com/b", "://") == Some(4);
    ResolveRelative("ftp://x", "http://a.com/b", 12);
  }

  /** A link with another scheme does not start with "http", so line 88
      resolves it against the base like a relative path. */
  lemma ResolveOtherSchemeIsRelative()
    ensures ResolveIfRelative(Prepare("ftp://x"), "http://a.com/b") == "http://a.com/ftp://x"
  {
    OtherSchemePrepare();
    OtherSchemeResolve();
  }

  // ---- extract_domain ----

  lemma WwwScheme()
    ensures SchemeEnd("HTTP://WWW.Example.com/x") == Some(7)
  {
    assert !MatchesIcaseAt("HTTP://WWW.Example.com/x", "https://", 0);
  }

  lemma WwwPrefix()
    ensures MatchesIcaseAt("HTTP://WWW.Example.com/x", "www.", 7)
  {
  }

  lemma WwwHostStart()
    ensures HostStart("HTTP://WWW.Example.com/x", Choices[0]) == Some(11)
  {
    WwwScheme();
    WwwPrefix();
  }

  lemma WwwHost()
    ensures Captures("HTTP://WWW.Example.com/x", 11, 22)
    ensures Lower("HTTP://WWW.Example.com/x"[11..22]) == "example.com"
  {
    assert "HTTP://WWW.Example.com/x"[11..22] == "Example.com";
  }

  /** The scheme and "www." are skipped whatever their case, and the host
      is lowered. */
  lemma ExtractDomainWww()
    ensures ExtractDomain("HTTP://WWW.Example.com/x") == "example.com"
  {
    WwwHostStart();
    WwwHost();
    ExtractDomainFirstChoice("HTTP://WWW.Example.com/x", 0, 11, 22);
  }

  /** The host stops at the ':' of a port. */
  lemma ExtractDomainPort()
    ensures ExtractDomain("http://a.com:8080/") == "a.com"
  {
    var s := "http://a.com:8080/";
    assert SchemeEnd(s) == Some(7);
    assert HostStart(s, Choices[0]) == None;
    assert HostStart(s, Choices[1]) == Some(7);
    assert Captures(s, 7, 12);
    ExtractDomainFirstChoice(s, 1, 7, 12);
    assert s[7..12] == "a.com";
  }

  /** With nothing between "://" and the next '/', every choice that takes
      the scheme fails, and the match falls back to taking "http" as the
      host. */
  lemma ExtractDomainEmptyHost()
    ensures ExtractDomain("http:///x") == "http"
  {
    var s := "http:///x";
    assert SchemeEnd(s) == Some(7);
    assert HostStart(s, Choices[0]) == None;
    assert HostStart(s, Choices[1]) == Some(7);
    assert HostEnd(s, 7) == 7;
    assert HostStart(s, Choices[2]) == None;
    assert HostStart(s, Choices[3]) == Some(0);
    assert Captures(s, 0, 4);
    forall m | 0 <= m < 3
      ensures !Viable(s, Choices[m])
    {
      if m == 1 {
        forall j
          ensures !Captures(s, 7, j)
        {
          CapturesAtHostEnd(s, 7, j);
        }
      }
    }
    ExtractDomainFirstChoice(s, 3, 0, 4);
    assert s[0..4] == "http";
  }
}
