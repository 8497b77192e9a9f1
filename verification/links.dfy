/**
 * The link filter of extract_links (ConsoleApplication1.cpp lines 165-215).
 * The Gumbo tree walk is replaced by its output: the href values of the
 * document's <a> elements in document (pre-)order.  Each href is dropped when
 * empty or a fragment (lines 181-183), normalised against the page URL
 * (line 186), dropped when the normalised link names an excluded scheme or
 * file type (lines 188-195), and otherwise appended to the vector (line 197);
 * the vector is then sorted and its duplicates removed (lines 210-212).
 */
module Links {
  import opened CppString
  import opened Url

  /** Lines 181-183: the href is neither empty nor a fragment. */
  predicate Kept(href: string)
  {
    href != [] && href[0] != '#'
  }

  /** Lines 188-193: the normalised link is excluded. */
  predicate Excluded(link: string)
  {
    || Contains(link, "mailto:")
    || Contains(link, "javascript:")
    || Contains(link, "tel:")
    || Contains(link, ".pdf")
    || Contains(link, ".jpg")
    || Contains(link, ".png")
  }

  /** The vector `links` before line 210: one normalised link per href that
      passes the filters, in document order. */
  function Collected(hrefs: seq<string>, base: string): seq<string>
  {
    if hrefs == [] then []
    else
      var link := Normalize(hrefs[0], base);
      (if Kept(hrefs[0]) && !Excluded(link) then [link] else []) + Collected(hrefs[1..], base)
  }

  /** Strictly ascending under std::string's operator<, hence free of
      duplicates. */
  predicate StrictlyAscending(s: seq<string>)
  {
    forall i, j :: 0 <= i < j < |s| ==> Less(s[i], s[j])
  }

  /** `x` put into its place in `s`, unless it is already there. */
  function InsertUnique(s: seq<string>, x: string): (r: seq<string>)
    requires StrictlyAscending(s)
    ensures StrictlyAscending(r)
    ensures forall y :: y in r <==> y in s || y == x
  {
    if s == [] then [x]
    else if x == s[0] then s
    else if Less(x, s[0]) then
      LessTransitiveFrom(x, s);
      [x] + s
    else
      LessTotal(x, s[0]);
      var tail := InsertUnique(s[1..], x);
      assert forall y :: y in tail ==> Less(s[0], y) by {
        forall y | y in tail
          ensures Less(s[0], y)
        {
          if y != x {
            var k :| 0 <= k < |s[1..]| && s[1..][k] == y;
            assert s[k + 1] == y;
          }
        }
      }
      [s[0]] + tail
  }

  /** If `x` is below the first element, it is below all of them. */
  lemma LessTransitiveFrom(x: string, s: seq<string>)
    requires s != [] && StrictlyAscending(s) && Less(x, s[0])
    ensures forall k :: 0 <= k < |s| ==> Less(x, s[k])
  {
    forall k | 0 < k < |s|
      ensures Less(x, s[k])
    {
      LessTransitive(x, s[0], s[k]);
    }
  }

  /** What std::sort followed by std::unique and erase leave of `s`: its
      elements, each once, in ascending order. */
  function SortUnique(s: seq<string>): (r: seq<string>)
    ensures StrictlyAscending(r)
  {
    if s == [] then [] else InsertUnique(SortUnique(s[..|s| - 1]), s[|s| - 1])
  }

  /** SortUnique keeps exactly the elements of its input. */
  lemma {:induction false} SortUniqueMembers(s: seq<string>)
    ensures forall y :: y in SortUnique(s) <==> y in s
  {
    if s != [] {
      var init := s[..|s| - 1];
      SortUniqueMembers(init);
      assert s == init + [s[|s| - 1]];
    }
  }

  /** A strictly ascending sequence is determined by its elements, so any
      sort followed by unique yields `SortUnique`. */
  lemma {:induction false} AscendingUnique(a: seq<string>, b: seq<string>)
    requires StrictlyAscending(a) && StrictlyAscending(b)
    requires forall y :: y in a <==> y in b
    ensures a == b
  {
    if a != [] {
      assert a[0] in b;
      assert b[0] in a;
      if a[0] != b[0] {
        var k :| 0 <= k < |b| && b[k] == a[0];
        var m :| 0 <= m < |a| && a[m] == b[0];
        LessIrreflexive(a[0]);
        LessTransitive(a[0], b[0], a[0]);
        assert false;
      }
      forall y
        ensures y in a[1..] <==> y in b[1..]
      {
        LessIrreflexive(y);
        if y in a[1..] {
          var k :| 0 <= k < |a[1..]| && a[1..][k] == y;
          assert a[k + 1] == y;
          assert y in a;
          var m :| 0 <= m < |b| && b[m] == y;
          assert m != 0;
          assert b[1..][m - 1] == y;
        }
        if y in b[1..] {
          var k :| 0 <= k < |b[1..]| && b[1..][k] == y;
          assert b[k + 1] == y;
          assert y in b;
          var m :| 0 <= m < |a| && a[m] == y;
          assert m != 0;
          assert a[1..][m - 1] == y;
        }
      }
      AscendingUnique(a[1..], b[1..]);
    } else if b != [] {
      HeadIn(b);
      assert false;
    }
  }

  /** The first element of a non-empty sequence is one of its elements. */
  lemma HeadIn(s: seq<string>)
    requires s != []
    ensures s[0] in s
  {
  }

  /** The links collected are exactly the normalised kept hrefs that are
      not excluded. */
  lemma {:induction false} CollectedMembers(hrefs: seq<string>, base: string)
    ensures forall l :: l in Collected(hrefs, base) <==>
      exists h :: h in hrefs && Kept(h) && l == Normalize(h, base) && !Excluded(l)
  {
    if hrefs != [] {
      CollectedMembers(hrefs[1..], base);
      forall l
        ensures (exists h :: h in hrefs && Kept(h) && l == Normalize(h, base) && !Excluded(l)) ==>
          l in Collected(hrefs, base)
      {
        if exists h :: h in hrefs && Kept(h) && l == Normalize(h, base) && !Excluded(l) {
          var h :| h in hrefs && Kept(h) && l == Normalize(h, base) && !Excluded(l);
          if h != hrefs[0] {
            assert h in hrefs[1..];
          }
        }
      }
    }
  }

  /** extract_links(html, base_url) given the page's hrefs in document
      order: ascending and free of duplicates (its elements are given by
      `ExtractLinksMembers`). */
  function ExtractLinks(hrefs: seq<string>, base: string): (links: seq<string>)
    ensures StrictlyAscending(links)
  {
    SortUnique(Collected(hrefs, base))
  }

  /** extract_links returns exactly the kept, normalised, non-excluded
      links. */
  lemma ExtractLinksMembers(hrefs: seq<string>, base: string)
    ensures forall l :: l in ExtractLinks(hrefs, base) <==>
      exists h :: h in hrefs && Kept(h) && l == Normalize(h, base) && !Excluded(l)
  {
    CollectedMembers(hrefs, base);
    SortUniqueMembers(Collected(hrefs, base));
  }

  /** The result does not depend on the order or multiplicity of the hrefs:
      sorting and removing duplicates erase both. */
  lemma ExtractLinksOrderFree(hrefs1: seq<string>, hrefs2: seq<string>, base: string)
    requires forall h :: h in hrefs1 <==> h in hrefs2
    ensures ExtractLinks(hrefs1, base) == ExtractLinks(hrefs2, base)
  {
    var l1, l2 := ExtractLinks(hrefs1, base), ExtractLinks(hrefs2, base);
    ExtractLinksMembers(hrefs1, base);
    ExtractLinksMembers(hrefs2, base);
    forall l
      ensures l in l1 <==> l in l2
    {
      if l in l1 {
        var h :| h in hrefs1 && Kept(h) && l == Normalize(h, base) && !Excluded(l);
        assert h in hrefs2;
      }
      if l in l2 {
        var h :| h in hrefs2 && Kept(h) && l == Normalize(h, base) && !Excluded(l);
        assert h in hrefs1;
      }
    }
    AscendingUnique(l1, l2);
  }
}
