/**
 * normalize_url and get_base_path (ConsoleApplication1.cpp lines 71-135 and
 * 155-163).  `Normalize` is the meaning of normalize_url as one function of
 * its two arguments, built from one function per step of the C++ code;
 * `NormalizeUrl` performs the same steps on a local string, with the
 * `while` loop that collapses "//" in the part after the scheme separator.
 */
module Url {
  import opened CppString

  /** The string cut at the first `c`, as `result.substr(0, result.find(c))`
      does when `c` is present (lines 74-78). */
  function CutAt(s: string, c: char): (r: string)
    ensures r <= s
    ensures forall i :: 0 <= i < |r| ==> r[i] != c
    ensures |r| < |s| ==> s[|r|] == c
  {
    match FindChar(s, c)
    case None => s
    case Some(p) => s[..p]
  }

  /** Cutting at the first `c`, found at index `i`. */
  lemma CutAtFirst(s: string, c: char, i: nat)
    requires i < |s| && s[i] == c
    requires forall j :: 0 <= j < i ==> s[j] != c
    ensures CutAt(s, c) == s[..i]
  {
  }

  /** Lines 84-86: one trailing '/' goes, unless it is the whole string. */
  function DropTrailingSlash(s: string): string
  {
    if |s| > 1 && s[|s| - 1] == '/' then s[..|s| - 1] else s
  }

  /** Lines 90-114: resolve a link that does not start with "http" against
      a non-empty base.  A rooted link keeps the base up to the first '/'
      after "://"; any other link replaces what follows the base's last '/',
      provided that '/' lies past the position that line 107 computes as
      `base_url.find("://") + 2` in size_t arithmetic. */
  function Resolve(link: string, base: string): string
  {
    if link != [] && link[0] == '/' then
      match Find(base, "://")
      case None => link
      case Some(p) =>
        match FindCharFrom(base, '/', p + 3)
        case Some(d) => base[..d] + link
        case None => base + link
    else
      var lastSlash := FindLastChar(base, '/');
      if lastSlash.Some? && lastSlash.value > AddSizeT(AsSizeT(Find(base, "://")), 2) then
        base[..lastSlash.value + 1] + link
      else
        base + "/" + link
  }

  /** Lines 118-120: a string without "://" gets "http://" in front. */
  function DefaultScheme(s: string): string
  {
    if Contains(s, "://") then s else "http://" + s
  }

  /** Every run of '/' shortened to a single '/': what the loop of lines
      127-129 leaves behind. */
  function CollapseSlashes(s: string): string
  {
    if |s| < 2 then s
    else if s[0] == '/' && s[1] == '/' then CollapseSlashes(s[1..])
    else [s[0]] + CollapseSlashes(s[1..])
  }

  /** Lines 122-132: collapse the part after the first "://". */
  function CollapseAfterScheme(s: string): string
  {
    match Find(s, "://")
    case None => s
    case Some(p) => s[..p + 3] + CollapseSlashes(s[p + 3..])
  }

  /** Lines 72-86: query and fragment cut off, ASCII lower-cased, one
      trailing '/' dropped. */
  function Prepare(url: string): string
  {
    DropTrailingSlash(Lower(CutAt(CutAt(url, '?'), '#')))
  }

  /** Line 88: only a non-empty base and a string that does not start with
      "http" (`result.find("http") != 0`) lead to resolution. */
  function ResolveIfRelative(s: string, base: string): string
  {
    if base != [] && Find(s, "http") != Some(0) then Resolve(s, base) else s
  }

  /** normalize_url(url, base_url), lines 71-135. */
  function Normalize(url: string, base: string): string
  {
    CollapseAfterScheme(DefaultScheme(ResolveIfRelative(Prepare(url), base)))
  }

  /** No two consecutive '/' anywhere in `s`. */
  predicate NoDoubleSlash(s: string)
  {
    forall i :: 0 <= i < |s| - 1 ==> !(s[i] == '/' && s[i + 1] == '/')
  }

  /** No '?', no '#' and no upper-case ASCII letter in `s`. */
  predicate Clean(s: string)
  {
    forall i :: 0 <= i < |s| ==> s[i] != '?' && s[i] != '#' && !IsUpperAscii(s[i])
  }

  /** The loop test of line 127: `path.find("//") != npos`. */
  lemma ContainsDoubleSlash(s: string)
    ensures Contains(s, "//") <==> !NoDoubleSlash(s)
  {
    forall i | 0 <= i
      ensures OccursAt(s, "//", i) <==> i < |s| - 1 && s[i] == '/' && s[i + 1] == '/'
    {
      if i + 2 <= |s| {
        MatchesFromChars(s, "//", i, 0);
      }
    }
    if !NoDoubleSlash(s) {
      var i :| 0 <= i < |s| - 1 && s[i] == '/' && s[i + 1] == '/';
      assert OccursAt(s, "//", i);
    }
  }

  lemma {:induction false} CollapseSlashesFacts(s: string)
    ensures NoDoubleSlash(CollapseSlashes(s))
    ensures |CollapseSlashes(s)| <= |s|
    ensures s != [] ==> CollapseSlashes(s) != [] && CollapseSlashes(s)[0] == s[0]
    ensures forall i :: 0 <= i < |CollapseSlashes(s)| ==> CollapseSlashes(s)[i] in s
  {
    if |s| >= 2 {
      CollapseSlashesFacts(s[1..]);
      var tail := CollapseSlashes(s[1..]);
      if !(s[0] == '/' && s[1] == '/') {
        var r := [s[0]] + tail;
        assert r == CollapseSlashes(s);
        forall i | 0 <= i < |r| - 1
          ensures !(r[i] == '/' && r[i + 1] == '/')
        {
          if i > 0 {
            assert r[i] == tail[i - 1] && r[i + 1] == tail[i];
          }
        }
        forall i | 0 <= i < |r|
          ensures r[i] in s
        {
          if i > 0 {
            assert r[i] == tail[i - 1];
            assert tail[i - 1] in s[1..];
          }
        }
      } else {
        forall i | 0 <= i < |tail|
          ensures tail[i] in s
        {
          assert tail[i] in s[1..];
        }
      }
    }
  }

  /** One step of line 128, `path.replace(path.find("//"), 2, "/")`, does
      not change what the string collapses to. */
  lemma {:induction false} CollapseReplaceStep(s: string, i: nat)
    requires i + 1 < |s| && s[i] == '/' && s[i + 1] == '/'
    ensures CollapseSlashes(s[..i] + "/" + s[i + 2..]) == CollapseSlashes(s)
  {
    var t := s[..i] + "/" + s[i + 2..];
    if i == 0 {
      assert t == s[1..];
    } else {
      assert t[0] == s[0] && t[1] == s[1];
      assert t[1..] == s[1..][..i - 1] + "/" + s[1..][i + 1..];
      CollapseReplaceStep(s[1..], i - 1);
    }
  }

  /** A string with no "//" is left alone by the collapse. */
  lemma {:induction false} CollapseFixpoint(s: string)
    requires NoDoubleSlash(s)
    ensures CollapseSlashes(s) == s
  {
    if |s| >= 2 {
      CollapseFixpoint(s[1..]);
      assert s == [s[0]] + s[1..];
    }
  }

  /** The loop of lines 127-129: while the path holds "//", replace the
      first one with "/".  Each round shortens the path by one character. */
  method CollapseDoubleSlashes(path: string) returns (collapsed: string)
    ensures collapsed == CollapseSlashes(path)
    ensures NoDoubleSlash(collapsed)
  {
    collapsed := path;
    ContainsDoubleSlash(collapsed);
    while Contains(collapsed, "//")
      invariant CollapseSlashes(collapsed) == CollapseSlashes(path)
      invariant Contains(collapsed, "//") <==> !NoDoubleSlash(collapsed)
      decreases |collapsed|
    {
      var i := Find(collapsed, "//").value;
      MatchesFromChars(collapsed, "//", i, 0);
      CollapseReplaceStep(collapsed, i);
      collapsed := collapsed[..i] + "/" + collapsed[i + 2..];
      ContainsDoubleSlash(collapsed);
    }
    CollapseFixpoint(collapsed);
  }

  /** normalize_url performed step by step on a local string, as lines 72-134
      do; the result is `Normalize(url, base)`. */
  method NormalizeUrl(url: string, base: string) returns (result: string)
    ensures result == Normalize(url, base)
  {
    result := CutAt(url, '?');
    result := CutAt(result, '#');
    result := Lower(result);
    if |result| > 1 && result[|result| - 1] == '/' {
      result := result[..|result| - 1];
    }
    assert result == Prepare(url);
    if base != [] && Find(result, "http") != Some(0) {
      result := Resolve(result, base);
    }
    if !Contains(result, "://") {
      result := "http://" + result;
    }
    ghost var schemed := result;
    var posDsl := Find(result, "://");
    if posDsl.Some? {
      var protocol := result[..posDsl.value + 3];
      var path := result[posDsl.value + 3..];
      path := CollapseDoubleSlashes(path);
      result := protocol + path;
    }
    assert result == CollapseAfterScheme(schemed);
  }

  /** Where the path of a URL begins: just past the first "://".  Line 107
      compares the last '/' against `base_url.find("://") + 2` in size_t
      arithmetic, so for a base without "://" (npos + 2 wraps around to 1)
      every '/' from index 2 on counts as a path separator. */
  function PathStart(base: string): (k: nat)
    ensures Contains(base, "://") ==> k == Find(base, "://").value + 3 && k <= |base|
    ensures !Contains(base, "://") ==> k == 2
  {
    match Find(base, "://")
    case None => 2
    case Some(p) => p + 3
  }

  /** Line 107 counts a '/' at index `j` as lying in the path exactly when
      `j > base_url.find("://") + 2` in size_t arithmetic, which is exactly
      when `j` is at or past PathStart: for a base without "://" the sum
      npos + 2 wraps around to 1. */
  lemma PathStartThreshold(base: string, j: nat)
    requires |base| < NPOS
    ensures j > AddSizeT(AsSizeT(Find(base, "://")), 2) <==> j >= PathStart(base)
  {
    match Find(base, "://")
    case None =>
      assert AddSizeT(NPOS, 2) == 1;
    case Some(p) =>
      assert p < |base|;
  }

  /** `k` ends the scheme-and-host part of `base`: it is the first '/' at or
      after PathStart, or the end of `base` when there is none. */
  predicate AuthorityEnd(base: string, k: nat)
  {
    && Contains(base, "://")
    && PathStart(base) <= k <= |base|
    && (k == |base| || base[k] == '/')
    && forall j :: PathStart(base) <= j < k ==> base[j] != '/'
  }

  /** get_base_path(url), lines 155-163: the URL up to and including the
      first '/' after the host, with a '/' added when there is none, and
      "" for a URL without "://". */
  function GetBasePath(url: string): (r: string)
    ensures !Contains(url, "://") ==> r == ""
    ensures forall k: nat :: AuthorityEnd(url, k) ==> r == url[..k] + "/"
  {
    match Find(url, "://")
    case None => ""
    case Some(p) =>
      match FindCharFrom(url, '/', p + 3)
      case None => url + "/"
      case Some(d) => url[..d + 1]
  }

  /** Lines 90-101: a rooted link is put after the base's scheme and host; a
      base without "://" leaves it as it is. */
  lemma ResolveRooted(link: string, base: string, k: nat)
    requires link != [] && link[0] == '/'
    ensures !Contains(base, "://") ==> Resolve(link, base) == link
    ensures AuthorityEnd(base, k) ==> Resolve(link, base) == base[..k] + link
  {
    if AuthorityEnd(base, k) && k == |base| {
      assert base[..k] == base;
    }
  }

  /** Lines 106-110: any other link replaces what follows the last '/' of
      the base's path.  A C++ string is shorter than npos. */
  lemma ResolveRelative(link: string, base: string, k: nat)
    requires !(link != [] && link[0] == '/')
    requires |base| < NPOS
    requires PathStart(base) <= k < |base| && base[k] == '/'
    requires forall j :: k < j < |base| ==> base[j] != '/'
    ensures Resolve(link, base) == base[..k + 1] + link
  {
    var lastSlash := FindLastChar(base, '/');
    assert lastSlash == Some(k);
  }

  /** Lines 111-113: when the base has no '/' in its path, the link is
      appended after a separating '/'. */
  lemma ResolveNoPathSlash(link: string, base: string)
    requires !(link != [] && link[0] == '/')
    requires |base| < NPOS
    requires forall j :: PathStart(base) <= j < |base| ==> base[j] != '/'
    ensures Resolve(link, base) == base + "/" + link
  {
  }

  /** Lines 118-132 leave a string holding "://" with no "//" after the
      first "://", whatever string they start from. */
  lemma {:induction false} SchemeAndCollapseShape(s: string)
    ensures Contains(CollapseAfterScheme(DefaultScheme(s)), "://")
    ensures var r := CollapseAfterScheme(DefaultScheme(s));
            NoDoubleSlash(r[Find(r, "://").value + 3..])
  {
    var schemed := DefaultScheme(s);
    if !Contains(s, "://") {
      assert OccursAt(schemed, "://", 4);
    }
    var p := Find(schemed, "://").value;
    var r := schemed[..p + 3] + CollapseSlashes(schemed[p + 3..]);
    assert r == CollapseAfterScheme(schemed);
    assert r[..p + 3] == schemed[..p + 3];
    FindSamePrefix(schemed, r, "://", p);
    assert r[p + 3..] == CollapseSlashes(schemed[p + 3..]);
    CollapseSlashesFacts(schemed[p + 3..]);
  }

  /** normalize_url always returns a string holding "://" (lines 118-120),
      and after the first "://" there is no "//" (lines 122-132). */
  lemma NormalizeShape(url: string, base: string)
    ensures Contains(Normalize(url, base), "://")
    ensures NoDoubleSlash(Normalize(url, base)[Find(Normalize(url, base), "://").value + 3..])
  {
    SchemeAndCollapseShape(ResolveIfRelative(Prepare(url), base));
  }

  /** Lines 72-86 leave no '?', no '#' and no upper-case ASCII letter. */
  lemma PrepareClean(url: string)
    ensures Clean(Prepare(url))
  {
    var cut1 := CutAt(url, '?');
    var cut2 := CutAt(cut1, '#');
    assert forall i :: 0 <= i < |cut2| ==> cut2[i] == cut1[i];
    assert Clean(Lower(cut2));
  }

  /** Lines 118-132 add and keep only characters that are already clean. */
  lemma SchemeAndCollapseClean(s: string)
    requires Clean(s)
    ensures Clean(CollapseAfterScheme(DefaultScheme(s)))
  {
    var schemed := DefaultScheme(s);
    assert Clean(schemed);
    match Find(schemed, "://")
    case None =>
    case Some(p) =>
      var tail := schemed[p + 3..];
      CollapseSlashesFacts(tail);
      forall i | 0 <= i < |CollapseSlashes(tail)|
        ensures CollapseSlashes(tail)[i] != '?' && CollapseSlashes(tail)[i] != '#'
        ensures !IsUpperAscii(CollapseSlashes(tail)[i])
      {
        var j :| 0 <= j < |tail| && tail[j] == CollapseSlashes(tail)[i];
      }
  }

  /** Lines 88-115 build the result from pieces of the link and the base. */
  lemma ResolveIfRelativeClean(s: string, base: string)
    requires Clean(s) && Clean(base)
    ensures Clean(ResolveIfRelative(s, base))
  {
    if base != [] && Find(s, "http") != Some(0) {
      if s != [] && s[0] == '/' {
        match Find(base, "://")
        case None =>
        case Some(p) =>
          match FindCharFrom(base, '/', p + 3)
          case Some(d) =>
            assert Clean(base[..d]);
          case None =>
      } else {
        var lastSlash := FindLastChar(base, '/');
        if lastSlash.Some? && lastSlash.value > AddSizeT(AsSizeT(Find(base, "://")), 2) {
          assert Clean(base[..lastSlash.value + 1]);
        } else {
          assert Clean(base + "/");
        }
      }
    }
  }

  /** With a base free of '?', '#' and upper-case letters (the empty base in
      particular), the result has none of them: lines 74-82 remove the query,
      the fragment and the capitals, and no later step brings one back. */
  lemma NormalizeClean(url: string, base: string)
    requires Clean(base)
    ensures Clean(Normalize(url, base))
  {
    PrepareClean(url);
    ResolveIfRelativeClean(Prepare(url), base);
    SchemeAndCollapseClean(ResolveIfRelative(Prepare(url), base));
  }

  /** Lines 74-86 leave a clean string without a trailing '/' as it is. */
  lemma PrepareFixed(s: string)
    requires Clean(s) && (|s| <= 1 || s[|s| - 1] != '/')
    ensures Prepare(s) == s
  {
    assert CutAt(s, '?') == s;
    assert CutAt(s, '#') == s;
    assert Lower(s) == s;
  }

  /** Lines 74-86 take a clean string ending with '/' (and longer than
      that '/') to the string without it. */
  lemma PrepareDrop(s: string)
    requires Clean(s) && |s| > 1 && s[|s| - 1] == '/'
    ensures Prepare(s) == s[..|s| - 1]
  {
    assert CutAt(s, '?') == s;
    assert CutAt(s, '#') == s;
    assert Lower(s) == s;
  }

  /** Lines 118-132 leave a string as it is when it holds "://" and has no
      "//" after the first "://". */
  lemma SchemeAndCollapseFixed(s: string)
    requires Contains(s, "://")
    requires NoDoubleSlash(s[Find(s, "://").value + 3..])
    ensures CollapseAfterScheme(DefaultScheme(s)) == s
  {
    var p := Find(s, "://").value;
    CollapseFixpoint(s[p + 3..]);
    assert s[..p + 3] + s[p + 3..] == s;
  }

  /** A string starting with "http://" and without "//" after it is left
      as it is by lines 118-132. */
  lemma HttpSchemeFixed(s: string)
    requires "http://" <= s && NoDoubleSlash(s[7..])
    ensures CollapseAfterScheme(DefaultScheme(s)) == s
  {
    assert Find("http://", "://") == Some(4);
    assert s[..7] == "http://";
    FindSamePrefix("http://", s, "://", 4);
    SchemeAndCollapseFixed(s);
  }

  /** A string without "://" and without "//" gets the default scheme
      and is otherwise left alone by lines 118-132. */
  lemma HttpSchemeAdded(s: string)
    requires !Contains(s, "://") && NoDoubleSlash(s)
    ensures CollapseAfterScheme(DefaultScheme(s)) == "http://" + s
  {
    var t := "http://" + s;
    assert t[7..] == s;
    HttpSchemeFixed(t);
    assert Find("http://", "://") == Some(4);
    FindSamePrefix("http://", t, "://", 4);
  }

  /** A string in the shape normalize_url produces, without a trailing
      '/', is normalised to itself against an empty base. */
  lemma NormalizeFixed(r: string)
    requires Clean(r) && Contains(r, "://")
    requires NoDoubleSlash(r[Find(r, "://").value + 3..])
    requires r == [] || r[|r| - 1] != '/'
    ensures Normalize(r, "") == r
  {
    PrepareFixed(r);
    SchemeAndCollapseFixed(r);
  }

  /** normalize_url is idempotent on its own results except when the result
      ends with '/': normalising again drops that '/' (line 84), which is
      where idempotence fails. */
  lemma NormalizeIdempotentUnlessSlash(url: string)
    ensures var r := Normalize(url, "");
            r != [] && r[|r| - 1] != '/' ==> Normalize(r, "") == r
  {
    var r := Normalize(url, "");
    if r != [] && r[|r| - 1] != '/' {
      NormalizeShape(url, "");
      NormalizeClean(url, "");
      NormalizeFixed(r);
    }
  }

}
