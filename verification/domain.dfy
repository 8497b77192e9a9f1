/**
 * extract_domain (ConsoleApplication1.cpp lines 138-152).  The C++ code runs
 * std::regex_search with the case-insensitive ECMAScript pattern
 *
 *     ^(?:https?:\/\/)?(?:www\.)?([^\/:?#]+)(?:[\/:?#]|$)
 *
 * and lower-cases group 1.  Here the pattern is matched by hand, the way a
 * backtracking matcher explores it: each optional group is first tried taken,
 * then skipped, so the four ways of taking or skipping the scheme and the
 * "www." prefix are tried in the order of `Choices`.  Under each of them
 * the host group is the longest run of characters other than '/', ':', '?'
 * and '#' (a shorter run is never followed by a delimiter), and the attempt
 * succeeds exactly when that run is not empty.
 */
module Domain {
  import opened CppString

  /** The characters of the class [\/:?#], which end the host. */
  predicate IsDelimiter(c: char)
  {
    c == '/' || c == ':' || c == '?' || c == '#'
  }

  /** The characters of `lit` from index `k` on match `s` from `i + k` on,
      ignoring ASCII case (regex::icase); `lit` is written in lower case. */
  predicate MatchesIcaseFrom(s: string, lit: string, i: nat, k: nat)
    requires i + |lit| <= |s| && k <= |lit|
    decreases |lit| - k
  {
    k == |lit| || (LowerChar(s[i + k]) == lit[k] && MatchesIcaseFrom(s, lit, i, k + 1))
  }

  /** `lit` occurs in `s` at index `i`, ignoring ASCII case. */
  predicate MatchesIcaseAt(s: string, lit: string, i: nat)
  {
    i + |lit| <= |s| && MatchesIcaseFrom(s, lit, i, 0)
  }

  /** Whether the group (?:https?:\/\/) and the group (?:www\.) are taken. */
  datatype Choice = Choice(scheme: bool, www: bool)

  /** The order in which the matcher tries the choices. */
  const Choices: seq<Choice> :=
    [Choice(true, true), Choice(true, false), Choice(false, true), Choice(false, false)]

  /** Where (?:https?:\/\/), taken at the start of `s`, ends. */
  function SchemeEnd(s: string): Option<nat>
  {
    if MatchesIcaseAt(s, "https://", 0) then Some(8)
    else if MatchesIcaseAt(s, "http://", 0) then Some(7)
    else None
  }

  /** Where the host group starts under choice `c`, if the groups it takes
      match. */
  function HostStart(s: string, c: Choice): (r: Option<nat>)
    ensures r.Some? ==> r.value <= |s|
  {
    var afterScheme := if c.scheme then SchemeEnd(s) else Some(0);
    match afterScheme
    case None => None
    case Some(i) =>
      if !c.www then Some(i)
      else if MatchesIcaseAt(s, "www.", i) then Some(i + 4)
      else None
  }

  /** The end of the longest run of non-delimiters from `i`. */
  function HostEnd(s: string, i: nat): (j: nat)
    requires i <= |s|
    ensures i <= j <= |s|
    ensures j == |s| || IsDelimiter(s[j])
    ensures forall k :: i <= k < j ==> !IsDelimiter(s[k])
    decreases |s| - i
  {
    if i == |s| || IsDelimiter(s[i]) then i else HostEnd(s, i + 1)
  }

  /** ([^\/:?#]+)(?:[\/:?#]|$) matches with group 1 equal to s[i..j]. */
  predicate Captures(s: string, i: nat, j: nat)
  {
    && i < j <= |s|
    && (forall k :: i <= k < j ==> !IsDelimiter(s[k]))
    && (j == |s| || IsDelimiter(s[j]))
  }

  /** The whole pattern matches under choice `c`. */
  ghost predicate Viable(s: string, c: Choice)
  {
    HostStart(s, c).Some? && exists j :: Captures(s, HostStart(s, c).value, j)
  }

  /** The span of group 1 under the first of `choices` that matches. */
  function FirstMatch(s: string, choices: seq<Choice>): (r: Option<(nat, nat)>)
    ensures r.Some? ==> Captures(s, r.value.0, r.value.1)
  {
    if choices == [] then None
    else
      match HostStart(s, choices[0])
      case Some(i) =>
        if HostEnd(s, i) > i then Some((i, HostEnd(s, i))) else FirstMatch(s, choices[1..])
      case None => FirstMatch(s, choices[1..])
  }

  /** extract_domain(url): group 1 lower-cased, or "" when nothing matches. */
  function ExtractDomain(url: string): (d: string)
    ensures forall k :: 0 <= k < |d| ==> !IsDelimiter(d[k]) && !IsUpperAscii(d[k])
  {
    match FirstMatch(url, Choices)
    case None => ""
    case Some((i, j)) => Lower(url[i..j])
  }

  /** A host group starting at `i` ends where the longest run ends. */
  lemma CapturesAtHostEnd(s: string, i: nat, j: nat)
    requires i <= |s|
    ensures Captures(s, i, j) <==> j == HostEnd(s, i) && j > i
  {
  }

  /** FirstMatch picks choice `n` when it is viable and no earlier one is. */
  lemma {:induction false} FirstMatchPicks(s: string, choices: seq<Choice>, n: nat)
    requires n < |choices| && Viable(s, choices[n])
    requires forall m :: 0 <= m < n ==> !Viable(s, choices[m])
    ensures var i := HostStart(s, choices[n]).value;
            FirstMatch(s, choices) == Some((i, HostEnd(s, i)))
  {
    var c := choices[0];
    match HostStart(s, c)
    case Some(i) =>
      var j :| Captures(s, HostStart(s, choices[n]).value, j);
      CapturesAtHostEnd(s, HostStart(s, choices[n]).value, j);
      if n > 0 {
        if HostEnd(s, i) > i {
          CapturesAtHostEnd(s, i, HostEnd(s, i));
          assert Viable(s, choices[0]);
        }
        FirstMatchPicks(s, choices[1..], n - 1);
      }
    case None =>
      FirstMatchPicks(s, choices[1..], n - 1);
  }

  /** Some choice is viable, so FirstMatch finds a match. */
  lemma {:induction false} FirstMatchSome(s: string, choices: seq<Choice>, n: nat)
    requires n < |choices| && Viable(s, choices[n])
    ensures FirstMatch(s, choices).Some?
  {
    match HostStart(s, choices[0])
    case Some(i) =>
      if HostEnd(s, i) == i {
        if n == 0 {
          var j :| Captures(s, i, j);
          CapturesAtHostEnd(s, i, j);
        } else {
          FirstMatchSome(s, choices[1..], n - 1);
        }
      }
    case None =>
      FirstMatchSome(s, choices[1..], n - 1);
  }

  /** No choice is viable, so FirstMatch finds nothing. */
  lemma {:induction false} FirstMatchNone(s: string, choices: seq<Choice>)
    requires forall m :: 0 <= m < |choices| ==> !Viable(s, choices[m])
    ensures FirstMatch(s, choices) == None
  {
    if choices != [] {
      match HostStart(s, choices[0])
      case Some(i) =>
        if HostEnd(s, i) > i {
          CapturesAtHostEnd(s, i, HostEnd(s, i));
          assert false;
        }
        FirstMatchNone(s, choices[1..]);
      case None =>
        FirstMatchNone(s, choices[1..]);
    }
  }

  /** The regex semantics of line 141: the host is group 1 of the first
      choice, in the matcher's order, under which the whole pattern matches,
      lower-cased (lines 145-147). */
  lemma ExtractDomainFirstChoice(url: string, n: nat, i: nat, j: nat)
    requires n < |Choices| && HostStart(url, Choices[n]) == Some(i) && Captures(url, i, j)
    requires forall m :: 0 <= m < n ==> !Viable(url, Choices[m])
    ensures ExtractDomain(url) == Lower(url[i..j])
  {
    assert Viable(url, Choices[n]);
    CapturesAtHostEnd(url, i, j);
    FirstMatchPicks(url, Choices, n);
  }

  /** extract_domain returns "" exactly when no choice matches, which is
      exactly when `url` is empty or starts with a delimiter. */
  lemma ExtractDomainEmpty(url: string)
    ensures ExtractDomain(url) == "" <==> url == [] || IsDelimiter(url[0])
  {
    if url == [] || IsDelimiter(url[0]) {
      forall m | 0 <= m < |Choices|
        ensures !Viable(url, Choices[m])
      {
      }
      FirstMatchNone(url, Choices);
    } else {
      assert HostStart(url, Choices[3]) == Some(0);
      CapturesAtHostEnd(url, 0, HostEnd(url, 0));
      assert Viable(url, Choices[3]);
      FirstMatchSome(url, Choices, 3);
    }
  }
}
