/**
 * The parts of std::string that the crawler relies on: find (for a substring
 * and for a single character), find_last_of for a single character, the
 * ASCII tolower applied by std::transform, and the lexicographic operator<
 * used by std::sort.  A failed search returns std::string::npos in C++; here
 * it is None, and `AsSizeT` turns a search result back into the size_t the
 * C++ code computes with.
 */
module CppString {

  datatype Option<T> = None | Some(value: T)

  /** std::string::npos, the largest size_t value. */
  const NPOS: nat := 0xFFFF_FFFF_FFFF_FFFF
  /** size_t arithmetic is modulo 2^64. */
  const SIZE_T_MODULUS: nat := 0x1_0000_0000_0000_0000

  /** A search result as the size_t value the C++ code sees. */
  function AsSizeT(o: Option<nat>): nat
  {
    match o
    case None => NPOS
    case Some(i) => i
  }

  /** size_t addition, which wraps around. */
  function AddSizeT(a: nat, b: nat): (r: nat)
    ensures r < SIZE_T_MODULUS
    ensures a + b < SIZE_T_MODULUS ==> r == a + b
    ensures a < SIZE_T_MODULUS && b < SIZE_T_MODULUS && a + b >= SIZE_T_MODULUS ==>
      r == a + b - SIZE_T_MODULUS
  {
    (a + b) % SIZE_T_MODULUS
  }

  /** The characters of `pat` from index `k` on appear in `s` from `i + k` on. */
  predicate MatchesFrom(s: string, pat: string, i: nat, k: nat)
    requires i + |pat| <= |s| && k <= |pat|
    decreases |pat| - k
  {
    k == |pat| || (s[i + k] == pat[k] && MatchesFrom(s, pat, i, k + 1))
  }

  /** `pat` occurs in `s` starting at index `i`. */
  predicate OccursAt(s: string, pat: string, i: nat)
  {
    i + |pat| <= |s| && MatchesFrom(s, pat, i, 0)
  }

  lemma {:induction false} MatchesFromChars(s: string, pat: string, i: nat, k: nat)
    requires i + |pat| <= |s| && k <= |pat|
    ensures MatchesFrom(s, pat, i, k) <==> forall m :: k <= m < |pat| ==> s[i + m] == pat[m]
    decreases |pat| - k
  {
    if k < |pat| {
      MatchesFromChars(s, pat, i, k + 1);
    }
  }

  /** OccursAt is the slice comparison s.compare(i, |pat|, pat) == 0. */
  lemma OccursAtSlice(s: string, pat: string, i: nat)
    ensures OccursAt(s, pat, i) <==> i + |pat| <= |s| && s[i..i + |pat|] == pat
  {
    if i + |pat| <= |s| {
      MatchesFromChars(s, pat, i, 0);
    }
  }

  /** s.find(pat, from): the first occurrence of `pat` at or after `from`. */
  function FindFrom(s: string, pat: string, from: nat): (r: Option<nat>)
    ensures r.Some? ==> from <= r.value && OccursAt(s, pat, r.value)
    ensures r.Some? ==> forall j :: from <= j < r.value ==> !OccursAt(s, pat, j)
    ensures r.None? ==> forall j :: from <= j ==> !OccursAt(s, pat, j)
    decreases |s| - from
  {
    if from + |pat| > |s| then None
    else if OccursAt(s, pat, from) then Some(from)
    else FindFrom(s, pat, from + 1)
  }

  /** s.find(pat). */
  function Find(s: string, pat: string): Option<nat>
  {
    FindFrom(s, pat, 0)
  }

  /** `pat` occurs somewhere in `s` (s.find(pat) != npos). */
  predicate Contains(s: string, pat: string)
  {
    Find(s, pat).Some?
  }

  /** s.find(c, from) for a single character. */
  function FindCharFrom(s: string, c: char, from: nat): (r: Option<nat>)
    ensures r.Some? ==> from <= r.value < |s| && s[r.value] == c
    ensures r.Some? ==> forall j :: from <= j < r.value ==> s[j] != c
    ensures r.None? ==> forall j :: from <= j < |s| ==> s[j] != c
    decreases |s| - from
  {
    if from >= |s| then None
    else if s[from] == c then Some(from)
    else FindCharFrom(s, c, from + 1)
  }

  /** s.find(c). */
  function FindChar(s: string, c: char): Option<nat>
  {
    FindCharFrom(s, c, 0)
  }

  /** The last index below `n` holding `c`. */
  function FindLastCharBelow(s: string, c: char, n: nat): (r: Option<nat>)
    requires n <= |s|
    ensures r.Some? ==> r.value < n && s[r.value] == c
    ensures r.Some? ==> forall j :: r.value < j < n ==> s[j] != c
    ensures r.None? ==> forall j :: 0 <= j < n ==> s[j] != c
  {
    if n == 0 then None
    else if s[n - 1] == c then Some(n - 1)
    else FindLastCharBelow(s, c, n - 1)
  }

  /** s.find_last_of(c) for a single character. */
  function FindLastChar(s: string, c: char): Option<nat>
  {
    FindLastCharBelow(s, c, |s|)
  }

  /** A search that succeeds at `i` and nowhere before it returns `i`. */
  lemma FindFromFirst(s: string, pat: string, from: nat, i: nat)
    requires from <= i && OccursAt(s, pat, i)
    requires forall j :: from <= j < i ==> !OccursAt(s, pat, j)
    ensures FindFrom(s, pat, from) == Some(i)
  {
  }

  /** Two strings that agree up to the end of the first occurrence of `pat`
      in one of them have their first occurrence at the same place. */
  lemma FindSamePrefix(s: string, t: string, pat: string, p: nat)
    requires Find(s, pat) == Some(p)
    requires p + |pat| <= |t| && t[..p + |pat|] == s[..p + |pat|]
    ensures Find(t, pat) == Some(p)
  {
    forall j | 0 <= j <= p
      ensures OccursAt(t, pat, j) == OccursAt(s, pat, j)
    {
      OccursAtSlice(s, pat, j);
      OccursAtSlice(t, pat, j);
      assert t[j..j + |pat|] == t[..p + |pat|][j..j + |pat|];
      assert s[j..j + |pat|] == s[..p + |pat|][j..j + |pat|];
    }
    FindFromFirst(t, pat, 0, p);
  }

  /** s.find(pat) == 0 exactly when `s` starts with `pat`. */
  lemma FindZeroIffPrefix(s: string, pat: string)
    ensures Find(s, pat) == Some(0) <==> pat <= s
  {
    OccursAtSlice(s, pat, 0);
    if pat <= s {
      assert s[0..|pat|] == pat;
    }
  }

  predicate IsUpperAscii(c: char)
  {
    'A' <= c <= 'Z'
  }

  /** tolower in the "C" locale: only ASCII letters change. */
  function LowerChar(c: char): (r: char)
    ensures !IsUpperAscii(r)
    ensures IsUpperAscii(c) ==> r as int == c as int + 32
    ensures !IsUpperAscii(c) ==> r == c
  {
    if IsUpperAscii(c) then (c as int + 32) as char else c
  }

  /** std::transform(..., tolower) over a whole string. */
  function Lower(s: string): (r: string)
    ensures |r| == |s|
    ensures forall i :: 0 <= i < |s| ==> r[i] == LowerChar(s[i])
  {
    seq(|s|, i requires 0 <= i < |s| => LowerChar(s[i]))
  }

  /** Lowering a concatenation lowers each part. */
  lemma LowerConcat(a: string, b: string)
    ensures Lower(a + b) == Lower(a) + Lower(b)
  {
  }

  /** std::string operator<: lexicographic order on character codes. */
  predicate Less(a: string, b: string)
  {
    if a == [] then b != []
    else if b == [] then false
    else if a[0] != b[0] then a[0] < b[0]
    else Less(a[1..], b[1..])
  }

  lemma {:induction false} LessIrreflexive(a: string)
    ensures !Less(a, a)
  {
    if a != [] {
      LessIrreflexive(a[1..]);
    }
  }

  lemma {:induction false} LessTransitive(a: string, b: string, c: string)
    requires Less(a, b) && Less(b, c)
    ensures Less(a, c)
  {
    if a != [] && b != [] && c != [] && a[0] == b[0] && b[0] == c[0] {
      LessTransitive(a[1..], b[1..], c[1..]);
    }
  }

  lemma {:induction false} LessTotal(a: string, b: string)
    requires a != b
    ensures Less(a, b) || Less(b, a)
  {
    if a != [] && b != [] && a[0] == b[0] {
      LessTotal(a[1..], b[1..]);
    }
  }
}
