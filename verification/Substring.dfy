/**
 * Substring search of the C library (src/fxlibc): `strstr_kmp`, its brute-force
 * fallback, and the bounded comparisons underneath.
 *
 * A C string is the sequence of its characters without the terminating NUL;
 * reading one position past the end gives the NUL.
 */
module Substring {
  import opened Bytes
  import opened Common

  // The value of a `char`; whether `char` is signed makes no difference below.
  type Char = c: int | -128 <= c < 256
  type CString = s: seq<Char> | 0 !in s witness []

  const INT16_MAX := 32767
  const INT_MAX := 0x7fff_ffff

  /** The character that C reads at index `i`, the terminator included. */
  function At(s: CString, i: nat): Char
    requires i <= |s|
  {
    if i < |s| then s[i] else 0
  }

  /** The `tolower` macro of fxlibc/ctype.h. */
  function ToLower(c: Char): Char {
    if 65 <= c <= 90 then c + 32 else c
  }

  /** What a comparison looks at: the character itself, or its lower-case form. */
  function Fold(ignoreCase: bool, c: Char): Char {
    if ignoreCase then ToLower(c) else c
  }

  /** The macro `equal` of `strstr_kmp`. */
  predicate Equal(ignoreCase: bool, c1: Char, c2: Char) {
    Fold(ignoreCase, c1) == Fold(ignoreCase, c2)
  }

  /** Ignoring case, two characters are equal if they are the same, or the two cases of one ASCII letter. */
  lemma FoldsLetters(c1: Char, c2: Char)
    ensures Equal(true, c1, c2)
       <==> c1 == c2 || (65 <= c1 <= 90 && c2 == c1 + 32) || (65 <= c2 <= 90 && c1 == c2 + 32)
    ensures Equal(false, c1, c2) <==> c1 == c2
  {
  }

  /** Equality of strings up to the chosen folding. */
  ghost predicate SameText(ic: bool, s: seq<Char>, t: seq<Char>) {
    |s| == |t| && forall k :: 0 <= k < |s| ==> Equal(ic, s[k], t[k])
  }

  ghost predicate OccursAt(ic: bool, haystack: CString, needle: CString, p: int) {
    0 <= p && p + |needle| <= |haystack| && SameText(ic, haystack[p..p + |needle|], needle)
  }

  /** What `strstr` promises: the leftmost occurrence, or NULL when there is none. */
  ghost predicate IsLeftmost(ic: bool, haystack: CString, needle: CString, r: Option<nat>) {
    match r
    case None => forall p :: !OccursAt(ic, haystack, needle, p)
    case Some(q) => OccursAt(ic, haystack, needle, q) && forall p :: p < q ==> !OccursAt(ic, haystack, needle, p)
  }

  lemma LeftmostIsUnique(ic: bool, haystack: CString, needle: CString, r1: Option<nat>, r2: Option<nat>)
    requires IsLeftmost(ic, haystack, needle, r1) && IsLeftmost(ic, haystack, needle, r2)
    ensures r1 == r2
  {
  }

  // ---------------------------------------------------------------- borders

  /** The prefix of length `k` of needle[..pos] is also its suffix. */
  ghost predicate Border(ic: bool, w: CString, pos: nat, k: int) {
    0 <= k <= pos <= |w| && SameText(ic, w[..k], w[pos - k..pos])
  }

  /** `k` is the longest proper border of needle[..pos]. */
  ghost predicate LongestBorder(ic: bool, w: CString, pos: nat, k: int) {
    0 <= k < pos && Border(ic, w, pos, k) && forall j :: k < j < pos ==> !Border(ic, w, pos, j)
  }

  /** `k` may replace `pos` after a mismatch: a border whose next character differs. */
  ghost predicate Resumable(ic: bool, w: CString, pos: nat, k: int) {
    0 <= k < pos < |w| && Border(ic, w, pos, k) && !Equal(ic, w[k], w[pos])
  }

  /** The strong failure function: the largest resumable border, or -1. */
  ghost predicate StrongFailure(ic: bool, w: CString, pos: nat, t: int) {
    && pos < |w|
    && -1 <= t < pos
    && (t >= 0 ==> Resumable(ic, w, pos, t))
    && forall k :: t < k < pos ==> !Resumable(ic, w, pos, k)
  }

  /** A border of a border is a border, and the shorter of two borders is a border of the longer. */
  lemma BorderOfBorder(ic: bool, w: CString, pos: nat, b: nat, k: nat)
    requires Border(ic, w, pos, b) && k <= b
    ensures Border(ic, w, pos, k) <==> Border(ic, w, b, k)
  {
  }

  /** Borders of the next prefix are borders extended by an equal character. */
  lemma BorderExtends(ic: bool, w: CString, pos: nat, k: nat)
    requires k < pos < |w|
    ensures Border(ic, w, pos + 1, k + 1) <==> Border(ic, w, pos, k) && Equal(ic, w[k], w[pos])
  {
    var long, short := w[pos - k..pos + 1], w[pos - k..pos];
    assert forall i :: 0 <= i < k ==> long[i] == short[i] && w[..k + 1][i] == w[..k][i];
    assert long[k] == w[pos] && w[..k + 1][k] == w[k];
  }

  /** The table entry when the characters after the longest border agree. */
  lemma InheritEntry(ic: bool, w: CString, pos: nat, cnd: nat, t: int)
    requires pos < |w| && LongestBorder(ic, w, pos, cnd) && Equal(ic, w[pos], w[cnd])
    requires StrongFailure(ic, w, cnd, t)
    ensures StrongFailure(ic, w, pos, t)
  {
    forall k | t < k < pos
      ensures !Resumable(ic, w, pos, k)
    {
      if k < cnd {
        BorderOfBorder(ic, w, pos, cnd, k);
        assert !Resumable(ic, w, cnd, k);
      }
    }
    if t >= 0 {
      BorderOfBorder(ic, w, pos, cnd, t);
    }
  }

  /** Following the table from a border skips only borders that would mismatch again. */
  lemma FollowEntry(ic: bool, w: CString, pos: nat, cnd: nat, t: int)
    requires cnd < pos < |w| && Border(ic, w, pos, cnd) && !Equal(ic, w[pos], w[cnd])
    requires StrongFailure(ic, w, cnd, t)
    ensures t >= 0 ==> Border(ic, w, pos, t)
    ensures forall k :: t < k <= cnd && Border(ic, w, pos, k) ==> !Equal(ic, w[pos], w[k])
  {
    forall k | t < k < cnd && Border(ic, w, pos, k)
      ensures !Equal(ic, w[pos], w[k])
    {
      BorderOfBorder(ic, w, pos, cnd, k);
      assert !Resumable(ic, w, cnd, k);
    }
    if t >= 0 {
      BorderOfBorder(ic, w, pos, cnd, t);
    }
  }

  /** After the inner loop `cnd + 1` is the longest border of the longer prefix. */
  lemma NextCandidate(ic: bool, w: CString, pos: nat, cnd: int)
    requires -1 <= cnd < pos < |w|
    requires cnd >= 0 ==> Border(ic, w, pos, cnd) && Equal(ic, w[pos], w[cnd])
    requires forall k :: cnd < k < pos && Border(ic, w, pos, k) ==> !Equal(ic, w[pos], w[k])
    ensures LongestBorder(ic, w, pos + 1, cnd + 1)
  {
    if cnd >= 0 {
      BorderExtends(ic, w, pos, cnd);
    }
    var next := pos + 1;
    forall j | cnd + 1 < j < next
      ensures !Border(ic, w, next, j)
    {
      BorderExtends(ic, w, pos, j - 1);
    }
  }

  /** The table entry when the characters after the longest border differ. */
  lemma FreshEntry(ic: bool, w: CString, pos: nat, cnd: nat)
    requires pos < |w| && LongestBorder(ic, w, pos, cnd) && !Equal(ic, w[pos], w[cnd])
    ensures StrongFailure(ic, w, pos, cnd)
  {
  }

  /** The first entry and the first candidate. */
  lemma FirstEntry(ic: bool, w: CString)
    requires w != []
    ensures StrongFailure(ic, w, 0, -1) && LongestBorder(ic, w, 1, 0)
  {
  }

  /**
   * The table-building loop of `strstr_kmp`. `steps` counts the iterations of
   * the inner loop over the whole build.
   */
  method BuildTable(needle: CString, T: array<int16>, ignoreCase: bool) returns (ghost steps: nat)
    requires 0 < |needle| < INT16_MAX && T.Length == |needle|
    modifies T
    ensures forall p :: 0 <= p < |needle| ==> StrongFailure(ignoreCase, needle, p, T[p])
    ensures steps <= |needle|
  {
    hide Border, Resumable, Equal;
    FirstEntry(ignoreCase, needle);
    T[0] := -1;
    var cnd := 0;
    var pos := 1;
    steps := 0;
    while At(needle, pos) != 0
      invariant 1 <= pos <= |needle|
      invariant LongestBorder(ignoreCase, needle, pos, cnd)
      invariant forall p :: 0 <= p < pos ==> StrongFailure(ignoreCase, needle, p, T[p])
      invariant steps + cnd + 1 <= pos
      decreases |needle| - pos
    {
      assert pos < |needle|;
      if Equal(ignoreCase, needle[pos], needle[cnd]) {
        InheritEntry(ignoreCase, needle, pos, cnd, T[cnd]);
        T[pos] := T[cnd];
      } else {
        FreshEntry(ignoreCase, needle, pos, cnd);
        T[pos] := cnd;
        while cnd >= 0 && !Equal(ignoreCase, needle[pos], needle[cnd])
          invariant -1 <= cnd < pos
          invariant cnd >= 0 ==> Border(ignoreCase, needle, pos, cnd)
          invariant forall k :: cnd < k < pos && Border(ignoreCase, needle, pos, k) ==>
            !Equal(ignoreCase, needle[pos], needle[k])
          invariant forall p :: 0 <= p <= pos ==> StrongFailure(ignoreCase, needle, p, T[p])
          invariant steps + cnd + 1 <= pos
          decreases cnd
        {
          FollowEntry(ignoreCase, needle, pos, cnd, T[cnd]);
          cnd := T[cnd];
          steps := steps + 1;
        }
      }
      NextCandidate(ignoreCase, needle, pos, cnd);
      pos, cnd := pos + 1, cnd + 1;
    }
  }

  // ---------------------------------------------------------------- matching

  /** The last `pos` characters read are the first `pos` of the needle, and no earlier start is left. */
  ghost predicate Scanned(ic: bool, haystack: CString, needle: CString, i: nat, pos: nat) {
    && pos <= i <= |haystack| && pos < |needle|
    && SameText(ic, haystack[i - pos..i], needle[..pos])
    && forall p :: p < i - pos ==> !OccursAt(ic, haystack, needle, p)
  }

  /** An occurrence that starts inside the matched part makes a border followed by an equal character. */
  lemma OccurrenceMakesBorder(ic: bool, h: CString, w: CString, i: nat, pos: nat, k: nat)
    requires Scanned(ic, h, w, i, pos) && i < |h| && k <= pos
    requires OccursAt(ic, h, w, i - k)
    ensures Border(ic, w, pos, k) && Equal(ic, w[k], h[i])
  {
  }

  /** A mismatch at `pos` lets the search resume at T[pos] without losing an occurrence. */
  lemma MismatchSkips(ic: bool, h: CString, w: CString, i: nat, pos: nat, t: int)
    requires Scanned(ic, h, w, i, pos) && i < |h|
    requires !Equal(ic, w[pos], h[i]) && StrongFailure(ic, w, pos, t)
    ensures t >= 0 ==> Scanned(ic, h, w, i, t)
    ensures t < 0 ==> Scanned(ic, h, w, i + 1, 0)
  {
    forall p | i - pos <= p < i - t
      ensures !OccursAt(ic, h, w, p)
    {
      if OccursAt(ic, h, w, p) {
        var k := i - p;
        assert k < pos ==> !Resumable(ic, w, pos, k);
        OccurrenceMakesBorder(ic, h, w, i, pos, k);
      }
    }
    if t >= 0 {
      var matched, resumed := h[i - pos..i], h[i - t..i];
      forall j | 0 <= j < t
        ensures Equal(ic, resumed[j], w[..t][j])
      {
        assert Equal(ic, matched[pos - t + j], w[..pos][pos - t + j]);
        assert Equal(ic, w[..t][j], w[pos - t..pos][j]);
      }
    }
  }

  /** A match extends the scanned part, and completes the occurrence at the needle's last character. */
  lemma MatchExtends(ic: bool, h: CString, w: CString, i: nat, pos: nat)
    requires Scanned(ic, h, w, i, pos) && i < |h| && Equal(ic, w[pos], h[i])
    ensures pos + 1 < |w| ==> Scanned(ic, h, w, i + 1, pos + 1)
    ensures pos + 1 == |w| ==> IsLeftmost(ic, h, w, Some(i - pos))
  {
    var before, after := h[i - pos..i], h[i - pos..i + 1];
    assert forall j :: 0 <= j < pos ==> after[j] == before[j] && w[..pos][j] == w[..pos + 1][j];
    assert after[pos] == h[i];
    if pos + 1 == |w| {
      assert w[..pos + 1] == w;
      assert OccursAt(ic, h, w, i - pos);
    }
  }

  /** `strstr_kmp`. `rounds` counts the iterations of the matching loop. */
  method StrstrKmp(haystack: CString, needle: CString, T: array<int16>, ignoreCase: bool)
    returns (r: Option<nat>, ghost rounds: nat)
    requires 0 < |needle| < INT16_MAX && T.Length == |needle|
    requires |haystack| <= INT_MAX
    modifies T
    ensures IsLeftmost(ignoreCase, haystack, needle, r)
    ensures rounds <= 2 * |haystack|
  {
    var _ := BuildTable(needle, T, ignoreCase);
    var i, pos := 0, 0;
    rounds := 0;
    while At(haystack, i) != 0
      invariant 0 <= pos < |needle|
      invariant Scanned(ignoreCase, haystack, needle, i, pos)
      invariant forall p :: 0 <= p < |needle| ==> StrongFailure(ignoreCase, needle, p, T[p])
      invariant rounds <= 2 * i - pos
      decreases 2 * |haystack| - (2 * i - pos)
    {
      rounds := rounds + 1;
      if Equal(ignoreCase, At(needle, pos), At(haystack, i)) {
        MatchExtends(ignoreCase, haystack, needle, i, pos);
        pos, i := pos + 1, i + 1;
        if At(needle, pos) == 0 {
          return Some(i - pos), rounds;
        }
      } else {
        MismatchSkips(ignoreCase, haystack, needle, i, pos, T[pos]);
        var next: int := T[pos];
        if next < 0 {
          pos, i := next + 1, i + 1;
        } else {
          pos := next;
        }
      }
    }
    forall p
      ensures !OccursAt(ignoreCase, haystack, needle, p)
    {
    }
    r := None;
  }

  // ------------------------------------------------------------ brute force

  /** The part of a C string that a comparison bounded by `n` can see. */
  function Visible(s: CString, n: nat): seq<Char> {
    if n < |s| then s[..n] else s
  }

  /** The strings agree before `k`, and `d` is the difference of their characters at `k`. */
  ghost predicate FirstDifference(ic: bool, s1: CString, s2: CString, k: nat, d: int) {
    && k <= |s1| && k <= |s2|
    && SameText(ic, s1[..k], s2[..k])
    && d == Fold(ic, At(s1, k)) - Fold(ic, At(s2, k))
  }

  /** `strncmp` and, with `ignoreCase`, `strncasecmp`: zero exactly for equal visible parts. */
  method BoundedCompare(s1: CString, s2: CString, n: nat, ignoreCase: bool) returns (r: int)
    ensures r == 0 <==> SameText(ignoreCase, Visible(s1, n), Visible(s2, n))
    ensures r != 0 ==> exists k :: 0 <= k < n && FirstDifference(ignoreCase, s1, s2, k, r)
  {
    if n == 0 {
      return 0;
    }
    var i := 0;
    while i < n - 1 && At(s1, i) != 0 && At(s2, i) != 0 && Equal(ignoreCase, At(s1, i), At(s2, i))
      invariant 0 <= i < n && i <= |s1| && i <= |s2|
      invariant forall k :: 0 <= k < i ==> Equal(ignoreCase, s1[k], s2[k])
      decreases n - i
    {
      i := i + 1;
    }
    r := Fold(ignoreCase, At(s1, i)) - Fold(ignoreCase, At(s2, i));
    assert FirstDifference(ignoreCase, s1, s2, i, r);
    var v1, v2 := Visible(s1, n), Visible(s2, n);
    if r != 0 {
      assert i < |v1| && i < |v2| ==> !Equal(ignoreCase, v1[i], v2[i]);
    } else {
      assert i < |s1| <==> i < |s2|;
    }
  }

  /** An occurrence at `p` is what the bounded comparison at `p` looks for. */
  lemma OccursIffVisible(ic: bool, haystack: CString, needle: CString, p: nat)
    requires p <= |haystack|
    ensures OccursAt(ic, haystack, needle, p)
       <==> SameText(ic, Visible(haystack[p..], |needle|), Visible(needle, |needle|))
  {
  }

  /**
   * `strstr_bruteforce`. It never looks at the terminator of the haystack, so
   * an empty needle is not found in an empty haystack.
   */
  method StrstrBruteforce(haystack: CString, needle: CString, ignoreCase: bool) returns (r: Option<nat>)
    ensures needle != [] || haystack != [] ==> IsLeftmost(ignoreCase, haystack, needle, r)
    ensures needle == [] && haystack == [] ==> r == None && !IsLeftmost(ignoreCase, haystack, needle, r)
  {
    var i := 0;
    while At(haystack, i) != 0
      invariant 0 <= i <= |haystack|
      invariant forall p :: p < i ==> !OccursAt(ignoreCase, haystack, needle, p)
      invariant needle == [] ==> i == 0
      decreases |haystack| - i
    {
      var diff := BoundedCompare(haystack[i..], needle, |needle|, ignoreCase);
      OccursIffVisible(ignoreCase, haystack, needle, i);
      assert needle == [] ==> OccursAt(ignoreCase, haystack, needle, i);
      if diff == 0 {
        return Some(i);
      }
      i := i + 1;
    }
    r := None;
    if needle == [] {
      assert OccursAt(ignoreCase, haystack, needle, 0);
    }
  }

  /**
   * `__strstr_base`: the failure table is used when the needle is short enough
   * for 16-bit entries and its allocation succeeds. Which algorithm runs does
   * not show in the result.
   */
  method StrstrBase(haystack: CString, needle: CString, ignoreCase: bool, allocationSucceeds: bool)
    returns (r: Option<nat>)
    requires |haystack| <= INT_MAX
    requires allocationSucceeds ==> needle != []
    ensures needle != [] || haystack != [] ==> IsLeftmost(ignoreCase, haystack, needle, r)
  {
    if |needle| < INT16_MAX && allocationSucceeds {
      var T := new int16[|needle|];
      var match_, _ := StrstrKmp(haystack, needle, T, ignoreCase);
      r := match_;
    } else {
      r := StrstrBruteforce(haystack, needle, ignoreCase);
    }
  }
}
