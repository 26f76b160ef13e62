/**
  The pull-request reference resolver shared by both clients: an unanchored
  `re.search` for `github\.com/([^/]+)/([^/]+)/pull/(\d+)`.

  At a given start position the match is deterministic: each `[^/]+` group is
  followed by a '/', so greedy matching and backtracking can only accept the
  maximal run of non-slash characters, and `(\d+)` takes the maximal digit run.
  The search tries the start positions from left to right.
 */
module PrUrl {
  import opened Text
  import opened Records

  /** owner, repository and number, as the three match groups. */
  datatype PullRequestRef = PullRequestRef(owner: string, repo: string, number: string)

  /** `[^/]+` accepts only characters other than '/'. */
  predicate SlashFree(x: string) {
    forall k | 0 <= k < |x| :: x[k] != '/'
  }

  /** What a successful resolution always yields: non-empty slash-free owner and repository, a non-empty digit run. */
  predicate ValidRef(r: PullRequestRef) {
    && r.owner != [] && SlashFree(r.owner)
    && r.repo != [] && SlashFree(r.repo)
    && r.number != [] && AllDigits(r.number)
  }

  const Scheme: string := "https://"
  const Host: string := "github.com/"
  const PullSegment: string := "/pull/"

  /** The text the pattern matches for the groups of `r`. */
  function PatternText(r: PullRequestRef): string {
    Host + r.owner + "/" + r.repo + PullSegment + r.number
  }

  /** Where the number group starts, in an occurrence of the pattern text of `r` at index `i`. */
  function NumberIndex(i: nat, r: PullRequestRef): nat {
    i + |Host| + |r.owner| + 1 + |r.repo| + |PullSegment|
  }

  /** The pattern, with groups `r`, matches `s` at index `i`. */
  ghost predicate OccursAt(s: string, i: nat, r: PullRequestRef) {
    ValidRef(r) && StartsAt(s, i, PatternText(r))
  }

  ghost predicate MatchesAt(s: string, i: nat) {
    exists r :: OccursAt(s, i, r)
  }

  ghost predicate ContainsPattern(s: string) {
    exists i: nat, r :: OccursAt(s, i, r)
  }

  /**
    `r` is what `re.search` reports: the match at the leftmost index where
    the pattern matches at all, with the number's digit run taken whole.
   */
  ghost predicate LeftmostMatch(s: string, i: nat, r: PullRequestRef) {
    && OccursAt(s, i, r)
    && (i + |PatternText(r)| == |s| || !IsDigit(s[i + |PatternText(r)|]))
    && forall j: nat | j < i :: !MatchesAt(s, j)
  }

  /** Length of the maximal run of non-slash characters from `i` (`[^/]*`). */
  function NonSlashRun(s: string, i: nat): (n: nat)
    requires i <= |s|
    ensures i + n <= |s|
    decreases |s| - i
  {
    if i == |s| || s[i] == '/' then 0 else 1 + NonSlashRun(s, i + 1)
  }

  /** Length of the maximal run of digits from `i` (`\d*`). */
  function DigitRun(s: string, i: nat): (n: nat)
    requires i <= |s|
    ensures i + n <= |s|
    decreases |s| - i
  {
    if i == |s| || !IsDigit(s[i]) then 0 else 1 + DigitRun(s, i + 1)
  }

  /** `NonSlashRun` is the maximal run: slash-free, and stopped by a slash or the end. */
  lemma {:induction false} NonSlashRunMaximal(s: string, i: nat)
    requires i <= |s|
    ensures forall k | i <= k < i + NonSlashRun(s, i) :: s[k] != '/'
    ensures i + NonSlashRun(s, i) == |s| || s[i + NonSlashRun(s, i)] == '/'
    decreases |s| - i
  {
    if i < |s| && s[i] != '/' {
      NonSlashRunMaximal(s, i + 1);
    }
  }

  /** `DigitRun` is the maximal run: all digits, and stopped by a non-digit or the end. */
  lemma {:induction false} DigitRunMaximal(s: string, i: nat)
    requires i <= |s|
    ensures forall k | i <= k < i + DigitRun(s, i) :: IsDigit(s[k])
    ensures i + DigitRun(s, i) == |s| || !IsDigit(s[i + DigitRun(s, i)])
    decreases |s| - i
  {
    if i < |s| && IsDigit(s[i]) {
      DigitRunMaximal(s, i + 1);
    }
  }

  /** The regular expression anchored at index `i` (one step of the search): the literal `github.com/` first. */
  function MatchAt(s: string, i: nat): Option<PullRequestRef>
    requires i <= |s|
  {
    if StartsAt(s, i, Host) then MatchOwner(s, i + |Host|) else None
  }

  /** `([^/]+)/` from index `j`: the owner group, which only the maximal non-slash run can match. */
  function MatchOwner(s: string, j: nat): Option<PullRequestRef>
    requires j <= |s|
  {
    var k := j + NonSlashRun(s, j);
    if k == j || k == |s| then None else MatchRepo(s, j, k)
  }

  /** `([^/]+)/pull/` after the owner `s[j..k]` and its slash at `k`. */
  function MatchRepo(s: string, j: nat, k: nat): Option<PullRequestRef>
    requires j <= k < |s|
  {
    var m := k + 1 + NonSlashRun(s, k + 1);
    if m == k + 1 || !StartsAt(s, m, PullSegment) then None else MatchNumber(s, j, k, m)
  }

  /** `(\d+)` after `/pull/`, greedy: the maximal digit run. */
  function MatchNumber(s: string, j: nat, k: nat, m: nat): Option<PullRequestRef>
    requires j <= k < m && m + |PullSegment| <= |s|
  {
    var n := m + |PullSegment|;
    var e := n + DigitRun(s, n);
    if e == n then None else Some(PullRequestRef(s[j..k], s[k + 1..m], s[n..e]))
  }

  /** `re.search` from index `i` on: the first start position that matches. */
  function SearchFrom(s: string, i: nat): Option<PullRequestRef>
    requires i <= |s|
    decreases |s| - i
  {
    var m := MatchAt(s, i);
    if m.Some? || i == |s| then m else SearchFrom(s, i + 1)
  }

  /** `re.search(pattern, s)` with its three groups. */
  function Resolve(s: string): Option<PullRequestRef> {
    SearchFrom(s, 0)
  }

  /** A literal occurs at `i` exactly when its two halves occur one after the other. */
  lemma StartsAtConcat(s: string, i: nat, a: string, b: string)
    ensures StartsAt(s, i, a + b) <==> StartsAt(s, i, a) && StartsAt(s, i + |a|, b)
  {
    if StartsAt(s, i, a + b) {
      assert s[i..i + |a|] == (a + b)[..|a|];
      assert s[i + |a|..i + |a| + |b|] == (a + b)[|a|..];
    }
    if StartsAt(s, i, a) && StartsAt(s, i + |a|, b) {
      assert s[i..i + |a| + |b|] == s[i..i + |a|] + s[i + |a|..i + |a| + |b|];
    }
  }

  /** Where the pattern text occurs, its six parts occur one after the other. */
  lemma PatternParts(s: string, i: nat, r: PullRequestRef)
    requires StartsAt(s, i, PatternText(r))
    ensures var k := i + |Host| + |r.owner|;
      var m := k + 1 + |r.repo|;
      && StartsAt(s, i, Host) && StartsAt(s, i + |Host|, r.owner) && StartsAt(s, k, "/")
      && StartsAt(s, k + 1, r.repo) && StartsAt(s, m, PullSegment) && StartsAt(s, m + |PullSegment|, r.number)
  {
    var p1 := Host + r.owner;
    var p2 := p1 + "/";
    var p3 := p2 + r.repo;
    var p4 := p3 + PullSegment;
    assert PatternText(r) == p4 + r.number;
    StartsAtConcat(s, i, p4, r.number);
    StartsAtConcat(s, i, p3, PullSegment);
    StartsAtConcat(s, i, p2, r.repo);
    StartsAtConcat(s, i, p1, "/");
    StartsAtConcat(s, i, Host, r.owner);
  }

  /** The six parts, one after the other, form the pattern text. */
  lemma PartsFormPattern(s: string, i: nat, r: PullRequestRef)
    requires var k := i + |Host| + |r.owner|;
      var m := k + 1 + |r.repo|;
      && StartsAt(s, i, Host) && StartsAt(s, i + |Host|, r.owner) && StartsAt(s, k, "/")
      && StartsAt(s, k + 1, r.repo) && StartsAt(s, m, PullSegment) && StartsAt(s, m + |PullSegment|, r.number)
    ensures StartsAt(s, i, PatternText(r))
  {
    var p1 := Host + r.owner;
    var p2 := p1 + "/";
    var p3 := p2 + r.repo;
    var p4 := p3 + PullSegment;
    assert PatternText(r) == p4 + r.number;
    StartsAtConcat(s, i, Host, r.owner);
    StartsAtConcat(s, i, p1, "/");
    StartsAtConcat(s, i, p2, r.repo);
    StartsAtConcat(s, i, p3, PullSegment);
    StartsAtConcat(s, i, p4, r.number);
  }

  /** What the anchored matcher reports is a match of the pattern, with the digit run taken whole. */
  lemma MatchAtSound(s: string, i: nat)
    requires i <= |s| && MatchAt(s, i).Some?
    ensures OccursAt(s, i, MatchAt(s, i).value)
    ensures var e := i + |PatternText(MatchAt(s, i).value)|; e == |s| || !IsDigit(s[e])
  {
    var k, m, e := MatchAtShape(s, i);
    ShapeOccurs(s, i, k, m, e);
  }

  /** Groups delimited by the maximal runs the matcher computes form an occurrence not followed by a digit. */
  lemma ShapeOccurs(s: string, i: nat, k: nat, m: nat, e: nat)
    requires StartsAt(s, i, Host) && i + |Host| < k < |s| && NonSlashRun(s, i + |Host|) == k - i - |Host|
    requires k + 1 < m && StartsAt(s, m, PullSegment) && NonSlashRun(s, k + 1) == m - k - 1
    requires m + |PullSegment| < e <= |s| && DigitRun(s, m + |PullSegment|) == e - m - |PullSegment|
    ensures var r := PullRequestRef(s[i + |Host|..k], s[k + 1..m], s[m + |PullSegment|..e]);
      && OccursAt(s, i, r) && e == i + |PatternText(r)| && (e == |s| || !IsDigit(s[e]))
  {
    var j := i + |Host|;
    var n := m + |PullSegment|;
    SlashFreeRun(s, j, k);
    SlashFreeRun(s, k + 1, m);
    DigitsRun(s, n, e);
    var r := PullRequestRef(s[j..k], s[k + 1..m], s[n..e]);
    assert |r.owner| == k - j && |r.repo| == m - k - 1 && |r.number| == e - n;
    assert StartsAt(s, j, r.owner) && StartsAt(s, k + 1, r.repo) && StartsAt(s, n, r.number);
    assert StartsAt(s, k, "/");
    PartsFormPattern(s, i, r);
  }

  /** The maximal non-slash run is slash-free and ends at a slash or at the end. */
  lemma SlashFreeRun(s: string, j: nat, k: nat)
    requires j <= k <= |s| && NonSlashRun(s, j) == k - j
    ensures SlashFree(s[j..k]) && (k == |s| || s[k] == '/')
  {
    NonSlashRunMaximal(s, j);
  }

  /** The maximal digit run is all digits and ends at a non-digit or at the end. */
  lemma DigitsRun(s: string, n: nat, e: nat)
    requires n <= e <= |s| && DigitRun(s, n) == e - n
    ensures AllDigits(s[n..e]) && (e == |s| || !IsDigit(s[e]))
  {
    DigitRunMaximal(s, n);
  }

  /**
    A successful anchored match passed every stage: it returns the index `k`
    of the slash after the owner, the index `m` of `/pull/` and the end `e`
    of the digit run.
   */
  lemma MatchAtShape(s: string, i: nat) returns (k: nat, m: nat, e: nat)
    requires i <= |s| && MatchAt(s, i).Some?
    ensures StartsAt(s, i, Host) && i + |Host| < k < |s| && NonSlashRun(s, i + |Host|) == k - i - |Host|
    ensures k + 1 < m && StartsAt(s, m, PullSegment) && NonSlashRun(s, k + 1) == m - k - 1
    ensures m + |PullSegment| < e <= |s| && DigitRun(s, m + |PullSegment|) == e - m - |PullSegment|
    ensures MatchAt(s, i) == Some(PullRequestRef(s[i + |Host|..k], s[k + 1..m], s[m + |PullSegment|..e]))
  {
    var v := MatchAt(s, i).value;
    PassHost(s, i, v);
    k := PassOwner(s, i + |Host|, v);
    m := PassRepo(s, i + |Host|, k, v);
    e := PassNumber(s, i + |Host|, k, m, v);
  }

  /** A match passed `github.com/`. */
  lemma PassHost(s: string, i: nat, v: PullRequestRef)
    requires i <= |s| && MatchAt(s, i) == Some(v)
    ensures StartsAt(s, i, Host) && MatchOwner(s, i + |Host|) == Some(v)
  {
  }

  /** A match passed the owner group, which ends at the slash at `k`. */
  lemma PassOwner(s: string, j: nat, v: PullRequestRef) returns (k: nat)
    requires j <= |s| && MatchOwner(s, j) == Some(v)
    ensures j < k < |s| && NonSlashRun(s, j) == k - j && MatchRepo(s, j, k) == Some(v)
  {
    k := j + NonSlashRun(s, j);
  }

  /** A match passed the repository group and `/pull/`, found at `m`. */
  lemma PassRepo(s: string, j: nat, k: nat, v: PullRequestRef) returns (m: nat)
    requires j <= k < |s| && MatchRepo(s, j, k) == Some(v)
    ensures k + 1 < m && NonSlashRun(s, k + 1) == m - k - 1 && StartsAt(s, m, PullSegment)
    ensures MatchNumber(s, j, k, m) == Some(v)
  {
    m := k + 1 + NonSlashRun(s, k + 1);
  }

  /** A match ends with a non-empty digit run, ending at `e`; its groups are the three delimited slices. */
  lemma PassNumber(s: string, j: nat, k: nat, m: nat, v: PullRequestRef) returns (e: nat)
    requires j <= k < m && m + |PullSegment| <= |s| && MatchNumber(s, j, k, m) == Some(v)
    ensures m + |PullSegment| < e <= |s| && DigitRun(s, m + |PullSegment|) == e - m - |PullSegment|
    ensures v == PullRequestRef(s[j..k], s[k + 1..m], s[m + |PullSegment|..e])
  {
    e := m + |PullSegment| + DigitRun(s, m + |PullSegment|);
  }

  /** A run that ends at a slash is the maximal non-slash run. */
  lemma {:induction false} NonSlashRunIs(s: string, i: nat, n: nat)
    requires i + n < |s| && s[i + n] == '/'
    requires forall k | i <= k < i + n :: s[k] != '/'
    ensures NonSlashRun(s, i) == n
    decreases n
  {
    if n > 0 {
      NonSlashRunIs(s, i + 1, n - 1);
    }
  }

  /** A digit run is a prefix of the maximal digit run from the same index. */
  lemma {:induction false} DigitRunCovers(s: string, i: nat, n: nat)
    requires i + n <= |s|
    requires forall k | i <= k < i + n :: IsDigit(s[k])
    ensures n <= DigitRun(s, i)
    decreases n
  {
    if n > 0 {
      DigitRunCovers(s, i + 1, n - 1);
    }
  }

  /** A digit run stopped by a non-digit or the end is the maximal digit run. */
  lemma {:induction false} DigitRunIs(s: string, i: nat, n: nat)
    requires i + n <= |s| && (i + n == |s| || !IsDigit(s[i + n]))
    requires forall k | i <= k < i + n :: IsDigit(s[k])
    ensures DigitRun(s, i) == n
    decreases n
  {
    if n > 0 {
      DigitRunIs(s, i + 1, n - 1);
    }
  }

  /** The owner group is the non-slash run `s[j..k]`, closed by the slash at `k`. */
  lemma OwnerStage(s: string, j: nat, k: nat)
    requires j < k < |s| && NonSlashRun(s, j) == k - j
    ensures MatchOwner(s, j) == MatchRepo(s, j, k)
  {
  }

  /** The repository group is the non-slash run `s[k + 1..m]`, followed by `/pull/`. */
  lemma RepoStage(s: string, j: nat, k: nat, m: nat)
    requires j <= k && k + 1 < m && StartsAt(s, m, PullSegment) && NonSlashRun(s, k + 1) == m - k - 1
    ensures MatchRepo(s, j, k) == MatchNumber(s, j, k, m)
  {
  }

  /** The number group is the maximal digit run after `/pull/` at `n`, when it is not empty. */
  lemma NumberStage(s: string, j: nat, k: nat, m: nat, n: nat, owner: string, repo: string)
    requires j <= k < m && n == m + |PullSegment| && n <= |s| && DigitRun(s, n) > 0
    requires s[j..k] == owner && s[k + 1..m] == repo
    ensures MatchNumber(s, j, k, m) == Some(PullRequestRef(owner, repo, s[n..n + DigitRun(s, n)]))
  {
  }

  /** The anchored matcher, once the two slash-terminated groups and the `/pull/` segment are located. */
  lemma MatchAtGroups(s: string, i: nat, k: nat, m: nat)
    requires StartsAt(s, i, Host)
    requires i + |Host| < k < |s| && NonSlashRun(s, i + |Host|) == k - i - |Host|
    requires k + 1 < m && StartsAt(s, m, PullSegment) && NonSlashRun(s, k + 1) == m - k - 1
    ensures MatchAt(s, i) == MatchNumber(s, i + |Host|, k, m)
  {
    OwnerStage(s, i + |Host|, k);
    RepoStage(s, i + |Host|, k, m);
  }

  /** The characters of a literal found at `j`. */
  lemma CharsAt(s: string, j: nat, x: string)
    requires StartsAt(s, j, x)
    ensures forall q | j <= q < j + |x| :: s[q] == x[q - j]
  {
    assert s[j..j + |x|] == x;
  }

  /** A slash-free group found at `j` and closed by a slash is the maximal non-slash run there. */
  lemma GroupRun(s: string, j: nat, x: string)
    requires StartsAt(s, j, x) && SlashFree(x)
    requires j + |x| < |s| && s[j + |x|] == '/'
    ensures NonSlashRun(s, j) == |x|
  {
    CharsAt(s, j, x);
    NonSlashRunIs(s, j, |x|);
  }

  /** A digit string found at `n` is covered by the maximal digit run there. */
  lemma NumberRun(s: string, n: nat, x: string)
    requires StartsAt(s, n, x) && AllDigits(x)
    ensures |x| <= DigitRun(s, n)
  {
    CharsAt(s, n, x);
    DigitRunCovers(s, n, |x|);
  }

  /**
    Wherever the pattern matches, the anchored matcher succeeds with the same
    owner and repository, and with the maximal digit run there, which extends
    the number.
   */
  lemma MatchAtOccurrence(s: string, i: nat, r: PullRequestRef) returns (n: nat)
    requires OccursAt(s, i, r)
    ensures n == NumberIndex(i, r) && n + |r.number| <= |s| && |r.number| <= DigitRun(s, n)
    ensures MatchAt(s, i) == Some(PullRequestRef(r.owner, r.repo, s[n..n + DigitRun(s, n)]))
  {
    var j := i + |Host|;
    var k := j + |r.owner|;
    var m := k + 1 + |r.repo|;
    n := m + |PullSegment|;
    OccurrenceStages(s, i, r);
    assert MatchAt(s, i) == MatchNumber(s, j, k, m);
    OccurrenceGroups(s, i, r);
    assert s[j..k] == r.owner && s[k + 1..m] == r.repo;
    OccurrenceNumber(s, i, r);
    assert n == NumberIndex(i, r) && 0 < |r.number| <= DigitRun(s, n);
    NumberStage(s, j, k, m, n, r.owner, r.repo);
  }

  /** Where the pattern occurs, the matcher reaches its number stage with the occurrence's groups delimited. */
  lemma OccurrenceStages(s: string, i: nat, r: PullRequestRef)
    requires OccursAt(s, i, r)
    ensures var j := i + |Host|;
      var k := j + |r.owner|;
      var m := k + 1 + |r.repo|;
      j <= k < m && m + |PullSegment| <= |s| && MatchAt(s, i) == MatchNumber(s, j, k, m)
  {
    var j := i + |Host|;
    var k := j + |r.owner|;
    var m := k + 1 + |r.repo|;
    LiteralsAt(s, i, r);
    OwnerAt(s, i, r);
    GroupRun(s, j, r.owner);
    RepoAt(s, i, r);
    GroupRun(s, k + 1, r.repo);
    MatchAtGroups(s, i, k, m);
  }

  /** The digit run where the number of an occurrence starts covers the number. */
  lemma OccurrenceNumber(s: string, i: nat, r: PullRequestRef)
    requires OccursAt(s, i, r)
    ensures NumberIndex(i, r) + |r.number| <= |s| && |r.number| <= DigitRun(s, NumberIndex(i, r))
  {
    NumberAt(s, i, r);
    NumberRun(s, NumberIndex(i, r), r.number);
  }

  /** The owner and repository of an occurrence, as slices of the input. */
  lemma OccurrenceGroups(s: string, i: nat, r: PullRequestRef)
    requires StartsAt(s, i, PatternText(r))
    ensures var k := i + |Host| + |r.owner|;
      var m := k + 1 + |r.repo|;
      m <= |s| && s[i + |Host|..k] == r.owner && s[k + 1..m] == r.repo
  {
    OwnerAt(s, i, r);
    RepoAt(s, i, r);
  }

  /** The literal parts of an occurrence, and where its number starts. */
  lemma LiteralsAt(s: string, i: nat, r: PullRequestRef)
    requires StartsAt(s, i, PatternText(r))
    ensures var m := i + |Host| + |r.owner| + 1 + |r.repo|;
      && StartsAt(s, i, Host) && StartsAt(s, m, PullSegment)
      && NumberIndex(i, r) + |r.number| == i + |PatternText(r)|
  {
    PatternParts(s, i, r);
  }

  /** The owner group of an occurrence, and the slash that closes it. */
  lemma OwnerAt(s: string, i: nat, r: PullRequestRef)
    requires StartsAt(s, i, PatternText(r))
    ensures var k := i + |Host| + |r.owner|;
      StartsAt(s, i + |Host|, r.owner) && k < |s| && s[k] == '/'
  {
    PatternParts(s, i, r);
    CharsAt(s, i + |Host| + |r.owner|, "/");
  }

  /** The repository group of an occurrence, and the slash that opens `/pull/` after it. */
  lemma RepoAt(s: string, i: nat, r: PullRequestRef)
    requires StartsAt(s, i, PatternText(r))
    ensures var k := i + |Host| + |r.owner|;
      var m := k + 1 + |r.repo|;
      StartsAt(s, k + 1, r.repo) && m < |s| && s[m] == '/'
  {
    PatternParts(s, i, r);
    CharsAt(s, i + |Host| + |r.owner| + 1 + |r.repo|, PullSegment);
  }

  /** The number group of an occurrence. */
  lemma NumberAt(s: string, i: nat, r: PullRequestRef)
    requires StartsAt(s, i, PatternText(r))
    ensures StartsAt(s, NumberIndex(i, r), r.number)
  {
    PatternParts(s, i, r);
  }

  /**
    Wherever the pattern matches, the anchored matcher succeeds with the same
    owner and repository and a digit run that extends the number.
   */
  lemma MatchAtComplete(s: string, i: nat, r: PullRequestRef)
    requires OccursAt(s, i, r)
    ensures MatchAt(s, i).Some?
    ensures MatchAt(s, i).value.owner == r.owner && MatchAt(s, i).value.repo == r.repo
    ensures StartsWith(MatchAt(s, i).value.number, r.number)
  {
    var n := MatchAtOccurrence(s, i, r);
    NumberAt(s, i, r);
    assert s[n..n + DigitRun(s, n)][..|r.number|] == s[n..n + |r.number|];
  }

  /** The anchored matcher succeeds exactly where the pattern matches. */
  lemma MatchAtIff(s: string, i: nat)
    requires i <= |s|
    ensures MatchAt(s, i).Some? <==> MatchesAt(s, i)
  {
    if MatchAt(s, i).Some? {
      MatchAtSound(s, i);
    }
    if MatchesAt(s, i) {
      var r :| OccursAt(s, i, r);
      MatchAtComplete(s, i, r);
    }
  }

  /** Start positions that do not match are skipped. */
  lemma {:induction false} SearchSkips(s: string, i: nat, j: nat)
    requires i <= j <= |s|
    requires forall q | i <= q < j :: MatchAt(s, q).None?
    ensures SearchFrom(s, i) == SearchFrom(s, j)
    decreases j - i
  {
    if i < j {
      SearchSkips(s, i + 1, j);
    }
  }

  /** The search fails only if no start position from `i` on matches. */
  lemma {:induction false} SearchFromNone(s: string, i: nat)
    requires i <= |s|
    ensures SearchFrom(s, i).None? <==> forall q | i <= q <= |s| :: MatchAt(s, q).None?
    decreases |s| - i
  {
    if MatchAt(s, i).None? && i < |s| {
      SearchFromNone(s, i + 1);
    }
  }

  /** A successful search reports the match at the first matching start position `j`. */
  lemma {:induction false} SearchFromFirst(s: string, i: nat) returns (j: nat)
    requires i <= |s| && SearchFrom(s, i).Some?
    ensures i <= j <= |s| && MatchAt(s, j) == SearchFrom(s, i)
    ensures forall q | i <= q < j :: MatchAt(s, q).None?
    decreases |s| - i
  {
    if MatchAt(s, i).Some? {
      j := i;
    } else {
      j := SearchFromFirst(s, i + 1);
    }
  }

  /** Start positions where the anchored matcher fails are positions where the pattern does not match. */
  lemma NoEarlierMatch(s: string, j: nat)
    requires j <= |s|
    requires forall q | 0 <= q < j :: MatchAt(s, q).None?
    ensures forall q: nat | q < j :: !MatchesAt(s, q)
  {
    forall q: nat | q < j
      ensures !MatchesAt(s, q)
    {
      MatchAtIff(s, q);
    }
  }

  /**
    Resolution succeeds exactly when the pattern occurs somewhere in the
    input, and then reports the groups of the leftmost occurrence, with the
    number's digit run taken whole.
   */
  lemma {:induction false} ResolveFindsPattern(s: string)
    ensures Resolve(s).Some? <==> ContainsPattern(s)
    ensures Resolve(s).Some? ==> exists i: nat :: LeftmostMatch(s, i, Resolve(s).value)
  {
    if Resolve(s).Some? {
      var j := SearchFromFirst(s, 0);
      FirstMatchIsLeftmost(s, j);
      assert OccursAt(s, j, Resolve(s).value);
    } else if ContainsPattern(s) {
      var i: nat, r :| OccursAt(s, i, r);
      MatchAtComplete(s, i, r);
      SearchFromNone(s, 0);
      assert false;
    }
  }

  /** The anchored match at the first start position where the matcher succeeds is the leftmost match. */
  lemma FirstMatchIsLeftmost(s: string, j: nat)
    requires j <= |s| && MatchAt(s, j).Some?
    requires forall q | 0 <= q < j :: MatchAt(s, q).None?
    ensures LeftmostMatch(s, j, MatchAt(s, j).value)
  {
    MatchAtSound(s, j);
    NoEarlierMatch(s, j);
  }

  /** The leftmost-match description determines the groups completely. */
  lemma LeftmostMatchUnique(s: string, i: nat, r: PullRequestRef, j: nat, r': PullRequestRef)
    requires LeftmostMatch(s, i, r) && LeftmostMatch(s, j, r')
    ensures i == j && r == r'
  {
    if i < j {
      assert MatchesAt(s, i);
    } else if j < i {
      assert MatchesAt(s, j);
    } else {
      LeftmostIsMatchAt(s, i, r);
      LeftmostIsMatchAt(s, i, r');
    }
  }

  /** In a leftmost match the number is the maximal digit run where it starts, so the anchored matcher reports exactly it. */
  lemma LeftmostIsMatchAt(s: string, i: nat, r: PullRequestRef)
    requires LeftmostMatch(s, i, r)
    ensures MatchAt(s, i) == Some(r)
  {
    LiteralsAt(s, i, r);
    NumberAt(s, i, r);
    NumberRunIs(s, NumberIndex(i, r), r.number);
    var n := MatchAtOccurrence(s, i, r);
  }

  /** A digit string found at `n` and not followed by a digit is the maximal digit run there. */
  lemma NumberRunIs(s: string, n: nat, x: string)
    requires StartsAt(s, n, x) && AllDigits(x)
    requires n + |x| == |s| || !IsDigit(s[n + |x|])
    ensures DigitRun(s, n) == |x| && s[n..n + |x|] == x
  {
    CharsAt(s, n, x);
    DigitRunIs(s, n, |x|);
  }

  /** The browser address of a pull request. */
  function WebUrl(r: PullRequestRef): string {
    Scheme + PatternText(r)
  }

  /**
    Round trip: the address of a valid reference, followed by anything that
    does not extend the number, resolves to that reference.
   */
  lemma ResolveWebUrl(r: PullRequestRef, rest: string)
    requires ValidRef(r)
    requires rest == [] || !IsDigit(rest[0])
    ensures Resolve(WebUrl(r) + rest) == Some(r)
  {
    var s := WebUrl(r) + rest;
    WebUrlLayout(r, rest);
    forall q | 0 <= q < |Scheme|
      ensures MatchAt(s, q).None?
    {
      NoHostAt(s, q);
    }
    SearchSkips(s, 0, |Scheme|);
    NoEarlierMatch(s, |Scheme|);
    assert LeftmostMatch(s, |Scheme|, r);
    LeftmostIsMatchAt(s, |Scheme|, r);
  }

  /** Where the input does not hold a 'g', `github.com/` does not start. */
  lemma NoHostAt(s: string, q: nat)
    requires q < |s| && s[q] != 'g'
    ensures MatchAt(s, q).None?
  {
    if StartsAt(s, q, Host) {
      CharsAt(s, q, Host);
    }
  }

  /** The pieces of an address followed by `rest`. */
  lemma WebUrlLayout(r: PullRequestRef, rest: string)
    ensures var s := WebUrl(r) + rest;
      var e := |Scheme| + |PatternText(r)|;
      && (forall q | 0 <= q < |Scheme| :: s[q] != 'g')
      && StartsAt(s, |Scheme|, PatternText(r)) && e <= |s| && (e == |s| || s[e] == rest[0])
  {
    var s := WebUrl(r) + rest;
    var t := PatternText(r);
    assert s == Scheme + t + rest;
    assert s[|Scheme|..|Scheme| + |t|] == t;
    assert forall q | 0 <= q < |Scheme| :: s[q] == Scheme[q];
  }

  /** `https://github.com/acme/widgets/pull/42#x` resolves to ("acme", "widgets", "42"). */
  lemma ResolveExample()
    ensures Resolve("https://github.com/acme/widgets/pull/42#x") == Some(PullRequestRef("acme", "widgets", "42"))
  {
    var r := PullRequestRef("acme", "widgets", "42");
    assert ValidRef(r) by {
      assert SlashFree("acme") && SlashFree("widgets");
      assert IsDigit('4') && IsDigit('2');
    }
    ResolveWebUrl(r, "#x");
    ExampleUrl();
  }

  lemma ExampleUrl()
    ensures WebUrl(PullRequestRef("acme", "widgets", "42")) + "#x" == "https://github.com/acme/widgets/pull/42#x"
  {
  }
}
