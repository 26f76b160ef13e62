/**
  `CodeReviewer` of src/features/code_reviewer.py: six heuristics run over the
  patch text of every changed source file, each reporting one fixed issue.

  The regular expressions are modelled by ASCII predicates. Each predicate that
  the code evaluates is proved equal to the set of inputs the pattern matches
  somewhere, written out with the regex's own anchors and word boundaries.
 */
module CodeReviewer {
  import opened Text
  import opened Records

  datatype Issue = TooLong | PrintCall | TodoComment | UnusedImport | ShortName | MagicNumber

  /** The text appended to the issue list. */
  function Message(issue: Issue): string {
    match issue
    case TooLong => "File too long (>300 lines)"
    case PrintCall => "Contains print statements"
    case TodoComment => "Contains TODO/FIXME comments"
    case UnusedImport => "Contains unused import statements"
    case ShortName => "Contains poorly named variables (too short)"
    case MagicNumber => "Contains magic numbers"
  }

  /** The position of each test in `check_code_quality`. */
  function Rank(issue: Issue): nat {
    match issue
    case TooLong => 0
    case PrintCall => 1
    case TodoComment => 2
    case UnusedImport => 3
    case ShortName => 4
    case MagicNumber => 5
  }

  /** Different issues are reported with different texts. */
  lemma MessageInjective(a: Issue, b: Issue)
    ensures Message(a) == Message(b) <==> a == b
  {
    if a != b {
      assert |Message(a)| != |Message(b)|;
    }
  }

  // ---------------------------------------------------------------------
  // Word boundaries: `\b[a-zA-Z]{1,2}\b` and `\b\d+\b`
  // ---------------------------------------------------------------------

  /** `\b` at position `i`: exactly one of the neighbouring characters is a word character. */
  predicate Boundary(s: string, i: nat)
    requires i <= |s|
  {
    (i > 0 && IsWordChar(s[i - 1])) != (i < |s| && IsWordChar(s[i]))
  }

  predicate AllLetters(x: string) {
    forall t | 0 <= t < |x| :: IsLetter(x[t])
  }

  /** `re.search(r'\b[a-zA-Z]{1,2}\b', content)`: one or two letters between word boundaries. */
  predicate HasShortName(s: string) {
    exists i, e | 0 <= i < e <= |s| && e - i <= 2 :: Boundary(s, i) && AllLetters(s[i..e]) && Boundary(s, e)
  }

  /** `re.search(r'\b\d+\b', content)`: digits between word boundaries. */
  predicate HasMagicNumber(s: string) {
    exists i, e | 0 <= i < e <= |s| :: Boundary(s, i) && AllDigits(s[i..e]) && Boundary(s, e)
  }

  /** `s[i..j]` is a maximal run of word characters: a whole identifier or number token. */
  predicate IsWordRun(s: string, i: nat, j: nat) {
    && i < j <= |s|
    && (forall t | i <= t < j :: IsWordChar(s[t]))
    && (i == 0 || !IsWordChar(s[i - 1]))
    && (j == |s| || !IsWordChar(s[j]))
  }

  /** Between two word boundaries, a stretch of word characters is a whole word run, and conversely. */
  lemma BoundedRun(s: string, i: nat, e: nat)
    requires i < e <= |s|
    requires forall t | i <= t < e :: IsWordChar(s[t])
    ensures Boundary(s, i) && Boundary(s, e) <==> IsWordRun(s, i, e)
  {
    assert IsWordChar(s[i]) && IsWordChar(s[e - 1]);
  }

  /** The short-name test holds exactly when some whole word is one or two letters. */
  lemma ShortNameIffWordRun(s: string)
    ensures HasShortName(s) <==> exists i: nat, j: nat :: IsWordRun(s, i, j) && j - i <= 2 && AllLetters(s[i..j])
  {
    if HasShortName(s) {
      var i, e :| 0 <= i < e <= |s| && e - i <= 2 && Boundary(s, i) && AllLetters(s[i..e]) && Boundary(s, e);
      LettersAreWordChars(s, i, e);
      BoundedRun(s, i, e);
    }
    if exists i: nat, j: nat :: IsWordRun(s, i, j) && j - i <= 2 && AllLetters(s[i..j]) {
      var i: nat, j: nat :| IsWordRun(s, i, j) && j - i <= 2 && AllLetters(s[i..j]);
      BoundedRun(s, i, j);
    }
  }

  /** The magic-number test holds exactly when some whole word is all digits. */
  lemma MagicNumberIffWordRun(s: string)
    ensures HasMagicNumber(s) <==> exists i: nat, j: nat :: IsWordRun(s, i, j) && AllDigits(s[i..j])
  {
    if HasMagicNumber(s) {
      var i, e :| 0 <= i < e <= |s| && Boundary(s, i) && AllDigits(s[i..e]) && Boundary(s, e);
      DigitsAreWordChars(s, i, e);
      BoundedRun(s, i, e);
    }
    if exists i: nat, j: nat :: IsWordRun(s, i, j) && AllDigits(s[i..j]) {
      var i: nat, j: nat :| IsWordRun(s, i, j) && AllDigits(s[i..j]);
      BoundedRun(s, i, j);
    }
  }

  lemma LettersAreWordChars(s: string, i: nat, e: nat)
    requires i <= e <= |s| && AllLetters(s[i..e])
    ensures forall t | i <= t < e :: IsWordChar(s[t])
  {
    assert forall t | i <= t < e :: s[t] == s[i..e][t - i];
  }

  lemma DigitsAreWordChars(s: string, i: nat, e: nat)
    requires i <= e <= |s| && AllDigits(s[i..e])
    ensures forall t | i <= t < e :: IsWordChar(s[t])
  {
    assert forall t | i <= t < e :: s[t] == s[i..e][t - i];
  }

  // ---------------------------------------------------------------------
  // `import\s+\w+\s*$`
  // ---------------------------------------------------------------------

  datatype CharClass = SpaceClass | WordClass

  predicate InClass(c: char, cls: CharClass) {
    match cls
    case SpaceClass => IsSpace(c)
    case WordClass => IsWordChar(c)
  }

  predicate AllIn(x: string, cls: CharClass) {
    forall t | 0 <= t < |x| :: InClass(x[t], cls)
  }

  /** The length of the run of `cls` characters that ends just before position `e`. */
  function RunBefore(s: string, e: nat, cls: CharClass): (n: nat)
    requires e <= |s|
    ensures n <= e
  {
    if e == 0 || !InClass(s[e - 1], cls) then 0 else 1 + RunBefore(s, e - 1, cls)
  }

  /**
    What the search accepts at start `i`: "import", whitespace `s[i+6..j]`,
    word characters `s[j..k]`, then whitespace up to `$`, which matches at the
    end of the text and also just before a final line feed.
   */
  ghost predicate ImportMatchAt(s: string, i: nat, j: nat, k: nat) {
    && i + 6 < j < k <= |s|
    && StartsAt(s, i, "import")
    && AllIn(s[i + 6..j], SpaceClass)
    && AllIn(s[j..k], WordClass)
    && (AllIn(s[k..], SpaceClass) || (k < |s| && Last(s) == '\n' && AllIn(s[k..|s| - 1], SpaceClass)))
  }

  ghost predicate ImportPatternMatches(s: string) {
    exists i, j, k :: ImportMatchAt(s, i, j, k)
  }

  /**
    The import test as evaluated: strip the trailing whitespace, then the word
    before it, then the whitespace before that, and look for "import".
   */
  predicate HasImportTail(s: string) {
    var k := |s| - RunBefore(s, |s|, SpaceClass);
    var j := k - RunBefore(s, k, WordClass);
    var m := j - RunBefore(s, j, SpaceClass);
    j < k && m < j && 6 <= m && StartsAt(s, m - 6, "import")
  }

  /** The run before `e` consists of `cls` characters and cannot be extended to the left. */
  lemma {:induction false} RunBeforeMaximal(s: string, e: nat, cls: CharClass)
    requires e <= |s|
    ensures AllIn(s[e - RunBefore(s, e, cls)..e], cls)
    ensures e - RunBefore(s, e, cls) == 0 || !InClass(s[e - RunBefore(s, e, cls) - 1], cls)
    decreases e
  {
    if e > 0 && InClass(s[e - 1], cls) {
      RunBeforeMaximal(s, e - 1, cls);
      var n := RunBefore(s, e, cls);
      assert s[e - n..e] == s[e - n..e - 1] + [s[e - 1]];
    }
  }

  /** A run of `cls` characters that cannot be extended to the left is the run `RunBefore` measures. */
  lemma {:induction false} RunBeforeIs(s: string, e: nat, n: nat, cls: CharClass)
    requires n <= e <= |s|
    requires AllIn(s[e - n..e], cls)
    requires e - n == 0 || !InClass(s[e - n - 1], cls)
    ensures RunBefore(s, e, cls) == n
    decreases e
  {
    if n > 0 {
      assert s[e - n..e][n - 1] == s[e - 1];
      assert s[e - n..e - 1] == s[e - n..e][..n - 1];
      assert AllIn(s[e - n..e - 1], cls);
      RunBeforeIs(s, e - 1, n - 1, cls);
    }
  }

  /** The evaluated import test agrees with the pattern on every input. */
  lemma ImportTailIff(s: string)
    ensures HasImportTail(s) <==> ImportPatternMatches(s)
  {
    if HasImportTail(s) {
      var i, j, k := ImportTailMatch(s);
    }
    if ImportPatternMatches(s) {
      var i, j, k :| ImportMatchAt(s, i, j, k);
      ImportMatchRuns(s, i, j, k);
    }
  }

  /** What the evaluated test finds is a match of the pattern. */
  lemma ImportTailMatch(s: string) returns (i: nat, j: nat, k: nat)
    requires HasImportTail(s)
    ensures ImportMatchAt(s, i, j, k)
  {
    k := |s| - RunBefore(s, |s|, SpaceClass);
    j := k - RunBefore(s, k, WordClass);
    var m := j - RunBefore(s, j, SpaceClass);
    assert m < j < k && 6 <= m && StartsAt(s, m - 6, "import");
    RunBeforeMaximal(s, |s|, SpaceClass);
    RunBeforeMaximal(s, k, WordClass);
    RunBeforeMaximal(s, j, SpaceClass);
    i := m - 6;
    ImportMatchIntro(s, i, j, k);
  }

  /** The parts of a match at `i`, whitespace running to the very end. */
  lemma ImportMatchIntro(s: string, i: nat, j: nat, k: nat)
    requires i + 6 < j < k <= |s| && StartsAt(s, i, "import")
    requires AllIn(s[i + 6..j], SpaceClass) && AllIn(s[j..k], WordClass) && AllIn(s[k..|s|], SpaceClass)
    ensures ImportMatchAt(s, i, j, k)
  {
    assert s[k..] == s[k..|s|];
  }

  /** Every match of the pattern is found by peeling the runs off the end. */
  lemma ImportMatchRuns(s: string, i: nat, j: nat, k: nat)
    requires ImportMatchAt(s, i, j, k)
    ensures HasImportTail(s)
  {
    TrailingSpace(s, k);
    assert s[j..k][k - j - 1] == s[k - 1];
    RunBeforeIs(s, |s|, |s| - k, SpaceClass);
    assert s[i + 6..j][j - i - 7] == s[j - 1];
    RunBeforeIs(s, k, k - j, WordClass);
    assert s[i..i + 6][5] == s[i + 5] == 't';
    RunBeforeIs(s, j, j - (i + 6), SpaceClass);
  }

  /** Whitespace up to `$` is whitespace up to the end, since a line feed is whitespace. */
  lemma TrailingSpace(s: string, k: nat)
    requires k <= |s|
    requires AllIn(s[k..], SpaceClass) || (k < |s| && Last(s) == '\n' && AllIn(s[k..|s| - 1], SpaceClass))
    ensures AllIn(s[k..], SpaceClass)
  {
    if k < |s| && Last(s) == '\n' && AllIn(s[k..|s| - 1], SpaceClass) {
      assert s[k..] == s[k..|s| - 1] + [Last(s)];
    }
  }

  // ---------------------------------------------------------------------
  // The six tests and `check_code_quality`
  // ---------------------------------------------------------------------

  /** `len(content.split('\n')) > 300` */
  predicate IsTooLong(content: string) {
    |Split(content, '\n')| > 300
  }

  /** The outcome of the six tests on one content, in the order the code runs them. */
  datatype Outcome = Outcome(
    tooLong: bool, printCall: bool, todoComment: bool,
    unusedImport: bool, shortName: bool, magicNumber: bool)

  /** Run the six tests. */
  function Tests(content: string): Outcome {
    Outcome(
      IsTooLong(content),
      Contains(content, "print("),
      Contains(content, "TODO") || Contains(content, "FIXME"),
      HasImportTail(content),
      HasShortName(content),
      HasMagicNumber(content))
  }

  /** Whether the test for `issue` fired. */
  predicate Fired(issue: Issue, o: Outcome) {
    match issue
    case TooLong => o.tooLong
    case PrintCall => o.printCall
    case TodoComment => o.todoComment
    case UnusedImport => o.unusedImport
    case ShortName => o.shortName
    case MagicNumber => o.magicNumber
  }

  /** The one-issue list of a test that fired, the empty list otherwise. */
  function Flag(fired: bool, issue: Issue): seq<Issue> {
    if fired then [issue] else []
  }

  /** The issues reported for the outcome: the tests that fired, in the order they run. */
  function IssuesOf(o: Outcome): seq<Issue> {
    Flag(o.tooLong, TooLong) + Flag(o.printCall, PrintCall) + Flag(o.todoComment, TodoComment)
    + Flag(o.unusedImport, UnusedImport) + Flag(o.shortName, ShortName) + Flag(o.magicNumber, MagicNumber)
  }

  /** The issues `check_code_quality` reports for `content`. */
  function QualityIssues(content: string): seq<Issue> {
    IssuesOf(Tests(content))
  }

  predicate RanksIncrease(issues: seq<Issue>) {
    forall a, b | 0 <= a < b < |issues| :: Rank(issues[a]) < Rank(issues[b])
  }

  /** Appending the flag of a later test keeps the ranks increasing. */
  lemma FlagAfter(issues: seq<Issue>, fired: bool, x: Issue)
    requires RanksIncrease(issues)
    requires issues != [] ==> Rank(Last(issues)) < Rank(x)
    ensures RanksIncrease(issues + Flag(fired, x))
    ensures issues + Flag(fired, x) != [] ==> Rank(Last(issues + Flag(fired, x))) <= Rank(x)
  {
    var r := issues + Flag(fired, x);
    forall a, b | 0 <= a < b < |r|
      ensures Rank(r[a]) < Rank(r[b])
    {
      if b >= |issues| && a < |issues| - 1 {
        assert Rank(r[a]) < Rank(Last(issues));
      }
    }
  }

  /** Each issue is reported exactly when its test fired, and at most six are reported. */
  lemma IssuesOfMembers(o: Outcome)
    ensures |IssuesOf(o)| <= 6
    ensures forall x :: x in IssuesOf(o) <==> Fired(x, o)
  {
  }

  /** The issues come in the fixed order of the tests, so none is reported twice. */
  lemma IssuesOfOrdered(o: Outcome)
    ensures RanksIncrease(IssuesOf(o))
  {
    var r3 := FirstThreeFlags(o);
    FlagAfter(r3, o.unusedImport, UnusedImport);
    var r4 := r3 + Flag(o.unusedImport, UnusedImport);
    FlagAfter(r4, o.shortName, ShortName);
    var r5 := r4 + Flag(o.shortName, ShortName);
    FlagAfter(r5, o.magicNumber, MagicNumber);
  }

  /** The issues of the first three tests, in order. */
  lemma FirstThreeFlags(o: Outcome) returns (r3: seq<Issue>)
    ensures r3 == Flag(o.tooLong, TooLong) + Flag(o.printCall, PrintCall) + Flag(o.todoComment, TodoComment)
    ensures RanksIncrease(r3) && (r3 != [] ==> Rank(Last(r3)) <= Rank(TodoComment))
  {
    var r1 := Flag(o.tooLong, TooLong);
    FlagAfter(r1, o.printCall, PrintCall);
    var r2 := r1 + Flag(o.printCall, PrintCall);
    FlagAfter(r2, o.todoComment, TodoComment);
    r3 := r2 + Flag(o.todoComment, TodoComment);
  }

  /** `check_code_quality`: run the six tests in turn, appending the issue of each that fires. */
  method CheckCodeQuality(content: string) returns (issues: seq<Issue>)
    ensures issues == QualityIssues(content)
  {
    ghost var o := Tests(content);
    issues := [];
    if |Split(content, '\n')| > 300 {
      issues := issues + [TooLong];
    }
    assert issues == Flag(o.tooLong, TooLong);
    if Contains(content, "print(") {
      issues := issues + [PrintCall];
    }
    assert issues == Flag(o.tooLong, TooLong) + Flag(o.printCall, PrintCall);
    if Contains(content, "TODO") || Contains(content, "FIXME") {
      issues := issues + [TodoComment];
    }
    assert issues == Flag(o.tooLong, TooLong) + Flag(o.printCall, PrintCall) + Flag(o.todoComment, TodoComment);
    if HasImportTail(content) {
      issues := issues + [UnusedImport];
    }
    assert issues == Flag(o.tooLong, TooLong) + Flag(o.printCall, PrintCall) + Flag(o.todoComment, TodoComment)
      + Flag(o.unusedImport, UnusedImport);
    if HasShortName(content) {
      issues := issues + [ShortName];
    }
    assert issues == Flag(o.tooLong, TooLong) + Flag(o.printCall, PrintCall) + Flag(o.todoComment, TodoComment)
      + Flag(o.unusedImport, UnusedImport) + Flag(o.shortName, ShortName);
    if HasMagicNumber(content) {
      issues := issues + [MagicNumber];
    }
    assert issues == IssuesOf(o);
  }

  /** The report is too long exactly when the content has at least 300 line feeds. */
  lemma TooLongIffLineFeeds(content: string)
    ensures IsTooLong(content) <==> Count(content, '\n') >= 300
  {
    SplitCount(content, '\n');
  }

  /**
    Each issue is reported exactly when the content has the feature the
    pattern describes: at least 300 line feeds, `print(`, `TODO` or `FIXME`,
    a trailing `import` statement, a whole word of one or two letters, a
    whole word of digits.
   */
  lemma QualityIssuesExplained(content: string)
    ensures TooLong in QualityIssues(content) <==> Count(content, '\n') >= 300
    ensures PrintCall in QualityIssues(content) <==> Contains(content, "print(")
    ensures TodoComment in QualityIssues(content) <==> Contains(content, "TODO") || Contains(content, "FIXME")
    ensures UnusedImport in QualityIssues(content) <==> ImportPatternMatches(content)
  {
    IssuesOfMembers(Tests(content));
    TooLongIffLineFeeds(content);
    ImportTailIff(content);
  }

  /** The two word-run tests, in terms of whole words. */
  lemma WordIssuesExplained(content: string)
    ensures ShortName in QualityIssues(content) <==>
      exists i: nat, j: nat :: IsWordRun(content, i, j) && j - i <= 2 && AllLetters(content[i..j])
    ensures MagicNumber in QualityIssues(content) <==>
      exists i: nat, j: nat :: IsWordRun(content, i, j) && AllDigits(content[i..j])
  {
    IssuesOfMembers(Tests(content));
    ShortNameIffWordRun(content);
    MagicNumberIffWordRun(content);
  }

  /** Empty content raises no issue. */
  lemma EmptyContentIsClean()
    ensures QualityIssues("") == []
  {
    assert Split("", '\n') == [""];
    assert !HasImportTail("");
    assert Tests("") == Outcome(false, false, false, false, false, false);
  }

  /** `x = 42` has a short name and a magic number and nothing else. */
  lemma ReviewExample()
    ensures QualityIssues("x = 42") == [ShortName, MagicNumber]
  {
    var s := "x = 42";
    ExampleDetections();
  }

  /** Which of the six tests fire on `x = 42`. */
  lemma ExampleDetections()
    ensures Tests("x = 42") == Outcome(false, false, false, false, true, true)
  {
    var s := "x = 42";
    assert Boundary(s, 0) && AllLetters(s[0..1]) && Boundary(s, 1);
    assert Boundary(s, 4) && AllDigits(s[4..6]) && Boundary(s, 6);
    ExampleHasNoCalls();
    ExampleHasNoImport();
    SplitSepFree(s, '\n');
  }

  lemma ExampleHasNoCalls()
    ensures !Contains("x = 42", "print(") && !Contains("x = 42", "TODO") && !Contains("x = 42", "FIXME")
  {
    var s := "x = 42";
    forall i | 0 <= i <= 2
      ensures !StartsAt(s, i, "TODO")
    {
      assert s[i..i + 4][0] == s[i] != 'T';
    }
    forall i | 0 <= i <= 1
      ensures !StartsAt(s, i, "FIXME")
    {
      assert s[i..i + 5][0] == s[i] != 'F';
    }
    assert !StartsAt(s, 0, "print(") by { assert s[0] != 'p'; }
  }

  lemma ExampleHasNoImport()
    ensures !HasImportTail("x = 42")
  {
    var s := "x = 42";
    assert RunBefore(s, 6, SpaceClass) == 0;
    RunBeforeIs(s, 6, 2, WordClass);
    RunBeforeIs(s, 4, 1, SpaceClass);
  }

  // ---------------------------------------------------------------------
  // `process`: which files are reviewed
  // ---------------------------------------------------------------------

  /** `filename.endswith(('.py', '.js', '.java'))` */
  predicate IsSourceFile(filename: string) {
    EndsWith(filename, ".py") || EndsWith(filename, ".js") || EndsWith(filename, ".java")
  }

  /** The block printed for one analysed file. */
  datatype Report = Report(filename: string, issues: seq<Issue>)

  /** The reports for the source files among `files`, in order; a missing patch is reviewed as "". */
  function Reports(files: seq<FileChange>): (r: seq<Report>)
    ensures |r| <= |files|
  {
    if files == [] then []
    else
      var f := Last(files);
      Reports(files[..|files| - 1])
        + (if IsSourceFile(f.filename) then [Report(f.filename, QualityIssues(PatchText(f)))] else [])
  }

  /** `process`: analyse every source file of the pull request in turn. */
  method ReviewFiles(files: seq<FileChange>) returns (reports: seq<Report>)
    ensures reports == Reports(files)
  {
    reports := [];
    for i := 0 to |files|
      invariant reports == Reports(files[..i])
    {
      var file := files[i];
      assert files[..i + 1][..i] == files[..i];
      if EndsWith(file.filename, ".py") || EndsWith(file.filename, ".js") || EndsWith(file.filename, ".java") {
        var issues := CheckCodeQuality(PatchText(file));
        reports := reports + [Report(file.filename, issues)];
      }
    }
    assert files[..|files|] == files;
  }

  /**
    A report is produced exactly for each changed source file, and it lists
    that file's quality issues.
   */
  lemma {:induction false} ReportsMember(files: seq<FileChange>, rep: Report)
    ensures rep in Reports(files) <==> exists k | 0 <= k < |files| ::
      files[k].filename == rep.filename && IsSourceFile(rep.filename) && rep.issues == QualityIssues(PatchText(files[k]))
    decreases |files|
  {
    if files != [] {
      var init := files[..|files| - 1];
      ReportsMember(init, rep);
      assert forall k | 0 <= k < |init| :: init[k] == files[k];
    }
  }
}
