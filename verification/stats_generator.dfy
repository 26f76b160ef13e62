/**
  `StatsGenerator.process` of src/features/stats_generator.py: the number of
  changed files, a table of file extensions ordered by how many changed files
  carry them, and the number of reviews.

  The extension table is a `collections.Counter` over the text after the last
  '.' of every file name that contains a '.', listed by `most_common()`. A
  Counter keeps its keys in the order they were first counted, and
  `most_common()` sorts by count, descending, with Python's stable sort, so
  extensions with equal counts stay in first-encountered order.
 */
module StatsGenerator {
  import opened Text
  import opened Records

  /** `f.split('.')[-1]`: the text after the last '.', or the whole name when it has none. */
  function Extension(name: string): (ext: string)
    ensures '.' !in ext && EndsWith(name, ext)
    ensures '.' in name ==> |ext| < |name| && name[|name| - |ext| - 1] == '.'
    ensures '.' !in name ==> ext == name
  {
    SplitPiecesLackSep(name, '.');
    LastPieceIsSuffix(name, '.');
    Last(Split(name, '.'))
  }

  /** The extensions of the names that contain a '.', in order. */
  function Extensions(names: seq<string>): (exts: seq<string>)
    ensures |exts| <= |names|
    ensures forall k | 0 <= k < |exts| :: '.' !in exts[k]
  {
    if names == [] then []
    else
      var name := Last(names);
      Extensions(names[..|names| - 1]) + (if '.' in name then [Extension(name)] else [])
  }

  /** How many names contain a '.'. */
  function DottedCount(names: seq<string>): nat {
    if names == [] then 0
    else DottedCount(names[..|names| - 1]) + (if '.' in Last(names) then 1 else 0)
  }

  /** One row of the table: an extension and how many names carry it. */
  datatype Entry = Entry(ext: string, count: nat)

  function Keys(t: seq<Entry>): (keys: seq<string>)
    ensures |keys| == |t|
    ensures forall a | 0 <= a < |t| :: keys[a] == t[a].ext
  {
    if t == [] then [] else Keys(t[..|t| - 1]) + [Last(t).ext]
  }

  function SumCounts(t: seq<Entry>): nat {
    if t == [] then 0 else SumCounts(t[..|t| - 1]) + Last(t).count
  }

  /** How often `x` occurs in `xs`. */
  function Occurrences(xs: seq<string>, x: string): nat {
    if xs == [] then 0 else Occurrences(xs[..|xs| - 1], x) + (if Last(xs) == x then 1 else 0)
  }

  /** The distinct elements of `xs`, in the order of their first occurrence. */
  function Distinct(xs: seq<string>): seq<string> {
    if xs == [] then []
    else
      var init := xs[..|xs| - 1];
      Distinct(init) + (if Last(xs) in init then [] else [Last(xs)])
  }

  predicate NoDuplicates(xs: seq<string>) {
    forall a, b | 0 <= a < b < |xs| :: xs[a] != xs[b]
  }

  /** `Counter.update` for one element: count it in its row, or open a row at the end. */
  function Bump(t: seq<Entry>, x: string): (r: seq<Entry>)
    ensures |r| == |t| || |r| == |t| + 1
  {
    if t == [] then [Entry(x, 1)]
    else if t[0].ext == x then [Entry(x, t[0].count + 1)] + t[1..]
    else [t[0]] + Bump(t[1..], x)
  }

  /** `Counter(xs)`: the rows in insertion order. */
  function Tally(xs: seq<string>): seq<Entry> {
    if xs == [] then [] else Bump(Tally(xs[..|xs| - 1]), Last(xs))
  }

  /** Counting a key that has a row adds one to that row only; a new key gets a row of its own at the end. */
  lemma BumpRows(t: seq<Entry>, x: string)
    requires NoDuplicates(Keys(t))
    ensures Keys(Bump(t, x)) == Keys(t) + (if x in Keys(t) then [] else [x])
    ensures forall a | 0 <= a < |t| :: Bump(t, x)[a].count == t[a].count + (if t[a].ext == x then 1 else 0)
    ensures x !in Keys(t) ==> Bump(t, x)[|t|] == Entry(x, 1)
    ensures SumCounts(Bump(t, x)) == SumCounts(t) + 1
  {
    BumpKeys(t, x);
    BumpCounts(t, x);
    BumpSum(t, x);
  }

  lemma {:induction false} BumpKeys(t: seq<Entry>, x: string)
    ensures Keys(Bump(t, x)) == Keys(t) + (if x in Keys(t) then [] else [x])
    decreases |t|
  {
    if t != [] {
      KeysCons(Bump(t, x));
      KeysCons(t);
      if t[0].ext != x {
        BumpKeys(t[1..], x);
        assert Bump(t, x)[1..] == Bump(t[1..], x);
      }
    }
  }

  lemma {:induction false} BumpCounts(t: seq<Entry>, x: string)
    requires NoDuplicates(Keys(t))
    ensures forall a | 0 <= a < |t| :: Bump(t, x)[a].count == t[a].count + (if t[a].ext == x then 1 else 0)
    ensures x !in Keys(t) ==> |Bump(t, x)| == |t| + 1 && Bump(t, x)[|t|] == Entry(x, 1)
    decreases |t|
  {
    if t != [] {
      var rest := t[1..];
      KeysCons(t);
      assert NoDuplicates(Keys(rest));
      if t[0].ext == x {
        assert x !in Keys(rest);
        forall a | 1 <= a < |t| ensures t[a].ext != x {
          assert Keys(rest)[a - 1] == t[a].ext;
        }
      } else {
        BumpCounts(rest, x);
        assert Bump(t, x)[1..] == Bump(rest, x);
        assert x in Keys(t) <==> x in Keys(rest);
      }
    }
  }

  lemma {:induction false} BumpSum(t: seq<Entry>, x: string)
    ensures SumCounts(Bump(t, x)) == SumCounts(t) + 1
    decreases |t|
  {
    if t != [] {
      SumCountsCons(t);
      SumCountsCons(Bump(t, x));
      if t[0].ext == x {
        assert Bump(t, x)[1..] == t[1..];
      } else {
        BumpSum(t[1..], x);
        assert Bump(t, x)[1..] == Bump(t[1..], x);
      }
    } else {
      assert SumCounts([Entry(x, 1)]) == SumCounts([]) + 1;
    }
  }

  lemma {:induction false} KeysCons(t: seq<Entry>)
    requires t != []
    ensures Keys(t) == [t[0].ext] + Keys(t[1..])
  {
    assert Keys(t)[1..] == Keys(t[1..]);
  }

  /** The sum can also be taken from the front. */
  lemma {:induction false} SumCountsCons(t: seq<Entry>)
    requires t != []
    ensures SumCounts(t) == t[0].count + SumCounts(t[1..])
    decreases |t|
  {
    if |t| > 1 {
      var init := t[..|t| - 1];
      SumCountsCons(init);
      assert init[1..] == t[1..][..|t| - 2];
    }
  }

  /** A value occurs in `xs` exactly when it is among the distinct values. */
  lemma {:induction false} DistinctMembers(xs: seq<string>)
    ensures forall x :: x in Distinct(xs) <==> x in xs
    ensures NoDuplicates(Distinct(xs))
    decreases |xs|
  {
    if xs != [] {
      var init := xs[..|xs| - 1];
      DistinctMembers(init);
      assert xs == init + [Last(xs)];
    }
  }

  /** A value has a positive count exactly when it occurs. */
  lemma {:induction false} OccurrencesPositive(xs: seq<string>, x: string)
    ensures Occurrences(xs, x) >= 1 <==> x in xs
    decreases |xs|
  {
    if xs != [] {
      var init := xs[..|xs| - 1];
      assert xs == init + [Last(xs)];
      OccurrencesPositive(init, x);
    }
  }

  /** `Counter(xs)` has one row per distinct value, in first-encountered order, and its counts add up to `|xs|`. */
  lemma {:induction false} TallyKeys(xs: seq<string>)
    ensures Keys(Tally(xs)) == Distinct(xs)
    ensures NoDuplicates(Keys(Tally(xs)))
    ensures SumCounts(Tally(xs)) == |xs|
    decreases |xs|
  {
    DistinctMembers(xs);
    if xs != [] {
      var init, x := xs[..|xs| - 1], Last(xs);
      TallyKeys(init);
      DistinctMembers(init);
      BumpRows(Tally(init), x);
    }
  }

  /** Each row of `Counter(xs)` holds how often its value occurs in `xs`. */
  lemma {:induction false} TallyRow(xs: seq<string>, a: nat)
    requires a < |Tally(xs)|
    ensures Tally(xs)[a].count == Occurrences(xs, Tally(xs)[a].ext)
    decreases |xs|
  {
    var init, x := xs[..|xs| - 1], Last(xs);
    var t := Tally(init);
    TallyKeys(init);
    BumpRows(t, x);
    var y := Tally(xs)[a].ext;
    assert y == Keys(Tally(xs))[a];
    if a < |t| {
      TallyRow(init, a);
      assert y == t[a].ext;
    } else {
      DistinctMembers(init);
      OccurrencesPositive(init, x);
    }
  }

  /** Every row count is the number of occurrences of its value, and so at least one. */
  lemma TallyCounts(xs: seq<string>)
    ensures forall a | 0 <= a < |Tally(xs)| :: Tally(xs)[a].count == Occurrences(xs, Tally(xs)[a].ext) >= 1
  {
    TallyKeys(xs);
    DistinctMembers(xs);
    forall a | 0 <= a < |Tally(xs)|
      ensures Tally(xs)[a].count == Occurrences(xs, Tally(xs)[a].ext) >= 1
    {
      TallyRow(xs, a);
      assert Tally(xs)[a].ext == Keys(Tally(xs))[a];
      OccurrencesPositive(xs, Tally(xs)[a].ext);
    }
  }

  // ---------------------------------------------------------------------
  // `most_common()`: a stable sort by descending count
  // ---------------------------------------------------------------------

  predicate NonIncreasing(t: seq<Entry>) {
    forall a, b | 0 <= a < b < |t| :: t[a].count >= t[b].count
  }

  /** Place `e` after every row whose count is at least its own. */
  function Insert(sorted: seq<Entry>, e: Entry): (r: seq<Entry>)
    ensures |r| == |sorted| + 1
  {
    if sorted == [] || Last(sorted).count >= e.count then sorted + [e]
    else Insert(sorted[..|sorted| - 1], e) + [Last(sorted)]
  }

  /** `most_common()`: the rows, stably sorted by descending count. */
  function MostCommon(t: seq<Entry>): (r: seq<Entry>)
    ensures |r| == |t|
  {
    if t == [] then [] else Insert(MostCommon(t[..|t| - 1]), Last(t))
  }

  /** The rows with count `c`, in order. */
  function WithCount(t: seq<Entry>, c: nat): seq<Entry> {
    if t == [] then [] else WithCount(t[..|t| - 1], c) + (if Last(t).count == c then [Last(t)] else [])
  }

  /** Inserting adds exactly the new row. */
  lemma {:induction false} InsertPermutes(sorted: seq<Entry>, e: Entry)
    ensures multiset(Insert(sorted, e)) == multiset(sorted) + multiset{e}
    decreases |sorted|
  {
    if sorted != [] && Last(sorted).count < e.count {
      var init := sorted[..|sorted| - 1];
      InsertPermutes(init, e);
      assert sorted == init + [Last(sorted)];
    }
  }

  /** Inserting into a non-increasing sequence keeps it non-increasing. */
  lemma {:induction false} InsertOrdered(sorted: seq<Entry>, e: Entry)
    requires NonIncreasing(sorted)
    ensures NonIncreasing(Insert(sorted, e))
    decreases |sorted|
  {
    if sorted != [] && Last(sorted).count < e.count {
      var init, last := sorted[..|sorted| - 1], Last(sorted);
      InsertOrdered(init, e);
      InsertPermutes(init, e);
      var mid := Insert(init, e);
      var r := mid + [last];
      forall a, b | 0 <= a < b < |r|
        ensures r[a].count >= r[b].count
      {
        if b == |mid| {
          assert r[a] == mid[a] && r[b] == last;
          assert mid[a] in multiset(init) + multiset{e};
          if mid[a] != e {
            var a' :| 0 <= a' < |init| && init[a'] == mid[a];
            assert sorted[a'] == mid[a] && sorted[|sorted| - 1] == last;
          }
        } else {
          assert r[a] == mid[a] && r[b] == mid[b];
        }
      }
    }
  }

  /** Inserting puts the new row after the rows of equal count. */
  lemma {:induction false} InsertStable(sorted: seq<Entry>, e: Entry, c: nat)
    ensures WithCount(Insert(sorted, e), c) == WithCount(sorted, c) + (if e.count == c then [e] else [])
    decreases |sorted|
  {
    if sorted == [] || Last(sorted).count >= e.count {
      assert (sorted + [e])[..|sorted|] == sorted;
    } else {
      var init, last := sorted[..|sorted| - 1], Last(sorted);
      InsertStable(init, e, c);
      var mid := Insert(init, e);
      assert (mid + [last])[..|mid|] == mid;
    }
  }

  /** `most_common()` is a permutation of the rows, in non-increasing count order, that keeps rows of equal count in their original order. */
  lemma {:induction false} MostCommonSorts(t: seq<Entry>)
    ensures NonIncreasing(MostCommon(t))
    ensures multiset(MostCommon(t)) == multiset(t)
    ensures forall c :: WithCount(MostCommon(t), c) == WithCount(t, c)
    decreases |t|
  {
    if t != [] {
      var init := t[..|t| - 1];
      MostCommonSorts(init);
      InsertOrdered(MostCommon(init), Last(t));
      InsertPermutes(MostCommon(init), Last(t));
      forall c
        ensures WithCount(MostCommon(t), c) == WithCount(t, c)
      {
        InsertStable(MostCommon(init), Last(t), c);
      }
      assert t == init + [Last(t)];
    }
  }

  /** Sorting keeps the total of the counts. */
  lemma {:induction false} InsertSum(sorted: seq<Entry>, e: Entry)
    ensures SumCounts(Insert(sorted, e)) == SumCounts(sorted) + e.count
    decreases |sorted|
  {
    if sorted != [] && Last(sorted).count < e.count {
      InsertSum(sorted[..|sorted| - 1], e);
      assert (Insert(sorted[..|sorted| - 1], e) + [Last(sorted)])[..|sorted|] == Insert(sorted[..|sorted| - 1], e);
    } else {
      assert (sorted + [e])[..|sorted|] == sorted;
    }
  }

  lemma {:induction false} MostCommonSum(t: seq<Entry>)
    ensures SumCounts(MostCommon(t)) == SumCounts(t)
    decreases |t|
  {
    if t != [] {
      MostCommonSum(t[..|t| - 1]);
      InsertSum(MostCommon(t[..|t| - 1]), Last(t));
    }
  }

  // ---------------------------------------------------------------------
  // `process`
  // ---------------------------------------------------------------------

  /** What `process` prints: total files changed, the file types, total reviews. */
  datatype Summary = Summary(totalFiles: nat, fileTypes: seq<Entry>, totalReviews: nat)

  function Filenames(files: seq<FileChange>): (names: seq<string>)
    ensures |names| == |files|
    ensures forall k | 0 <= k < |files| :: names[k] == files[k].filename
  {
    if files == [] then [] else Filenames(files[..|files| - 1]) + [Last(files).filename]
  }

  /** The file-type table of a list of file names. */
  function FileTypes(names: seq<string>): seq<Entry> {
    MostCommon(Tally(Extensions(names)))
  }

  /** The extensions counted are exactly the names that contain a '.'. */
  lemma {:induction false} ExtensionsCount(names: seq<string>)
    ensures |Extensions(names)| == DottedCount(names) <= |names|
    decreases |names|
  {
    if names != [] {
      ExtensionsCount(names[..|names| - 1]);
    }
  }

  /**
    The table lists dot-free extensions with positive counts, in
    non-increasing order, and its counts add up to the number of names that
    contain a '.', which is at most the number of files.
   */
  lemma FileTypesShape(names: seq<string>)
    ensures var t := FileTypes(names);
      && NonIncreasing(t)
      && (forall a | 0 <= a < |t| :: '.' !in t[a].ext && t[a].count >= 1)
      && SumCounts(t) == DottedCount(names) <= |names|
  {
    var tally := Tally(Extensions(names));
    MostCommonRows(tally);
    MostCommonSum(tally);
    TallyKeys(Extensions(names));
    ExtensionsCount(names);
    TallyRowsShape(names);
    var t := FileTypes(names);
    forall a | 0 <= a < |t|
      ensures '.' !in t[a].ext && t[a].count >= 1
    {
      assert t[a] in tally;
    }
  }

  /** The sorted table is ordered and has exactly the rows of the table. */
  lemma MostCommonRows(t: seq<Entry>)
    ensures NonIncreasing(MostCommon(t))
    ensures forall e :: e in MostCommon(t) <==> e in t
  {
    MostCommonSorts(t);
    assert forall e :: e in MostCommon(t) <==> e in multiset(MostCommon(t));
  }

  /** Every row of the unsorted table is a dot-free extension seen at least once. */
  lemma TallyRowsShape(names: seq<string>)
    ensures forall e | e in Tally(Extensions(names)) :: '.' !in e.ext && e.count >= 1
  {
    var exts := Extensions(names);
    var tally := Tally(exts);
    TallyKeys(exts);
    TallyCounts(exts);
    DistinctMembers(exts);
    forall e | e in tally
      ensures '.' !in e.ext && e.count >= 1
    {
      var b :| 0 <= b < |tally| && tally[b] == e;
      assert Keys(tally)[b] in exts;
    }
  }

  /** `process`: the summary for the fetched files and reviews. */
  function Statistics<R>(files: seq<FileChange>, reviews: seq<R>): (st: Summary)
    ensures st.totalFiles == |files| && st.totalReviews == |reviews|
    ensures SumCounts(st.fileTypes) <= st.totalFiles
    ensures NonIncreasing(st.fileTypes)
  {
    FileTypesShape(Filenames(files));
    Summary(|files|, FileTypes(Filenames(files)), |reviews|)
  }

  /** A name ending in '.' is counted under the empty extension: `"name."` gives `""`. */
  lemma TrailingDotExtension(stem: string)
    requires '.' !in stem
    ensures '.' in stem + "." && Extension(stem + ".") == ""
  {
    ExtensionOfExample(stem, "");
    assert stem + "." + "" == stem + ".";
  }

  /** `a.py`, `b.py` and `README` give three files and the single row `.py: 2`. */
  lemma StatisticsExample(reviews: seq<string>)
    ensures Statistics([FileChange("a.py", 1, 0, None), FileChange("b.py", 2, 1, None), FileChange("README", 3, 0, None)], reviews)
      == Summary(3, [Entry("py", 2)], |reviews|)
  {
    var files := [FileChange("a.py", 1, 0, None), FileChange("b.py", 2, 1, None), FileChange("README", 3, 0, None)];
    var names := ["a.py", "b.py", "README"];
    assert Filenames(files) == names;
    ExampleExtensions();
    ExampleTable();
  }

  lemma ExampleExtensions()
    ensures Extensions(["a.py", "b.py", "README"]) == ["py", "py"]
  {
    var names := ["a.py", "b.py", "README"];
    ExtensionOfExample("a", "py");
    ExtensionOfExample("b", "py");
    assert '.' !in "README";
    assert names[..2][..1] == ["a.py"] && names[..2] == ["a.py", "b.py"];
    assert Extensions(["a.py"]) == ["py"];
  }

  lemma ExampleTable()
    ensures MostCommon(Tally(["py", "py"])) == [Entry("py", 2)]
  {
    assert ["py", "py"][..1] == ["py"];
    assert Tally(["py"]) == [Entry("py", 1)];
    assert Tally(["py", "py"]) == [Entry("py", 2)];
    assert MostCommon([Entry("py", 2)]) == Insert([], Entry("py", 2));
  }

  lemma ExtensionOfExample(stem: string, ext: string)
    requires '.' !in stem && '.' !in ext
    ensures Extension(stem + "." + ext) == ext && '.' in stem + "." + ext
  {
    SplitPieceThen(stem, ext, '.');
    SplitSepFree(ext, '.');
    assert (stem + "." + ext)[|stem|] == '.';
  }
}
