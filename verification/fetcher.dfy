/**
  The command-line fetcher `GitHubPRDiffFetcher` of pull-request.py: its
  pull-request address parser and its extraction of added and deleted lines
  from a file's patch.
 */
module Fetcher {
  import opened Text
  import opened Records
  import opened PrUrl
  import opened Patch

  const InvalidUrlMessage: string := "Invalid GitHub PR URL format"

  /**
    `parse_pr_url`: the three groups of the leftmost match, or the `ValueError`
    this parser raises when the address holds no match.
   */
  function ParsePrUrl(url: string): (r: Result<PullRequestRef>)
    ensures r.Ok? <==> ContainsPattern(url)
    ensures r.Ok? ==> ValidRef(r.value) && exists i :: LeftmostMatch(url, i, r.value)
    ensures r.Err? ==> r.message == InvalidUrlMessage
  {
    ResolveFindsPattern(url);
    match Resolve(url)
    case Some(ref) => Ok(ref)
    case None => Err(InvalidUrlMessage)
  }

  /**
    `extract_code_changes`: the added and the deleted lines of a patch, each
    without its marker, in patch order.
   */
  method ExtractCodeChanges(patch: string) returns (added: seq<string>, deleted: seq<string>)
    ensures added == Changes(Lines(patch), '+')
    ensures deleted == Changes(Lines(patch), '-')
  {
    added, deleted := [], [];
    if patch == "" {
      EmptyPatchChanges();
      return;
    }
    var lines := Lines(patch);
    for i := 0 to |lines|
      invariant added == Changes(lines[..i], '+')
      invariant deleted == Changes(lines[..i], '-')
    {
      var line := lines[i];
      assert lines[..i + 1] == lines[..i] + [line];
      ChangesSnoc(lines[..i], line, '+');
      ChangesSnoc(lines[..i], line, '-');
      if IsMetadata(line) {
        MetadataIsNoChange(line);
        continue;
      }
      if StartsWith(line, "+") && !StartsWith(line, "+++") {
        added := added + [line[1..]];
      } else if StartsWith(line, "-") && !StartsWith(line, "---") {
        deleted := deleted + [line[1..]];
      }
    }
    assert lines[..|lines|] == lines;
  }

  /** The early return for an empty patch agrees with what the loop would produce. */
  lemma EmptyPatchChanges()
    ensures Changes(Lines(""), '+') == [] && Changes(Lines(""), '-') == []
  {
    assert Lines("") == [""];
    assert !IsChange("", '+') && !IsChange("", '-');
    assert Changes([""], '+') == Changes([], '+');
  }

  /**
    A text is extracted as added exactly when some line of the patch starts
    with '+' but not "+++" and reads that text after the '+'; likewise for
    deleted lines and '-'.
   */
  lemma ExtractedLines(patch: string, x: string)
    ensures x in Changes(Lines(patch), '+') <==> exists k | 0 <= k < |Lines(patch)| ::
      StartsWith(Lines(patch)[k], "+") && !StartsWith(Lines(patch)[k], "+++") && Lines(patch)[k][1..] == x
    ensures x in Changes(Lines(patch), '-') <==> exists k | 0 <= k < |Lines(patch)| ::
      StartsWith(Lines(patch)[k], "-") && !StartsWith(Lines(patch)[k], "---") && Lines(patch)[k][1..] == x
  {
    ChangesMember(Lines(patch), '+', x);
    ChangesMember(Lines(patch), '-', x);
  }

  /** Every line contributes to at most one list, so the lists hold no more entries than the patch has lines. */
  lemma ExtractedCount(patch: string)
    ensures |Changes(Lines(patch), '+')| + |Changes(Lines(patch), '-')| <= |Lines(patch)|
    ensures |Lines(patch)| == Count(patch, '\n') + 1
  {
    ChangesShareLines(Lines(patch));
    SplitCount(patch, '\n');
  }

  /**
    Only one character is stripped: a bare "+" line yields an empty added
    line and "--x" yields the deleted line "-x", while the file headers and
    hunk markers yield nothing.
   */
  lemma ExtractExample()
    ensures var lines := ExampleLines();
      && Changes(lines, '+') == [""]
      && Changes(lines, '-') == ["-x"]
  {
    ExampleChanges('+');
    ExampleChanges('-');
  }

  function ExampleLines(): seq<string> {
    ["--- a/f", "+++ b/f", "@@ -1 +1 @@", "+", "--x", " ctx"]
  }

  /** The example, one line at a time, for either marker. */
  lemma ExampleChanges(marker: char)
    requires marker == '+' || marker == '-'
    ensures Changes(ExampleLines(), marker) == if marker == '+' then [""] else ["-x"]
  {
    var lines := ExampleLines();
    assert lines[4][..3] != "---" by { assert lines[4][2] == 'x'; }
    forall p | 0 <= p < |lines|
      ensures Changes(lines[..p + 1], marker) == Changes(lines[..p], marker) + (if IsChange(lines[p], marker) then [lines[p][1..]] else [])
    {
      assert lines[..p + 1] == lines[..p] + [lines[p]];
      ChangesSnoc(lines[..p], lines[p], marker);
    }
    assert lines[..0] == [] && lines[..6] == lines;
    assert !IsChange(lines[0], marker) && !IsChange(lines[1], marker) && !IsChange(lines[2], marker);
    assert IsChange(lines[3], marker) <==> marker == '+';
    assert IsChange(lines[4], marker) <==> marker == '-';
    assert !IsChange(lines[5], marker);
    assert Changes(lines[..3], marker) == [];
    assert lines[3][1..] == "" && lines[4][1..] == "-x";
  }
}
