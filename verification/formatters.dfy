/**
  `format_diff` of src/utils/formatters.py: a four-line header for one changed
  file, then every line of its patch, tagged as added (shown in green),
  removed (shown in red) or plain. The terminal colour escapes are modelled by
  the tags; the printed text is the patch line itself, marker included.
 */
module Formatters {
  import opened Text
  import opened Records
  import opened Patch

  datatype Tag = Added | Removed | Plain

  /** One printed line. `Rule` is the separator of '=' characters. */
  datatype DisplayLine =
    | Rule
    | FileName(name: string)
    | ChangeCounts(additions: int, deletions: int)
    | PatchLine(tag: Tag, text: string)

  /** The colour a patch line is printed in. */
  function Classify(line: string): (t: Tag)
    ensures t == Added <==> IsChange(line, '+')
    ensures t == Removed <==> IsChange(line, '-')
    ensures t == Plain <==> !IsChange(line, '+') && !IsChange(line, '-')
  {
    if StartsWith(line, "+") && !StartsWith(line, "+++") then Added
    else if StartsWith(line, "-") && !StartsWith(line, "---") then Removed
    else Plain
  }

  /** The separator, `File: {filename}`, `Changes: +{additions} -{deletions}`, the separator. */
  function Header(f: FileChange): seq<DisplayLine> {
    [Rule, FileName(f.filename), ChangeCounts(f.additions, f.deletions), Rule]
  }

  /** Each line tagged and kept verbatim, in order. */
  function Rendered(lines: seq<string>): (r: seq<DisplayLine>)
    ensures |r| == |lines|
    ensures forall k | 0 <= k < |lines| :: r[k] == PatchLine(Classify(lines[k]), lines[k])
  {
    if lines == [] then []
    else Rendered(lines[..|lines| - 1]) + [PatchLine(Classify(Last(lines)), Last(lines))]
  }

  /** `format_diff`: the header, then nothing for an empty or missing patch, else one tagged line per piece of the patch. */
  method FormatDiff(f: FileChange) returns (out: seq<DisplayLine>)
    ensures |out| >= 4 && out[..4] == Header(f)
    ensures PatchText(f) == "" ==> |out| == 4
    ensures PatchText(f) != "" ==> out[4..] == Rendered(Lines(PatchText(f)))
  {
    out := [Rule, FileName(f.filename), ChangeCounts(f.additions, f.deletions), Rule];
    var patch := PatchText(f);
    if patch == "" {
      return;
    }
    var lines := Lines(patch);
    for i := 0 to |lines|
      invariant |out| == 4 + i
      invariant out[..4] == Header(f)
      invariant forall k | 0 <= k < i :: out[4 + k] == PatchLine(Classify(lines[k]), lines[k])
    {
      var line := lines[i];
      if StartsWith(line, "+") && !StartsWith(line, "+++") {
        out := out + [PatchLine(Added, line)];
      } else if StartsWith(line, "-") && !StartsWith(line, "---") {
        out := out + [PatchLine(Removed, line)];
      } else {
        out := out + [PatchLine(Plain, line)];
      }
    }
    assert out[4..] == Rendered(lines);
  }

  /** The printed text of each displayed line (empty for the header lines). */
  function Texts(ds: seq<DisplayLine>): (r: seq<string>)
    ensures |r| == |ds|
  {
    if ds == [] then []
    else Texts(ds[..|ds| - 1]) + [if Last(ds).PatchLine? then Last(ds).text else ""]
  }

  /** Python's `s[1:]`, which is empty for the empty string. */
  function DropFirst(s: string): string {
    if s == [] then [] else s[1..]
  }

  /** The texts of the lines carrying tag `tag`, each without its first character. */
  function TaggedTexts(ds: seq<DisplayLine>, tag: Tag): seq<string> {
    if ds == [] then []
    else
      var d := Last(ds);
      TaggedTexts(ds[..|ds| - 1], tag) + (if d.PatchLine? && d.tag == tag then [DropFirst(d.text)] else [])
  }

  /** Nothing of the patch is lost: joining the printed patch lines with line feeds gives back the patch. */
  lemma {:induction false} RenderedRestoresPatch(patch: string)
    ensures Join(Texts(Rendered(Lines(patch))), '\n') == patch
  {
    var lines := Lines(patch);
    var texts := Texts(Rendered(lines));
    forall k | 0 <= k < |lines|
      ensures texts[k] == lines[k]
    {
      TextsAt(Rendered(lines), k);
    }
    assert texts == lines;
    JoinSplit(patch, '\n');
  }

  /** The text at position `k` is the text of the `k`-th displayed line. */
  lemma {:induction false} TextsAt(ds: seq<DisplayLine>, k: nat)
    requires k < |ds|
    ensures Texts(ds)[k] == (if ds[k].PatchLine? then ds[k].text else "")
    decreases |ds|
  {
    if k < |ds| - 1 {
      TextsAt(ds[..|ds| - 1], k);
    }
  }

  /**
    The formatter and the change extractor of pull-request.py agree: stripping
    the marker from the lines tagged added (removed) gives exactly the
    extractor's added (deleted) lines, in the same order.
   */
  lemma {:induction false} AgreesWithExtractor(lines: seq<string>)
    ensures TaggedTexts(Rendered(lines), Added) == Changes(lines, '+')
    ensures TaggedTexts(Rendered(lines), Removed) == Changes(lines, '-')
    decreases |lines|
  {
    if lines != [] {
      var init := lines[..|lines| - 1];
      AgreesWithExtractor(init);
      assert Rendered(lines)[..|lines| - 1] == Rendered(init);
    }
  }

  /** The displayed output of a file with patch "+a\n-b\n c". */
  lemma FormatExample()
    ensures Rendered(Lines("+a\n-b\n c")) == [PatchLine(Added, "+a"), PatchLine(Removed, "-b"), PatchLine(Plain, " c")]
  {
    ExampleLines();
    var r := Rendered(["+a", "-b", " c"]);
    assert Classify("+a") == Added && Classify("-b") == Removed && Classify(" c") == Plain;
    assert r[0] == PatchLine(Added, "+a") && r[1] == PatchLine(Removed, "-b") && r[2] == PatchLine(Plain, " c");
  }

  lemma ExampleLines()
    ensures Lines("+a\n-b\n c") == ["+a", "-b", " c"]
  {
    SplitSepFree(" c", '\n');
    assert "-b\n c" == "-b" + "\n" + " c";
    SplitPieceThen("-b", " c", '\n');
    assert "+a\n-b\n c" == "+a" + "\n" + "-b\n c";
    SplitPieceThen("+a", "-b\n c", '\n');
  }
}
