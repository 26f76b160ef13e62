/**
  Line conventions of a unified-diff patch shared by the change extractor and
  the diff formatter: a line is a change with marker `c` when it starts with
  `c` but not with the three-character file header `ccc`.
 */
module Patch {
  import opened Text

  /** `line.startswith(c) and not line.startswith(ccc)` for the marker `c`. */
  predicate IsChange(line: string, marker: char) {
    StartsWith(line, [marker]) && !StartsWith(line, [marker, marker, marker])
  }

  /** `line.startswith(('@@', 'diff', 'index', '---', '+++'))` */
  predicate IsMetadata(line: string) {
    StartsWith(line, "@@") || StartsWith(line, "diff") || StartsWith(line, "index")
    || StartsWith(line, "---") || StartsWith(line, "+++")
  }

  /** The lines of a patch, `patch.split('\n')`. */
  function Lines(patch: string): seq<string> {
    Split(patch, '\n')
  }

  /**
    The change lines with marker `marker`, in order, each with its first
    character removed (`line[1:]`).
   */
  function Changes(lines: seq<string>, marker: char): (r: seq<string>)
    ensures |r| <= |lines|
  {
    if lines == [] then []
    else
      var line := Last(lines);
      Changes(lines[..|lines| - 1], marker) + (if IsChange(line, marker) then [line[1..]] else [])
  }

  /** Extending the lines by one extends the changes by that line's contribution. */
  lemma ChangesSnoc(lines: seq<string>, line: string, marker: char)
    ensures Changes(lines + [line], marker)
      == Changes(lines, marker) + (if IsChange(line, marker) then [line[1..]] else [])
  {
    assert (lines + [line])[..|lines|] == lines;
  }

  /** The extraction distributes over concatenation of line sequences. */
  lemma {:induction false} ChangesAppend(a: seq<string>, b: seq<string>, marker: char)
    ensures Changes(a + b, marker) == Changes(a, marker) + Changes(b, marker)
    decreases |b|
  {
    if b != [] {
      var b', last := b[..|b| - 1], Last(b);
      ChangesAppend(a, b', marker);
      assert a + b == (a + b') + [last];
      assert b == b' + [last];
      ChangesSnoc(a + b', last, marker);
      ChangesSnoc(b', last, marker);
      var tail := if IsChange(last, marker) then [last[1..]] else [];
      calc {
        Changes(a + b, marker);
        Changes(a + b', marker) + tail;
        (Changes(a, marker) + Changes(b', marker)) + tail;
        Changes(a, marker) + (Changes(b', marker) + tail);
        Changes(a, marker) + Changes(b, marker);
      }
    } else {
      assert a + b == a;
    }
  }

  /**
    A text is among the extracted changes exactly when some line is a change
    with this marker and reads that text after its marker.
   */
  lemma {:induction false} ChangesMember(lines: seq<string>, marker: char, x: string)
    ensures x in Changes(lines, marker)
      <==> exists k | 0 <= k < |lines| :: IsChange(lines[k], marker) && lines[k][1..] == x
    decreases |lines|
  {
    if lines != [] {
      var init := lines[..|lines| - 1];
      ChangesMember(init, marker, x);
      assert forall k | 0 <= k < |init| :: init[k] == lines[k];
    }
  }

  /** No line carries both markers, so the two extractions together use each line at most once. */
  lemma {:induction false} ChangesShareLines(lines: seq<string>)
    ensures |Changes(lines, '+')| + |Changes(lines, '-')| <= |lines|
    decreases |lines|
  {
    if lines != [] {
      ChangesShareLines(lines[..|lines| - 1]);
    }
  }

  /** A metadata line is a change for neither marker. */
  lemma MetadataIsNoChange(line: string)
    requires IsMetadata(line)
    ensures !IsChange(line, '+') && !IsChange(line, '-')
  {
    if StartsWith(line, "+") {
      assert line[0] == '+';
    }
    if StartsWith(line, "-") {
      assert line[0] == '-';
    }
  }
}
