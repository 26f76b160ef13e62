/**
  The Python string operations the core relies on, over `string` (= seq<char>):
  `startswith`, `endswith`, substring search, `split(sep)` for a one-character
  separator with its inverse `sep.join`, and the ASCII character classes that
  stand for the regular-expression classes `\d`, `\w` and `\s`.
 */
module Text {

  /** `s.startswith(p)` */
  predicate StartsWith(s: string, p: string) {
    |p| <= |s| && s[..|p|] == p
  }

  /** `s.endswith(p)` */
  predicate EndsWith(s: string, p: string) {
    |p| <= |s| && s[|s| - |p|..] == p
  }

  /** The literal `p` occurs in `s` at index `i`. */
  predicate StartsAt(s: string, i: nat, p: string) {
    i + |p| <= |s| && s[i..i + |p|] == p
  }

  /** `p in s`, or `re.search` of a pattern without metacharacters. */
  predicate Contains(s: string, p: string) {
    exists i | 0 <= i <= |s| - |p| :: StartsAt(s, i, p)
  }

  /** `\d`, restricted to ASCII. */
  predicate IsDigit(c: char) {
    '0' <= c <= '9'
  }

  /** `[a-zA-Z]` */
  predicate IsLetter(c: char) {
    'a' <= c <= 'z' || 'A' <= c <= 'Z'
  }

  /** `\w`, restricted to ASCII: letters, digits and the underscore. */
  predicate IsWordChar(c: char) {
    IsLetter(c) || IsDigit(c) || c == '_'
  }

  /** `\s`, restricted to ASCII: space, \t, \n, \v, \f, \r and the separators \x1c-\x1f. */
  predicate IsSpace(c: char) {
    c == ' ' || '\t' <= c <= '\r' || '\U{1C}' <= c <= '\U{1F}'
  }

  predicate AllDigits(s: string) {
    forall k | 0 <= k < |s| :: IsDigit(s[k])
  }

  /** Number of occurrences of `c` in `s`. */
  function Count(s: string, c: char): nat {
    multiset(s)[c]
  }

  /**
    Python's `s.split(sep)` for a one-character `sep`: the pieces between
    separators. There is always at least one piece; a trailing separator
    yields a trailing empty piece.
   */
  function Split(s: string, sep: char): (pieces: seq<string>)
    ensures |pieces| >= 1
    decreases |s|
  {
    if s == [] then [""]
    else if s[0] == sep then [""] + Split(s[1..], sep)
    else
      var rest := Split(s[1..], sep);
      [[s[0]] + rest[0]] + rest[1..]
  }

  /** Python's `sep.join(pieces)`. */
  function Join(pieces: seq<string>, sep: char): string
    requires |pieces| >= 1
  {
    if |pieces| == 1 then pieces[0] else pieces[0] + [sep] + Join(pieces[1..], sep)
  }

  /** `xs[-1]` */
  function Last<T>(xs: seq<T>): T
    requires |xs| >= 1
  {
    xs[|xs| - 1]
  }

  /** No piece produced by `Split` contains the separator. */
  lemma {:induction false} SplitPiecesLackSep(s: string, sep: char)
    ensures forall k | 0 <= k < |Split(s, sep)| :: sep !in Split(s, sep)[k]
    decreases |s|
  {
    if s != [] {
      SplitPiecesLackSep(s[1..], sep);
      if s[0] != sep {
        var rest := Split(s[1..], sep);
        assert sep !in rest[0];
        assert forall k | 1 <= k < |Split(s, sep)| :: Split(s, sep)[k] == rest[k];
      }
    }
  }

  /** Joining the pieces with the separator gives back the original text. */
  lemma {:induction false} JoinSplit(s: string, sep: char)
    ensures Join(Split(s, sep), sep) == s
    decreases |s|
  {
    if s != [] {
      JoinSplit(s[1..], sep);
      if s[0] == sep {
        assert Split(s, sep)[1..] == Split(s[1..], sep);
      } else {
        JoinPrepend(s[0], Split(s[1..], sep), sep);
      }
      assert s == [s[0]] + s[1..];
    }
  }

  /** Extending the first piece by one character extends the join by that character. */
  /** Joining a leading piece onto the rest. */
  lemma JoinCons(piece: string, rest: seq<string>, sep: char)
    requires |rest| >= 1
    ensures Join([piece] + rest, sep) == piece + [sep] + Join(rest, sep)
  {
    assert ([piece] + rest)[1..] == rest;
  }

  lemma JoinPrepend(c: char, rest: seq<string>, sep: char)
    requires |rest| >= 1
    ensures Join([[c] + rest[0]] + rest[1..], sep) == [c] + Join(rest, sep)
  {
    var pieces := [[c] + rest[0]] + rest[1..];
    if |rest| > 1 {
      var tail := Join(rest[1..], sep);
      assert pieces[1..] == rest[1..];
      assert Join(pieces, sep) == (([c] + rest[0]) + [sep]) + tail;
      assert Join(rest, sep) == (rest[0] + [sep]) + tail;
      AppendAssoc([c], rest[0], [sep]);
      AppendAssoc([c], rest[0] + [sep], tail);
    }
  }

  lemma AppendAssoc(a: string, b: string, c: string)
    ensures (a + b) + c == a + (b + c)
  {
  }

  /** A separator-free piece followed by the separator splits off as one piece. */
  lemma {:induction false} SplitPieceThen(p: string, t: string, sep: char)
    requires sep !in p
    ensures Split(p + [sep] + t, sep) == [p] + Split(t, sep)
    decreases |p|
  {
    if p == [] {
      assert p + [sep] + t == [sep] + t;
      assert ([sep] + t)[1..] == t;
    } else {
      SplitPieceThen(p[1..], t, sep);
      var s := p + [sep] + t;
      assert s[0] == p[0];
      assert s[1..] == p[1..] + [sep] + t;
      assert [p[0]] + p[1..] == p;
    }
  }

  /** Text without the separator splits into itself. */
  lemma {:induction false} SplitSepFree(p: string, sep: char)
    requires sep !in p
    ensures Split(p, sep) == [p]
    decreases |p|
  {
    if p != [] {
      SplitSepFree(p[1..], sep);
      assert [p[0]] + p[1..] == p;
    }
  }

  /** Splitting a join of separator-free pieces gives back the pieces. */
  lemma {:induction false} SplitJoin(pieces: seq<string>, sep: char)
    requires |pieces| >= 1
    requires forall k | 0 <= k < |pieces| :: sep !in pieces[k]
    ensures Split(Join(pieces, sep), sep) == pieces
    decreases |pieces|
  {
    if |pieces| == 1 {
      SplitSepFree(pieces[0], sep);
    } else {
      SplitJoin(pieces[1..], sep);
      SplitPieceThen(pieces[0], Join(pieces[1..], sep), sep);
      assert [pieces[0]] + pieces[1..] == pieces;
    }
  }

  /** There is exactly one more piece than there are separators. */
  lemma {:induction false} SplitCount(s: string, sep: char)
    ensures |Split(s, sep)| == Count(s, sep) + 1
    decreases |s|
  {
    if s != [] {
      SplitCount(s[1..], sep);
      assert s == [s[0]] + s[1..];
      assert multiset(s) == multiset([s[0]]) + multiset(s[1..]);
    }
  }

  /** The last piece is what follows the last separator: a suffix of the text, and the whole text when there is no separator. */
  lemma {:induction false} LastPieceIsSuffix(s: string, sep: char)
    ensures EndsWith(s, Last(Split(s, sep)))
    ensures sep !in s ==> Last(Split(s, sep)) == s
    ensures sep in s ==> |Last(Split(s, sep))| < |s| && s[|s| - |Last(Split(s, sep))| - 1] == sep
    decreases |s|
  {
    if sep !in s {
      SplitSepFree(s, sep);
    } else {
      var t := s[1..];
      assert s == [s[0]] + t;
      LastPieceOfTail(s, sep);
      LastPieceIsSuffix(t, sep);
      var last := Last(Split(t, sep));
      assert s[|s| - |last|..] == t[|t| - |last|..];
      if sep !in t {
        assert s[0] == sep && last == t;
      } else {
        assert s[|s| - |last| - 1] == t[|t| - |last| - 1];
      }
    }
  }

  /** Once the text holds a separator, its first character does not belong to the last piece. */
  lemma LastPieceOfTail(s: string, sep: char)
    requires sep in s
    ensures Last(Split(s, sep)) == Last(Split(s[1..], sep))
  {
    assert s == [s[0]] + s[1..];
    if s[0] != sep {
      assert sep in s[1..];
      SplitCount(s[1..], sep);
    }
  }
}
