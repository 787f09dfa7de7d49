/**
  JavaScript's `String.prototype.split` with a one-character separator, and
  its inverse `Array.prototype.join`.
 */
module Text {

  /**
    `s.split(sep)`: the maximal runs of `s` between separators, in order.
    The empty string splits into one empty piece, and a leading or trailing
    separator yields an empty first or last piece.
   */
  function SplitOn(s: string, sep: char): (parts: seq<string>)
    ensures |parts| >= 1
    ensures forall i :: 0 <= i < |parts| ==> sep !in parts[i]
    decreases |s|
  {
    if s == [] then [""]
    else
      var rest := SplitOn(s[1..], sep);
      if s[0] == sep then [""] + rest
      else [[s[0]] + rest[0]] + rest[1..]
  }

  /** `parts.join(sep)`. */
  function Join(parts: seq<string>, sep: char): string
    requires |parts| >= 1
    decreases |parts|
  {
    if |parts| == 1 then parts[0]
    else parts[0] + [sep] + Join(parts[1..], sep)
  }

  /** Joining the pieces of a split with the same separator gives back the string. */
  lemma {:induction false} JoinSplit(s: string, sep: char)
    ensures Join(SplitOn(s, sep), sep) == s
    decreases |s|
  {
    if s != [] {
      var rest := SplitOn(s[1..], sep);
      JoinSplit(s[1..], sep);
      if s[0] == sep {
        assert ([""] + rest)[1..] == rest;
      } else {
        var parts := [[s[0]] + rest[0]] + rest[1..];
        if |rest| == 1 {
          assert rest[0] == s[1..];
          assert [s[0]] + s[1..] == s;
          assert parts == [s];
        } else {
          assert parts[1..] == rest[1..];
          assert Join(rest, sep) == rest[0] + [sep] + Join(rest[1..], sep);
        }
      }
    }
  }

  /** A string without the separator is one piece. */
  lemma {:induction false} SplitWithoutSeparator(s: string, sep: char)
    requires sep !in s
    ensures SplitOn(s, sep) == [s]
    decreases |s|
  {
    if s != [] {
      SplitWithoutSeparator(s[1..], sep);
      assert [s[0]] + s[1..] == s;
    }
  }

  /** Splitting at a separator splits the two sides independently. */
  lemma {:induction false} SplitAtSeparator(p: string, sep: char, q: string)
    ensures SplitOn(p + [sep] + q, sep) == SplitOn(p, sep) + SplitOn(q, sep)
    decreases |p|
  {
    var s := p + [sep] + q;
    if p == [] {
      assert s[1..] == q;
    } else {
      assert s[1..] == p[1..] + [sep] + q;
      SplitAtSeparator(p[1..], sep, q);
    }
  }

  /**
    The first piece is the prefix of `s` before its first separator:
    it is a prefix, holds no separator, and is either all of `s` or
    followed by a separator.
   */
  lemma {:induction false} FirstPieceIsPrefixBeforeSeparator(s: string, sep: char)
    ensures var first := SplitOn(s, sep)[0];
      && |first| <= |s|
      && first == s[..|first|]
      && sep !in first
      && (|first| == |s| || s[|first|] == sep)
    decreases |s|
  {
    if s != [] && s[0] != sep {
      FirstPieceIsPrefixBeforeSeparator(s[1..], sep);
      var tail := SplitOn(s[1..], sep)[0];
      assert SplitOn(s, sep)[0] == [s[0]] + tail;
      assert s[..1 + |tail|] == [s[0]] + s[1..][..|tail|];
    }
  }
}
