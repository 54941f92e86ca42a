/**
  Line splitting of command output, as Python's `str.split("\n")` does it:
  the text is cut at every newline, so `n` newlines give `n + 1` segments,
  and a trailing newline (or an empty text) gives an empty last segment.
 */
module Lines {

  const Newline: char := '\n'

  /** The segments of `s` between newlines, in order (Python's `s.split("\n")`). */
  function Split(s: string): (r: seq<string>)
    ensures |r| >= 1
    ensures forall i :: 0 <= i < |r| ==> Newline !in r[i]
    ensures |r[0]| <= |s|
  {
    if |s| == 0 then [""]
    else
      var rest := Split(s[1..]);
      if s[0] == Newline then [""] + rest
      else [[s[0]] + rest[0]] + rest[1..]
  }

  /** The inverse of `Split`: the segments glued back together with newlines. */
  function Join(segments: seq<string>): (s: string)
    requires |segments| >= 1
  {
    if |segments| == 1 then segments[0]
    else segments[0] + [Newline] + Join(segments[1..])
  }

  /** Splitting loses nothing: joining the segments gives back the text. */
  lemma {:induction false} JoinSplit(s: string)
    ensures Join(Split(s)) == s
  {
    if |s| > 0 {
      var rest := Split(s[1..]);
      JoinSplit(s[1..]);
      if s[0] == Newline {
        assert Split(s) == [""] + rest;
        assert ([""] + rest)[1..] == rest;
        assert s == [s[0]] + s[1..];
      } else {
        var head := [s[0]] + rest[0];
        assert Split(s) == [head] + rest[1..];
        if |rest| == 1 {
          assert s == [s[0]] + s[1..];
        } else {
          assert ([head] + rest[1..])[1..] == rest[1..];
          assert Join(rest) == rest[0] + [Newline] + Join(rest[1..]);
          assert s == [s[0]] + s[1..];
        }
      }
    }
  }

  /** A text without newlines is a single segment. */
  lemma {:induction false} SplitNoNewline(s: string)
    requires Newline !in s
    ensures Split(s) == [s]
  {
    if |s| > 0 {
      assert Newline !in s[1..] by {
        forall i | 0 <= i < |s[1..]| ensures s[1..][i] != Newline {
          assert s[1..][i] == s[i + 1];
        }
      }
      SplitNoNewline(s[1..]);
      assert s == [s[0]] + s[1..];
    }
  }

  /** A newline-free segment followed by a newline contributes exactly one segment. */
  lemma {:induction false} SplitAfterSegment(a: string, t: string)
    requires Newline !in a
    ensures Split(a + [Newline] + t) == [a] + Split(t)
  {
    if |a| == 0 {
      assert a + [Newline] + t == [Newline] + t;
      assert ([Newline] + t)[1..] == t;
    } else {
      var s := a + [Newline] + t;
      assert s[0] == a[0];
      assert s[1..] == a[1..] + [Newline] + t;
      assert Newline !in a[1..] by {
        forall i | 0 <= i < |a[1..]| ensures a[1..][i] != Newline {
          assert a[1..][i] == a[i + 1];
        }
      }
      SplitAfterSegment(a[1..], t);
      assert [a[0]] + a[1..] == a;
    }
  }

  /** Joining newline-free segments and splitting again gives back the segments. */
  lemma {:induction false} SplitJoin(segments: seq<string>)
    requires |segments| >= 1
    requires forall i :: 0 <= i < |segments| ==> Newline !in segments[i]
    ensures Split(Join(segments)) == segments
  {
    if |segments| == 1 {
      SplitNoNewline(segments[0]);
    } else {
      SplitJoin(segments[1..]);
      SplitAfterSegment(segments[0], Join(segments[1..]));
      assert [segments[0]] + segments[1..] == segments;
    }
  }

  /** The text ends in a newline. */
  predicate EndsWithNewline(s: string)
  {
    |s| > 0 && s[|s| - 1] == Newline
  }

  /** The text holds two newlines in a row, i.e. a blank line in its middle. */
  predicate HasBlankLine(s: string)
  {
    exists i :: 0 <= i < |s| - 1 && BlankLineAt(s, i)
  }

  predicate BlankLineAt(s: string, i: int)
    requires 0 <= i < |s| - 1
  {
    s[i] == Newline && s[i + 1] == Newline
  }

  /** The first segment is empty exactly when the text is empty or opens with a newline. */
  lemma FirstSegmentEmpty(s: string)
    ensures Split(s)[0] == "" <==> |s| == 0 || s[0] == Newline
  {
  }

  /** A segment after the first is empty exactly when the text ends in a newline or has a blank line. */
  lemma {:induction false} LaterSegmentEmpty(s: string)
    ensures "" in Split(s)[1..] <==> EndsWithNewline(s) || HasBlankLine(s)
  {
    if |s| > 0 {
      var t := s[1..];
      var rest := Split(t);
      LaterSegmentEmpty(t);
      FirstSegmentEmpty(t);
      if s[0] == Newline {
        assert Split(s)[1..] == rest;
        assert "" in rest <==> rest[0] == "" || "" in rest[1..] by {
          assert rest == [rest[0]] + rest[1..];
        }
        ShiftedBlankLine(s);
        if |t| > 0 && t[0] == Newline {
          assert BlankLineAt(s, 0);
        }
      } else {
        assert Split(s)[1..] == rest[1..];
        ShiftedBlankLine(s);
      }
    }
  }

  /** Blank lines of `s` after its first character are the blank lines of `s[1..]`, shifted by one. */
  lemma ShiftedBlankLine(s: string)
    requires |s| > 0
    ensures HasBlankLine(s) <==> HasBlankLine(s[1..]) || (|s| > 1 && BlankLineAt(s, 0))
    ensures EndsWithNewline(s) <==> (|s| == 1 && s[0] == Newline) || EndsWithNewline(s[1..])
  {
    var t := s[1..];
    if HasBlankLine(s) {
      var i :| 0 <= i < |s| - 1 && BlankLineAt(s, i);
      if i > 0 {
        assert BlankLineAt(t, i - 1);
      }
    }
    if HasBlankLine(t) {
      var j :| 0 <= j < |t| - 1 && BlankLineAt(t, j);
      assert BlankLineAt(s, j + 1);
    }
  }

  /**
    Some segment is empty exactly when the text is empty, starts or ends with
    a newline, or holds a blank line.
   */
  lemma EmptySegmentIff(s: string)
    ensures "" in Split(s) <==>
      |s| == 0 || s[0] == Newline || EndsWithNewline(s) || HasBlankLine(s)
  {
    var r := Split(s);
    assert r == [r[0]] + r[1..];
    FirstSegmentEmpty(s);
    LaterSegmentEmpty(s);
  }
}
