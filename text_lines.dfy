/** Python's `'\n'.join(lines)` and its inverse `s.split('\n')`. */
module TextLines {

  /** `'\n'.join(lines)`: one newline between consecutive lines, none after
      the last, and the empty string for no lines. */
  function JoinLines(lines: seq<string>): string {
    if |lines| == 0 then ""
    else if |lines| == 1 then lines[0]
    else lines[0] + "\n" + JoinLines(lines[1..])
  }

  /** `s.split('\n')`: the pieces between newlines; always at least one. */
  function SplitLines(s: string): (pieces: seq<string>)
    ensures |pieces| >= 1
    ensures forall k :: 0 <= k < |pieces| ==> '\n' !in pieces[k]
  {
    if s == [] then [[]]
    else
      var rest := SplitLines(s[1..]);
      if s[0] == '\n' then [[]] + rest
      else [[s[0]] + rest[0]] + rest[1..]
  }

  /** The number of newlines in `s`. */
  function NewlineCount(s: string): nat {
    if s == [] then 0 else (if s[0] == '\n' then 1 else 0) + NewlineCount(s[1..])
  }

  lemma {:induction false} NewlineCountAppend(a: string, b: string)
    ensures NewlineCount(a + b) == NewlineCount(a) + NewlineCount(b)
    decreases |a|
  {
    if a == [] {
      assert a + b == b;
    } else {
      assert (a + b)[1..] == a[1..] + b;
      NewlineCountAppend(a[1..], b);
    }
  }

  lemma {:induction false} NewlineCountNone(s: string)
    requires '\n' !in s
    ensures NewlineCount(s) == 0
    decreases |s|
  {
    if s != [] {
      NewlineCountNone(s[1..]);
    }
  }

  /** Splitting a string without newlines gives that string alone. */
  lemma {:induction false} SplitNoNewline(s: string)
    requires '\n' !in s
    ensures SplitLines(s) == [s]
    decreases |s|
  {
    if s != [] {
      SplitNoNewline(s[1..]);
      assert [s[0]] + s[1..] == s;
    }
  }

  /** A newline ends the first piece. */
  lemma {:induction false} SplitAtNewline(a: string, b: string)
    requires '\n' !in a
    ensures SplitLines(a + "\n" + b) == [a] + SplitLines(b)
    decreases |a|
  {
    var s := a + "\n" + b;
    if a == [] {
      assert s[1..] == b;
    } else {
      assert s[1..] == a[1..] + "\n" + b;
      SplitAtNewline(a[1..], b);
      assert [a[0]] + a[1..] == a;
    }
  }

  /** The round trip: splitting the joined text on newlines gives back the
      lines, provided there is at least one line and none holds a newline. */
  lemma {:induction false} SplitJoin(lines: seq<string>)
    requires |lines| > 0
    requires forall k :: 0 <= k < |lines| ==> '\n' !in lines[k]
    ensures SplitLines(JoinLines(lines)) == lines
    decreases |lines|
  {
    if |lines| == 1 {
      SplitNoNewline(lines[0]);
    } else {
      SplitAtNewline(lines[0], JoinLines(lines[1..]));
      SplitJoin(lines[1..]);
    }
  }

  /** Appending a line to a nonempty list appends a newline and the line to
      the text: a newline separates each line from the next. */
  lemma {:induction false} JoinLinesAppend(lines: seq<string>, l: string)
    requires |lines| > 0
    ensures JoinLines(lines + [l]) == JoinLines(lines) + "\n" + l
    decreases |lines|
  {
    var all := lines + [l];
    assert all[0] == lines[0] && all[1..] == lines[1..] + [l];
    if |lines| > 1 {
      JoinLinesAppend(lines[1..], l);
      calc {
        JoinLines(all);
        lines[0] + "\n" + JoinLines(lines[1..] + [l]);
        lines[0] + "\n" + (JoinLines(lines[1..]) + "\n" + l);
        (lines[0] + "\n" + JoinLines(lines[1..])) + "\n" + l;
      }
    } else {
      assert all[1..] == [l];
    }
  }

  /** Joining puts exactly one newline between consecutive lines and none
      elsewhere, and the text ends with the last line (so there is no trailing
      newline after a nonempty last line). */
  lemma {:induction false} JoinLinesLayout(lines: seq<string>)
    requires forall k :: 0 <= k < |lines| ==> '\n' !in lines[k]
    ensures NewlineCount(JoinLines(lines)) == if |lines| == 0 then 0 else |lines| - 1
    ensures |lines| > 0 ==> var t := JoinLines(lines); var last := lines[|lines| - 1];
      |last| <= |t| && t[|t| - |last|..] == last
    decreases |lines|
  {
    if |lines| == 1 {
      NewlineCountNone(lines[0]);
    } else if |lines| > 1 {
      JoinLinesLayout(lines[1..]);
      var rest := JoinLines(lines[1..]);
      NewlineCountAppend(lines[0] + "\n", rest);
      NewlineCountAppend(lines[0], "\n");
      NewlineCountNone(lines[0]);
      var t := lines[0] + "\n" + rest;
      var last := lines[|lines| - 1];
      assert t[|t| - |last|..] == rest[|rest| - |last|..];
    }
  }

  /** Joining yields the empty string only when every line is empty and there
      is at most one of them. */
  lemma {:induction false} JoinLinesEmpty(lines: seq<string>)
    ensures JoinLines(lines) == "" <==> |lines| == 0 || (|lines| == 1 && lines[0] == "")
    decreases |lines|
  {
  }
}
