/**
 * Splitting a sequence at a separator and joining it back: the instruction
 * text is cut into lines at '\n' (`str::lines`), and a path into segments
 * at '/'.
 */
module Text {
  /** The pieces of `s` between occurrences of `sep`; there is always at least one. */
  function SplitOn<T(==)>(s: seq<T>, sep: T): (r: seq<seq<T>>)
    ensures |r| >= 1
    ensures forall k :: 0 <= k < |r| ==> sep !in r[k]
    decreases |s|
  {
    if s == [] then [[]]
    else
      var rest := SplitOn(s[1..], sep);
      if s[0] == sep then [[]] + rest else [[s[0]] + rest[0]] + rest[1..]
  }

  /** The pieces laid end to end with `sep` between neighbours. */
  function Join<T>(parts: seq<seq<T>>, sep: T): seq<T>
  {
    if |parts| == 0 then []
    else if |parts| == 1 then parts[0]
    else parts[0] + [sep] + Join(parts[1..], sep)
  }

  /**
   * `str::lines`: the text split at '\n', where a final '\n' does not start
   * another line (so "" has no lines and "a\n" has one).
   */
  function Lines(text: string): (r: seq<string>)
    ensures forall k :: 0 <= k < |r| ==> '\n' !in r[k]
  {
    var pieces := SplitOn(text, '\n');
    if pieces[|pieces| - 1] == "" then pieces[..|pieces| - 1] else pieces
  }

  /** A sequence without the separator is one piece. */
  lemma {:induction false} SplitNoSeparator<T>(s: seq<T>, sep: T)
    requires sep !in s
    ensures SplitOn(s, sep) == [s]
    decreases |s|
  {
    if s != [] {
      assert sep !in s[1..] by {
        assert forall k :: 0 <= k < |s| - 1 ==> s[1..][k] == s[k + 1];
      }
      SplitNoSeparator(s[1..], sep);
      assert s == [s[0]] + s[1..];
    }
  }

  /** Splitting a sequence by its first element. */
  lemma SplitCons<T>(h: T, t: seq<T>, sep: T)
    ensures var rest := SplitOn(t, sep);
            SplitOn([h] + t, sep) == if h == sep then [[]] + rest else [[h] + rest[0]] + rest[1..]
  {
    assert ([h] + t)[0] == h && ([h] + t)[1..] == t;
  }

  /** Replacing the head of a non-empty sequence commutes with appending. */
  lemma ReplaceHeadAppend<U>(x: U, f: seq<U>, g: seq<U>)
    requires |f| >= 1
    ensures (f + g)[0] == f[0]
    ensures [x] + (f + g)[1..] == [x] + f[1..] + g
  {
    assert (f + g)[1..] == f[1..] + g;
  }

  /** The inductive step of `SplitAppend`: one more element in front. */
  lemma SplitAppendCons<T>(h: T, t: seq<T>, b: seq<T>, sep: T)
    requires SplitOn(t + [sep] + b, sep) == SplitOn(t, sep) + SplitOn(b, sep)
    ensures SplitOn([h] + t + [sep] + b, sep) == SplitOn([h] + t, sep) + SplitOn(b, sep)
  {
    assert [h] + t + [sep] + b == [h] + (t + [sep] + b);
    SplitCons(h, t + [sep] + b, sep);
    SplitCons(h, t, sep);
    PrependPieces(h, SplitOn(t, sep), SplitOn(b, sep), sep);
  }

  /** The piece-level algebra of `SplitAppendCons`. */
  lemma PrependPieces<T>(h: T, front: seq<seq<T>>, back: seq<seq<T>>, sep: T)
    requires |front| >= 1
    ensures var both := front + back;
            (if h == sep then [[]] + both else [[h] + both[0]] + both[1..]) ==
            (if h == sep then [[]] + front else [[h] + front[0]] + front[1..]) + back
  {
    if h == sep {
      assert [[]] + (front + back) == [[]] + front + back;
    } else {
      ReplaceHeadAppend([h] + front[0], front, back);
    }
  }

  /** Splitting at a separator placed between two sequences splits each of them. */
  lemma {:induction false} SplitAppend<T>(a: seq<T>, b: seq<T>, sep: T)
    ensures SplitOn(a + [sep] + b, sep) == SplitOn(a, sep) + SplitOn(b, sep)
    decreases |a|
  {
    if a == [] {
      assert a + [sep] + b == [sep] + b;
      SplitCons(sep, b, sep);
    } else {
      SplitAppend(a[1..], b, sep);
      SplitAppendCons(a[0], a[1..], b, sep);
      assert a == [a[0]] + a[1..];
    }
  }

  /** Joining the pieces of a split gives the original sequence back. */
  lemma {:induction false} JoinSplit<T>(s: seq<T>, sep: T)
    ensures Join(SplitOn(s, sep), sep) == s
    decreases |s|
  {
    if s != [] {
      JoinSplit(s[1..], sep);
      var rest := SplitOn(s[1..], sep);
      assert s == [s[0]] + s[1..];
      if s[0] == sep {
        assert ([[]] + rest)[1..] == rest;
      } else if |rest| > 1 {
        var r := [[s[0]] + rest[0]] + rest[1..];
        assert r[1..] == rest[1..];
      }
    }
  }

  /** Splitting joined pieces that do not contain the separator gives the pieces back. */
  lemma {:induction false} SplitJoin<T>(parts: seq<seq<T>>, sep: T)
    requires |parts| >= 1
    requires forall k :: 0 <= k < |parts| ==> sep !in parts[k]
    ensures SplitOn(Join(parts, sep), sep) == parts
    decreases |parts|
  {
    SplitNoSeparator(parts[0], sep);
    if |parts| > 1 {
      SplitJoin(parts[1..], sep);
      SplitAppend(parts[0], Join(parts[1..], sep), sep);
      assert parts == [parts[0]] + parts[1..];
    }
  }

  /** Appending one more piece appends the separator and that piece. */
  lemma {:induction false} JoinSnoc<T>(parts: seq<seq<T>>, last: seq<T>, sep: T)
    requires |parts| >= 1
    ensures Join(parts + [last], sep) == Join(parts, sep) + [sep] + last
    decreases |parts|
  {
    if |parts| > 1 {
      JoinSnoc(parts[1..], last, sep);
      assert (parts + [last])[1..] == parts[1..] + [last];
    }
  }

  /** The last piece of a split is empty exactly when the sequence is empty or ends with the separator. */
  lemma {:induction false} SplitLastEmpty<T>(s: seq<T>, sep: T)
    ensures var r := SplitOn(s, sep);
            r[|r| - 1] == [] <==> s == [] || s[|s| - 1] == sep
    decreases |s|
  {
    if s != [] {
      var t := s[1..];
      var rest := SplitOn(t, sep);
      SplitLastEmpty(t, sep);
      if t != [] {
        assert t[|t| - 1] == s[|s| - 1];
      }
      if s[0] != sep && |rest| == 1 {
        // the rest is one piece, so it holds no separator
        JoinSplit(t, sep);
        if t != [] {
          assert t[|t| - 1] in rest[0];
        }
      }
    }
  }

  /**
   * Lines round trip: joining the lines with '\n' and putting back the
   * final '\n', when the text had one, gives the text.
   */
  lemma LinesJoin(text: string)
    ensures var ending := if text != "" && text[|text| - 1] == '\n' then "\n" else "";
            Join(Lines(text), '\n') + ending == text
  {
    var pieces := SplitOn(text, '\n');
    JoinSplit(text, '\n');
    SplitLastEmpty(text, '\n');
    if pieces[|pieces| - 1] == "" && |pieces| > 1 {
      var init := pieces[..|pieces| - 1];
      assert pieces == init + [""];
      JoinSnoc(init, "", '\n');
    }
  }

  /** Lines round trip the other way: a '\n'-terminated document has exactly its lines. */
  lemma LinesOfDocument(lines: seq<string>)
    requires |lines| >= 1
    requires forall k :: 0 <= k < |lines| ==> '\n' !in lines[k]
    ensures Lines(Join(lines, '\n') + "\n") == lines
  {
    JoinSnoc(lines, "", '\n');
    assert Join(lines, '\n') + "\n" == Join(lines + [""], '\n');
    SplitJoin(lines + [""], '\n');
    assert (lines + [""])[..|lines|] == lines;
  }
}
