/**
 * The controller's behaviour on typical instruction documents: where the
 * destination and the targets are found, a few edge cases of the parser,
 * and two passes over an example like the instruction text
 * "[destination]\n/tmp/out\n\n[targets]\na.txt\nb.txt\n", stated for any
 * names of that shape. A document is given by its lines, each ended by '\n'.
 */
module Samples {
  import opened Options
  import opened Sequences
  import opened Text
  import opened Paths
  import opened FileSystem
  import opened CcController

  /** The text whose lines are `lines`, each ended by '\n'. */
  function Document(lines: seq<string>): string
  {
    Join(lines, '\n') + "\n"
  }

  /** No line of a document holds a '\n' of its own. */
  predicate NoNewlines(lines: seq<string>)
  {
    forall k :: 0 <= k < |lines| ==> '\n' !in lines[k]
  }

  /** `Controller::new` on a document: the line after the first "[destination]", if any. */
  lemma NewOfDocument(lines: seq<string>)
    requires |lines| >= 1 && NoNewlines(lines)
    ensures var i := IndexOf(lines, DestinationHeader);
            New(Document(lines)) ==
              if i + 1 < |lines| then Some(Controller(Document(lines), Path(lines[i + 1]))) else None
  {
    LinesOfDocument(lines);
  }

  /** `Controller::target_list` on a document: the paths of the targets among its lines. */
  lemma TargetListOfDocument(lines: seq<string>, destination: Path)
    requires |lines| >= 1 && NoNewlines(lines)
    ensures TargetList(Controller(Document(lines), destination)) == ToPaths(TargetLines(lines))
  {
    LinesOfDocument(lines);
  }

  /** The two headers are single lines. */
  lemma HeadersAreOneLine()
    ensures '\n' !in DestinationHeader && '\n' !in TargetsHeader
  {
  }

  /**
   * A document that opens with "[destination]" has the next line as its
   * destination, whatever follows; an empty next line is the empty path.
   * In the example text that line is "/tmp/out".
   */
  lemma DestinationFirst(d: string, rest: seq<string>)
    requires '\n' !in d && NoNewlines(rest)
    ensures var lines := [DestinationHeader, d] + rest;
            New(Document(lines)) == Some(Controller(Document(lines), Path(d)))
  {
    var lines := [DestinationHeader, d] + rest;
    HeadersAreOneLine();
    assert NoNewlines(lines) by {
      assert forall k :: 2 <= k < |lines| ==> lines[k] == rest[k - 2];
    }
    LinesOfDocument(lines);
    assert lines == [] + [DestinationHeader] + ([d] + rest);
    DestinationAfterFirstHeader([], [d] + rest);
  }

  /** With "[destination]" only on the last line, `Controller::new` panics. */
  lemma DestinationHeaderOnLastLine(pre: seq<string>)
    requires DestinationHeader !in pre && NoNewlines(pre)
    ensures New(Document(pre + [DestinationHeader])) == None
  {
    var lines := pre + [DestinationHeader];
    HeadersAreOneLine();
    assert NoNewlines(lines) by {
      assert forall k :: 0 <= k < |pre| ==> lines[k] == pre[k];
    }
    LinesOfDocument(lines);
    assert lines == pre + [DestinationHeader] + [];
    DestinationAfterFirstHeader(pre, []);
  }

  /**
   * Two plain lines right after the first "[targets]" line are the targets.
   * In the example text these are a.txt and b.txt.
   */
  lemma TwoTargetsAfterHeader(pre: seq<string>, x: string, y: string)
    requires TargetsHeader !in pre
    requires IsNonEmpty(x) && IsNotSectionStart(x) && IsNonEmpty(y) && IsNotSectionStart(y)
    ensures TargetLines(pre + [TargetsHeader, x, y]) == [x, y]
  {
    assert pre + [TargetsHeader, x, y] == pre + [TargetsHeader] + [x, y];
    TargetsAfterFirstHeader(pre, [x, y]);
    PlainLinesKept(x, y);
  }

  /** Plain non-empty lines are all kept. */
  lemma PlainLinesKept(x: string, y: string)
    requires IsNonEmpty(x) && IsNotSectionStart(x) && IsNonEmpty(y) && IsNotSectionStart(y)
    ensures Filter(TakeWhile([x, y], IsNotSectionStart), IsNonEmpty) == [x, y]
  {
    assert [x, y][1..] == [y] && [y][1..] == [];
    assert TakeWhile([x, y], IsNotSectionStart) == [x, y];
  }

  /** Two lines give two paths, in order. */
  lemma TwoPaths(x: string, y: string)
    ensures ToPaths([x, y]) == [Path(x), Path(y)]
  {
    assert [x, y][1..] == [y];
  }

  /** The target list of a document whose "[targets]" line is followed by two plain lines. */
  lemma DocumentTargetList(pre: seq<string>, x: string, y: string, destination: Path)
    requires TargetsHeader !in pre && NoNewlines(pre) && '\n' !in x && '\n' !in y
    requires IsNonEmpty(x) && IsNotSectionStart(x) && IsNonEmpty(y) && IsNotSectionStart(y)
    ensures TargetList(Controller(Document(pre + [TargetsHeader, x, y]), destination)) == [Path(x), Path(y)]
  {
    var lines := pre + [TargetsHeader, x, y];
    HeadersAreOneLine();
    assert NoNewlines(lines) by {
      assert forall k :: 0 <= k < |pre| ==> lines[k] == pre[k];
    }
    TargetListOfDocument(lines, destination);
    TwoTargetsAfterHeader(pre, x, y);
    TwoPaths(x, y);
  }

  /** The header must match exactly: a line with leading blanks is no header. */
  lemma UntrimmedHeaderIsIgnored()
    ensures TargetLines([" [targets]", "a.txt"]) == []
  {
    TargetsAreFirstSection([" [targets]", "a.txt"]);
  }

  /**
   * After the header, an empty line is dropped and any line starting with
   * '[' ends the list, recognised header or not ("[foo" does too).
   */
  lemma AnyBracketEndsTargets(x: string, z: string, w: string)
    requires x != "" && IsNotSectionStart(x)
    requires |z| > 0 && z[0] == '['
    ensures TargetLines([TargetsHeader, x, "", z, w]) == [x]
  {
    assert [TargetsHeader, x, "", z, w] == [] + [TargetsHeader] + [x, "", z, w];
    TargetsAfterFirstHeader([], [x, "", z, w]);
    SectionEndsAtBracket(x, z, w);
    EmptyLineDropped(x);
  }

  /** The list stops at the first line starting with '['. */
  lemma SectionEndsAtBracket(x: string, z: string, w: string)
    requires IsNotSectionStart(x)
    requires |z| > 0 && z[0] == '['
    ensures TakeWhile([x, "", z, w], IsNotSectionStart) == [x, ""]
  {
    var section := [x, "", z, w];
    assert section[1..] == ["", z, w] && section[1..][1..] == [z, w];
    assert TakeWhile([z, w], IsNotSectionStart) == [];
  }

  /** Empty lines are no targets. */
  lemma EmptyLineDropped(x: string)
    requires x != ""
    ensures Filter([x, ""], IsNonEmpty) == [x]
  {
    assert [x, ""][1..] == [""];
    assert Filter([""], IsNonEmpty) == [];
  }

  /** On a filesystem that refuses nothing, a target whose candidate is free is copied. */
  lemma FreeCandidateStep(s: FsState, dest: Path, t: Path)
    requires s.denied == {} && s.faulty == {} && s.readOnly == {}
    requires t in s.files && Candidate(dest, t).Some?
    requires !s.Exists(Candidate(dest, t).value)
    ensures var c := Candidate(dest, t).value;
            Step(s, dest, t) == Pass(s.(files := s.files[c := s.files[t]]), Completed)
  {
  }

  /** The two candidates of distinct file names are distinct, and neither is a source. */
  lemma TwoCandidates(x: string, y: string, dest: Path)
    requires IsFileName(x) && IsFileName(y) && x != y
    requires Segments(dest) != []
    ensures Candidate(dest, Path(x)) == Some(Push(dest, Path(x)))
    ensures Candidate(dest, Path(y)) == Some(Push(dest, Path(y)))
    ensures var cx := Push(dest, Path(x));
            var cy := Push(dest, Path(y));
            cx != cy && cx != Path(x) && cx != Path(y) && cy != Path(x) && cy != Path(y)
  {
    SegmentsOfFileName(x);
    SegmentsOfFileName(y);
    var cx := Push(dest, Path(x));
    var cy := Push(dest, Path(y));
    // a candidate has two segments or more, a source one, and they end differently
    PushSegments(dest, x);
    PushSegments(dest, y);
    assert Segments(cx)[|Segments(cx)| - 1] == x;
    assert Segments(cy)[|Segments(cy)| - 1] == y;
  }

  /** On a filesystem that refuses nothing, two targets with distinct free candidates are both copied. */
  lemma TwoFreeCandidates(s: FsState, dest: Path, t: Path, u: Path)
    requires s.denied == {} && s.faulty == {} && s.readOnly == {}
    requires t in s.files && Candidate(dest, t).Some?
    requires u in s.files && Candidate(dest, u).Some?
    requires var ct := Candidate(dest, t).value;
             var cu := Candidate(dest, u).value;
             !s.Exists(ct) && !s.Exists(cu) && ct != cu && ct != u
    ensures var ct := Candidate(dest, t).value;
            var cu := Candidate(dest, u).value;
            RunTargets(s, dest, [t, u]) ==
              Pass(s.(files := s.files[ct := s.files[t]][cu := s.files[u]]), Completed)
  {
    var ct := Candidate(dest, t).value;
    var s1 := s.(files := s.files[ct := s.files[t]]);
    var cu := Candidate(dest, u).value;
    var s2 := s1.(files := s1.files[cu := s1.files[u]]);
    FreeCandidateStep(s, dest, t);
    assert u in s1.files && !s1.Exists(cu);
    FreeCandidateStep(s1, dest, u);
    assert s1.files[u] == s.files[u];
    assert [t, u][0] == t && [t, u][1..] == [u];
    assert RunTargets(s, dest, [t, u]) == RunTargets(s1, dest, [u]);
    assert [u][0] == u && [u][1..] == [];
    assert RunTargets(s1, dest, [u]) == RunTargets(s2, dest, []);
  }

  /**
   * A pass with targets first makes sure the destination directory is
   * there, creating it when nothing is at that path, then runs the loop.
   */
  lemma CopyAllCreatesDestination(s: FsState, dest: Path, targets: seq<Path>)
    requires |targets| > 0 && dest !in s.files && (dest in s.dirs || dest !in s.readOnly)
    ensures CopyAll(s, dest, targets) == RunTargets(s.(dirs := s.dirs + {dest}), dest, targets)
  {
    if dest in s.dirs {
      assert s.(dirs := s.dirs + {dest}) == s;
    }
  }

  /**
   * The first pass over the example text, for any two distinct file names
   * `x` and `y` standing in for a.txt and b.txt: on a filesystem that
   * refuses nothing and holds both sources but neither copy, where the
   * destination is a directory or nothing at all, the pass makes sure the
   * destination directory is there and copies both files into it.
   */
  lemma TwoTargetFirstPass(s: FsState, x: string, y: string, dest: Path)
    requires IsFileName(x) && IsFileName(y) && x != y && Segments(dest) != []
    requires s.denied == {} && s.faulty == {} && s.readOnly == {}
    requires Path(x) in s.files && Path(y) in s.files && dest !in s.files
    requires !s.Exists(Push(dest, Path(x))) && !s.Exists(Push(dest, Path(y)))
    ensures var cx := Push(dest, Path(x));
            var cy := Push(dest, Path(y));
            CopyAll(s, dest, [Path(x), Path(y)]) ==
              Pass(s.(dirs := s.dirs + {dest}, files := s.files[cx := s.files[Path(x)]][cy := s.files[Path(y)]]),
                   Completed)
  {
    TwoCandidates(x, y, dest);
    var s1 := s.(dirs := s.dirs + {dest});
    assert Push(dest, Path(x)) != dest && Push(dest, Path(y)) != dest by {
      assert Candidate(dest, Path(x)).value != dest && Candidate(dest, Path(y)).value != dest;
    }
    CopyAllCreatesDestination(s, dest, [Path(x), Path(y)]);
    TwoFreeCandidates(s1, dest, Path(x), Path(y));
  }

  /**
   * A second pass over what that first pass left halts because the copy
   * of `x` is already there, and changes nothing.
   */
  lemma TwoTargetPasses(s: FsState, x: string, y: string, dest: Path)
    requires IsFileName(x) && IsFileName(y) && x != y && Segments(dest) != []
    requires s.denied == {} && s.faulty == {} && s.readOnly == {}
    requires Path(x) in s.files && Path(y) in s.files && dest !in s.files
    requires !s.Exists(Push(dest, Path(x))) && !s.Exists(Push(dest, Path(y)))
    ensures var first := CopyAll(s, dest, [Path(x), Path(y)]).state;
            CopyAll(first, dest, [Path(x), Path(y)]) == Pass(first, Panicked(AlreadyExists))
  {
    var targets := [Path(x), Path(y)];
    TwoTargetFirstPass(s, x, y, dest);
    SecondPassHalts(s, dest, targets);
    TwoCandidates(x, y, dest);
    assert targets[0] in targets && Copyable(s, dest, targets[0]);
  }
}
