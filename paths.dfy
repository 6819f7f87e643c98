/**
 * Unix paths as the controller uses them: `PathBuf::from` a target line,
 * `PathBuf::push` of a base name onto the destination directory, and
 * `Path::file_name` of a target.
 */
module Paths {
  import opened Options
  import opened Sequences
  import opened Text

  /** A path is its text; `PathBuf::from(&str)` keeps the text unchanged. */
  datatype Path = Path(text: string)

  /** A segment that names something: not empty (doubled or trailing '/') and not ".". */
  predicate IsNamingSegment(seg: string)
  {
    seg != "" && seg != "."
  }

  /**
   * The names along a path, first to last: the text split at '/', with the
   * empty and "." segments dropped ("a//b/./c/" has three).
   */
  function Segments(p: Path): (r: seq<string>)
    ensures forall k :: 0 <= k < |r| ==> IsNamingSegment(r[k]) && '/' !in r[k]
  {
    Filter(SplitOn(p.text, '/'), IsNamingSegment)
  }

  /** What `file_name` can return: one non-empty segment that is neither "." nor "..". */
  predicate IsFileName(n: string)
  {
    n != "" && n != "." && n != ".." && '/' !in n
  }

  /**
   * `Path::file_name`: the last segment, or None when the path has no
   * segment ("", "/") or ends in "..".
   */
  function FileName(p: Path): (r: Option<string>)
    ensures r.Some? ==> IsFileName(r.value)
    ensures r.Some? <==> Segments(p) != [] && Segments(p)[|Segments(p)| - 1] != ".."
    ensures r.Some? ==> r.value == Segments(p)[|Segments(p)| - 1]
  {
    var segs := Segments(p);
    if segs == [] || segs[|segs| - 1] == ".." then None else Some(segs[|segs| - 1])
  }

  /**
   * `PathBuf::push`: an absolute `p` replaces the base; otherwise `p` is
   * appended, with a '/' in between unless the base is empty or already
   * ends with one.
   */
  function Push(base: Path, p: Path): (r: Path)
    ensures |p.text| > 0 && p.text[0] == '/' ==> r == p
    // relative: the base, at most one '/', then `p`
    ensures !(|p.text| > 0 && p.text[0] == '/') ==>
              var n := |base.text| + |p.text|;
              && n <= |r.text| <= n + 1
              && r.text[..|base.text|] == base.text
              && r.text[|r.text| - |p.text|..] == p.text
              && (|r.text| == n + 1 <==> base.text != "" && base.text[|base.text| - 1] != '/')
              && (|r.text| == n + 1 ==> r.text[|base.text|] == '/')
  {
    if |p.text| > 0 && p.text[0] == '/' then p
    else if base.text == "" || base.text[|base.text| - 1] == '/' then Path(base.text + p.text)
    else Path(base.text + "/" + p.text)
  }

  /** Segments of two paths joined by a '/' are the segments of each. */
  lemma SegmentsAppend(a: string, b: string)
    ensures Segments(Path(a + ['/'] + b)) == Segments(Path(a)) + Segments(Path(b))
  {
    SplitAppend(a, b, '/');
    FilterAppend(SplitOn(a, '/'), SplitOn(b, '/'), IsNamingSegment);
  }

  /** A file name is a path of one segment. */
  lemma SegmentsOfFileName(n: string)
    requires IsFileName(n)
    ensures Segments(Path(n)) == [n]
  {
    SplitNoSeparator(n, '/');
  }

  /** The empty path has no segments. */
  lemma SegmentsOfEmpty()
    ensures Segments(Path("")) == []
  {
    assert SplitOn("", '/') == [""];
  }

  /** Pushing a file name adds it as one more segment after the base's. */
  lemma PushSegments(base: Path, n: string)
    requires IsFileName(n)
    ensures Segments(Push(base, Path(n))) == Segments(base) + [n]
  {
    var b := base.text;
    var pushed := Push(base, Path(n));
    SegmentsOfFileName(n);
    if b == "" {
      assert pushed == Path(n);
      SegmentsOfEmpty();
    } else if b[|b| - 1] == '/' {
      var front := b[..|b| - 1];
      assert b == front + ['/'] + "";
      assert pushed.text == front + ['/'] + n;
      SegmentsAppend(front, "");
      SegmentsAppend(front, n);
      SegmentsOfEmpty();
    } else {
      assert pushed.text == b + ['/'] + n;
      SegmentsAppend(b, n);
    }
  }

  /** The file name of `base` pushed with a file name is that file name. */
  lemma FileNameOfPush(base: Path, n: string)
    requires IsFileName(n)
    ensures FileName(Push(base, Path(n))) == Some(n)
  {
    PushSegments(base, n);
  }

  /** A pushed path is never the base itself: it is strictly longer. */
  lemma PushLonger(base: Path, n: string)
    requires IsFileName(n)
    ensures |Push(base, Path(n)).text| > |base.text|
  {
  }
}
