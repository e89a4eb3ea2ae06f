/** Grouping consecutive lines into segments: a segment starts at every
    line that passes a start test, and the lines before the first such
    line form a segment of their own. */
module Groups {
  import opened Py

  /** The segments of `lines` for the start test `isStart`. */
  function Segments(isStart: string -> bool, lines: seq<string>): seq<seq<string>>
    decreases |lines|
  {
    if lines == [] then []
    else
      var segs := Segments(isStart, lines[..|lines| - 1]);
      var s := lines[|lines| - 1];
      if isStart(s) || segs == [] then segs + [[s]]
      else segs[..|segs| - 1] + [segs[|segs| - 1] + [s]]
  }

  /** One more line: it opens a segment or joins the last one. */
  lemma {:induction false} SegmentsSnoc(isStart: string -> bool, init: seq<string>, s: string)
    ensures Segments(isStart, init + [s]) ==
              var segs := Segments(isStart, init);
              if isStart(s) || segs == [] then segs + [[s]]
              else segs[..|segs| - 1] + [segs[|segs| - 1] + [s]]
  {
    assert (init + [s])[..|init|] == init;
  }

  /** The segments give the lines back in order, and there is one as soon
      as there is a line. */
  lemma {:induction false} SegmentsConcat(isStart: string -> bool, lines: seq<string>)
    ensures Concat(Segments(isStart, lines)) == lines
    ensures Segments(isStart, lines) == [] <==> lines == []
    decreases |lines|
  {
    if lines != [] {
      var init, s := lines[..|lines| - 1], lines[|lines| - 1];
      assert lines == init + [s];
      SegmentsConcat(isStart, init);
      SegmentsSnoc(isStart, init, s);
      var segs := Segments(isStart, init);
      if isStart(s) || segs == [] {
        ConcatSnoc(segs, [s]);
      } else {
        var n := |segs| - 1;
        assert segs == segs[..n] + [segs[n]];
        ConcatSnoc(segs[..n], segs[n]);
        ConcatSnoc(segs[..n], segs[n] + [s]);
      }
    }
  }

  /** A segment: not empty, and no line but the first passes the start test. */
  predicate Segment(isStart: string -> bool, seg: seq<string>) {
    seg != [] && forall j :: 0 < j < |seg| ==> !isStart(seg[j])
  }

  /** Every segment is one, and every segment but the first starts with a
      line that passes the start test. */
  predicate Shaped(isStart: string -> bool, segs: seq<seq<string>>) {
    (forall k :: 0 <= k < |segs| ==> Segment(isStart, segs[k])) &&
    (forall k :: 0 < k < |segs| ==> segs[k] != [] && isStart(segs[k][0]))
  }

  lemma {:induction false} ShapedOpen(isStart: string -> bool, segs: seq<seq<string>>, s: string)
    requires Shaped(isStart, segs) && (isStart(s) || segs == [])
    ensures Shaped(isStart, segs + [[s]])
  {
  }

  lemma {:induction false} ShapedJoin(isStart: string -> bool, segs: seq<seq<string>>, s: string)
    requires Shaped(isStart, segs) && segs != [] && !isStart(s)
    ensures Shaped(isStart, segs[..|segs| - 1] + [segs[|segs| - 1] + [s]])
  {
    var n := |segs| - 1;
    var last := segs[n] + [s];
    assert Segment(isStart, last) by {
      forall j | 0 < j < |last| ensures !isStart(last[j]) {
        if j < |segs[n]| {
          assert last[j] == segs[n][j];
        }
      }
    }
    var r := segs[..n] + [last];
    forall k | 0 <= k < |r| ensures Segment(isStart, r[k]) && (k > 0 ==> isStart(r[k][0])) {
      if k < n {
        assert r[k] == segs[k];
      } else {
        assert r[k] == last;
        assert k > 0 ==> last[0] == segs[n][0];
      }
    }
  }

  /** The segments of any lines have that shape. */
  lemma {:induction false} SegmentsShape(isStart: string -> bool, lines: seq<string>)
    ensures Shaped(isStart, Segments(isStart, lines))
    decreases |lines|
  {
    if lines != [] {
      var init, s := lines[..|lines| - 1], lines[|lines| - 1];
      assert lines == init + [s];
      SegmentsShape(isStart, init);
      SegmentsSnoc(isStart, init, s);
      var segs := Segments(isStart, init);
      if isStart(s) || segs == [] {
        ShapedOpen(isStart, segs, s);
      } else {
        ShapedJoin(isStart, segs, s);
      }
    }
  }
}
