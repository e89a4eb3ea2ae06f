/** `re.finditer` for a pattern given by where a match can start and where
    the match starting there ends: the search resumes at the end of each
    match, or one position further after an empty match. */
module Scan {
  import opened Py

  /** Where the search resumes after a match at `p`. */
  function Resume(end: (string, nat) -> nat, s: string, p: nat): (q: nat)
    ensures p < q
  {
    if end(s, p) > p then end(s, p) else p + 1
  }

  /** The starts of the matches found from position `i` on, left to right. */
  function MatchesFrom(at: (string, nat) -> bool, end: (string, nat) -> nat, s: string, i: nat): seq<nat>
    decreases |s| - i
  {
    if i >= |s| then []
    else if at(s, i) then [i] + MatchesFrom(at, end, s, Resume(end, s, i))
    else MatchesFrom(at, end, s, i + 1)
  }

  /** Every start found is a match inside the text, and the matches come in
      order without overlapping. */
  lemma {:induction false} MatchesSound(at: (string, nat) -> bool, end: (string, nat) -> nat, s: string, i: nat)
    ensures forall k :: 0 <= k < |MatchesFrom(at, end, s, i)| ==>
              i <= MatchesFrom(at, end, s, i)[k] < |s| && at(s, MatchesFrom(at, end, s, i)[k])
    ensures forall k :: 0 <= k < |MatchesFrom(at, end, s, i)| - 1 ==>
              Resume(end, s, MatchesFrom(at, end, s, i)[k]) <= MatchesFrom(at, end, s, i)[k + 1]
    decreases |s| - i
  {
    if i < |s| {
      if at(s, i) {
        MatchesSound(at, end, s, Resume(end, s, i));
      } else {
        MatchesSound(at, end, s, i + 1);
      }
    }
  }

  /** No match is missed before the first one found, and there is none at
      all when nothing is found. */
  lemma {:induction false} MatchesFirst(at: (string, nat) -> bool, end: (string, nat) -> nat, s: string, i: nat)
    ensures MatchesFrom(at, end, s, i) == [] ==> forall q :: i <= q < |s| ==> !at(s, q)
    ensures MatchesFrom(at, end, s, i) != [] ==> forall q :: i <= q < MatchesFrom(at, end, s, i)[0] ==> !at(s, q)
    decreases |s| - i
  {
    if i < |s| && !at(s, i) {
      MatchesFirst(at, end, s, i + 1);
    }
  }

  /** No match starts at or after the point where the search resumes after
      the last match found. */
  lemma {:induction false} MatchesLast(at: (string, nat) -> bool, end: (string, nat) -> nat, s: string, i: nat)
    requires MatchesFrom(at, end, s, i) != []
    ensures forall q :: Resume(end, s, Last(MatchesFrom(at, end, s, i))) <= q < |s| ==> !at(s, q)
    decreases |s| - i
  {
    if at(s, i) {
      var r := Resume(end, s, i);
      if MatchesFrom(at, end, s, r) == [] {
        MatchesFirst(at, end, s, r);
      } else {
        MatchesLast(at, end, s, r);
      }
    } else {
      MatchesLast(at, end, s, i + 1);
    }
  }

  /** The starts found are increasing positions inside the text. */
  lemma {:induction false} MatchesAscending(at: (string, nat) -> bool, end: (string, nat) -> nat, s: string)
    ensures Ascending(s, MatchesFrom(at, end, s, 0))
  {
    var m := MatchesFrom(at, end, s, 0);
    MatchesSound(at, end, s, 0);
    forall k | 0 <= k < |m| - 1 ensures m[k] < m[k + 1] {
      assert m[k] < Resume(end, s, m[k]);
    }
  }

  /** The first position from `i` on that is not whitespace. */
  function SkipSpace(s: string, i: nat): (j: nat)
    ensures i <= j
    ensures i <= |s| ==> j <= |s| && (j < |s| ==> !IsSpace(s[j]))
    ensures forall k :: i <= k < j ==> k < |s| && IsSpace(s[k])
  {
    if i >= |s| then i else i + RunLength(s[i..], IsSpace)
  }

  // ---------------------------------------------------------------------
  // Cutting a text at the match starts

  /** Increasing positions inside the text. */
  predicate Ascending(s: string, starts: seq<nat>) {
    (forall k :: 0 <= k < |starts| ==> starts[k] < |s|) &&
    (forall k :: 0 <= k < |starts| - 1 ==> starts[k] < starts[k + 1])
  }

  /** Where the piece of start `i` ends: the next start, or the end. */
  function PieceEnd(s: string, starts: seq<nat>, i: nat): int {
    if i + 1 < |starts| then starts[i + 1] else |s|
  }

  /** `s[start:next_start]` for every start. */
  function Pieces(s: string, starts: seq<nat>): (r: seq<string>)
    ensures |r| == |starts|
  {
    seq(|starts|, i requires 0 <= i < |starts| => Slice(s, starts[i], PieceEnd(s, starts, i)))
  }

  /** Each piece runs from its start to the next one. */
  lemma {:induction false} PieceIs(s: string, starts: seq<nat>, i: nat)
    requires Ascending(s, starts) && i < |starts|
    ensures starts[i] < PieceEnd(s, starts, i) <= |s|
    ensures Pieces(s, starts)[i] == s[starts[i]..PieceEnd(s, starts, i)]
  {
  }

  lemma {:induction false} PiecesPrefix(s: string, starts: seq<nat>, k: nat)
    requires Ascending(s, starts) && 0 < k <= |starts|
    ensures starts[0] <= PieceEnd(s, starts, k - 1) <= |s| &&
            Concat(Pieces(s, starts)[..k]) == s[starts[0]..PieceEnd(s, starts, k - 1)]
    decreases k
  {
    PieceIs(s, starts, k - 1);
    if k == 1 {
      var pieces := Pieces(s, starts);
      assert pieces[..1] == [pieces[0]];
      assert Concat(pieces[..1]) == Concat([]) + pieces[0];
    } else {
      PiecesPrefix(s, starts, k - 1);
      PiecesStep(s, starts, k);
    }
  }

  lemma {:induction false} PiecesStep(s: string, starts: seq<nat>, k: nat)
    requires Ascending(s, starts) && 1 < k <= |starts|
    requires starts[0] <= PieceEnd(s, starts, k - 2) <= |s| &&
             Concat(Pieces(s, starts)[..k - 1]) == s[starts[0]..PieceEnd(s, starts, k - 2)]
    ensures starts[0] <= PieceEnd(s, starts, k - 1) <= |s| &&
            Concat(Pieces(s, starts)[..k]) == s[starts[0]..PieceEnd(s, starts, k - 1)]
  {
    var pieces := Pieces(s, starts);
    var a, b, c := starts[0], starts[k - 1], PieceEnd(s, starts, k - 1);
    PieceIs(s, starts, k - 1);
    assert PieceEnd(s, starts, k - 2) == b;
    TakeSnoc(pieces, k);
    ConcatSnoc(pieces[..k - 1], pieces[k - 1]);
    SliceJoin(s, a, b, c);
  }

  lemma {:induction false} TakeSnoc<T>(xs: seq<T>, k: nat)
    requires 0 < k <= |xs|
    ensures xs[..k] == xs[..k - 1] + [xs[k - 1]]
  {
  }

  lemma {:induction false} SliceJoin(s: string, a: nat, b: nat, c: nat)
    requires a <= b <= c <= |s|
    ensures s[a..c] == s[a..b] + s[b..c]
  {
  }

  /** The pieces give back the text from the first start on. */
  lemma {:induction false} PiecesConcat(s: string, starts: seq<nat>)
    requires Ascending(s, starts) && starts != []
    ensures starts[0] < |s| && Concat(Pieces(s, starts)) == s[starts[0]..]
  {
    PiecesPrefix(s, starts, |starts|);
    assert Pieces(s, starts)[..|starts|] == Pieces(s, starts);
  }

  // ---------------------------------------------------------------------
  // re.sub

  /** `re.sub` from position `i` on: a match at `p` is replaced by
      `rep(s, p)` and the search resumes where it ends. */
  function SubFrom(at: (string, nat) -> bool, end: (string, nat) -> nat, rep: (string, nat) -> string,
                   s: string, i: nat): string
    decreases |s| - i
  {
    if i >= |s| then []
    else if at(s, i) then rep(s, i) + SubFrom(at, end, rep, s, Resume(end, s, i))
    else [s[i]] + SubFrom(at, end, rep, s, i + 1)
  }

  /** When each match and its replacement look the same through `keep`,
      the whole result looks the same through `keep`. */
  lemma {:induction false} SubKeeps(at: (string, nat) -> bool, end: (string, nat) -> nat, rep: (string, nat) -> string,
                                    keep: char -> bool, s: string, i: nat)
    requires i <= |s|
    requires forall p :: i <= p < |s| && at(s, p) ==>
               p < end(s, p) <= |s| && Filter(keep, rep(s, p)) == Filter(keep, s[p..end(s, p)])
    ensures Filter(keep, SubFrom(at, end, rep, s, i)) == Filter(keep, s[i..])
    decreases |s| - i
  {
    if i < |s| {
      if at(s, i) {
        SubKeeps(at, end, rep, keep, s, end(s, i));
        KeepsOverMatch(at, end, rep, keep, s, i);
      } else {
        SubKeeps(at, end, rep, keep, s, i + 1);
        KeepsOverSkip(at, end, rep, keep, s, i);
      }
    }
  }

  lemma {:induction false} KeepsOverMatch(at: (string, nat) -> bool, end: (string, nat) -> nat, rep: (string, nat) -> string,
                       keep: char -> bool, s: string, i: nat)
    requires i < |s| && at(s, i) && i < end(s, i) <= |s|
    requires Filter(keep, rep(s, i)) == Filter(keep, s[i..end(s, i)])
    requires Filter(keep, SubFrom(at, end, rep, s, end(s, i))) == Filter(keep, s[end(s, i)..])
    ensures Filter(keep, SubFrom(at, end, rep, s, i)) == Filter(keep, s[i..])
  {
    SubMatch(at, end, rep, s, i);
    FilterSplit(keep, s, i, end(s, i));
    FilterAppend(keep, rep(s, i), SubFrom(at, end, rep, s, end(s, i)));
  }

  lemma {:induction false} KeepsOverSkip(at: (string, nat) -> bool, end: (string, nat) -> nat, rep: (string, nat) -> string,
                      keep: char -> bool, s: string, i: nat)
    requires i < |s| && !at(s, i)
    requires Filter(keep, SubFrom(at, end, rep, s, i + 1)) == Filter(keep, s[i + 1..])
    ensures Filter(keep, SubFrom(at, end, rep, s, i)) == Filter(keep, s[i..])
  {
    SubSkip(at, end, rep, s, i);
    FilterSplit(keep, s, i, i + 1);
    assert s[i..i + 1] == [s[i]];
    FilterAppend(keep, [s[i]], SubFrom(at, end, rep, s, i + 1));
  }

  /** Replacements no longer than their matches give a result no longer
      than the text. */
  lemma {:induction false} SubShorter(at: (string, nat) -> bool, end: (string, nat) -> nat, rep: (string, nat) -> string,
                                      s: string, i: nat)
    requires i <= |s|
    requires forall p :: i <= p < |s| && at(s, p) ==> p < end(s, p) <= |s| && |rep(s, p)| <= end(s, p) - p
    ensures |SubFrom(at, end, rep, s, i)| <= |s| - i
    decreases |s| - i
  {
    if i < |s| {
      if at(s, i) {
        SubShorter(at, end, rep, s, end(s, i));
      } else {
        SubShorter(at, end, rep, s, i + 1);
      }
    }
  }

  /** A slice that starts before its end is its first character followed
      by the rest. */
  lemma {:induction false} SliceCons(s: string, i: nat, m: nat)
    requires i < m <= |s|
    ensures s[i..m] == [s[i]] + s[i + 1..m]
  {
  }

  lemma {:induction false} SuffixCons(s: string, i: nat)
    requires i < |s|
    ensures s[i..] == [s[i]] + s[i + 1..]
  {
  }

  /** The filtered suffix from `i` is the filtered slice up to `e` followed
      by the filtered suffix from `e`. */
  lemma {:induction false} FilterSplit(keep: char -> bool, s: string, i: nat, e: nat)
    requires i <= e <= |s|
    ensures Filter(keep, s[i..]) == Filter(keep, s[i..e]) + Filter(keep, s[e..])
  {
    assert s[i..] == s[i..e] + s[e..];
    FilterAppend(keep, s[i..e], s[e..]);
  }

  /** One step of `SubFrom` past a position where no match starts. */
  lemma {:induction false} SubSkip(at: (string, nat) -> bool, end: (string, nat) -> nat, rep: (string, nat) -> string,
                s: string, i: nat)
    requires i < |s| && !at(s, i)
    ensures MatchesFrom(at, end, s, i) == MatchesFrom(at, end, s, i + 1)
    ensures SubFrom(at, end, rep, s, i) == [s[i]] + SubFrom(at, end, rep, s, i + 1)
  {
  }

  /** One step of `SubFrom` over a match that is not empty. */
  lemma {:induction false} SubMatch(at: (string, nat) -> bool, end: (string, nat) -> nat, rep: (string, nat) -> string,
                 s: string, i: nat)
    requires i < |s| && at(s, i) && i < end(s, i)
    ensures SubFrom(at, end, rep, s, i) == rep(s, i) + SubFrom(at, end, rep, s, end(s, i))
  {
  }

  /** The text up to the first match is copied unchanged, the first match
      is replaced, and the substitution goes on where the match ends. */
  lemma {:induction false} SubFirst(at: (string, nat) -> bool, end: (string, nat) -> nat, rep: (string, nat) -> string,
                                    s: string, i: nat)
    requires i <= |s|
    ensures MatchesFrom(at, end, s, i) == [] ==> SubFrom(at, end, rep, s, i) == s[i..]
    ensures MatchesFrom(at, end, s, i) != [] ==>
              i <= MatchesFrom(at, end, s, i)[0] < |s| &&
              SubFrom(at, end, rep, s, i) ==
                s[i..MatchesFrom(at, end, s, i)[0]] + rep(s, MatchesFrom(at, end, s, i)[0]) +
                SubFrom(at, end, rep, s, Resume(end, s, MatchesFrom(at, end, s, i)[0]))
    decreases |s| - i
  {
    if i < |s| {
      if at(s, i) {
        assert MatchesFrom(at, end, s, i) == [i] + MatchesFrom(at, end, s, Resume(end, s, i));
        assert s[i..i] == [];
      } else {
        SubSkip(at, end, rep, s, i);
        SubFirst(at, end, rep, s, i + 1);
        var ms := MatchesFrom(at, end, s, i + 1);
        if ms == [] {
          SuffixCons(s, i);
        } else {
          SliceCons(s, i, ms[0]);
        }
      }
    }
  }

  /** `SubFirst` from the start of the text, for a pattern whose matches
      are not empty. */
  lemma {:induction false} SubStart(at: (string, nat) -> bool, end: (string, nat) -> nat, rep: (string, nat) -> string, s: string)
    requires forall p :: 0 <= p < |s| && at(s, p) ==> p < end(s, p)
    ensures MatchesFrom(at, end, s, 0) == [] ==> SubFrom(at, end, rep, s, 0) == s
    ensures MatchesFrom(at, end, s, 0) != [] ==>
              MatchesFrom(at, end, s, 0)[0] < |s| &&
              SubFrom(at, end, rep, s, 0) ==
                s[..MatchesFrom(at, end, s, 0)[0]] + rep(s, MatchesFrom(at, end, s, 0)[0]) +
                SubFrom(at, end, rep, s, end(s, MatchesFrom(at, end, s, 0)[0]))
  {
    SubFirst(at, end, rep, s, 0);
    assert s[0..] == s;
    if MatchesFrom(at, end, s, 0) != [] {
      var m := MatchesFrom(at, end, s, 0)[0];
      MatchesSound(at, end, s, 0);
      assert Resume(end, s, m) == end(s, m);
      assert s[0..m] == s[..m];
    }
  }

  /** The replacement of a pattern that is deleted. */
  function NoText(s: string, p: nat): string {
    ""
  }

  /** `SubStart` for a pattern that is deleted: the text before the first
      match is kept and the deletion goes on where that match ends. */
  lemma {:induction false} DeleteStart(at: (string, nat) -> bool, end: (string, nat) -> nat, s: string)
    requires forall p :: 0 <= p < |s| && at(s, p) ==> p < end(s, p)
    ensures MatchesFrom(at, end, s, 0) == [] ==> SubFrom(at, end, NoText, s, 0) == s
    ensures MatchesFrom(at, end, s, 0) != [] ==>
              MatchesFrom(at, end, s, 0)[0] < |s| &&
              SubFrom(at, end, NoText, s, 0) ==
                s[..MatchesFrom(at, end, s, 0)[0]] + SubFrom(at, end, NoText, s, end(s, MatchesFrom(at, end, s, 0)[0]))
  {
    SubStart(at, end, NoText, s);
    if MatchesFrom(at, end, s, 0) != [] {
      var m := MatchesFrom(at, end, s, 0)[0];
      AppendNothing(s[..m], NoText(s, m), SubFrom(at, end, NoText, s, end(s, m)));
    }
  }

  lemma {:induction false} AppendNothing(a: string, e: string, b: string)
    requires e == []
    ensures a + e + b == a + b
  {
  }

  /** Without a match the text is left unchanged. */
  lemma {:induction false} SubNoMatch(at: (string, nat) -> bool, end: (string, nat) -> nat, rep: (string, nat) -> string,
                                      s: string, i: nat)
    requires i <= |s|
    requires forall p :: i <= p < |s| ==> !at(s, p)
    ensures SubFrom(at, end, rep, s, i) == s[i..]
    decreases |s| - i
  {
    if i < |s| {
      SubNoMatch(at, end, rep, s, i + 1);
      assert s[i..] == [s[i]] + s[i + 1..];
    }
  }

  // ---------------------------------------------------------------------
  // Cutting a text after each match

  /** Increasing cut points after `from`, inside a text of length `n`. */
  predicate Rising(from: nat, ends: seq<nat>, n: nat)
    decreases |ends|
  {
    ends == [] || (from < ends[0] <= n && Rising(ends[0], ends[1..], n))
  }

  /** The text cut after each of `ends`, starting at `from`; what is left
      after the last cut is a piece of its own when it is not empty. */
  function Through(s: string, ends: seq<nat>, from: nat): seq<string>
    decreases |ends|
  {
    if ends == [] then (if from < |s| then [Slice(s, from, |s|)] else [])
    else [Slice(s, from, ends[0])] + Through(s, ends[1..], ends[0])
  }

  /** Where piece `k` starts. */
  function Before(from: nat, ends: seq<nat>, k: nat): nat {
    if k == 0 || k > |ends| then from else ends[k - 1]
  }

  /** Where the last cut is. */
  function LastEnd(from: nat, ends: seq<nat>): nat {
    if ends == [] then from else ends[|ends| - 1]
  }

  /** The pieces join back to the text from `from` on, and none is empty. */
  lemma {:induction false} ThroughConcat(s: string, ends: seq<nat>, from: nat)
    requires from <= |s| && Rising(from, ends, |s|)
    ensures Concat(Through(s, ends, from)) == s[from..]
    ensures forall k :: 0 <= k < |Through(s, ends, from)| ==> Through(s, ends, from)[k] != []
    decreases |ends|
  {
    if ends == [] {
      if from < |s| {
        assert Concat([Slice(s, from, |s|)]) == Concat([]) + Slice(s, from, |s|);
      }
    } else {
      var e := ends[0];
      var rest := Through(s, ends[1..], e);
      ThroughConcat(s, ends[1..], e);
      ConcatAppend([s[from..e]], rest);
      assert Concat([s[from..e]]) == Concat([]) + s[from..e];
      assert s[from..] == s[from..e] + s[e..];
      assert Through(s, ends, from) == [s[from..e]] + rest;
    }
  }

  /** One piece per cut, each running from the previous cut to its own,
      and one more when text is left after the last cut. */
  lemma {:induction false} ThroughPieces(s: string, ends: seq<nat>, from: nat)
    requires Rising(from, ends, |s|)
    ensures |Through(s, ends, from)| == |ends| + (if LastEnd(from, ends) < |s| then 1 else 0)
    ensures forall k :: 0 <= k < |ends| ==> Through(s, ends, from)[k] == Slice(s, Before(from, ends, k), ends[k])
    decreases |ends|
  {
    if ends != [] {
      var e := ends[0];
      var rest := Through(s, ends[1..], e);
      ThroughPieces(s, ends[1..], e);
      assert LastEnd(e, ends[1..]) == LastEnd(from, ends);
      forall k | 0 < k < |ends| ensures Through(s, ends, from)[k] == Slice(s, Before(from, ends, k), ends[k]) {
        assert Through(s, ends, from)[k] == rest[k - 1];
        assert Before(e, ends[1..], k - 1) == Before(from, ends, k);
      }
    }
  }

  /** `match.end()` for every match found from `i` on. */
  function MatchEnds(at: (string, nat) -> bool, end: (string, nat) -> nat, s: string, i: nat): seq<nat> {
    Map((p: nat) => end(s, p), MatchesFrom(at, end, s, i))
  }

  lemma {:induction false} MatchEndsRising(at: (string, nat) -> bool, end: (string, nat) -> nat, s: string, from: nat, i: nat)
    requires from <= i
    requires forall p :: i <= p < |s| && at(s, p) ==> p < end(s, p) <= |s|
    ensures Rising(from, MatchEnds(at, end, s, i), |s|)
    decreases |s| - i
  {
    if i < |s| {
      if at(s, i) {
        var e := end(s, i);
        assert Resume(end, s, i) == e;
        MatchEndsRising(at, end, s, e, e);
        assert MatchEnds(at, end, s, i) == [e] + MatchEnds(at, end, s, e);
      } else {
        MatchEndsRising(at, end, s, from, i + 1);
        assert MatchEnds(at, end, s, i) == MatchEnds(at, end, s, i + 1);
      }
    }
  }

  /** Cutting after every match: the pieces join back to the text and none
      is empty; piece `k`, for each match `k`, runs from the end of the
      previous match and ends with match `k`; a last piece follows only if
      text is left, and no match starts in it. */
  lemma {:induction false} CutLaws(at: (string, nat) -> bool, end: (string, nat) -> nat, s: string)
    requires forall p :: 0 <= p < |s| && at(s, p) ==> p < end(s, p) <= |s|
    ensures Concat(Through(s, MatchEnds(at, end, s, 0), 0)) == s
    ensures forall k :: 0 <= k < |Through(s, MatchEnds(at, end, s, 0), 0)| ==> Through(s, MatchEnds(at, end, s, 0), 0)[k] != []
    ensures |Through(s, MatchEnds(at, end, s, 0), 0)| ==
              |MatchesFrom(at, end, s, 0)| + (if LastEnd(0, MatchEnds(at, end, s, 0)) < |s| then 1 else 0)
    ensures forall k :: 0 <= k < |MatchesFrom(at, end, s, 0)| ==>
              at(s, MatchesFrom(at, end, s, 0)[k]) &&
              Through(s, MatchEnds(at, end, s, 0), 0)[k] ==
                Slice(s, Before(0, MatchEnds(at, end, s, 0), k), MatchesFrom(at, end, s, 0)[k]) +
                Slice(s, MatchesFrom(at, end, s, 0)[k], end(s, MatchesFrom(at, end, s, 0)[k]))
    ensures forall q :: LastEnd(0, MatchEnds(at, end, s, 0)) <= q < |s| ==> !at(s, q)
  {
    var ends := MatchEnds(at, end, s, 0);
    MatchEndsRising(at, end, s, 0, 0);
    ThroughConcat(s, ends, 0);
    ThroughPieces(s, ends, 0);
    assert s[0..] == s;
    MatchesSound(at, end, s, 0);
    forall k | 0 <= k < |MatchesFrom(at, end, s, 0)|
      ensures Through(s, ends, 0)[k] ==
                Slice(s, Before(0, ends, k), MatchesFrom(at, end, s, 0)[k]) +
                Slice(s, MatchesFrom(at, end, s, 0)[k], end(s, MatchesFrom(at, end, s, 0)[k]))
    {
      CutPiece(at, end, s, k);
    }
    CutRest(at, end, s);
  }

  lemma {:induction false} CutPiece(at: (string, nat) -> bool, end: (string, nat) -> nat, s: string, k: nat)
    requires forall p :: 0 <= p < |s| && at(s, p) ==> p < end(s, p) <= |s|
    requires k < |MatchesFrom(at, end, s, 0)|
    ensures Slice(s, Before(0, MatchEnds(at, end, s, 0), k), MatchEnds(at, end, s, 0)[k]) ==
              Slice(s, Before(0, MatchEnds(at, end, s, 0), k), MatchesFrom(at, end, s, 0)[k]) +
              Slice(s, MatchesFrom(at, end, s, 0)[k], end(s, MatchesFrom(at, end, s, 0)[k]))
  {
    var m := MatchesFrom(at, end, s, 0);
    var ends := MatchEnds(at, end, s, 0);
    MatchesSound(at, end, s, 0);
    var b, e := Before(0, ends, k), ends[k];
    assert e == end(s, m[k]);
    assert m[k] < e <= |s|;
    if k > 0 {
      assert Resume(end, s, m[k - 1]) == ends[k - 1];
      assert b <= m[k];
    }
    assert s[b..e] == s[b..m[k]] + s[m[k]..e];
  }

  lemma {:induction false} CutRest(at: (string, nat) -> bool, end: (string, nat) -> nat, s: string)
    requires forall p :: 0 <= p < |s| && at(s, p) ==> p < end(s, p) <= |s|
    ensures forall q :: LastEnd(0, MatchEnds(at, end, s, 0)) <= q < |s| ==> !at(s, q)
  {
    var m := MatchesFrom(at, end, s, 0);
    MatchesFirst(at, end, s, 0);
    if m != [] {
      MatchesSound(at, end, s, 0);
      MatchesLast(at, end, s, 0);
      assert Resume(end, s, Last(m)) == LastEnd(0, MatchEnds(at, end, s, 0));
    }
  }

  // ---------------------------------------------------------------------
  // re.split

  /** `re.split` with the whole pattern in one group, from position `i` on,
      the current piece starting at `from`: the pieces between the matches
      alternate with the matched texts. */
  function SplitFrom(at: (string, nat) -> bool, end: (string, nat) -> nat, s: string, from: nat, i: nat): seq<string>
    requires from <= i
    decreases |s| - i
  {
    if i >= |s| then [Slice(s, from, |s|)]
    else if at(s, i) then
      [s[from..i], Slice(s, i, end(s, i))] + SplitFrom(at, end, s, Resume(end, s, i), Resume(end, s, i))
    else SplitFrom(at, end, s, from, i + 1)
  }

  /** The pieces join back to the text, and the matches found sit at the
      odd positions. */
  lemma {:induction false} SplitLaws(at: (string, nat) -> bool, end: (string, nat) -> nat, s: string, from: nat, i: nat)
    requires from <= i <= |s|
    requires forall p :: i <= p < |s| && at(s, p) ==> p < end(s, p) <= |s|
    ensures Concat(SplitFrom(at, end, s, from, i)) == s[from..]
    ensures |SplitFrom(at, end, s, from, i)| == 2 * |MatchesFrom(at, end, s, i)| + 1
    ensures forall k :: 0 <= k < |MatchesFrom(at, end, s, i)| ==>
              SplitFrom(at, end, s, from, i)[2 * k + 1] ==
                Slice(s, MatchesFrom(at, end, s, i)[k], end(s, MatchesFrom(at, end, s, i)[k]))
    decreases |s| - i, 1
  {
    if i == |s| {
      assert Concat([Slice(s, from, |s|)]) == Concat([]) + Slice(s, from, |s|);
    } else if at(s, i) {
      SplitMatch(at, end, s, from, i);
    } else {
      assert SplitFrom(at, end, s, from, i) == SplitFrom(at, end, s, from, i + 1);
      assert MatchesFrom(at, end, s, i) == MatchesFrom(at, end, s, i + 1);
      SplitLaws(at, end, s, from, i + 1);
    }
  }

  /** The step of `SplitLaws` at a match. */
  lemma {:induction false} SplitMatch(at: (string, nat) -> bool, end: (string, nat) -> nat, s: string, from: nat, i: nat)
    requires from <= i < |s| && at(s, i)
    requires forall p :: i <= p < |s| && at(s, p) ==> p < end(s, p) <= |s|
    ensures Concat(SplitFrom(at, end, s, from, i)) == s[from..]
    ensures |SplitFrom(at, end, s, from, i)| == 2 * |MatchesFrom(at, end, s, i)| + 1
    ensures forall k :: 0 <= k < |MatchesFrom(at, end, s, i)| ==>
              SplitFrom(at, end, s, from, i)[2 * k + 1] ==
                Slice(s, MatchesFrom(at, end, s, i)[k], end(s, MatchesFrom(at, end, s, i)[k]))
    decreases |s| - i, 0
  {
    var e := end(s, i);
    var rest := SplitFrom(at, end, s, e, e);
    var m' := MatchesFrom(at, end, s, e);
    assert Resume(end, s, i) == e;
    assert SplitFrom(at, end, s, from, i) == [s[from..i], s[i..e]] + rest;
    assert MatchesFrom(at, end, s, i) == [i] + m';
    SplitLaws(at, end, s, e, e);
    ConcatTwo(s, from, i, e, rest);
    CapturesShift(s[from..i], s[i..e], rest, i, m', Slice(s, i, end(s, i)), (k: nat) => Slice(s, k, end(s, k)));
  }

  lemma {:induction false} ConcatTwo(s: string, from: nat, i: nat, e: nat, rest: seq<string>)
    requires from <= i <= e <= |s| && Concat(rest) == s[e..]
    ensures Concat([s[from..i], s[i..e]] + rest) == s[from..]
  {
    ConcatAppend([s[from..i], s[i..e]], rest);
    assert [s[from..i], s[i..e]] == [s[from..i]] + [s[i..e]];
    ConcatAppend([s[from..i]], [s[i..e]]);
    assert Concat([s[i..e]]) == Concat([]) + s[i..e];
    assert Concat([s[from..i]]) == Concat([]) + s[from..i];
    assert s[from..] == s[from..i] + s[i..e] + s[e..];
  }

  lemma {:induction false} CapturesShift(a: string, b: string, rest: seq<string>, i: nat, m: seq<nat>, bi: string, cap: nat -> string)
    requires b == bi && bi == cap(i)
    requires |rest| == 2 * |m| + 1
    requires forall k :: 0 <= k < |m| ==> rest[2 * k + 1] == cap(m[k])
    ensures |[a, b] + rest| == 2 * |[i] + m| + 1
    ensures forall k :: 0 <= k < |[i] + m| ==> ([a, b] + rest)[2 * k + 1] == cap(([i] + m)[k])
  {
    forall k | 0 <= k < |[i] + m| ensures ([a, b] + rest)[2 * k + 1] == cap(([i] + m)[k]) {
      if k > 0 {
        assert ([a, b] + rest)[2 * k + 1] == rest[2 * (k - 1) + 1];
      }
    }
  }
}
