/** `extract_lines`: a page of text becomes a dictionary from each job
    header line to the lines of its section. Shared by scripts/1854.py,
    1865.py and 1854.py, which differ in the header test and in how the
    end of the last section is detected. */
module Sections {
  import opened Py

  // ---------------------------------------------------------------------
  // Python dictionaries

  /** A `dict` from header to section, as its entries in insertion order. */
  type Dict = seq<(string, seq<string>)>

  function Keys(d: Dict): (ks: seq<string>)
    ensures |ks| == |d|
    ensures forall i :: 0 <= i < |d| ==> ks[i] == d[i].0
  {
    seq(|d|, i requires 0 <= i < |d| => d[i].0)
  }

  /** `d.get(k)` */
  function Lookup(d: Dict, k: string): Option<seq<string>>
    decreases |d|
  {
    if d == [] then None else if d[0].0 == k then Some(d[0].1) else Lookup(d[1..], k)
  }

  lemma {:induction false} LookupAbsent(d: Dict, k: string)
    requires k !in Keys(d)
    ensures Lookup(d, k) == None
    decreases |d|
  {
    if d != [] {
      assert d[0].0 == Keys(d)[0];
      assert Keys(d[1..]) == Keys(d)[1..];
      LookupAbsent(d[1..], k);
    }
  }

  /** `d[k] = v`: a new key is added at the end, an existing key keeps
      its place and gets the new value. */
  function Assign(d: Dict, k: string, v: seq<string>): Dict
    decreases |d|
  {
    if d == [] then [(k, v)]
    else if d[0].0 == k then [(k, v)] + d[1..]
    else [d[0]] + Assign(d[1..], k, v)
  }

  /** After `d[k] = v`, `k` maps to `v` and every other key is unchanged. */
  lemma {:induction false} AssignLaws(d: Dict, k: string, v: seq<string>)
    ensures Lookup(Assign(d, k, v), k) == Some(v)
    ensures forall k' :: k' != k ==> Lookup(Assign(d, k, v), k') == Lookup(d, k')
    decreases |d|
  {
    if d != [] && d[0].0 != k {
      AssignLaws(d[1..], k, v);
    }
  }

  /** `d[k] = v` appends `k` to the key order only when it is new. */
  lemma {:induction false} AssignKeys(d: Dict, k: string, v: seq<string>)
    ensures k in Keys(d) ==> Keys(Assign(d, k, v)) == Keys(d)
    ensures k !in Keys(d) ==> Keys(Assign(d, k, v)) == Keys(d) + [k]
    decreases |d|
  {
    if d != [] && d[0].0 != k {
      AssignKeys(d[1..], k, v);
      assert Keys(d) == [d[0].0] + Keys(d[1..]);
      assert Keys(Assign(d, k, v)) == [d[0].0] + Keys(Assign(d[1..], k, v));
    }
  }

  // ---------------------------------------------------------------------
  // From text to sections

  /** `text.replace('\n\n', '\n').split('\n')` */
  function TextLines(text: string): seq<string> {
    SplitOn(Replace(text, "\n\n", "\n"), '\n')
  }

  /** `[text_list.index(job) for job in job_list]`: the first occurrence of
      every header. */
  function IndexList(lines: seq<string>, jobs: seq<string>): (idx: seq<nat>)
    requires forall k :: 0 <= k < |jobs| ==> jobs[k] in lines
    ensures |idx| == |jobs|
    ensures forall k :: 0 <= k < |jobs| ==> idx[k] == IndexOf(lines, jobs[k]) && idx[k] < |lines|
  {
    seq(|jobs|, k requires 0 <= k < |jobs| => IndexOf(lines, jobs[k]))
  }

  /** The loop form of `IndexList` (1865.py and 1854.py). */
  method IndexLoop(lines: seq<string>, jobs: seq<string>) returns (idx: seq<nat>)
    requires forall k :: 0 <= k < |jobs| ==> jobs[k] in lines
    ensures idx == IndexList(lines, jobs)
  {
    idx := [];
    var k := 0;
    while k < |jobs|
      invariant 0 <= k <= |jobs|
      invariant idx == IndexList(lines, jobs[..k])
    {
      idx := idx + [IndexOf(lines, jobs[k])];
      k := k + 1;
    }
    assert jobs[..k] == jobs;
  }

  /** Where section `i` ends. With `byValue` (1865.py, 1854.py) the
      section whose start equals the last start runs to the end of the
      text; otherwise (scripts/1854.py) only the last section does. */
  function SectionEnd(idx: seq<nat>, i: nat, n: nat, byValue: bool): int
    requires i < |idx|
  {
    if byValue then (if idx[i] == idx[|idx| - 1] then n else idx[i + 1])
    else if i < |idx| - 1 then idx[i + 1] else n
  }

  /** `text_list[first_index + 1:last_index]` for section `i`. */
  function SectionOf(lines: seq<string>, idx: seq<nat>, i: nat, byValue: bool): seq<string>
    requires i < |idx|
  {
    Slice(lines, idx[i] + 1, SectionEnd(idx, i, |lines|, byValue))
  }

  /** The dictionary after the first `m` rounds of the section loop. */
  function Sections(lines: seq<string>, idx: seq<nat>, byValue: bool, m: nat): Dict
    requires m <= |idx|
    requires forall k :: 0 <= k < |idx| ==> idx[k] < |lines|
  {
    if m == 0 then []
    else
      var i := m - 1;
      Assign(Sections(lines, idx, byValue, i), lines[idx[i]], SectionOf(lines, idx, i, byValue))
  }

  /** The section loop of `extract_lines`. */
  method FillSections(lines: seq<string>, idx: seq<nat>, byValue: bool) returns (d: Dict)
    requires forall k :: 0 <= k < |idx| ==> idx[k] < |lines|
    ensures d == Sections(lines, idx, byValue, |idx|)
  {
    d := [];
    var i := 0;
    while i < |idx|
      invariant 0 <= i <= |idx|
      invariant d == Sections(lines, idx, byValue, i)
    {
      d := Assign(d, lines[idx[i]], SectionOf(lines, idx, i, byValue));
      i := i + 1;
    }
  }

  // ---------------------------------------------------------------------
  // What the sections are when headers are distinct

  /** Positions of the header lines, in order. */
  function Positions(lines: seq<string>, isHeader: string -> bool): (ps: seq<nat>)
    ensures forall k :: 0 <= k < |ps| ==> ps[k] < |lines|
    decreases |lines|
  {
    if lines == [] then []
    else
      var init := lines[..|lines| - 1];
      Positions(init, isHeader) + (if isHeader(lines[|lines| - 1]) then [|lines| - 1] else [])
  }

  /** The header positions are increasing, hold headers, and list the
      headers in the order `Filter` keeps them. */
  lemma {:induction false} PositionsLaws(lines: seq<string>, isHeader: string -> bool)
    ensures var ps := Positions(lines, isHeader);
            |ps| == |Filter(isHeader, lines)| &&
            (forall k :: 0 <= k < |ps| ==> isHeader(lines[ps[k]]) && Filter(isHeader, lines)[k] == lines[ps[k]]) &&
            (forall k, l :: 0 <= k < l < |ps| ==> ps[k] < ps[l])
    decreases |lines|
  {
    if lines != [] {
      var init := lines[..|lines| - 1];
      var x := lines[|lines| - 1];
      assert lines == init + [x];
      FilterSnoc(isHeader, init, x);
      PositionsLaws(init, isHeader);
      var ps0 := Positions(init, isHeader);
      var ps := Positions(lines, isHeader);
      assert forall k :: 0 <= k < |ps0| ==> ps[k] == ps0[k] && lines[ps0[k]] == init[ps0[k]];
    }
  }

  /** Every header position is listed. */
  lemma {:induction false} PositionOf(lines: seq<string>, isHeader: string -> bool, p: nat) returns (k: nat)
    requires p < |lines| && isHeader(lines[p])
    ensures k < |Positions(lines, isHeader)| && Positions(lines, isHeader)[k] == p
    decreases |lines|
  {
    var init := lines[..|lines| - 1];
    if p == |lines| - 1 {
      k := |Positions(init, isHeader)|;
    } else {
      assert init[p] == lines[p];
      k := PositionOf(init, isHeader, p);
    }
  }

  /** The first header position at or after `q`, or the end of the text. */
  function NextHeader(lines: seq<string>, isHeader: string -> bool, q: nat): (r: nat)
    requires q <= |lines|
    ensures q <= r <= |lines|
    ensures forall j :: q <= j < r ==> !isHeader(lines[j])
    ensures r < |lines| ==> isHeader(lines[r])
    decreases |lines| - q
  {
    if q == |lines| || isHeader(lines[q]) then q else NextHeader(lines, isHeader, q + 1)
  }

  /** Header lines with different positions have different text. */
  predicate DistinctHeaders(lines: seq<string>, isHeader: string -> bool) {
    forall i, j :: 0 <= i < j < |lines| && isHeader(lines[i]) && isHeader(lines[j]) ==> lines[i] != lines[j]
  }

  /** With distinct headers, `index` finds every header at its own position. */
  lemma {:induction false} IndexListIsPositions(lines: seq<string>, isHeader: string -> bool)
    requires DistinctHeaders(lines, isHeader)
    ensures forall k :: 0 <= k < |Filter(isHeader, lines)| ==> Filter(isHeader, lines)[k] in lines
    ensures IndexList(lines, Filter(isHeader, lines)) == Positions(lines, isHeader)
  {
    var jobs := Filter(isHeader, lines);
    var ps := Positions(lines, isHeader);
    PositionsLaws(lines, isHeader);
    forall k | 0 <= k < |jobs| ensures jobs[k] in lines && IndexOf(lines, jobs[k]) == ps[k] {
      var p := ps[k];
      var i := IndexOf(lines, jobs[k]);
      assert lines[i] == lines[p];
      assert isHeader(lines[i]);
    }
  }

  /** The keys of the dictionary built from positions whose lines are
      distinct are those lines, in order. */
  lemma {:induction false} SectionsKeys(lines: seq<string>, idx: seq<nat>, byValue: bool, m: nat)
    requires m <= |idx|
    requires forall k :: 0 <= k < |idx| ==> idx[k] < |lines|
    requires forall k, l :: 0 <= k < l < |idx| ==> lines[idx[k]] != lines[idx[l]]
    ensures Keys(Sections(lines, idx, byValue, m)) == seq(m, k requires 0 <= k < m => lines[idx[k]])
    decreases m
  {
    if m > 0 {
      var i := m - 1;
      SectionsKeys(lines, idx, byValue, i);
      var d0 := Sections(lines, idx, byValue, i);
      var key := lines[idx[i]];
      AssignKeys(d0, key, SectionOf(lines, idx, i, byValue));
      assert key !in Keys(d0) by {
        forall k | 0 <= k < i ensures Keys(d0)[k] != key {
          assert Keys(d0)[k] == lines[idx[k]];
        }
      }
    }
  }

  /** The dictionary built from strictly increasing positions with
      distinct lines: the line at position `idx[k]` maps to the slice up
      to the next position or the end. */
  lemma {:induction false} SectionsOfIncreasing(lines: seq<string>, idx: seq<nat>, byValue: bool, m: nat)
    requires m <= |idx|
    requires forall k :: 0 <= k < |idx| ==> idx[k] < |lines|
    requires forall k, l :: 0 <= k < l < |idx| ==> idx[k] < idx[l] && lines[idx[k]] != lines[idx[l]]
    ensures forall k :: 0 <= k < m ==>
              Lookup(Sections(lines, idx, byValue, m), lines[idx[k]]) ==
              Some(lines[idx[k] + 1..if k + 1 < |idx| then idx[k + 1] else |lines|])
    decreases m
  {
    if m > 0 {
      var i := m - 1;
      SectionsOfIncreasing(lines, idx, byValue, i);
      var d0 := Sections(lines, idx, byValue, i);
      var key := lines[idx[i]];
      var v := SectionOf(lines, idx, i, byValue);
      SectionOfIncreasing(lines, idx, byValue, i);
      assert Sections(lines, idx, byValue, m) == Assign(d0, key, v);
      AssignLaws(d0, key, v);
      forall k | 0 <= k < m
        ensures Lookup(Assign(d0, key, v), lines[idx[k]]) ==
                Some(lines[idx[k] + 1..if k + 1 < |idx| then idx[k + 1] else |lines|])
      {
        if k < i {
          assert lines[idx[k]] != key;
        }
      }
    }
  }

  /** With ascending header positions, section `i` is the lines strictly
      between header `i` and the next header, or the end of the text. */
  lemma {:induction false} SectionOfIncreasing(lines: seq<string>, idx: seq<nat>, byValue: bool, i: nat)
    requires i < |idx|
    requires forall k :: 0 <= k < |idx| ==> idx[k] < |lines|
    requires forall k, l :: 0 <= k < l < |idx| ==> idx[k] < idx[l]
    ensures SectionOf(lines, idx, i, byValue) == lines[idx[i] + 1..if i + 1 < |idx| then idx[i + 1] else |lines|]
  {
    var e := SectionEnd(idx, i, |lines|, byValue);
    assert e == if i + 1 < |idx| then idx[i + 1] else |lines|;
  }

  /** The header after the one at position `ps[k]` is `ps[k + 1]`. */
  lemma {:induction false} NextHeaderOfPosition(lines: seq<string>, isHeader: string -> bool, k: nat)
    requires k < |Positions(lines, isHeader)|
    ensures var ps := Positions(lines, isHeader);
            NextHeader(lines, isHeader, ps[k] + 1) == if k + 1 < |ps| then ps[k + 1] else |lines|
  {
    var ps := Positions(lines, isHeader);
    PositionsLaws(lines, isHeader);
    var e := if k + 1 < |ps| then ps[k + 1] else |lines|;
    var nh := NextHeader(lines, isHeader, ps[k] + 1);
    assert ps[k] + 1 <= e;
    assert e == |lines| || isHeader(lines[e]);
    assert nh <= e;
    if nh < |lines| {
      var l := PositionOf(lines, isHeader, nh);
      assert ps[k] < ps[l];
      assert k < l;
      assert ps[k + 1] <= ps[l];
    }
  }

  /** The dictionary built from the header positions. */
  function HeaderDict(lines: seq<string>, isHeader: string -> bool, byValue: bool): Dict {
    var ps := Positions(lines, isHeader);
    Sections(lines, ps, byValue, |ps|)
  }

  /** The keys are the header lines in text order. */
  lemma {:induction false} HeaderDictKeys(lines: seq<string>, isHeader: string -> bool, byValue: bool)
    requires DistinctHeaders(lines, isHeader)
    ensures var ps := Positions(lines, isHeader);
            Keys(HeaderDict(lines, isHeader, byValue)) == seq(|ps|, k requires 0 <= k < |ps| => lines[ps[k]])
  {
    var ps := HeadersApart(lines, isHeader);
    assert HeaderDict(lines, isHeader, byValue) == Sections(lines, ps, byValue, |ps|);
    SectionsKeys(lines, ps, byValue, |ps|);
  }

  /** Each header maps to the lines strictly between it and the next
      header, or the end of the text. */
  lemma {:induction false} HeaderDictLaws(lines: seq<string>, isHeader: string -> bool, byValue: bool)
    requires DistinctHeaders(lines, isHeader)
    ensures var ps := Positions(lines, isHeader);
            forall k, l :: 0 <= k < l < |ps| ==> ps[k] < ps[l]
    ensures var ps := Positions(lines, isHeader);
            forall k :: 0 <= k < |ps| ==>
              Lookup(HeaderDict(lines, isHeader, byValue), lines[ps[k]]) ==
              Some(lines[ps[k] + 1..if k + 1 < |ps| then ps[k + 1] else |lines|])
  {
    var ps := HeadersApart(lines, isHeader);
    var d := HeaderDict(lines, isHeader, byValue);
    assert d == Sections(lines, ps, byValue, |ps|);
    SectionsOfIncreasing(lines, ps, byValue, |ps|);
    forall k | 0 <= k < |ps|
      ensures Lookup(d, lines[ps[k]]) == Some(lines[ps[k] + 1..if k + 1 < |ps| then ps[k + 1] else |lines|])
    {
    }
  }

  /** With distinct headers, the header positions ascend and name distinct
      lines. */
  lemma {:induction false} HeadersApart(lines: seq<string>, isHeader: string -> bool) returns (ps: seq<nat>)
    requires DistinctHeaders(lines, isHeader)
    ensures ps == Positions(lines, isHeader)
    ensures forall k, l :: 0 <= k < l < |ps| ==> ps[k] < ps[l] && lines[ps[k]] != lines[ps[l]]
  {
    ps := Positions(lines, isHeader);
    PositionsLaws(lines, isHeader);
    forall k, l | 0 <= k < l < |ps| ensures ps[k] < ps[l] && lines[ps[k]] != lines[ps[l]] {
      assert isHeader(lines[ps[k]]) && isHeader(lines[ps[l]]);
    }
  }

  /** The section of the header at position `p`. */
  lemma {:induction false} LookupAtHeader(lines: seq<string>, isHeader: string -> bool, byValue: bool, p: nat)
    requires DistinctHeaders(lines, isHeader)
    requires p < |lines| && isHeader(lines[p])
    ensures Lookup(HeaderDict(lines, isHeader, byValue), lines[p]) ==
            Some(lines[p + 1..NextHeader(lines, isHeader, p + 1)])
  {
    var ps := Positions(lines, isHeader);
    var k := PositionOf(lines, isHeader, p);
    HeaderDictLaws(lines, isHeader, byValue);
    NextHeaderOfPosition(lines, isHeader, k);
  }

  /** `extract_lines` when the header lines are distinct: the keys are the
      headers in text order, and each header maps to exactly the lines
      strictly between it and the next header, or the end of the text. */
  lemma {:induction false} HeaderSections(lines: seq<string>, isHeader: string -> bool, byValue: bool)
    requires DistinctHeaders(lines, isHeader)
    ensures forall k :: 0 <= k < |Filter(isHeader, lines)| ==> Filter(isHeader, lines)[k] in lines
    ensures var idx := IndexList(lines, Filter(isHeader, lines));
            var d := Sections(lines, idx, byValue, |idx|);
            Keys(d) == Filter(isHeader, lines) &&
            forall p :: 0 <= p < |lines| && isHeader(lines[p]) ==>
              Lookup(d, lines[p]) == Some(lines[p + 1..NextHeader(lines, isHeader, p + 1)])
  {
    IndexListIsPositions(lines, isHeader);
    var jobs := Filter(isHeader, lines);
    var d := HeaderDict(lines, isHeader, byValue);
    HeaderDictKeys(lines, isHeader, byValue);
    PositionsLaws(lines, isHeader);
    assert Keys(d) == jobs;
    forall p | 0 <= p < |lines| && isHeader(lines[p])
      ensures Lookup(d, lines[p]) == Some(lines[p + 1..NextHeader(lines, isHeader, p + 1)])
    {
      LookupAtHeader(lines, isHeader, byValue, p);
    }
  }

  // ---------------------------------------------------------------------
  // extract_lines as a whole

  /** Every header `Filter` keeps occurs in the text, so `index` finds it. */
  lemma {:induction false} HeadersOccur(lines: seq<string>, isHeader: string -> bool)
    ensures forall k :: 0 <= k < |Filter(isHeader, lines)| ==> Filter(isHeader, lines)[k] in lines
  {
    var jobs := Filter(isHeader, lines);
    forall k | 0 <= k < |jobs| ensures jobs[k] in lines {
      FilterMember(isHeader, lines, jobs[k]);
    }
  }

  /** `extract_lines(text)` for the header test `isHeader`. */
  function ExtractedSections(text: string, isHeader: string -> bool, byValue: bool): Dict {
    var lines := TextLines(text);
    var jobs := Filter(isHeader, lines);
    HeadersOccur(lines, isHeader);
    Sections(lines, IndexList(lines, jobs), byValue, |jobs|)
  }

  /** Every key the section loop writes is one of the lines it was given. */
  lemma {:induction false} SectionsKeysSatisfy(lines: seq<string>, idx: seq<nat>, byValue: bool, m: nat, p: string -> bool)
    requires m <= |idx|
    requires forall k :: 0 <= k < |idx| ==> idx[k] < |lines| && p(lines[idx[k]])
    ensures forall i :: 0 <= i < |Sections(lines, idx, byValue, m)| ==> p(Sections(lines, idx, byValue, m)[i].0)
    decreases m
  {
    if m > 0 {
      var d0 := Sections(lines, idx, byValue, m - 1);
      SectionsKeysSatisfy(lines, idx, byValue, m - 1, p);
      var key := lines[idx[m - 1]];
      AssignKeys(d0, key, SectionOf(lines, idx, m - 1, byValue));
      var d := Assign(d0, key, SectionOf(lines, idx, m - 1, byValue));
      forall i | 0 <= i < |d| ensures p(d[i].0) {
        assert d[i].0 == Keys(d)[i];
        if key !in Keys(d0) {
          assert Keys(d) == Keys(d0) + [key];
        }
      }
    }
  }

  /** Every key of `extract_lines` passes the header test. */
  lemma {:induction false} ExtractedKeysAreHeaders(text: string, isHeader: string -> bool, byValue: bool)
    ensures forall i :: 0 <= i < |ExtractedSections(text, isHeader, byValue)| ==>
              isHeader(ExtractedSections(text, isHeader, byValue)[i].0)
  {
    var lines := TextLines(text);
    var jobs := Filter(isHeader, lines);
    HeadersOccur(lines, isHeader);
    var idx := IndexList(lines, jobs);
    SectionsKeysSatisfy(lines, idx, byValue, |jobs|, isHeader);
  }

  /** `extract_lines` when the header lines are distinct: the keys are the
      header lines in text order, each mapping to the lines up to the next
      header or the end of the text. */
  lemma {:induction false} ExtractedSectionsLaws(text: string, isHeader: string -> bool, byValue: bool)
    requires DistinctHeaders(TextLines(text), isHeader)
    ensures var lines := TextLines(text);
            var d := ExtractedSections(text, isHeader, byValue);
            Keys(d) == Filter(isHeader, lines) &&
            forall p :: 0 <= p < |lines| && isHeader(lines[p]) ==>
              Lookup(d, lines[p]) == Some(lines[p + 1..NextHeader(lines, isHeader, p + 1)])
  {
    HeaderSections(TextLines(text), isHeader, byValue);
  }
}
