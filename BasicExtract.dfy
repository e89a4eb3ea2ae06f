/** basic_extract_test.py: the 1911 address book. Lines without a
    parenthesis or a digit are dropped, the rest are grouped so that each
    group starts at a parenthesised line, and each group is cut at its
    commas into name, job and address. The name is then cut after the last
    initial or name prefix. */
module BasicExtract {
  import opened Py
  import opened Normalize
  import opened Records
  import opened Groups
  import opened Scan

  // ---------------------------------------------------------------------
  // check_for_person / remove_junk

  /** The test `remove_junk` applies to each line. */
  predicate Kept(line: string) {
    HasParen(line) || HasDigit(line)
  }

  /** `remove_junk` */
  method RemoveJunk(lines: seq<string>) returns (kept: seq<string>)
    ensures kept == Filter(Kept, lines)
  {
    kept := [];
    for i := 0 to |lines|
      invariant kept == Filter(Kept, lines[..i])
    {
      FilterPrefix(Kept, lines, i);
      if HasParen(lines[i]) || HasDigit(lines[i]) {
        kept := kept + [lines[i]];
      }
    }
    assert lines[..|lines|] == lines;
  }

  /** What `remove_junk` keeps: in order, exactly the lines with a
      parenthesis or a digit, each as often as it occurs. */
  lemma {:induction false} RemoveJunkLaws(lines: seq<string>)
    ensures IsSubseq(Filter(Kept, lines), lines)
    ensures forall l :: l in Filter(Kept, lines) <==> l in lines && (HasParen(l) || HasDigit(l))
    ensures forall l :: Kept(l) ==> multiset(Filter(Kept, lines))[l] == multiset(lines)[l]
  {
    FilterExact(Kept, lines);
  }

  // ---------------------------------------------------------------------
  // process_sentences

  /** The state of the loop of `process_sentences` after `lines`: the
      groups emitted so far and the group being built. */
  function Grouping(lines: seq<string>): (seq<string>, string)
    decreases |lines|
  {
    if lines == [] then ([], "")
    else
      var (done, current) := Grouping(lines[..|lines| - 1]);
      var s := lines[|lines| - 1];
      if HasParen(s) then ((if current != [] then done + [Strip(current)] else done), s)
      else (done, current + " " + s)
  }

  /** `process_sentences`: the loop, then the last group if it is not empty. */
  function Grouped(lines: seq<string>): seq<string> {
    var (done, current) := Grouping(lines);
    if current != [] then done + [Strip(current)] else done
  }

  /** One more line for the loop of `process_sentences`. */
  lemma {:induction false} GroupingSnoc(init: seq<string>, s: string)
    ensures Grouping(init + [s]) ==
              var (done, current) := Grouping(init);
              if HasParen(s) then ((if current != [] then done + [Strip(current)] else done), s)
              else (done, current + " " + s)
  {
    assert (init + [s])[..|init|] == init;
  }

  /** The text one segment becomes. */
  function GroupText(seg: seq<string>): string {
    Strip(Join(" ", seg))
  }

  /** The running group of a segment: a group that does not start at a
      parenthesised line began as the empty string plus `" "`. */
  function Running(seg: seq<string>): string
    requires seg != []
  {
    if HasParen(seg[0]) then Join(" ", seg) else " " + Join(" ", seg)
  }

  lemma {:induction false} RunningNotEmpty(seg: seq<string>)
    requires seg != []
    ensures Running(seg) != [] && Strip(Running(seg)) == GroupText(seg)
  {
    if HasParen(seg[0]) {
      assert seg[0] != [];
      assert |seg| == 1 || Join(" ", seg) == seg[0] + " " + Join(" ", seg[1..]);
    } else {
      StripSpacePrefix(Join(" ", seg));
    }
  }

  /** The loop state in terms of the segments: every finished segment has
      been emitted and the last one is being built. */
  predicate StateOf(state: (seq<string>, string), segs: seq<seq<string>>) {
    segs != [] && segs[|segs| - 1] != [] &&
    state == (Map(GroupText, segs[..|segs| - 1]), Running(segs[|segs| - 1]))
  }

  /** A parenthesised line closes the running group and opens a new one. */
  lemma {:induction false} ParenStep(state: (seq<string>, string), segs: seq<seq<string>>, s: string)
    requires StateOf(state, segs) && HasParen(s)
    ensures StateOf(((if state.1 != [] then state.0 + [Strip(state.1)] else state.0), s), segs + [[s]])
  {
    var segs' := segs + [[s]];
    ClosedGroups(segs);
    assert segs'[..|segs'| - 1] == segs;
    assert Running([s]) == s by {
      assert Join(" ", [s]) == s;
    }
  }

  /** Closing the running group emits the text of the last segment. */
  lemma {:induction false} ClosedGroups(segs: seq<seq<string>>)
    requires segs != [] && segs[|segs| - 1] != []
    ensures Running(segs[|segs| - 1]) != []
    ensures Map(GroupText, segs[..|segs| - 1]) + [Strip(Running(segs[|segs| - 1]))] == Map(GroupText, segs)
  {
    var n := |segs| - 1;
    RunningNotEmpty(segs[n]);
    assert segs == segs[..n] + [segs[n]];
    MapSnoc(GroupText, segs[..n], segs[n]);
  }

  /** Any other line is glued to the running group with a space. */
  lemma {:induction false} PlainStep(state: (seq<string>, string), segs: seq<seq<string>>, s: string)
    requires StateOf(state, segs) && !HasParen(s)
    ensures StateOf((state.0, state.1 + " " + s), segs[..|segs| - 1] + [segs[|segs| - 1] + [s]])
  {
    var n := |segs| - 1;
    var last := segs[n] + [s];
    JoinSnoc(" ", segs[n], s);
    assert last[0] == segs[n][0];
    assert (segs[..n] + [last])[..n] == segs[..n];
    if !HasParen(last[0]) {
      assert " " + Join(" ", last) == (" " + Join(" ", segs[n])) + " " + s;
    }
    assert Running(last) == Running(segs[n]) + " " + s;
  }

  /** The first line opens the first group. */
  lemma {:induction false} GroupingFirst(s: string)
    ensures StateOf(Grouping([s]), [[s]])
  {
    GroupingSnoc([], s);
    assert Grouping([]) == ([], "");
    assert [] + [s] == [s];
    assert Join(" ", [s]) == s;
    assert Map(GroupText, []) == [];
    assert "" + " " + s == " " + s;
  }

  lemma {:induction false} GroupingSegments(lines: seq<string>)
    requires lines != []
    ensures StateOf(Grouping(lines), Segments(HasParen, lines))
    decreases |lines|
  {
    var init, s := lines[..|lines| - 1], lines[|lines| - 1];
    assert lines == init + [s];
    if init == [] {
      assert lines == [s];
      SegmentsSnoc(HasParen, [], s);
      GroupingFirst(s);
    } else {
      GroupingSegments(init);
      var st, segs := Grouping(init), Segments(HasParen, init);
      SegmentsSnoc(HasParen, init, s);
      GroupingSnoc(init, s);
      if HasParen(s) {
        ParenStep(st, segs, s);
      } else {
        PlainStep(st, segs, s);
      }
    }
  }

  /** `process_sentences` emits one stripped, space-joined text per
      segment, in order. */
  lemma {:induction false} GroupedSegments(lines: seq<string>)
    ensures Grouped(lines) == Map(GroupText, Segments(HasParen, lines))
  {
    if lines != [] {
      GroupingSegments(lines);
      var segs := Segments(HasParen, lines);
      var n := |segs| - 1;

      RunningNotEmpty(segs[n]);
      assert segs == segs[..n] + [segs[n]];
      MapSnoc(GroupText, segs[..n], segs[n]);
    }
  }

  /** `process_sentences` */
  method ProcessSentences(lines: seq<string>) returns (processed: seq<string>)
    ensures processed == Grouped(lines)
  {
    processed := [];
    var current := "";
    for i := 0 to |lines|
      invariant (processed, current) == Grouping(lines[..i])
    {
      assert lines[..i + 1][..i] == lines[..i];
      var sentence := lines[i];
      if '(' in sentence || ')' in sentence {
        if current != [] {
          processed := processed + [Strip(current)];
        }
        current := sentence;
      } else {
        current := current + " " + sentence;
      }
    }
    assert lines[..|lines|] == lines;
    if current != [] {
      processed := processed + [Strip(current)];
    }
  }

  // ---------------------------------------------------------------------
  // find_item_with_digit

  /** `find_item_with_digit`: the first item holding a digit; Python's
      empty-list answer is `None`. */
  method FindItemWithDigit(items: seq<string>) returns (r: Option<string>)
    ensures r.None? <==> forall i :: 0 <= i < |items| ==> !HasDigit(items[i])
    ensures r.Some? ==> exists i :: 0 <= i < |items| && items[i] == r.value && HasDigit(r.value) &&
                          forall j :: 0 <= j < i ==> !HasDigit(items[j])
  {
    for i := 0 to |items|
      invariant forall j :: 0 <= j < i ==> !HasDigit(items[j])
    {
      if HasDigit(items[i]) {
        return Some(items[i]);
      }
    }
    return None;
  }

  // ---------------------------------------------------------------------
  // remove_name_from_job

  /** The address of a person: one text for two comma parts, the list of
      remaining parts for more. */
  datatype Address = Text(text: string) | Parts(parts: seq<string>)

  predicate HasBracket(job: string) {
    '(' in job || ')' in job || '}' in job
  }

  /** What `remove_name_from_job` does to the name and the job. */
  function NameAndJob(name: string, job: string): (string, string) {
    if HasBracket(job) then (name + job, "None") else (name, job)
  }

  /** The person changes exactly when the job holds a bracket; then the job
      is appended to the name and becomes `"None"`. No bracket is left in
      the job, so a second call changes nothing. */
  lemma {:induction false} NameAndJobLaws(name: string, job: string)
    ensures var r := NameAndJob(name, job);
            (r != (name, job) <==> HasBracket(job)) &&
            (r != (name, job) ==> r == (name + job, "None")) &&
            !HasBracket(r.1) &&
            NameAndJob(r.0, r.1) == r
  {
    if HasBracket(job) {
      assert job != "None";
    }
  }

  /** The person dictionary, whose name and job are updated in place. */
  class PersonDict {
    var name: string
    var jobTitle: string
    var address: Address

    /** `make_person` */
    constructor (name: string, job: string, address: Address)
      ensures this.name == name && jobTitle == job && this.address == address
    {
      this.name := name;
      jobTitle := job;
      this.address := address;
    }

    /** `remove_name_from_job` */
    method RemoveNameFromJob()
      modifies this
      ensures (name, jobTitle) == NameAndJob(old(name), old(jobTitle))
      ensures address == old(address)
    {
      var job := jobTitle;
      if '(' in job || ')' in job || '}' in job {
        name := name + job;
        jobTitle := "None";
      }
    }
  }

  // ---------------------------------------------------------------------
  // find_initials / find_prefixes

  /** `find_initials`: the last `\b[A-Z]\.` match with one character before
      it, `name[start - 1:end]`; `None` stands for Python's empty list. */
  function FindInitials(name: string): Option<string> {
    var starts := InitialStarts(name);
    if starts == [] then None
    else
      var p: int := starts[|starts| - 1];
      Some(Slice(name, p - 1, p + 2))
  }

  /** `find_initials` finds nothing exactly when there is no initial; else
      it gives the last initial with the character before it, and for an
      initial at the very start the slice wraps around and is empty (or the
      period alone when the name is just the initial). */
  lemma {:induction false} FindInitialsLaws(name: string)
    ensures FindInitials(name).None? <==> forall p :: !InitialAt(name, p)
    ensures FindInitials(name).Some? ==>
              exists p :: InitialAt(name, p) && (forall q :: p < q ==> !InitialAt(name, q)) &&
                FindInitials(name).value == (if p > 0 then name[p - 1..p + 2] else if |name| == 2 then "." else "")
  {
    var starts := InitialStarts(name);
    if starts != [] {
      var p := starts[|starts| - 1];
      assert p in starts;
    }
  }

  /** Where a match of `(?:(?<=\s)|(?<=^)|(?<=\.))[vdt]\.?[a-z]{0,2}` can
      start: `v`, `d` or `t` at the start or after whitespace or a period. */
  predicate PrefixAt(s: string, p: nat) {
    p < |s| && (s[p] == 'v' || s[p] == 'd' || s[p] == 't') &&
    (p == 0 || IsSpace(s[p - 1]) || s[p - 1] == '.')
  }

  /** The end of the greedy match starting at `p`: the letter, an optional
      period, then at most two lower-case letters. */
  function PrefixEnd(s: string, p: nat): (e: nat)
    ensures p < e
    ensures p < |s| ==> e <= |s|
  {
    if p >= |s| then p + 1
    else
      var q := if p + 1 < |s| && s[p + 1] == '.' then p + 2 else p + 1;
      var n := RunLength(s[q..], IsLower);
      q + (if n > 2 then 2 else n)
  }

  /** `re.finditer` of the prefix pattern: the match starts. */
  function PrefixStarts(s: string): seq<nat> {
    MatchesFrom(PrefixAt, PrefixEnd, s, 0)
  }

  /** `find_prefixes`: the last prefix match with one character before it,
      `name[start - 1:end]`; `None` stands for Python's empty list. */
  function FindPrefixes(name: string): Option<string> {
    var starts := PrefixStarts(name);
    if starts == [] then None
    else
      var p: nat := starts[|starts| - 1];
      Some(Slice(name, p as int - 1, PrefixEnd(name, p)))
  }

  /** `find_prefixes` finds nothing exactly when no prefix can start
      anywhere. */
  lemma {:induction false} FindPrefixesNone(name: string)
    ensures FindPrefixes(name).None? <==> forall p :: !PrefixAt(name, p)
  {
    var starts := PrefixStarts(name);
    MatchesFirst(PrefixAt, PrefixEnd, name, 0);
    if starts != [] {
      MatchesSound(PrefixAt, PrefixEnd, name, 0);
      assert PrefixAt(name, starts[0]);
    }
  }

  /** When it finds something, `find_prefixes` gives the last match with
      the character before it, no match starting after it; for a match at
      the very start the slice wraps around. */
  lemma {:induction false} FindPrefixesLaws(name: string)
    ensures FindPrefixes(name).Some? ==>
              exists p :: PrefixAt(name, p) && (forall q :: PrefixEnd(name, p) <= q ==> !PrefixAt(name, q)) &&
                FindPrefixes(name).value == PrefixSlice(name, p)
  {
    if PrefixStarts(name) != [] {
      var p := LastPrefix(name);
      assert FindPrefixes(name) == Some(Slice(name, p as int - 1, PrefixEnd(name, p)));
      PrefixSliceIs(name, p);
    }
  }

  /** The last prefix match, after which no match starts. */
  lemma {:induction false} LastPrefix(name: string) returns (p: nat)
    requires PrefixStarts(name) != []
    ensures p == PrefixStarts(name)[|PrefixStarts(name)| - 1] && PrefixAt(name, p)
    ensures forall q :: PrefixEnd(name, p) <= q ==> !PrefixAt(name, q)
  {
    var starts := PrefixStarts(name);
    MatchesSound(PrefixAt, PrefixEnd, name, 0);
    MatchesLast(PrefixAt, PrefixEnd, name, 0);
    p := starts[|starts| - 1];
    assert PrefixAt(name, p);
    assert Resume(PrefixEnd, name, p) == PrefixEnd(name, p);
  }

  /** What `name[start - 1:end]` gives for the match at `p`: the character
      before it and the match, or for a match at the very start the last
      character when the match ends the name and the empty string else. */
  function PrefixSlice(name: string, p: nat): string
    requires PrefixAt(name, p)
  {
    var e := PrefixEnd(name, p);
    if p > 0 then name[p - 1..e] else if e == |name| then name[|name| - 1..] else ""
  }

  lemma {:induction false} PrefixSliceIs(name: string, p: nat)
    requires PrefixAt(name, p)
    ensures Slice(name, p as int - 1, PrefixEnd(name, p)) == PrefixSlice(name, p)
  {
  }

  // ---------------------------------------------------------------------
  // find_name

  /** The name `find_name` works on: `strip_text`, then `dot_initials`. */
  function Cleaned(name: string): string {
    DotInitials(StripText(name, WithHyphen))
  }

  /** Python's truthiness of a `find_*` answer. */
  predicate Found(o: Option<string>) {
    o.Some? && o.value != []
  }

  /** The texts `find_name` goes on with: the initial, then the prefix. */
  function FoundPieces(name: string): seq<string> {
    (if Found(FindInitials(name)) then [FindInitials(name).value] else []) +
    (if Found(FindPrefixes(name)) then [FindPrefixes(name).value] else [])
  }

  /** `name.rfind(piece) + len(piece)` */
  function EndOfLast(name: string, piece: string): int {
    RFind(name, piece) + |piece|
  }

  function Max(xs: seq<int>): (m: int)
    requires xs != []
    ensures m in xs && forall i :: 0 <= i < |xs| ==> xs[i] <= m
  {
    if |xs| == 1 then xs[0]
    else
      var m := Max(xs[1..]);
      assert m in xs[1..];
      if xs[0] >= m then xs[0] else m
  }

  /** `find_name`: the cleaned name cut at the later of the ends of the
      last occurrences of the found initial and prefix. */
  function FindName(raw: string): (string, string) {
    var name := Cleaned(raw);
    CutAfter(name, FoundPieces(name))
  }

  /** `name[:k], name[k:]` for the largest end `k` of the last occurrences
      of the pieces; the whole name when there is no piece. */
  function CutAfter(name: string, pieces: seq<string>): (string, string) {
    var index := Map(piece => EndOfLast(name, piece), pieces);
    if index == [] then (name, "")
    else
      var k := Max(index);
      (Slice(name, 0, k), Slice(name, k, |name|))
  }

  /** A non-empty slice occurs in the text, so `rfind` finds it. */
  lemma {:induction false} SliceFound(s: string, lo: int, hi: int)
    requires Slice(s, lo, hi) != []
    ensures RFind(s, Slice(s, lo, hi)) >= 0
  {
    var v := Slice(s, lo, hi);
    var a := SliceBound(lo, |s|);
    assert OccursAt(s, v, a);
  }

  lemma {:induction false} InitialPieceOccurs(name: string)
    requires Found(FindInitials(name))
    ensures RFind(name, FindInitials(name).value) >= 0
  {
    var starts := InitialStarts(name);
    var p: int := starts[|starts| - 1];
    SliceFound(name, p - 1, p + 2);
  }

  lemma {:induction false} PrefixPieceOccurs(name: string)
    requires Found(FindPrefixes(name))
    ensures RFind(name, FindPrefixes(name).value) >= 0
  {
    var starts := PrefixStarts(name);
    var p: nat := starts[|starts| - 1];
    SliceFound(name, p as int - 1, PrefixEnd(name, p));
  }

  lemma {:induction false} FoundPiecesOccur(name: string)
    ensures forall v :: v in FoundPieces(name) ==> RFind(name, v) >= 0
  {
    if Found(FindInitials(name)) {
      InitialPieceOccurs(name);
    }
    if Found(FindPrefixes(name)) {
      PrefixPieceOccurs(name);
    }
  }

  /** Cutting after pieces that occur in the name: the two parts give the
      name back; without pieces the name is not cut; otherwise the cut lies
      at or after the end of the last occurrence of each piece, and exactly
      at the end of one of them. */
  lemma {:induction false} CutAfterLaws(name: string, pieces: seq<string>)
    requires forall v :: v in pieces ==> RFind(name, v) >= 0
    ensures CutAfter(name, pieces).0 + CutAfter(name, pieces).1 == name
    ensures pieces == [] ==> CutAfter(name, pieces) == (name, "")
    ensures forall v :: v in pieces ==> EndOfLast(name, v) <= |CutAfter(name, pieces).0|
    ensures pieces != [] ==>
              exists v :: v in pieces && EndOfLast(name, v) == |CutAfter(name, pieces).0| &&
                CutAfter(name, pieces).0[|CutAfter(name, pieces).0| - |v|..] == v
  {
    var index := Map(piece => EndOfLast(name, piece), pieces);
    if index != [] {
      var k := Max(index);
      var v := LatestPiece(name, pieces);
      assert Slice(name, 0, k) == name[..k];
      SliceSplit(name, k);
    }
  }

  /** The piece whose last occurrence ends last, and where that is. */
  lemma {:induction false} LatestPiece(name: string, pieces: seq<string>) returns (v: string)
    requires forall v :: v in pieces ==> RFind(name, v) >= 0
    requires pieces != []
    ensures var k := Max(Map(piece => EndOfLast(name, piece), pieces));
            v in pieces && EndOfLast(name, v) == k && 0 <= k - |v| && k <= |name| &&
            name[..k][k - |v|..] == v &&
            forall w :: w in pieces ==> EndOfLast(name, w) <= k
  {
    var index := Map(piece => EndOfLast(name, piece), pieces);
    var k := Max(index);
    var j :| 0 <= j < |index| && index[j] == k;
    v := pieces[j];
    assert OccursAt(name, v, RFind(name, v));
    assert name[..k][k - |v|..] == name[RFind(name, v)..k];
    forall w | w in pieces ensures EndOfLast(name, w) <= k {
      var i :| 0 <= i < |pieces| && pieces[i] == w;
      assert index[i] == EndOfLast(name, w);
    }
  }

  /** The two parts of `find_name` concatenate back to the cleaned name;
      with neither initial nor prefix found the name is not cut; otherwise
      the cut lies at or after the end of the last occurrence of each found
      piece, and exactly at the end of one of them. */
  lemma {:induction false} FindNameLaws(raw: string)
    ensures var name := Cleaned(raw);
            var pieces := FoundPieces(name);
            FindName(raw).0 + FindName(raw).1 == name &&
            (pieces == [] ==> FindName(raw) == (name, "")) &&
            (forall v :: v in pieces ==> 0 <= RFind(name, v) && EndOfLast(name, v) <= |FindName(raw).0|) &&
            (pieces != [] ==>
               exists v :: v in pieces && EndOfLast(name, v) == |FindName(raw).0| &&
                 FindName(raw).0[|FindName(raw).0| - |v|..] == v)
  {
    var name := Cleaned(raw);
    FoundPiecesOccur(name);
    CutAfterLaws(name, FoundPieces(name));
  }

  // ---------------------------------------------------------------------
  // The comma split of the main loop and the per-line body

  /** The name, job and address a line is cut into. */
  datatype Fields = Fields(name: string, job: string, address: Address)

  /** The comma split of the main loop: a line without a comma is skipped;
      with two parts the job is `"None"`, with more the job is the second
      part and the address the list of the rest. */
  function CommaSplit(line: string): Option<Fields> {
    var parts := SplitOn(line, ',');
    if |parts| > 1 then
      if |parts| == 2 then Some(Fields(parts[0], "None", Text(parts[1])))
      else Some(Fields(parts[0], parts[1], Parts(parts[2..])))
    else None
  }

  /** A line is skipped exactly when it has no comma. Otherwise the name,
      the job (when it is a part) and the address joined with commas give
      the line back, and no part holds a comma. */
  lemma {:induction false} CommaSplitLaws(line: string)
    ensures CommaSplit(line).None? <==> ',' !in line
    ensures CommaSplit(line).Some? ==>
              var f := CommaSplit(line).value;
              ',' !in f.name &&
              (f.address.Text? ==> f.job == "None" && ',' !in f.address.text && f.name + "," + f.address.text == line) &&
              (f.address.Parts? ==> (',' !in f.job && f.address.parts != [] &&
                 Join(",", [f.name, f.job] + f.address.parts) == line &&
                 forall i :: 0 <= i < |f.address.parts| ==> ',' !in f.address.parts[i]))
  {
    var parts := SplitOn(line, ',');
    JoinSplitOn(line, ',');
    SplitOnNoSep(line, ',');
    SplitOnStep(line, ',');
    var n := PieceLength(line, ',');
    if n == |line| {
      assert ',' !in line;
    } else {
      assert line[n] == ',';
      assert |parts| > 1;
      if |parts| == 2 {
        assert Join(",", parts) == parts[0] + "," + Join(",", parts[1..]);
        assert parts[1..] == [parts[1]];
      } else {
        assert parts == [parts[0], parts[1]] + parts[2..];
      }
    }
  }

  /** What the main loop writes for one person: the dictionary and the
      `rest` of the name. */
  datatype Entry = Entry(name: string, jobTitle: string, address: Address, rest: string)

  /** The body of the main loop for one line. */
  function LineEntry(line: string): Option<Entry> {
    match CommaSplit(line)
    case None => None
    case Some(f) =>
      var (name, job) := NameAndJob(f.name, f.job);
      var (first, rest) := FindName(name);
      Some(Entry(Strip(first), job, f.address, rest))
  }

  /** A line gives an entry exactly when it has a comma; the entry keeps
      the address of the split, its job holds no bracket, and its name and
      rest come from cutting the cleaned name. */
  lemma {:induction false} LineEntryLaws(line: string)
    ensures LineEntry(line).Some? <==> ',' in line
    ensures LineEntry(line).Some? ==>
              var f := CommaSplit(line).value;
              var e := LineEntry(line).value;
              var name := NameAndJob(f.name, f.job).0;
              e.address == f.address && !HasBracket(e.jobTitle) &&
              exists first :: first + e.rest == Cleaned(name) && e.name == Strip(first)
  {
    CommaSplitLaws(line);
    if CommaSplit(line).Some? {
      var f := CommaSplit(line).value;
      NameAndJobLaws(f.name, f.job);
      var name := NameAndJob(f.name, f.job).0;
      FindNameLaws(name);
      var first := FindName(name).0;
      assert first + LineEntry(line).value.rest == Cleaned(name);
    }
  }

  /** The body of the main loop for one line, on the person dictionary. */
  method ProcessLine(line: string) returns (entry: Option<Entry>)
    ensures entry == LineEntry(line)
  {
    var parts := SplitOn(line, ',');
    entry := None;
    if |parts| > 1 {
      var name := parts[0];
      var job, address;
      if |parts| == 2 {
        job, address := "None", Text(parts[1]);
      } else {
        job, address := parts[1], Parts(parts[2..]);
      }
      var person := new PersonDict(name, job, address);
      person.RemoveNameFromJob();
      var newName, rest := FindName(person.name).0, FindName(person.name).1;
      person.name := Strip(newName);
      entry := Some(Entry(person.name, person.jobTitle, person.address, rest));
    }
  }

  // ---------------------------------------------------------------------
  // Pages and the main loop

  /** `get_text`: the pages `first..last` (1-based, inclusive) with every
      hyphen at a line end joined up. */
  function GetText(pages: seq<string>, first: int, last: int): seq<string> {
    Map(page => Replace(page, "-\n", ""), Slice(pages, first - 1, last))
  }

  /** For a page range inside the book, one text per page, in order. */
  lemma {:induction false} GetTextLaws(pages: seq<string>, first: int, last: int)
    requires 1 <= first <= last <= |pages|
    ensures |GetText(pages, first, last)| == last - first + 1
    ensures forall i :: 0 <= i < |GetText(pages, first, last)| ==>
              GetText(pages, first, last)[i] == Replace(pages[first - 1 + i], "-\n", "")
  {
  }

  /** The complete lines of one page: blank lines halved, cut at newlines,
      junk removed, grouped, stripped. */
  function CompleteLines(text: string): seq<string> {
    Map(Strip, Grouped(Filter(Kept, SplitOn(Replace(text, "\n\n", "\n"), '\n'))))
  }

  /** The entries of one page, in line order. */
  function PageEntries(text: string): seq<Entry> {
    Collected(LineEntry, CompleteLines(text))
  }

  /** A line gives an entry exactly when it has a comma. */
  lemma {:induction false} LineEntrySome(line: string)
    ensures LineEntry(line).Some? <==> ',' in line
  {
    CommaSplitLaws(line);
  }

  /** Lines give one entry per line with a comma. */
  lemma {:induction false} EntriesCount(lines: seq<string>)
    ensures |Collected(LineEntry, lines)| == |Filter(l => ',' in l, lines)|
  {
    forall i | 0 <= i < |lines| ensures LineEntry(lines[i]).Some? == (',' in lines[i]) {
      LineEntrySome(lines[i]);
    }
    CollectedCount(LineEntry, l => ',' in l, lines);
  }

  /** The entries of every page, in page order. */
  function BookEntries(texts: seq<string>): seq<Entry> {
    Concat(Map(PageEntries, texts))
  }

  /** The loop over the complete lines of one page. */
  method PageLoop(lines: seq<string>) returns (entries: seq<Entry>)
    ensures entries == Collected(LineEntry, lines)
  {
    entries := [];
    for l := 0 to |lines|
      invariant entries == Collected(LineEntry, lines[..l])
    {
      CollectedPrefix(LineEntry, lines, l);
      var entry := ProcessLine(lines[l]);
      entries := entries + Emitted(entry);
    }
    assert lines[..|lines|] == lines;
  }

  /** One more page adds its entries at the end. */
  lemma {:induction false} BookEntriesStep(texts: seq<string>, i: nat)
    requires i < |texts|
    ensures BookEntries(texts[..i + 1]) == BookEntries(texts[..i]) + PageEntries(texts[i])
  {
    assert texts[..i + 1] == texts[..i] + [texts[i]];
    MapSnoc(PageEntries, texts[..i], texts[i]);
    ConcatSnoc(Map(PageEntries, texts[..i]), PageEntries(texts[i]));
  }

  /** The main block over the pages `first..last` of the book. */
  method Run(pages: seq<string>, first: int, last: int) returns (entries: seq<Entry>)
    ensures entries == BookEntries(GetText(pages, first, last))
  {
    var texts := GetText(pages, first, last);
    entries := [];
    for i := 0 to |texts|
      invariant entries == BookEntries(texts[..i])
    {
      BookEntriesStep(texts, i);
      var text := Replace(texts[i], "\n\n", "\n");
      var lineList := SplitOn(text, '\n');
      var kept := RemoveJunk(lineList);
      var complete := ProcessSentences(kept);
      complete := Map(Strip, complete);
      var pageEntries := PageLoop(complete);
      entries := entries + pageEntries;
    }
    assert texts[..|texts|] == texts;
  }
}
