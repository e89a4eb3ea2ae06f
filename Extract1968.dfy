/** The 1968 address book (`extract.py`). A first pass over every page reads
    the comma-separated entries and collects the item that looks like a job
    title; the titles are deduplicated, stripped of leading non-letters and
    sorted case-insensitively. A second pass cuts every line at the longest
    title it contains: the text before it is the name, the text after it
    the address, and the line becomes a person when the address holds a
    digit. */
module Extract1968 {
  import opened Py
  import opened Records

  // ---------------------------------------------------------------------
  // Pages

  /** What `f` gives for every page, page after page. */
  function Flat<T>(f: string -> seq<T>, pages: seq<string>): seq<T>
    decreases |pages|
  {
    if pages == [] then [] else Flat(f, pages[..|pages| - 1]) + f(pages[|pages| - 1])
  }

  lemma {:induction false} FlatSnoc<T>(f: string -> seq<T>, pages: seq<string>, i: nat)
    requires i < |pages|
    ensures Flat(f, pages[..i + 1]) == Flat(f, pages[..i]) + f(pages[i])
  {
    assert pages[..i + 1][..i] == pages[..i];
  }

  lemma {:induction false} FlatAppend<T>(f: string -> seq<T>, a: seq<string>, b: seq<string>)
    ensures Flat(f, a + b) == Flat(f, a) + Flat(f, b)
    decreases |b|
  {
    if b == [] {
      assert a + b == a;
    } else {
      var b', x := b[..|b| - 1], b[|b| - 1];
      assert (a + b)[..|a + b| - 1] == a + b';
      FlatAppend(f, a, b');
    }
  }

  lemma {:induction false} FlatSplit<T>(f: string -> seq<T>, pages: seq<string>, i: nat)
    requires i < |pages|
    ensures Flat(f, pages) == Flat(f, pages[..i]) + f(pages[i]) + Flat(f, pages[i + 1..])
  {
    var a, b := pages[..i + 1], pages[i + 1..];
    assert a + b == pages;
    FlatSnoc(f, pages, i);
    FlatAppend(f, a, b);
  }

  predicate NonEmpty(s: string) { s != [] }

  /** `s.lstrip()` */
  function LStripSpace(s: string): string { LStrip(s, IsSpace) }

  // ---------------------------------------------------------------------
  // First pass: job candidates

  /** The entries of a page: words cut by a hyphen at a line end are
      joined, the text is cut at blank lines, empty entries are dropped. */
  function PagePieces(page: string): seq<string> {
    Filter(NonEmpty, SplitStr(Replace(page, "-\n", ""), "\n\n"))
  }

  /** The items of an entry: trailing periods and line breaks go, the entry
      is cut at commas, empty items are dropped and the others left-stripped. */
  function PieceItems(piece: string): seq<string> {
    Map(LStripSpace, Filter(NonEmpty, SplitOn(Replace(RStripDots(piece), "\n", ""), ',')))
  }

  /** The items hold neither a comma nor a line break, and none starts
      with whitespace. */
  lemma {:induction false} PieceItemsLaws(piece: string)
    ensures forall k :: 0 <= k < |PieceItems(piece)| ==>
              ',' !in PieceItems(piece)[k] && '\n' !in PieceItems(piece)[k] &&
              (PieceItems(piece)[k] == [] || !IsSpace(PieceItems(piece)[k][0]))
  {
    var t := Replace(RStripDots(piece), "\n", "");
    ReplaceRemovesChar(RStripDots(piece), '\n', "");
    var parts := Filter(NonEmpty, SplitOn(t, ','));
    SplitOnNoSep(t, ',');
    forall k | 0 <= k < |parts| ensures ',' !in parts[k] && '\n' !in parts[k] {
      FilterMember(NonEmpty, SplitOn(t, ','), parts[k]);
      var m :| 0 <= m < |SplitOn(t, ',')| && SplitOn(t, ',')[m] == parts[k];
      SplitOnChars(t, ',', m);
    }
    forall k | 0 <= k < |parts|
      ensures ',' !in LStripSpace(parts[k]) && '\n' !in LStripSpace(parts[k]) &&
              (LStripSpace(parts[k]) == [] || !IsSpace(LStripSpace(parts[k])[0]))
    {
      LStripLaws(parts[k], IsSpace);
    }
  }

  /** A piece of `split(sep)` holds only characters of the text. */
  lemma {:induction false} SplitOnChars(s: string, sep: char, m: nat)
    requires m < |SplitOn(s, sep)|
    ensures forall c :: c in SplitOn(s, sep)[m] ==> c in s
    decreases |s|
  {
    var n := PieceLength(s, sep);
    SplitOnStep(s, sep);
    if n < |s| {
      var rest := SplitOn(s[n + 1..], sep);
      if m > 0 {
        SplitOnChars(s[n + 1..], sep, m - 1);
        SuffixChars(s, n + 1, rest[m - 1]);
      }
    }
  }

  lemma {:induction false} SuffixChars(s: string, k: nat, t: string)
    requires k <= |s| && forall c :: c in t ==> c in s[k..]
    ensures forall c :: c in t ==> c in s
  {
    forall c | c in t ensures c in s {
      var j :| 0 <= j < |s[k..]| && s[k..][j] == c;
      assert s[k + j] == c;
    }
  }

  const EmDash: char := '\U{2014}'

  /** Longer than three characters, no digit, fewer than four words. */
  predicate JobLike(job: string) {
    |job| > 3 && !HasDigit(job) && |Split(job)| < 4
  }

  /** What the job test makes of one entry: an `IndexError` (an item it
      indexes is missing or empty), no job, or the job. */
  datatype Verdict = Crash | NoJob | Job(title: string)

  function PieceVerdict(items: seq<string>): Verdict {
    if items == [] || items[0] == [] then Crash
    else if items[0][0] == EmDash && |items| >= 2 then
      if JobLike(items[1]) && !IsUpper(items[1][0]) then Job(items[1]) else NoJob
    else if |items| >= 3 then
      if items[1] == [] then Crash
      else if !IsUpper(items[1][0]) then
        if JobLike(items[1]) then Job(items[1]) else NoJob
      else if items[2] == [] then Crash
      else if !IsUpper(items[2][0]) then
        if JobLike(items[2]) then Job(items[2]) else NoJob
      else NoJob
    else NoJob
  }

  /** A job is the second or third item, looks like a job and does not
      start with a capital; the test fails only on a missing or empty item
      among the first three; an entry led by an em dash gives its second
      item exactly when that item passes. */
  lemma {:induction false} PieceVerdictLaws(items: seq<string>)
    ensures PieceVerdict(items).Job? ==>
              var j := PieceVerdict(items).title;
              JobLike(j) && !IsUpper(j[0]) && |items| >= 2 &&
              (j == items[1] || (|items| >= 3 && j == items[2]))
    ensures PieceVerdict(items) == Crash <==>
              items == [] || items[0] == [] ||
              (items[0][0] != EmDash && |items| >= 3 &&
               (items[1] == [] || (IsUpper(items[1][0]) && items[2] == [])))
    ensures items != [] && (forall k :: 0 <= k < |items| ==> items[k] != []) ==>
              PieceVerdict(items) != Crash
    ensures |items| >= 2 && items[0] != [] && items[0][0] == EmDash ==>
              (PieceVerdict(items).Job? <==> JobLike(items[1]) && !IsUpper(items[1][0]))
  {
  }

  /** The job test of one entry. */
  function EntryVerdict(piece: string): Verdict {
    PieceVerdict(PieceItems(piece))
  }

  /** The job list after one more entry; `None` once the script has
      stopped with an `IndexError`. */
  function Step(v: string -> Verdict, acc: Option<seq<string>>, piece: string): Option<seq<string>> {
    if acc.None? then None
    else
      match v(piece)
      case Crash => None
      case NoJob => acc
      case Job(j) => Some(acc.value + [j])
  }

  function Fold(v: string -> Verdict, acc: Option<seq<string>>, pieces: seq<string>): Option<seq<string>>
    decreases |pieces|
  {
    if pieces == [] then acc else Step(v, Fold(v, acc, pieces[..|pieces| - 1]), pieces[|pieces| - 1])
  }

  lemma {:induction false} FoldSnoc(v: string -> Verdict, acc: Option<seq<string>>, pieces: seq<string>, piece: string)
    ensures Fold(v, acc, pieces + [piece]) == Step(v, Fold(v, acc, pieces), piece)
  {
    assert (pieces + [piece])[..|pieces|] == pieces;
  }

  lemma {:induction false} FoldNone(v: string -> Verdict, pieces: seq<string>)
    ensures Fold(v, None, pieces) == None
    decreases |pieces|
  {
    if pieces != [] {
      FoldNone(v, pieces[..|pieces| - 1]);
    }
  }

  lemma {:induction false} FoldAppend(v: string -> Verdict, acc: Option<seq<string>>, a: seq<string>, b: seq<string>)
    ensures Fold(v, acc, a + b) == Fold(v, Fold(v, acc, a), b)
    decreases |b|
  {
    if b == [] {
      assert a + b == a;
    } else {
      var b', x := b[..|b| - 1], b[|b| - 1];
      assert a + b == (a + b') + [x];
      assert b == b' + [x];
      FoldSnoc(v, acc, a + b', x);
      FoldSnoc(v, Fold(v, acc, a), b', x);
      FoldAppend(v, acc, a, b');
    }
  }

  /** An entry that fails the job test stops the pass for good. */
  lemma {:induction false} FoldCrash(v: string -> Verdict, a: seq<string>, x: string, b: seq<string>)
    requires v(x) == Crash
    ensures Fold(v, Some([]), a + [x] + b) == None
  {
    FoldAppend(v, Some([]), a + [x], b);
    FoldSnoc(v, Some([]), a, x);
    FoldNone(v, b);
  }

  /** The jobs of the entries that have one, in order. */
  function Jobs(v: string -> Verdict, pieces: seq<string>): seq<string>
    decreases |pieces|
  {
    if pieces == [] then []
    else
      var last := v(pieces[|pieces| - 1]);
      Jobs(v, pieces[..|pieces| - 1]) + (if last.Job? then [last.title] else [])
  }

  predicate AnyCrash(v: string -> Verdict, pieces: seq<string>) {
    exists k :: 0 <= k < |pieces| && v(pieces[k]) == Crash
  }

  /** The pass stops exactly when some entry fails the job test with an
      `IndexError`; otherwise it keeps the job of every entry that has
      one, in order. */
  lemma {:induction false} FoldLaws(v: string -> Verdict, pieces: seq<string>)
    ensures Fold(v, Some([]), pieces) == if AnyCrash(v, pieces) then None else Some(Jobs(v, pieces))
    decreases |pieces|
  {
    if pieces != [] {
      var init, x := pieces[..|pieces| - 1], pieces[|pieces| - 1];
      FoldLaws(v, init);
      if AnyCrash(v, init) {
        var k :| 0 <= k < |init| && v(init[k]) == Crash;
        assert pieces[k] == init[k];
      } else if v(x) == Crash {
        assert v(pieces[|pieces| - 1]) == Crash;
      } else {
        forall k | 0 <= k < |pieces| ensures v(pieces[k]) != Crash {
          if k < |init| {
            assert pieces[k] == init[k];
          }
        }
        assert !AnyCrash(v, pieces);
        assert Fold(v, Some([]), pieces) == Step(v, Some(Jobs(v, init)), x);
        if v(x).NoJob? {
          assert Jobs(v, pieces) == Jobs(v, init) + [];
          assert Jobs(v, init) + [] == Jobs(v, init);
        }
      }
    }
  }

  /** At most one job per entry, and every job is the job of an entry. */
  lemma {:induction false} JobsLaws(v: string -> Verdict, pieces: seq<string>)
    ensures |Jobs(v, pieces)| <= |pieces|
    ensures forall m :: 0 <= m < |Jobs(v, pieces)| ==>
              exists k :: 0 <= k < |pieces| && v(pieces[k]) == Job(Jobs(v, pieces)[m])
    decreases |pieces|
  {
    if pieces != [] {
      var init, x := pieces[..|pieces| - 1], pieces[|pieces| - 1];
      JobsLaws(v, init);
      var js := Jobs(v, pieces);
      forall m | 0 <= m < |js| ensures exists k :: 0 <= k < |pieces| && v(pieces[k]) == Job(js[m]) {
        if m < |Jobs(v, init)| {
          var k :| 0 <= k < |init| && v(init[k]) == Job(Jobs(v, init)[m]);
          assert pieces[k] == init[k];
        } else {
          assert v(pieces[|pieces| - 1]) == Job(js[m]);
        }
      }
    }
  }

  /** The job candidates of all pages (`None`: the script stops). */
  function CandidateJobs(pages: seq<string>): Option<seq<string>> {
    Fold(EntryVerdict, Some([]), Flat(PagePieces, pages))
  }

  /** The pass stops exactly when an entry fails the job test; otherwise
      every candidate looks like a job, does not start with a capital, and
      is the second or third item of its own entry. */
  lemma {:induction false} CandidateJobsLaws(pages: seq<string>)
    ensures CandidateJobs(pages).None? <==> AnyCrash(EntryVerdict, Flat(PagePieces, pages))
    ensures CandidateJobs(pages).Some? ==>
              |CandidateJobs(pages).value| <= |Flat(PagePieces, pages)| &&
              forall m :: 0 <= m < |CandidateJobs(pages).value| ==>
                JobLike(CandidateJobs(pages).value[m]) && !IsUpper(CandidateJobs(pages).value[m][0])
  {
    var pieces := Flat(PagePieces, pages);
    FoldLaws(EntryVerdict, pieces);
    JobsLaws(EntryVerdict, pieces);
    var js := Jobs(EntryVerdict, pieces);
    forall m | 0 <= m < |js| ensures JobLike(js[m]) && !IsUpper(js[m][0]) {
      var k :| 0 <= k < |pieces| && EntryVerdict(pieces[k]) == Job(js[m]);
      PieceVerdictLaws(PieceItems(pieces[k]));
    }
  }

  /** An entry of any page that fails the job test stops the whole pass. */
  lemma {:induction false} CrashIn(v: string -> Verdict, f: string -> seq<string>, pages: seq<string>, i: nat, j: nat)
    requires i < |pages| && j < |f(pages[i])|
    requires v(f(pages[i])[j]) == Crash
    ensures Fold(v, Some([]), Flat(f, pages)) == None
  {
    var pieces := f(pages[i]);
    FlatSplit(f, pages, i);
    assert pieces == pieces[..j] + [pieces[j]] + pieces[j + 1..];
    assert Flat(f, pages) ==
           (Flat(f, pages[..i]) + pieces[..j]) + [pieces[j]] + (pieces[j + 1..] + Flat(f, pages[i + 1..]));
    FoldCrash(v, Flat(f, pages[..i]) + pieces[..j], pieces[j], pieces[j + 1..] + Flat(f, pages[i + 1..]));
  }

  /** Lines 24-42 for one entry. */
  method JudgeEntry(entry: string) returns (verdict: Verdict)
    ensures verdict == EntryVerdict(entry)
  {
    var text := Replace(RStripDots(entry), "\n", "");
    var split := SplitOn(text, ',');
    split := Filter(NonEmpty, split);
    split := Map(LStripSpace, split);
    if split == [] || split[0] == [] {
      return Crash;
    }
    verdict := NoJob;
    if split[0][0] == EmDash && |split| >= 2 {
      split := split[0 := LStripSpace(LStrip(LStrip(LStrip(split[0], IsEmDash), IsUnderscore), IsHyphen))];
      var job := split[1];
      if |job| > 3 && !HasDigit(job) && !IsUpper(job[0]) && |Split(job)| < 4 {
        verdict := Job(job);
      }
    } else if |split| >= 3 {
      if split[1] == [] {
        return Crash;
      }
      if !IsUpper(split[1][0]) {
        var job := split[1];
        if |job| > 3 && !HasDigit(job) && |Split(job)| < 4 {
          verdict := Job(job);
        }
      } else {
        if split[2] == [] {
          return Crash;
        }
        if !IsUpper(split[2][0]) {
          var job := split[2];
          if |job| > 3 && !HasDigit(job) && |Split(job)| < 4 {
            verdict := Job(job);
          }
        }
      }
    }
  }

  /** Lines 17-42: the pass over all pages that collects job candidates. */
  method CollectJobCandidates(pages: seq<string>) returns (jobs: Option<seq<string>>)
    ensures jobs == CandidateJobs(pages)
  {
    var jobList: seq<string> := [];
    ghost var done: seq<string> := [];
    for i := 0 to |pages|
      invariant done == Flat(PagePieces, pages[..i])
      invariant Fold(EntryVerdict, Some([]), done) == Some(jobList)
    {
      var text := Replace(pages[i], "-\n", "");
      var textList := SplitStr(text, "\n\n");
      textList := Filter(NonEmpty, textList);
      SliceEnds(done, textList);
      for j := 0 to |textList|
        invariant Fold(EntryVerdict, Some([]), done + textList[..j]) == Some(jobList)
      {
        SnocSlice(done, textList, j);
        FoldSnoc(EntryVerdict, Some([]), done + textList[..j], textList[j]);
        var verdict := JudgeEntry(textList[j]);
        if verdict.Crash? {
          CrashIn(EntryVerdict, PagePieces, pages, i, j);
          return None;
        }
        if verdict.Job? {
          jobList := jobList + [verdict.title];
        }
      }
      FlatSnoc(PagePieces, pages, i);
      done := done + textList;
    }
    SliceEnds([], pages);
    jobs := Some(jobList);
  }

  predicate IsEmDash(c: char) { c == EmDash }
  predicate IsUnderscore(c: char) { c == '_' }
  predicate IsHyphen(c: char) { c == '-' }

  // ---------------------------------------------------------------------
  // Cleaning the job list

  /** The distinct jobs, each where it first occurs. */
  function Dedup(xs: seq<string>): seq<string>
    decreases |xs|
  {
    if xs == [] then []
    else
      var d := Dedup(xs[..|xs| - 1]);
      if xs[|xs| - 1] in d then d else d + [xs[|xs| - 1]]
  }

  /** No job twice, the same jobs, no more of them. */
  lemma {:induction false} DedupLaws(xs: seq<string>)
    ensures Distinct(Dedup(xs))
    ensures forall x :: x in Dedup(xs) <==> x in xs
    ensures |Dedup(xs)| <= |xs|
    decreases |xs|
  {
    if xs != [] {
      var init, x := xs[..|xs| - 1], xs[|xs| - 1];
      DedupLaws(init);
      assert xs == init + [x];
    }
  }

  predicate NotAlpha(c: char) { !IsAlpha(c) }

  /** `re.sub(r'^[^a-zA-Z]+', '', s)` */
  function StripLeading(s: string): string {
    LStrip(s, NotAlpha)
  }

  /** Only a leading run of non-letters goes: what is left is a suffix that
      is empty or starts with a letter, and it keeps every letter. */
  lemma {:induction false} StripLeadingLaws(s: string)
    ensures |StripLeading(s)| <= |s| && StripLeading(s) == s[|s| - |StripLeading(s)|..]
    ensures StripLeading(s) == [] || IsAlpha(StripLeading(s)[0])
    ensures Filter(IsAlpha, StripLeading(s)) == Filter(IsAlpha, s)
  {
    LStripLaws(s, NotAlpha);
    LStripKeeps(IsAlpha, s, NotAlpha);
  }

  /** Python's string order: code point by code point, a proper prefix
      first. */
  predicate LexLeq(a: string, b: string)
    decreases |a|
  {
    a == [] || (b != [] && (a[0] < b[0] || (a[0] == b[0] && LexLeq(a[1..], b[1..]))))
  }

  lemma {:induction false} LexTotal(a: string, b: string)
    ensures LexLeq(a, b) || LexLeq(b, a)
    decreases |a|
  {
    if a != [] && b != [] && a[0] == b[0] {
      LexTotal(a[1..], b[1..]);
    }
  }

  lemma {:induction false} LexTrans(a: string, b: string, c: string)
    requires LexLeq(a, b) && LexLeq(b, c)
    ensures LexLeq(a, c)
    decreases |a|
  {
    if a != [] && a[0] == b[0] && b[0] == c[0] {
      LexTrans(a[1..], b[1..], c[1..]);
    }
  }

  /** The sort key `str.lower`. */
  function Key(s: string): string { Lower(s) }

  predicate SortedByKey(xs: seq<string>) {
    forall i, j :: 0 <= i < j < |xs| ==> LexLeq(Key(xs[i]), Key(xs[j]))
  }

  /** Puts `x` after every element whose key is not greater (so equal keys
      keep their order). */
  function Insert(x: string, xs: seq<string>): seq<string>
    decreases |xs|
  {
    if xs == [] || !LexLeq(Key(xs[0]), Key(x)) then [x] + xs else [xs[0]] + Insert(x, xs[1..])
  }

  /** `sorted(xs, key=str.lower)` */
  function SortByLower(xs: seq<string>): seq<string>
    decreases |xs|
  {
    if xs == [] then [] else Insert(xs[|xs| - 1], SortByLower(xs[..|xs| - 1]))
  }

  lemma {:induction false} SortedCons(y: string, t: seq<string>)
    requires SortedByKey(t)
    requires forall k :: 0 <= k < |t| ==> LexLeq(Key(y), Key(t[k]))
    ensures SortedByKey([y] + t)
  {
    var r := [y] + t;
    forall i, j | 0 <= i < j < |r| ensures LexLeq(Key(r[i]), Key(r[j])) {
      if i == 0 {
        assert r[j] == t[j - 1];
      } else {
        assert r[i] == t[i - 1] && r[j] == t[j - 1];
      }
    }
  }

  lemma {:induction false} InsertLaws(x: string, xs: seq<string>)
    requires SortedByKey(xs)
    ensures SortedByKey(Insert(x, xs))
    ensures multiset(Insert(x, xs)) == multiset(xs) + multiset{x}
    decreases |xs|
  {
    if xs == [] {
    } else if !LexLeq(Key(xs[0]), Key(x)) {
      LexTotal(Key(xs[0]), Key(x));
      forall k | 0 <= k < |xs| ensures LexLeq(Key(x), Key(xs[k])) {
        if k > 0 {
          LexTrans(Key(x), Key(xs[0]), Key(xs[k]));
        }
      }
      SortedCons(x, xs);
    } else {
      InsertLaws(x, xs[1..]);
      InsertAfter(x, xs);
    }
  }

  /** `x` goes behind the head, which is not above anything in the rest. */
  lemma {:induction false} InsertAfter(x: string, xs: seq<string>)
    requires xs != [] && SortedByKey(xs) && LexLeq(Key(xs[0]), Key(x))
    requires SortedByKey(Insert(x, xs[1..]))
    requires multiset(Insert(x, xs[1..])) == multiset(xs[1..]) + multiset{x}
    ensures SortedByKey([xs[0]] + Insert(x, xs[1..]))
    ensures multiset([xs[0]] + Insert(x, xs[1..])) == multiset(xs) + multiset{x}
  {
    var t := Insert(x, xs[1..]);
    HeadBound(xs, x, t);
    SortedCons(xs[0], t);
    assert xs == [xs[0]] + xs[1..];
  }

  /** The head of a sorted list is not above the rest, nor above `x`. */
  lemma {:induction false} HeadBound(xs: seq<string>, x: string, t: seq<string>)
    requires xs != [] && SortedByKey(xs) && LexLeq(Key(xs[0]), Key(x))
    requires multiset(t) == multiset(xs[1..]) + multiset{x}
    ensures forall k :: 0 <= k < |t| ==> LexLeq(Key(xs[0]), Key(t[k]))
  {
    forall k | 0 <= k < |t| ensures LexLeq(Key(xs[0]), Key(t[k])) {
      assert t[k] in multiset(t);
      if t[k] != x {
        var m :| 0 <= m < |xs[1..]| && xs[1..][m] == t[k];
        assert xs[m + 1] == t[k];
      }
    }
  }

  /** The sort orders by lower-case key and only reorders. */
  lemma {:induction false} SortByLowerLaws(xs: seq<string>)
    ensures SortedByKey(SortByLower(xs))
    ensures multiset(SortByLower(xs)) == multiset(xs)
    decreases |xs|
  {
    if xs != [] {
      var init, x := xs[..|xs| - 1], xs[|xs| - 1];
      SortByLowerLaws(init);
      InsertLaws(x, SortByLower(init));
      assert xs == init + [x];
    }
  }

  /** Lines 44-46: dedup, strip leading non-letters, sort. */
  function CleanJobs(jobs: seq<string>): seq<string> {
    SortByLower(Map(StripLeading, Dedup(jobs)))
  }

  /** The cleaned list is sorted by lower-case key, is the stripped
      distinct candidates in some order, and each entry is empty or starts
      with a letter. */
  lemma {:induction false} CleanJobsLaws(jobs: seq<string>)
    ensures SortedByKey(CleanJobs(jobs))
    ensures multiset(CleanJobs(jobs)) == multiset(Map(StripLeading, Dedup(jobs)))
    ensures |CleanJobs(jobs)| <= |jobs|
    ensures forall x :: x in CleanJobs(jobs) ==>
              (x == [] || IsAlpha(x[0])) && exists j :: j in jobs && x == StripLeading(j)
  {
    var d := Dedup(jobs);
    DedupLaws(jobs);
    SortByLowerLaws(Map(StripLeading, d));
    assert |CleanJobs(jobs)| == |multiset(CleanJobs(jobs))|;
    forall x | x in CleanJobs(jobs)
      ensures (x == [] || IsAlpha(x[0])) && exists j :: j in jobs && x == StripLeading(j)
    {
      assert x in multiset(Map(StripLeading, d));
      var k :| 0 <= k < |d| && Map(StripLeading, d)[k] == x;
      StripLeadingLaws(d[k]);
      assert d[k] in jobs;
    }
  }

  // ---------------------------------------------------------------------
  // Second pass: records

  /** The lines of a page: hyphenated line breaks joined, cut at line
      breaks, empty lines dropped. */
  function PageLines(page: string): seq<string> {
    Filter(NonEmpty, SplitOn(Replace(page, "-\n", ""), '\n'))
  }

  /** `[job for job in job_list if job in line]` */
  function PresentJobs(jobs: seq<string>, line: string): seq<string> {
    Filter((job: string) => Contains(line, job), jobs)
  }

  /** `max(xs, key=len)`: the first of the longest. */
  function LongestIndex(xs: seq<string>): (i: nat)
    requires xs != []
    ensures i < |xs|
    ensures forall k :: 0 <= k < |xs| ==> |xs[k]| <= |xs[i]|
    ensures forall k :: 0 <= k < i ==> |xs[k]| < |xs[i]|
    decreases |xs|
  {
    if |xs| == 1 then 0
    else
      var m := 1 + LongestIndex(xs[1..]);
      if |xs[m]| > |xs[0]| then m else 0
  }

  /** A line cut at a job: the text before, the job, the text after. */
  datatype Cut = Cut(before: string, job: string, after: string)

  /** Lines 56-65: the line cut at the first occurrence of the longest job
      it contains. */
  function CutAt(jobs: seq<string>, line: string): Option<Cut> {
    var present := PresentJobs(jobs, line);
    if present == [] then None
    else
      var job := present[LongestIndex(present)];
      var start := Find(line, job);
      if start == -1 then None else Some(Cut(line[..start], job, line[start + |job|..]))
  }

  /** The present jobs are the jobs the line contains. */
  lemma {:induction false} PresentJobsLaws(jobs: seq<string>, line: string)
    ensures forall j :: j in PresentJobs(jobs, line) <==> j in jobs && Contains(line, j)
  {
    FilterExact((job: string) => Contains(line, job), jobs);
  }

  /** A line is cut exactly when it contains a job; the pieces give the
      line back; the job is a longest job in the line, and it does not
      occur earlier in the line. */
  lemma {:induction false} CutAtLaws(jobs: seq<string>, line: string)
    ensures CutAt(jobs, line).Some? <==> exists j :: j in jobs && Contains(line, j)
    ensures CutAt(jobs, line).Some? ==>
              var c := CutAt(jobs, line).value;
              c.before + c.job + c.after == line && c.job in jobs &&
              (forall j :: j in jobs && Contains(line, j) ==> |j| <= |c.job|) &&
              forall k :: 0 <= k < |c.before| ==> !OccursAt(line, c.job, k)
  {
    var present := PresentJobs(jobs, line);
    PresentJobsLaws(jobs, line);
    if present != [] {
      var job := present[LongestIndex(present)];
      assert job in present;
      forall j | j in jobs && Contains(line, j) ensures |j| <= |job| {
        var k :| 0 <= k < |present| && present[k] == j;
      }
      CutAtFound(line, job);
    }
  }

  /** A text that contains `job` is cut around its first occurrence. */
  lemma {:induction false} CutAtFound(line: string, job: string)
    requires Contains(line, job)
    ensures var start := Find(line, job);
            0 <= start && start + |job| <= |line| &&
            line == line[..start] + job + line[start + |job|..] &&
            forall k :: 0 <= k < start ==> !OccursAt(line, job, k)
  {
    var start := Find(line, job);
    assert line[start..start + |job|] == job;
    assert line == line[..start] + line[start..start + |job|] + line[start + |job|..];
  }

  predicate NameChar(c: char) { IsAlpha(c) || c == '.' || c == ' ' }
  predicate TitleChar(c: char) { IsAlpha(c) || c == '.' || c == '-' || c == ' ' }
  predicate AddressChar(c: char) { TitleChar(c) || IsDigit(c) }

  /** `s.strip('.')` */
  function StripDots(s: string): string {
    RStrip(LStrip(s, IsDot), IsDot)
  }

  /** Lines 62-64. */
  function NameOf(before: string): string {
    Strip(Filter(NameChar, before))
  }

  /** Lines 65-68. */
  function AddressOf(after: string): string {
    Filter(AddressChar, Strip(StripDots(Replace(after, ",", "."))))
  }

  /** The name holds letters, periods and inner spaces only, and every
      letter of the text before the job. */
  lemma {:induction false} NameOfLaws(before: string)
    ensures forall c :: c in NameOf(before) ==> NameChar(c)
    ensures NameOf(before) == [] ||
            (NameOf(before)[0] != ' ' && NameOf(before)[|NameOf(before)| - 1] != ' ')
    ensures Filter(IsAlpha, NameOf(before)) == Filter(IsAlpha, before)
  {
    var f := Filter(NameChar, before);
    StripLaws(f);
    StripKeeps(IsAlpha, f);
    FilterNested(IsAlpha, NameChar, before);
  }

  /** The address holds letters, digits, periods, hyphens and spaces only,
      and exactly the digits of the text after the job, in order. */
  lemma {:induction false} AddressOfLaws(after: string)
    ensures forall c :: c in AddressOf(after) ==> AddressChar(c)
    ensures Filter(IsDigit, AddressOf(after)) == Filter(IsDigit, after)
    ensures HasDigit(AddressOf(after)) <==> HasDigit(after)
  {
    var r := Replace(after, ",", ".");
    ReplaceKeeps(IsDigit, after, ",", ".");
    LStripKeeps(IsDigit, r, IsDot);
    RStripKeeps(IsDigit, LStrip(r, IsDot), IsDot);
    StripKeeps(IsDigit, StripDots(r));
    FilterNested(IsDigit, AddressChar, Strip(StripDots(r)));
    HasDigitFilter(AddressOf(after));
    HasDigitFilter(after);
  }

  lemma {:induction false} HasDigitFilter(s: string)
    ensures HasDigit(s) <==> Filter(IsDigit, s) != []
  {
    FilterExact(IsDigit, s);
    if HasDigit(s) {
      var i :| 0 <= i < |s| && IsDigit(s[i]);
      assert s[i] in Filter(IsDigit, s);
    }
    if Filter(IsDigit, s) != [] {
      assert Filter(IsDigit, s)[0] in s;
    }
  }

  /** Lines 55-80 for one line: the person it gives, if any. */
  function LineRecord(jobs: seq<string>, line: string): Option<Person> {
    var cut := CutAt(jobs, line);
    if cut.None? then None
    else
      var address := AddressOf(cut.value.after);
      if HasDigit(address) then
        Some(MakePerson(NameOf(cut.value.before), Filter(TitleChar, cut.value.job), address))
      else None
  }

  /** A line gives a person exactly when it contains a job and the text
      after the (first, longest) job holds a digit; the person's fields
      keep the letters of the name text, the digits of the address text
      and the title characters of the job. */
  lemma {:induction false} LineRecordLaws(jobs: seq<string>, line: string)
    ensures LineRecord(jobs, line).Some? <==>
              CutAt(jobs, line).Some? && HasDigit(CutAt(jobs, line).value.after)
    ensures LineRecord(jobs, line).Some? ==>
              var p, c := LineRecord(jobs, line).value, CutAt(jobs, line).value;
              SchemaPerson(p) &&
              Filter(IsAlpha, p.name) == Filter(IsAlpha, c.before) &&
              Filter(IsDigit, p.address) == Filter(IsDigit, c.after) &&
              Filter(IsAlpha, p.jobTitle) == Filter(IsAlpha, c.job) &&
              (forall ch :: ch in p.jobTitle ==> TitleChar(ch))
  {
    if CutAt(jobs, line).Some? {
      var c := CutAt(jobs, line).value;
      AddressOfLaws(c.after);
      NameOfLaws(c.before);
      FilterNested(IsAlpha, TitleChar, c.job);
    }
  }

  function Recorder(jobs: seq<string>): string -> Option<Person> {
    line => LineRecord(jobs, line)
  }

  /** The persons of all pages, in line order. */
  function Register(jobs: seq<string>, pages: seq<string>): seq<Person> {
    Collected(Recorder(jobs), Flat(PageLines, pages))
  }

  /** Lines 56-80 for one line. */
  method ProcessLine(jobs: seq<string>, line: string) returns (person: Option<Person>)
    ensures person == LineRecord(jobs, line)
  {
    person := None;
    var presentJob := PresentJobs(jobs, line);
    if |presentJob| >= 1 {
      var job := presentJob[LongestIndex(presentJob)];
      var startIndex := Find(line, job);
      if startIndex != -1 {
        var endIndex := startIndex + |job|;
        var name := line[..startIndex];
        name := Filter(NameChar, name);
        name := Strip(name);
        var address := line[endIndex..];
        address := Replace(address, ",", ".");
        address := Strip(StripDots(address));
        address := Filter(AddressChar, address);
        var jobTitle := Filter(TitleChar, job);
        if HasDigit(address) {
          person := Some(MakePerson(name, jobTitle, address));
        }
      }
    }
  }

  /** Lines 50-80: the pass over all pages that builds the register. */
  method BuildRegister(jobs: seq<string>, pages: seq<string>) returns (register: seq<Person>)
    ensures register == Register(jobs, pages)
  {
    register := [];
    ghost var done: seq<string> := [];
    for i := 0 to |pages|
      invariant done == Flat(PageLines, pages[..i])
      invariant register == Collected(Recorder(jobs), done)
    {
      var text := Replace(pages[i], "-\n", "");
      var textList := SplitOn(text, '\n');
      textList := Filter(NonEmpty, textList);
      SliceEnds(done, textList);
      for j := 0 to |textList|
        invariant register == Collected(Recorder(jobs), done + textList[..j])
      {
        SnocSlice(done, textList, j);
        CollectedSnoc(Recorder(jobs), done + textList[..j], textList[j]);
        var person := ProcessLine(jobs, textList[j]);
        if person.Some? {
          register := register + [person.value];
        }
      }
      FlatSnoc(PageLines, pages, i);
      done := done + textList;
    }
    SliceEnds([], pages);
  }

  /** Every person in the register is a schema.org Person with a digit in
      the address, and is what one of the lines gives; there is at most one
      per line. */
  lemma {:induction false} RegisterLaws(jobs: seq<string>, pages: seq<string>)
    ensures |Register(jobs, pages)| <= |Flat(PageLines, pages)|
    ensures forall k :: 0 <= k < |Register(jobs, pages)| ==>
              SchemaPerson(Register(jobs, pages)[k]) && HasDigit(Register(jobs, pages)[k].address) &&
              exists i :: 0 <= i < |Flat(PageLines, pages)| &&
                LineRecord(jobs, Flat(PageLines, pages)[i]) == Some(Register(jobs, pages)[k])
  {
    var lines := Flat(PageLines, pages);
    var people := Register(jobs, pages);
    CollectedLaws(Recorder(jobs), lines);
    forall k | 0 <= k < |people|
      ensures SchemaPerson(people[k]) && HasDigit(people[k].address) &&
              exists i :: 0 <= i < |lines| && LineRecord(jobs, lines[i]) == Some(people[k])
    {
      var i :| 0 <= i < |lines| && Recorder(jobs)(lines[i]) == Some(people[k]);
      assert LineRecord(jobs, lines[i]) == Some(people[k]);
    }
  }

  // ---------------------------------------------------------------------
  // The whole script

  /** The register the script writes, or `None` when the first pass stops
      with an `IndexError`. */
  function Outcome(pages: seq<string>): Option<seq<Person>> {
    var candidates := CandidateJobs(pages);
    if candidates.None? then None else Some(Register(CleanJobs(candidates.value), pages))
  }

  method Run(pages: seq<string>) returns (register: Option<seq<Person>>)
    ensures register == Outcome(pages)
  {
    var candidates := CollectJobCandidates(pages);
    if candidates.None? {
      return None;
    }
    var jobList := CleanJobs(candidates.value);
    var people := BuildRegister(jobList, pages);
    register := Some(people);
  }

  /** The script stops exactly when an entry fails the job test; otherwise
      every person it writes has a digit in the address and comes from one
      line of the pages. */
  lemma {:induction false} OutcomeLaws(pages: seq<string>)
    ensures Outcome(pages).None? <==> AnyCrash(EntryVerdict, Flat(PagePieces, pages))
    ensures Outcome(pages).Some? ==>
              forall k :: 0 <= k < |Outcome(pages).value| ==>
                SchemaPerson(Outcome(pages).value[k]) && HasDigit(Outcome(pages).value[k].address)
  {
    CandidateJobsLaws(pages);
    if Outcome(pages).Some? {
      RegisterLaws(CleanJobs(CandidateJobs(pages).value), pages);
    }
  }
}
