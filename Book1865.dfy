/** 1865.py: the 1865 address book. Headers are found on their blank-free
    form, each line is cut at its last upper-case initial (with the N/O
    fallback), and the job title is rebound at every record a line gives. */
module Book1865 {
  import opened Py
  import opened Normalize
  import opened Tokens
  import opened Sections
  import opened Records

  // ---------------------------------------------------------------------
  // get_job_list / extract_lines

  /** The header test of `get_job_list`, all on the line with its blanks
      removed: both the first four and the last three characters pass
      `isupper`, it is longer than three characters and has no digit. */
  predicate IsJobLine(line: string) {
    var t := Replace(line, " ", "");
    IsUpperStr(Slice(t, 0, 4)) && IsUpperStr(Slice(t, -3, |t|)) && |t| > 3 && !HasDigit(t)
  }

  /** `get_job_list` */
  method GetJobList(lines: seq<string>) returns (jobs: seq<string>)
    ensures jobs == Filter(IsJobLine, lines)
    ensures IsSubseq(jobs, lines)
    ensures forall x :: x in jobs <==> x in lines && IsJobLine(x)
    ensures forall x :: IsJobLine(x) ==> multiset(jobs)[x] == multiset(lines)[x]
  {
    jobs := [];
    var i := 0;
    while i < |lines|
      invariant 0 <= i <= |lines|
      invariant jobs == Filter(IsJobLine, lines[..i])
    {
      assert lines[..i + 1] == lines[..i] + [lines[i]];
      FilterSnoc(IsJobLine, lines[..i], lines[i]);
      if IsJobLine(lines[i]) {
        jobs := jobs + [lines[i]];
      }
      i := i + 1;
    }
    assert lines[..i] == lines;
    FilterExact(IsJobLine, lines);
  }

  /** `extract_lines`: a section per header; the section whose start equals
      the last start runs to the end of the text. */
  method ExtractLines(text: string) returns (d: Dict)
    ensures d == ExtractedSections(text, IsJobLine, true)
    ensures forall i :: 0 <= i < |d| ==> IsJobLine(d[i].0)
    ensures var lines := TextLines(text);
            DistinctHeaders(lines, IsJobLine) ==>
              Keys(d) == Filter(IsJobLine, lines) &&
              forall p :: 0 <= p < |lines| && IsJobLine(lines[p]) ==>
                Lookup(d, lines[p]) == Some(lines[p + 1..NextHeader(lines, IsJobLine, p + 1)])
  {
    var lines := TextLines(text);
    var jobs := GetJobList(lines);
    HeadersOccur(lines, IsJobLine);
    var idx := IndexLoop(lines, jobs);
    d := FillSections(lines, idx, true);
    ExtractedKeysAreHeaders(text, IsJobLine, true);
    if DistinctHeaders(lines, IsJobLine) {
      ExtractedSectionsLaws(text, IsJobLine, true);
    }
  }

  // ---------------------------------------------------------------------
  // count_initials

  /** Name and address of the parts of a line: up to the first occurrence
      of the chosen upper-case initial, and the rest. */
  function Counted(parts: seq<string>): (seq<string>, seq<string>) {
    var n := Boundary(parts, IsInitialUpper, true);
    (parts[..n], parts[n..])
  }

  /** `count_initials` */
  method CountInitials(sentence: string) returns (name: seq<string>, address: seq<string>)
    ensures (name, address) == Counted(Split(AddSpaces(sentence)))
  {
    var s := AddSpaces(sentence);
    var parts := Split(s);
    var initials := CollectInitials(parts, IsInitialUpper);
    MapStripSplit(parts);
    BoundaryLaws(parts, IsInitialUpper, true);
    var finalInitial := ChooseInitial(initials, true);
    var finalPosition: int := -1;
    if finalInitial.Some? {
      finalPosition := IndexOf(parts, finalInitial.value);
    }
    name := parts[..finalPosition + 1];
    address := parts[finalPosition + 1..];
  }

  /** The cut keeps every part in order; the name is empty exactly when no
      part is an upper-case initial, and otherwise ends at the first
      occurrence of the last initial, or of the one before it when the last
      is an N or an O and there are two or more. */
  lemma {:induction false} CountedLaws(parts: seq<string>)
    ensures var (name, address) := Counted(parts);
            var initials := Filter(IsInitialUpper, parts);
            name + address == parts &&
            (name == [] <==> initials == []) &&
            (name != [] ==> Last(name) !in name[..|name| - 1]) &&
            (name != [] ==> Last(name) == if |initials| >= 2 && StartsWithNO(Last(initials))
                                         then initials[|initials| - 2] else Last(initials))
  {
    CutByLetter(parts, IsInitialUpper, false, true);
  }

  // ---------------------------------------------------------------------
  // format_name / extract_people

  /** `format_name`: initials, then particles of the short list, then the
      other parts with `only_letters` applied, joined by blanks. */
  function FormatName(names: seq<string>): string {
    Join(" ", OrderedName(names, LowerIsShortParticle, OnlyLetters))
  }

  /** `job[0] + job[1:].lower().rstrip(' ').rstrip('.')` */
  function FormatJob(job: string): (r: string)
    requires job != []
    ensures r != [] && r[0] == job[0]
  {
    [job[0]] + RStripDots(RStrip(Lower(job[1..]), IsBlank))
  }

  /** The job title keeps its first character, lower-cases the others and
      drops trailing blanks and then trailing periods, nothing else. */
  lemma {:induction false} FormatJobLaws(job: string)
    requires job != []
    ensures var r := FormatJob(job);
            |r| <= |job| &&
            (forall i :: 1 <= i < |r| ==> r[i] == ToLower(job[i])) &&
            (|r| > 1 ==> r[|r| - 1] != '.') &&
            forall i :: |r| <= i < |job| ==> job[i] == ' ' || job[i] == '.'
  {
    var low := Lower(job[1..]);
    var blanks := RStrip(low, IsBlank);
    RStripLaws(low, IsBlank);
    RStripLaws(blanks, IsDot);
    var r := FormatJob(job);
    forall i | 1 <= i < |r| ensures r[i] == ToLower(job[i]) {
      assert r[i] == blanks[i - 1] == low[i - 1];
    }
    forall i | |r| <= i < |job| ensures job[i] == ' ' || job[i] == '.' {
      if i - 1 < |blanks| {
        assert blanks[i - 1] == '.';
      } else {
        assert low[i - 1] == ' ';
      }
    }
  }

  /** The rebinding is not idempotent: a second record on the same line
      gets a different title. */
  lemma {:induction false} FormatJobNotIdempotent()
    ensures FormatJob("Xa .") == "Xa " && FormatJob("Xa ") == "Xa"
  {
    assert Lower("a .") == "a .";
    assert RStrip("a .", IsBlank) == "a .";
    assert RStripDots("a .") == "a " by {
      var t := "a .";
      assert t[..2] == "a ";
      assert RStrip("a ", IsDot) == "a ";
    }
    assert Lower("a ") == "a ";
    assert RStrip("a ", IsBlank) == "a" by {
      var t := "a ";
      assert t[..1] == "a";
      assert RStrip("a", IsBlank) == "a";
    }
    assert RStripDots("a") == "a";
  }

  /** The job after `k` records: `FormatJob` applied `k` times. */
  function Rebound(job: string, k: nat): (r: string)
    requires job != []
    ensures r != []
  {
    if k == 0 then job else FormatJob(Rebound(job, k - 1))
  }

  /** One more record formats the job once more. */
  lemma {:induction false} ReboundNext(job: string, k: nat)
    requires job != []
    ensures Rebound(job, k + 1) == FormatJob(Rebound(job, k))
  {
  }

  /** What a line gives under the current job: the first record it
      emits, if any, and the job the next line sees. A line with a name of
      more than one part emits once per address part holding a digit. */
  function LineOutcome(job: string, line: string): (Option<Person>, string)
    requires job != []
  {
    var (name, address) := Counted(Split(AddSpaces(line)));
    Outcome(job, name, address)
  }

  /** The outcome of a line once cut into `name` and `address`. */
  function Outcome(job: string, name: seq<string>, address: seq<string>): (Option<Person>, string)
    requires job != []
  {
    var k := if |name| > 1 && address != [] then |Filter(HasDigit, address)| else 0;
    if k > 0 then
      (Some(FirstRecord(name, FormatJob(job), address)), Rebound(job, k))
    else (None, job)
  }

  /** The record of an accepted line: the formatted name, the given job
      and the joined address without trailing periods. */
  function FirstRecord(name: seq<string>, job: string, address: seq<string>): Person {
    MakePerson(FormatName(name), job, RStripDots(Join(" ", address)))
  }

  /** The records of the lines of one section and the final job. */
  function SectionOutcome(job: string, lines: seq<string>): (r: (seq<Person>, string))
    requires job != []
    ensures r.1 != []
    decreases |lines|
  {
    if lines == [] then ([], job)
    else
      var (people, current) := SectionOutcome(job, lines[..|lines| - 1]);
      var (record, next) := LineOutcome(current, Last(lines));
      (people + Emitted(record), next)
  }

  predicate JobsNamed(d: Dict) {
    forall i :: 0 <= i < |d| ==> d[i].0 != []
  }

  /** The records of all sections, in dictionary order. */
  function DictPeople(d: Dict): seq<Person>
    requires JobsNamed(d)
    decreases |d|
  {
    if d == [] then []
    else
      assert JobsNamed(d[..|d| - 1]);
      DictPeople(d[..|d| - 1]) + SectionOutcome(Last(d).0, Last(d).1).0
  }

  /** The loop over the address parts of one accepted line. */
  method EmitLine(job: string, name: seq<string>, address: seq<string>) returns (record: Option<Person>, jobOut: string)
    requires job != []
    ensures var k := |Filter(HasDigit, address)|;
            jobOut == Rebound(job, k) &&
            record == if k > 0 then Some(FirstRecord(name, FormatJob(job), address)) else None
  {
    ghost var first := FirstRecord(name, FormatJob(job), address);
    ghost var k := 0;
    record := None;
    jobOut := job;
    var i := 0;
    while i < |address|
      invariant 0 <= i <= |address|
      invariant k == |Filter(HasDigit, address[..i])|
      invariant jobOut == Rebound(job, k)
      invariant record == if k > 0 then Some(first) else None
    {
      FilterPrefix(HasDigit, address, i);
      if HasDigit(address[i]) {
        ReboundNext(job, k);
        jobOut := FormatJob(jobOut);
        if record.None? {
          record := Some(FirstRecord(name, jobOut, address));
        }
        k := k + 1;
      }
      i := i + 1;
    }
    assert address[..i] == address;
  }

  /** The body of the inner loop of `extract_people` for one line. */
  method ProcessLine(job: string, line: string) returns (record: Option<Person>, jobOut: string)
    requires job != []
    ensures (record, jobOut) == LineOutcome(job, line)
  {
    var name, address := CountInitials(line);
    record, jobOut := None, job;
    if |name| > 1 && address != [] {
      record, jobOut := EmitLine(job, name, address);
    }
  }

  /** One round of the outer loop of `extract_people`. */
  method ExtractSection(job: string, lines: seq<string>) returns (people: seq<Person>, jobOut: string)
    requires job != []
    ensures (people, jobOut) == SectionOutcome(job, lines)
  {
    people := [];
    jobOut := job;
    var l := 0;
    while l < |lines|
      invariant 0 <= l <= |lines|
      invariant (people, jobOut) == SectionOutcome(job, lines[..l])
    {
      assert lines[..l + 1][..l] == lines[..l];
      var record;
      record, jobOut := ProcessLine(jobOut, lines[l]);
      people := people + Emitted(record);
      l := l + 1;
    }
    assert lines[..l] == lines;
  }

  /** `extract_people(job_dict)`: the records in the order they are
      printed. */
  method ExtractPeople(d: Dict) returns (people: seq<Person>)
    requires JobsNamed(d)
    ensures people == DictPeople(d)
  {
    people := [];
    var e := 0;
    while e < |d|
      invariant 0 <= e <= |d|
      invariant JobsNamed(d[..e])
      invariant people == DictPeople(d[..e])
    {
      var section, _ := ExtractSection(d[e].0, d[e].1);
      assert DictPeople(d[..e + 1]) == DictPeople(d[..e]) + section by {
        assert d[..e + 1][..e] == d[..e];
      }
      people := people + section;
      e := e + 1;
    }
    assert d[..e] == d;
  }

  /** A record is emitted only for a name of more than one part whose
      address has a part holding a digit; its address keeps that digit and
      its title is the current job, rebound. */
  lemma {:induction false} OutcomeLaws(job: string, name: seq<string>, address: seq<string>)
    requires job != []
    ensures var (record, _) := Outcome(job, name, address);
            (record.Some? <==> |name| > 1 && exists i :: 0 <= i < |address| && HasDigit(address[i])) &&
            (record.Some? ==> SchemaPerson(record.value) && HasDigit(record.value.address) &&
                              record.value.jobTitle == FormatJob(job))
  {
    FilterExact(HasDigit, address);
    if exists i :: 0 <= i < |address| && HasDigit(address[i]) {
      var i :| 0 <= i < |address| && HasDigit(address[i]);
      assert address[i] in Filter(HasDigit, address);
      JoinHasDigit(" ", address, i);
      RStripDotsKeepsDigits(Join(" ", address));
    }
  }

  /** The main block: strip the text, cut it into sections, collect the
      records. */
  method Run(text: string) returns (people: seq<Person>)
    ensures var d := ExtractedSections(StripText(text, Basic), IsJobLine, true);
            JobsNamed(d) && people == DictPeople(d)
  {
    var stripped := StripText(text, Basic);
    var d := ExtractLines(stripped);
    people := ExtractPeople(d);
  }
}
