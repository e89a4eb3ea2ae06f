/** scripts/1854.py: the 1854 address book, split into job sections, each
    line cut into a name and an address at its last initial. */
module Scripts1854 {
  import opened Py
  import opened Normalize
  import opened Tokens
  import opened Sections
  import opened Records

  // ---------------------------------------------------------------------
  // get_job_list / extract_lines

  /** `line.replace(' ', '')` */
  function NoBlanks(line: string): string {
    Replace(line, " ", "")
  }

  /** The header test of `get_job_list`: longer than three characters, no
      digit, and with the blanks removed both the first four and the last
      three characters pass `isupper`. */
  predicate IsJobLine(line: string) {
    |line| > 3 && !HasDigit(line) &&
    IsUpperStr(Slice(NoBlanks(line), 0, 4)) &&
    IsUpperStr(Slice(NoBlanks(line), -3, |NoBlanks(line)|))
  }

  /** `get_job_list`: the header lines, in text order, each as often as it
      occurs, and nothing else. */
  function GetJobList(lines: seq<string>): (jobs: seq<string>)
    ensures forall i :: 0 <= i < |jobs| ==> IsJobLine(jobs[i]) && jobs[i] in lines
    ensures forall x :: IsJobLine(x) ==> multiset(jobs)[x] == multiset(lines)[x]
  {
    HeadersOccur(lines, IsJobLine);
    forall x | IsJobLine(x) ensures multiset(Filter(IsJobLine, lines))[x] == multiset(lines)[x] {
      FilterCount(IsJobLine, lines, x);
    }
    Filter(IsJobLine, lines)
  }

  /** `extract_lines`: a section per header, running to the next header in
      the list or, for the last one, to the end of the text. */
  method ExtractLines(text: string) returns (d: Dict)
    ensures d == ExtractedSections(text, IsJobLine, false)
    ensures forall i :: 0 <= i < |d| ==> IsJobLine(d[i].0)
    ensures var lines := TextLines(text);
            DistinctHeaders(lines, IsJobLine) ==>
              Keys(d) == GetJobList(lines) &&
              forall p :: 0 <= p < |lines| && IsJobLine(lines[p]) ==>
                Lookup(d, lines[p]) == Some(lines[p + 1..NextHeader(lines, IsJobLine, p + 1)])
  {
    var lines := TextLines(text);
    var jobs := GetJobList(lines);
    var idx := IndexList(lines, jobs);
    d := FillSections(lines, idx, false);
    ExtractedKeysAreHeaders(text, IsJobLine, false);
    if DistinctHeaders(lines, IsJobLine) {
      ExtractedSectionsLaws(text, IsJobLine, false);
    }
  }

  // ---------------------------------------------------------------------
  // split_on_initials

  /** Name and address of a line: the parts of `add_spaces(sentence).split()`
      cut at the first occurrence of the last initial-shaped part, then
      passed through `find_preposition` with the long particle list. */
  function SplitName(sentence: string): (seq<string>, seq<string>) {
    Cut(Split(AddSpaces(sentence)), IsInitialAnyCase, false, LongParticles)
  }

  /** `split_on_initials` */
  method SplitOnInitials(sentence: string) returns (name: seq<string>, address: seq<string>)
    ensures (name, address) == SplitName(sentence)
  {
    var s := AddSpaces(sentence);
    var parts := Split(s);
    var initials := Filter(IsInitialAnyCase, parts);
    BoundaryLaws(parts, IsInitialAnyCase, false);
    var finalPosition: int := if initials != [] then IndexOf(parts, Last(initials)) else -1;
    ghost var n := Boundary(parts, IsInitialAnyCase, false);
    assert finalPosition + 1 == n;
    name := parts[..finalPosition + 1];
    address := parts[finalPosition + 1..];
    name, address := FindPreposition(name, address, LongParticles);
  }

  /** The split in words: the name is the parts up to and including the
      first occurrence of the last initial-shaped part (none without one),
      followed by the listed particles found in the comma-free rest; the
      address is that rest less one occurrence of each of those particles,
      so no part is lost. */
  lemma {:induction false} SplitNameLaws(sentence: string)
    ensures exists n :: CutAt(Split(AddSpaces(sentence)), IsInitialAnyCase, false, LongParticles, n, SplitName(sentence))
  {
    var parts := Split(AddSpaces(sentence));
    assert Distinct(LongParticles);
    CutLaws(parts, IsInitialAnyCase, false, LongParticles);
    assert SplitName(sentence) == Cut(parts, IsInitialAnyCase, false, LongParticles);
    var n := Boundary(parts, IsInitialAnyCase, false);
    assert CutAt(parts, IsInitialAnyCase, false, LongParticles, n, SplitName(sentence));
  }

  // ---------------------------------------------------------------------
  // format_name / extract_people

  /** `format_name`: initials, then particles, then the other parts with
      `only_letters` applied, joined by blanks. An initial such as `D.` is
      not taken for the particle `d.` as well (`DottedParticleRepeated`). */
  function FormatName(names: seq<string>): string {
    Join(" ", OrderedName(names, IsNameParticle, OnlyLetters))
  }

  /** `job[0].upper() + job[1:].lower().rstrip('.')` */
  function FormatJob(job: string): string
    requires job != []
  {
    [ToUpper(job[0])] + RStripDots(Lower(job[1..]))
  }

  /** The job title keeps its first character upper-cased, the following
      ones lower-cased, and drops exactly the trailing periods after the
      first character. */
  lemma {:induction false} FormatJobLaws(job: string)
    requires job != []
    ensures var r := FormatJob(job);
            1 <= |r| <= |job| && r[0] == ToUpper(job[0]) &&
            (forall i :: 1 <= i < |r| ==> r[i] == ToLower(job[i])) &&
            (|r| > 1 ==> r[|r| - 1] != '.') &&
            forall i :: |r| <= i < |job| ==> job[i] == '.'
  {
    var low := Lower(job[1..]);
    RStripLaws(low, IsDot);
    var r := FormatJob(job);
    forall i | |r| <= i < |job| ensures job[i] == '.' {
      assert low[i - 1] == '.';
    }
  }

  /** The record of one line under the job `job`, if the line has a name
      of more than one part and an address with a digit. */
  function PersonOf(job: string, line: string): Option<Person>
    requires job != []
  {
    var (name, address) := SplitName(line);
    if |name| > 1 && address != [] && HasDigit(Join(" ", address)) then
      Some(MakePerson(FormatName(name), FormatJob(job), RStripDots(Join(" ", address))))
    else None
  }

  /** The records of the lines of one section, in order. */
  function LinePeople(job: string, lines: seq<string>): seq<Person>
    requires job != []
    decreases |lines|
  {
    if lines == [] then []
    else LinePeople(job, lines[..|lines| - 1]) + Emitted(PersonOf(job, Last(lines)))
  }

  /** Every key is a non-empty job title (the headers have more than three
      characters). */
  predicate JobsNamed(d: Dict) {
    forall i :: 0 <= i < |d| ==> d[i].0 != []
  }

  /** The records of all sections, in dictionary order. */
  function DictPeople(d: Dict): seq<Person>
    requires JobsNamed(d)
    decreases |d|
  {
    if d == [] then []
    else
      assert JobsNamed(d[..|d| - 1]);
      DictPeople(d[..|d| - 1]) + LinePeople(Last(d).0, Last(d).1)
  }

  /** Only a line with an address holding a digit gives a record, and the
      record is a Person of that job whose address keeps the digit. */
  lemma {:induction false} PersonOfLaws(job: string, line: string)
    requires job != []
    ensures PersonOf(job, line).Some? ==>
              var p := PersonOf(job, line).value;
              SchemaPerson(p) && HasDigit(p.address) && p.jobTitle == FormatJob(job) &&
              |SplitName(line).0| > 1
    ensures HasDigit(Join(" ", SplitName(line).1)) && |SplitName(line).0| > 1 ==> PersonOf(job, line).Some?
  {
    var (name, address) := SplitName(line);
    if PersonOf(job, line).Some? {
      RStripDotsKeepsDigits(Join(" ", address));
    }
    if address == [] {
      assert Join(" ", address) == "";
    }
  }

  /** Every record `extract_people` produces is a Person whose address
      holds a digit. */
  lemma {:induction false} DictPeopleLaws(d: Dict)
    requires JobsNamed(d)
    ensures forall i :: 0 <= i < |DictPeople(d)| ==>
              SchemaPerson(DictPeople(d)[i]) && HasDigit(DictPeople(d)[i].address)
    decreases |d|
  {
    if d != [] {
      assert JobsNamed(d[..|d| - 1]);
      DictPeopleLaws(d[..|d| - 1]);
      LinePeopleLaws(Last(d).0, Last(d).1);
    }
  }

  lemma {:induction false} LinePeopleLaws(job: string, lines: seq<string>)
    requires job != []
    ensures forall i :: 0 <= i < |LinePeople(job, lines)| ==>
              SchemaPerson(LinePeople(job, lines)[i]) && HasDigit(LinePeople(job, lines)[i].address) &&
              LinePeople(job, lines)[i].jobTitle == FormatJob(job)
    decreases |lines|
  {
    if lines != [] {
      var init := lines[..|lines| - 1];
      LinePeopleLaws(job, init);
      PersonOfLaws(job, Last(lines));
      KeptAppend(job, LinePeople(job, init), PersonOf(job, Last(lines)));
    }
  }

  /** A record of the section of `job`: a Person of that job whose address
      holds a digit. */
  predicate Kept(job: string, p: Person)
    requires job != []
  {
    SchemaPerson(p) && HasDigit(p.address) && p.jobTitle == FormatJob(job)
  }

  lemma {:induction false} KeptAppend(job: string, people: seq<Person>, r: Option<Person>)
    requires job != []
    requires forall i :: 0 <= i < |people| ==> Kept(job, people[i])
    requires r.Some? ==> Kept(job, r.value)
    ensures forall i :: 0 <= i < |people + Emitted(r)| ==> Kept(job, (people + Emitted(r))[i])
  {
  }

  /** The module-level `json_list` that `extract_people` appends to. */
  class Register {
    var people: seq<Person>

    constructor ()
      ensures people == []
    {
      people := [];
    }

    /** `extract_people(job_dict)` */
    method ExtractPeople(d: Dict)
      requires JobsNamed(d)
      modifies this
      ensures people == old(people) + DictPeople(d)
    {
      var e := 0;
      while e < |d|
        invariant 0 <= e <= |d|
        invariant JobsNamed(d[..e])
        invariant people == old(people) + DictPeople(d[..e])
      {
        ExtractSection(d[e].0, d[e].1);
        assert people == old(people) + (DictPeople(d[..e]) + LinePeople(d[e].0, d[e].1)) by {
          AppendAssoc(old(people), DictPeople(d[..e]), LinePeople(d[e].0, d[e].1));
        }
        assert DictPeople(d[..e + 1]) == DictPeople(d[..e]) + LinePeople(d[e].0, d[e].1) by {
          assert d[..e + 1][..e] == d[..e];
        }
        e := e + 1;
      }
      assert d[..e] == d;
    }

    /** One round of the outer loop of `extract_people`: the lines of the
        section of `job`. */
    method ExtractSection(job: string, lines: seq<string>)
      requires job != []
      modifies this
      ensures people == old(people) + LinePeople(job, lines)
    {
      var l := 0;
      while l < |lines|
        invariant 0 <= l <= |lines|
        invariant people == old(people) + LinePeople(job, lines[..l])
      {
        assert LinePeople(job, lines[..l + 1]) == LinePeople(job, lines[..l]) + Emitted(PersonOf(job, lines[l])) by {
          assert lines[..l + 1][..l] == lines[..l];
        }
        var record := ExtractPerson(job, lines[l]);
        people := people + Emitted(record);
        assert people == old(people) + (LinePeople(job, lines[..l]) + Emitted(record)) by {
          AppendAssoc(old(people), LinePeople(job, lines[..l]), Emitted(record));
        }
        l := l + 1;
      }
      assert lines[..l] == lines;
    }
  }

  /** The body of the inner loop of `extract_people` for one line. */
  method ExtractPerson(job: string, line: string) returns (record: Option<Person>)
    requires job != []
    ensures record == PersonOf(job, line)
  {
    var name, address := SplitOnInitials(line);
    record := None;
    if |name| > 1 && address != [] {
      if HasDigit(Join(" ", address)) {
        var completeName := FormatName(name);
        var formattedJob := FormatJob(job);
        var formattedAddress := RStripDots(Join(" ", address));
        record := Some(MakePerson(completeName, formattedJob, formattedAddress));
      }
    }
  }

  /** The main block: strip the text, cut it into sections, and collect
      the records. */
  method Run(text: string) returns (people: seq<Person>)
    ensures var d := ExtractedSections(StripText(text, Basic), IsJobLine, false);
            (forall i :: 0 <= i < |d| ==> d[i].0 != []) && people == DictPeople(d)
    ensures forall i :: 0 <= i < |people| ==> SchemaPerson(people[i]) && HasDigit(people[i].address)
  {
    var stripped := StripText(text, Basic);
    var d := ExtractLines(stripped);
    var register := new Register();
    register.ExtractPeople(d);
    people := register.people;
    DictPeopleLaws(d);
  }
}
