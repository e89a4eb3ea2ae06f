/** 1854.py: the 1854 address book. Headers are the all-capital lines, each
    line is cut at its last initial of either case (with the N/O fallback),
    particles move to the name, and the name is rotated in place until an
    initial comes first. */
module Book1854 {
  import opened Py
  import opened Normalize
  import opened Tokens
  import opened Sections
  import opened Records

  // ---------------------------------------------------------------------
  // get_job_list / extract_lines

  /** The header test of `get_job_list`. */
  predicate IsJobLine(line: string) {
    IsUpperStr(line) && |line| > 3
  }

  /** `get_job_list` */
  method GetJobList(lines: seq<string>) returns (jobs: seq<string>)
    ensures jobs == Filter(IsJobLine, lines)
    ensures IsSubseq(jobs, lines)
    ensures forall x :: x in jobs <==> x in lines && IsJobLine(x)
    ensures forall x :: IsJobLine(x) ==> multiset(jobs)[x] == multiset(lines)[x]
  {
    jobs := [];
    var i := 0;
    while i < |lines|
      invariant 0 <= i <= |lines|
      invariant jobs == Filter(IsJobLine, lines[..i])
    {
      FilterPrefix(IsJobLine, lines, i);
      if IsJobLine(lines[i]) {
        jobs := jobs + [lines[i]];
      }
      i := i + 1;
    }
    assert lines[..i] == lines;
    FilterExact(IsJobLine, lines);
  }

  /** `extract_lines`: a section per header; the section whose start equals
      the last start runs to the end of the text. */
  method ExtractLines(text: string) returns (d: Dict)
    ensures d == ExtractedSections(text, IsJobLine, true)
    ensures forall i :: 0 <= i < |d| ==> IsJobLine(d[i].0)
    ensures var lines := TextLines(text);
            DistinctHeaders(lines, IsJobLine) ==>
              Keys(d) == Filter(IsJobLine, lines) &&
              forall p :: 0 <= p < |lines| && IsJobLine(lines[p]) ==>
                Lookup(d, lines[p]) == Some(lines[p + 1..NextHeader(lines, IsJobLine, p + 1)])
  {
    var lines := TextLines(text);
    var jobs := GetJobList(lines);
    HeadersOccur(lines, IsJobLine);
    var idx := IndexLoop(lines, jobs);
    d := FillSections(lines, idx, true);
    ExtractedKeysAreHeaders(text, IsJobLine, true);
    if DistinctHeaders(lines, IsJobLine) {
      ExtractedSectionsLaws(text, IsJobLine, true);
    }
  }

  // ---------------------------------------------------------------------
  // count_initials (with find_preposition)

  /** `count_initials` on the parts of a line: cut at the first occurrence
      of the chosen initial of either case, then `find_preposition` with
      the seven particles in their fixed order. */
  function Counted(parts: seq<string>): (seq<string>, seq<string>) {
    Cut(parts, IsInitialAnyCase, true, ShortParticles)
  }

  /** `count_initials` */
  method CountInitials(sentence: string) returns (name: seq<string>, address: seq<string>)
    ensures (name, address) == Counted(Split(AddSpaces(sentence)))
  {
    var s := AddSpaces(sentence);
    var parts := Split(s);
    var initials := CollectInitials(parts, IsInitialAnyCase);
    MapStripSplit(parts);
    BoundaryLaws(parts, IsInitialAnyCase, true);
    var finalInitial := ChooseInitial(initials, true);
    var finalPosition: int := -1;
    if finalInitial.Some? {
      finalPosition := IndexOf(parts, finalInitial.value);
    }
    name := parts[..finalPosition + 1];
    address := parts[finalPosition + 1..];
    name, address := FindPreposition(name, address, ShortParticles);
  }

  /** The cut ends at the first occurrence of the chosen initial (a lower-
      case `n,` or `o.` also triggers the fallback), the particles found
      in the comma-free rest move to the name, and the name and address
      together hold as many parts as the line. */
  lemma {:induction false} CountedLaws(parts: seq<string>)
    ensures exists n :: CutAt(parts, IsInitialAnyCase, true, ShortParticles, n, Counted(parts))
  {
    assert Distinct(ShortParticles);
    CutLaws(parts, IsInitialAnyCase, true, ShortParticles);
    var n := Boundary(parts, IsInitialAnyCase, true);
    assert CutAt(parts, IsInitialAnyCase, true, ShortParticles, n, Counted(parts));
  }

  /** The initial chosen by `count_initials`: the last one, or the one
      before it when the last starts with `n` or `o` of either case. */
  lemma {:induction false} CountedChoice(parts: seq<string>)
    ensures var initials := Filter(IsInitialAnyCase, parts);
            var n := Boundary(parts, IsInitialAnyCase, true);
            n > 0 ==> parts[n - 1] == if |initials| >= 2 && StartsWithNO(Last(initials))
                                      then initials[|initials| - 2] else Last(initials)
  {
    BoundaryByLetter(parts, IsInitialAnyCase, true, true);
  }

  // ---------------------------------------------------------------------
  // format_name: the rotation

  /** Every part is free of whitespace, as the parts of `split()` and the
      particles are. */
  predicate AllNoSpace(list: seq<string>) {
    forall j :: 0 <= j < |list| ==> NoSpace(list[j])
  }

  /** `list.remove(item); list.append(item)` keeps the parts free of
      whitespace. */
  lemma {:induction false} MoveToEndNoSpace(list: seq<string>, item: string)
    requires AllNoSpace(list) && item in list
    ensures AllNoSpace(RemoveFirst(list, item) + [item])
  {
    var r := RemoveFirst(list, item);
    forall j | 0 <= j < |r| ensures NoSpace(r[j]) {
      assert r[j] in multiset(r);
      assert r[j] in multiset(list);
      var k :| 0 <= k < |list| && list[k] == r[j];
    }
    var k :| 0 <= k < |list| && list[k] == item;
  }

  /** `name_list` once the loop of `format_name`, which iterates over the
      list it mutates, has reached position `i`: while the part at the
      iterator's position is not an initial, its first occurrence is
      removed and it is appended; the loop stops at an initial or when the
      position passes the end. The parts hold no whitespace, so
      `item.strip()` is the part itself (`RotatedStep`). */
  function Rotated(list: seq<string>, i: nat): (r: seq<string>)
    ensures |r| == |list|
    decreases |list| - i
  {
    if i >= |list| || IsInitialAnyCase(list[i]) then list
    else Rotated(RemoveFirst(list, list[i]) + [list[i]], i + 1)
  }

  /** One round of the loop of `format_name`: the stripped part at the
      iterator's position is the part itself, and moving it keeps the parts
      free of whitespace. */
  lemma {:induction false} RotatedStep(list: seq<string>, i: nat)
    requires AllNoSpace(list) && i < |list|
    ensures Strip(list[i]) == list[i]
    ensures AllNoSpace(RemoveFirst(list, list[i]) + [list[i]])
  {
    StripNoSpace(list[i]);
    MoveToEndNoSpace(list, list[i]);
  }

  lemma {:induction false} RotatedMove(list: seq<string>, i: nat)
    requires i < |list| && !IsInitialAnyCase(list[i])
    ensures Rotated(list, i) == Rotated(RemoveFirst(list, list[i]) + [list[i]], i + 1)
  {
  }

  lemma {:induction false} RotatedStop(list: seq<string>, i: nat)
    requires i < |list| && IsInitialAnyCase(list[i])
    ensures Rotated(list, i) == list
  {
  }

  /** The loop of `format_name` only reorders the parts. */
  lemma {:induction false} RotatedLaws(list: seq<string>, i: nat)
    ensures multiset(Rotated(list, i)) == multiset(list)
    decreases |list| - i
  {
    if i < |list| && !IsInitialAnyCase(list[i]) {
      RotatedLaws(RemoveFirst(list, list[i]) + [list[i]], i + 1);
      RemoveFirstCounts(list, list[i]);
      assert list[i] in multiset(list);
    }
  }

  /** The position of the first initial, or the length when there is
      none. */
  function FirstInitial(list: seq<string>): (k: nat)
    ensures k <= |list|
    decreases |list|
  {
    if list == [] || IsInitialAnyCase(list[0]) then 0 else 1 + FirstInitial(list[1..])
  }

  /** `FirstInitial` is the only position with no initial before it and
      an initial (or the end) at it. */
  lemma {:induction false} FirstInitialIs(list: seq<string>, k: nat)
    requires k <= |list| && (k < |list| ==> IsInitialAnyCase(list[k]))
    requires forall j :: 0 <= j < k ==> !IsInitialAnyCase(list[j])
    ensures FirstInitial(list) == k
    decreases k
  {
    if k > 0 {
      FirstInitialIs(list[1..], k - 1);
    }
  }

  /** What the loop of `format_name` evidently intends: the parts in front
      of the first initial (the surname) move, in their order, behind the
      rest, so that the name starts with its initials. */
  function Rotation(list: seq<string>): seq<string> {
    var k := FirstInitial(list);
    list[k..] + list[..k]
  }

  /** The intended rotation reorders the parts, starts with an initial
      exactly when the list has one, and is the list turned at a position
      before which no part is an initial. */
  lemma {:induction false} RotationLaws(list: seq<string>)
    ensures multiset(Rotation(list)) == multiset(list)
    ensures (exists j :: 0 <= j < |list| && IsInitialAnyCase(list[j])) <==>
              (Rotation(list) != [] && IsInitialAnyCase(Rotation(list)[0]))
    ensures exists k :: 0 <= k <= |list| && (forall j :: 0 <= j < k ==> !IsInitialAnyCase(list[j])) &&
                        Rotation(list) == list[k..] + list[..k]
  {
    var k := FirstInitialLaws(list);
    assert list == list[..k] + list[k..];
  }

  /** The first initial is at `FirstInitial`, and no part before it is an
      initial. */
  lemma {:induction false} FirstInitialLaws(list: seq<string>) returns (k: nat)
    ensures k == FirstInitial(list)
    ensures forall j :: 0 <= j < k ==> !IsInitialAnyCase(list[j])
    ensures k < |list| ==> IsInitialAnyCase(list[k])
    decreases |list|
  {
    k := FirstInitial(list);
    if list != [] && !IsInitialAnyCase(list[0]) {
      var k' := FirstInitialLaws(list[1..]);
      forall j | 0 <= j < k ensures !IsInitialAnyCase(list[j]) {
        if j > 0 {
          assert list[j] == list[1..][j - 1];
        }
      }
    }
  }

  /** The loop as written skips a part after every move: for a surname of
      two parts, `de Wit, J.` is rotated to `Wit, J. de` instead of
      `J. de Wit`. */
  lemma {:induction false} RotatedSkipsParts()
    ensures Rotated(["de", "Wit,", "J."], 0) == ["Wit,", "J.", "de"]
    ensures Rotation(["de", "Wit,", "J."]) == ["J.", "de", "Wit,"]
  {
    var list: seq<string> := ["de", "Wit,", "J."];
    assert !IsInitialAnyCase(list[0]) && !IsInitialAnyCase(list[1]) && IsInitialAnyCase(list[2]);
    RotationOfSurname(list);
    RotatedSkipsSecond(list[0], list[1], list[2]);
  }

  /** With a non-initial first part and an initial third part, the loop
      moves the first part and then stops at the initial, never looking at
      the second part. */
  lemma {:induction false} RotatedSkipsSecond(a: string, b: string, c: string)
    requires !IsInitialAnyCase(a) && IsInitialAnyCase(c)
    ensures Rotated([a, b, c], 0) == [b, c, a]
  {
    var list := [a, b, c];
    RemoveHead(list);
    assert list[1..] + [list[0]] == [b, c, a];
    assert Rotated(list, 0) == Rotated([b, c, a], 1);
  }

  /** The loop as written agrees with the intended rotation when the name
      starts with an initial, or when a one-part surname stands in front
      of an initial that is the last part or is followed by another
      initial (`Wit, J.` and `Wit, J. P.`). */
  lemma {:induction false} RotatedAgrees(list: seq<string>)
    requires list == [] || IsInitialAnyCase(list[0]) ||
             (|list| >= 2 && IsInitialAnyCase(list[1]) && (|list| == 2 || IsInitialAnyCase(list[2])))
    ensures Rotated(list, 0) == Rotation(list)
  {
    if list != [] && !IsInitialAnyCase(list[0]) {
      FirstInitialIs(list, 1);
      RemoveHead(list);
      var moved := list[1..] + [list[0]];
      assert Rotated(list, 0) == Rotated(moved, 1);
      if |list| == 2 {
        assert moved == [list[1], list[0]];
        assert IndexOf(moved, list[0]) == 1;
        assert RemoveFirst(moved, list[0]) + [list[0]] == moved;
        assert Rotated(moved, 1) == Rotated(moved, 2);
      } else {
        assert moved[1] == list[2];
      }
    }
  }

  /** Removing the first occurrence of the head drops the head. */
  lemma {:induction false} RemoveHead(list: seq<string>)
    requires list != []
    ensures RemoveFirst(list, list[0]) == list[1..]
  {
    assert IndexOf(list, list[0]) == 0;
  }

  /** A surname of two parts followed by an initial is moved behind it. */
  lemma {:induction false} RotationOfSurname(list: seq<string>)
    requires |list| == 3 && !IsInitialAnyCase(list[0]) && !IsInitialAnyCase(list[1]) && IsInitialAnyCase(list[2])
    ensures Rotation(list) == [list[2], list[0], list[1]]
  {
    FirstInitialIs(list, 2);
  }

  /** `' '.join(list).rstrip(',').replace(',', '.')` */
  function JoinedName(list: seq<string>): (r: string)
    ensures ',' !in r
  {
    ReplaceRemovesChar(RStrip(Join(" ", list), IsComma), ',', ".");
    Replace(RStrip(Join(" ", list), IsComma), ",", ".")
  }

  predicate IsComma(c: char) { c == ',' }

  /** `format_name(name_list)` as written: returns the name and leaves
      `name_list` rotated, as the in-place `remove`/`append` does to the
      caller's list. */
  method FormatName(nameList: seq<string>) returns (name: string, list: seq<string>)
    requires AllNoSpace(nameList)
    ensures list == Rotated(nameList, 0)
    ensures |list| == |nameList| && multiset(list) == multiset(nameList)
    ensures name == JoinedName(list) && ',' !in name
  {
    list := nameList;
    var i := 0;
    while i < |list|
      invariant |list| == |nameList|
      invariant AllNoSpace(list)
      invariant Rotated(list, i) == Rotated(nameList, 0)
      decreases |list| - i
    {
      RotatedStep(list, i);
      var item := Strip(list[i]);
      if !IsInitialAnyCase(item) {
        RotatedMove(list, i);
        list := RemoveFirst(list, item);
        list := list + [item];
      } else {
        RotatedStop(list, i);
        break;
      }
      i := i + 1;
    }
    RotatedLaws(nameList, 0);
    name := JoinedName(list);
  }

  /** `format_name` as evidently intended: the parts in front of the first
      initial are moved behind the others, in their order. */
  method FormatNameIntended(nameList: seq<string>) returns (name: string, list: seq<string>)
    requires AllNoSpace(nameList)
    ensures list == Rotation(nameList)
    ensures name == JoinedName(list) && ',' !in name
  {
    var k := 0;
    while k < |nameList| && !IsInitialAnyCase(Strip(nameList[k]))
      invariant k <= |nameList|
      invariant forall j :: 0 <= j < k ==> !IsInitialAnyCase(nameList[j])
    {
      StripNoSpace(nameList[k]);
      k := k + 1;
    }
    if k < |nameList| {
      StripNoSpace(nameList[k]);
    }
    FirstInitialIs(nameList, k);
    list := nameList[k..] + nameList[..k];
    name := JoinedName(list);
  }

  // ---------------------------------------------------------------------
  // extract_people

  /** `job[0] + job[1:].lower().rstrip('.')` */
  function FormatJob(job: string): (r: string)
    requires job != []
    ensures r != [] && r[0] == job[0]
  {
    [job[0]] + RStripDots(Lower(job[1..]))
  }

  /** Formatting the job twice gives the same title, so the rebinding of
      `job` at each record does not change the titles of later records. */
  lemma {:induction false} FormatJobIdempotent(job: string)
    requires job != []
    ensures FormatJob(FormatJob(job)) == FormatJob(job)
  {
    var low := Lower(job[1..]);
    var t := RStripDots(low);
    RStripLaws(low, IsDot);
    assert FormatJob(job)[1..] == t;
    assert Lower(t) == t by {
      forall k | 0 <= k < |t| ensures ToLower(t[k]) == t[k] {
        assert t[k] == low[k];
      }
    }
    RStripIdempotent(low, IsDot);
  }

  /** The seven particles hold no whitespace. */
  lemma {:induction false} ParticlesNoSpace()
    ensures forall t :: t in ShortParticles ==> NoSpace(t)
  {
  }

  /** The name parts after `count_initials` are free of whitespace. */
  lemma {:induction false} CountedNoSpace(parts: seq<string>)
    requires AllNoSpace(parts)
    ensures AllNoSpace(Counted(parts).0)
  {
    assert Distinct(ShortParticles);
    var n := Boundary(parts, IsInitialAnyCase, true);
    var rest := Map(NoCommas, parts[n..]);
    var found := Present(rest, ShortParticles);
    assert AllNoSpace(found) by {
      PresentIn(rest, ShortParticles);
      ParticlesNoSpace();
    }
    assert AllNoSpace(parts[..n]);
    NoSpaceAppend(parts[..n], found);
    MovedLaws(parts[..n], rest, ShortParticles);
  }

  lemma {:induction false} NoSpaceAppend(a: seq<string>, b: seq<string>)
    requires AllNoSpace(a) && AllNoSpace(b)
    ensures AllNoSpace(a + b)
  {
    forall j | 0 <= j < |a + b| ensures NoSpace((a + b)[j]) {
      if j >= |a| { assert (a + b)[j] == b[j - |a|]; }
    }
  }

  /** The first record of a line with name `name` and address `address`
      under the current job: emitted when the name has more than one part
      and some address part holds a digit. */
  function Outcome(job: string, name: seq<string>, address: seq<string>): Option<Person>
    requires job != []
  {
    if |name| > 1 && Filter(HasDigit, address) != [] then
      Some(FirstRecord(name, FormatJob(job), address))
    else None
  }

  /** The record of an accepted line: the name turned at its first
      initial, the given job and the joined address without trailing
      periods. */
  function FirstRecord(name: seq<string>, job: string, address: seq<string>): Person {
    MakePerson(JoinedName(Rotation(name)), job, RStripDots(Join(" ", address)))
  }

  /** The first record of a line. */
  function LineOutcome(job: string, line: string): Option<Person>
    requires job != []
  {
    var (name, address) := Counted(Split(AddSpaces(line)));
    Outcome(job, name, address)
  }

  /** The records of the lines of one section: every one carries the
      section's job, formatted once. */
  function SectionPeople(job: string, lines: seq<string>): seq<Person>
    requires job != []
    decreases |lines|
  {
    if lines == [] then []
    else SectionPeople(job, lines[..|lines| - 1]) + Emitted(LineOutcome(job, Last(lines)))
  }

  lemma {:induction false} SectionPeoplePrefix(job: string, lines: seq<string>, l: nat)
    requires job != [] && l < |lines|
    ensures SectionPeople(job, lines[..l + 1]) == SectionPeople(job, lines[..l]) + Emitted(LineOutcome(job, lines[l]))
  {
    assert lines[..l + 1][..l] == lines[..l];
  }

  predicate JobsNamed(d: Dict) {
    forall i :: 0 <= i < |d| ==> d[i].0 != []
  }

  /** The records of all sections, in dictionary order. */
  function DictPeople(d: Dict): seq<Person>
    requires JobsNamed(d)
    decreases |d|
  {
    if d == [] then []
    else
      assert JobsNamed(d[..|d| - 1]);
      DictPeople(d[..|d| - 1]) + SectionPeople(Last(d).0, Last(d).1)
  }

  /** The loop over the address parts of an accepted line, entered with
      the section's job `job` possibly already formatted (`current`): the
      first part holding a digit gives the record, every such part formats
      the job again. */
  method EmitLine(job: string, current: string, name: seq<string>, address: seq<string>)
    returns (record: Option<Person>, jobOut: string)
    requires job != [] && (current == job || current == FormatJob(job))
    requires AllNoSpace(name) && |name| > 1
    ensures record == Outcome(job, name, address)
    ensures jobOut == if record.Some? then FormatJob(job) else current
  {
    FormatJobIdempotent(job);
    ghost var first := FirstRecord(name, FormatJob(job), address);
    ghost var seen := false;
    record := None;
    jobOut := current;
    var i := 0;
    while i < |address|
      invariant 0 <= i <= |address|
      invariant seen == (Filter(HasDigit, address[..i]) != [])
      invariant jobOut == if seen then FormatJob(job) else current
      invariant record == if seen then Some(first) else None
    {
      FilterPrefix(HasDigit, address, i);
      if HasDigit(address[i]) {
        jobOut := FormatJob(jobOut);
        if record.None? {
          var completeName, _ := FormatNameIntended(name);
          record := Some(MakePerson(completeName, jobOut, RStripDots(Join(" ", address))));
        }
        seen := true;
      }
      i := i + 1;
    }
    assert address[..i] == address;
  }

  /** The body of the inner loop of `extract_people` for one line: the
      record does not depend on whether an earlier line already formatted
      the job. */
  method ProcessLine(job: string, current: string, line: string) returns (record: Option<Person>, jobOut: string)
    requires job != [] && (current == job || current == FormatJob(job))
    ensures record == LineOutcome(job, line)
    ensures jobOut == current || jobOut == FormatJob(job)
  {
    var name, address := CountInitials(line);
    CountedNoSpace(Split(AddSpaces(line)));
    record, jobOut := None, current;
    if |name| > 1 && address != [] {
      record, jobOut := EmitLine(job, current, name, address);
    }
  }

  /** One round of the outer loop of `extract_people`. */
  method ExtractSection(job: string, lines: seq<string>) returns (people: seq<Person>)
    requires job != []
    ensures people == SectionPeople(job, lines)
  {
    people := [];
    var current := job;
    var l := 0;
    while l < |lines|
      invariant 0 <= l <= |lines|
      invariant current == job || current == FormatJob(job)
      invariant people == SectionPeople(job, lines[..l])
    {
      people, current := AddLine(job, current, lines, l, people);
      l := l + 1;
    }
    assert lines[..l] == lines;
  }

  /** One round of the inner loop: the record of line `l`, if any, joins
      the records of the lines before it. */
  method AddLine(job: string, current: string, lines: seq<string>, l: nat, people: seq<Person>)
    returns (more: seq<Person>, jobOut: string)
    requires job != [] && (current == job || current == FormatJob(job))
    requires l < |lines| && people == SectionPeople(job, lines[..l])
    ensures more == SectionPeople(job, lines[..l + 1])
    ensures jobOut == job || jobOut == FormatJob(job)
  {
    var record;
    record, jobOut := ProcessLine(job, current, lines[l]);
    SectionPeoplePrefix(job, lines, l);
    more := people + Emitted(record);
  }

  /** `extract_people(job_dict)`: the records in the order they are
      printed. */
  method ExtractPeople(d: Dict) returns (people: seq<Person>)
    requires JobsNamed(d)
    ensures people == DictPeople(d)
  {
    people := [];
    var e := 0;
    while e < |d|
      invariant 0 <= e <= |d|
      invariant JobsNamed(d[..e])
      invariant people == DictPeople(d[..e])
    {
      var section := ExtractSection(d[e].0, d[e].1);
      assert DictPeople(d[..e + 1]) == DictPeople(d[..e]) + section by {
        assert d[..e + 1][..e] == d[..e];
      }
      people := people + section;
      e := e + 1;
    }
    assert d[..e] == d;
  }

  /** A record is emitted only for a name of more than one part whose
      address has a part holding a digit; its name has no comma and its
      address keeps the digit. */
  lemma {:induction false} OutcomeLaws(job: string, name: seq<string>, address: seq<string>)
    requires job != []
    ensures Outcome(job, name, address).Some? <==>
              |name| > 1 && exists i :: 0 <= i < |address| && HasDigit(address[i])
    ensures Outcome(job, name, address).Some? ==>
              var p := Outcome(job, name, address).value;
              SchemaPerson(p) && ',' !in p.name && HasDigit(p.address) && p.jobTitle == FormatJob(job)
  {
    FilterExact(HasDigit, address);
    if exists i :: 0 <= i < |address| && HasDigit(address[i]) {
      var i :| 0 <= i < |address| && HasDigit(address[i]);
      assert address[i] in Filter(HasDigit, address);
      JoinHasDigit(" ", address, i);
      RStripDotsKeepsDigits(Join(" ", address));
    }
  }

  /** The main block: strip the text, cut it into sections, collect the
      records. */
  method Run(text: string) returns (people: seq<Person>)
    ensures var d := ExtractedSections(StripText(text, Basic), IsJobLine, true);
            JobsNamed(d) && people == DictPeople(d)
  {
    var stripped := StripText(text, Basic);
    var d := ExtractLines(stripped);
    people := ExtractPeople(d);
  }
}
