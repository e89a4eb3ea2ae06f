/** 1880.py: the 1880 address book. Particles are removed before the
    initials are sought among the first four words and added back from the
    original line; the job is the first comma part when there are more than
    two. */
module Book1880 {
  import opened Py
  import opened Normalize
  import opened Tokens
  import opened Records

  // ---------------------------------------------------------------------
  // remove_prepositions / add_initial_dots / extract_prepositions

  predicate NotLongParticle(t: string) { t !in LongParticles }

  /** `remove_prepositions`: the parts that are not exactly a particle. */
  function RemovePrepositions(parts: seq<string>): seq<string> {
    Filter(NotLongParticle, parts)
  }

  /** `remove_prepositions` drops exactly the parts equal to a particle and
      keeps every other part, as often as it occurs and in order. */
  lemma {:induction false} RemovePrepositionsLaws(parts: seq<string>)
    ensures IsSubseq(RemovePrepositions(parts), parts)
    ensures forall x :: x in RemovePrepositions(parts) <==> x in parts && x !in LongParticles
    ensures forall x :: x !in LongParticles ==> multiset(RemovePrepositions(parts))[x] == multiset(parts)[x]
  {
    FilterExact(NotLongParticle, parts);
  }

  /** A part of one character gets a period. */
  function DotSingle(t: string): string {
    if |t| == 1 then t + "." else t
  }

  /** `add_initial_dots` */
  function AddInitialDots(parts: seq<string>): seq<string> {
    Map(DotSingle, parts)
  }

  /** `add_initial_dots` keeps the number of parts, leaves no part of one
      character, changes only such parts and only by appending a period,
      and is idempotent. */
  lemma {:induction false} AddInitialDotsLaws(parts: seq<string>)
    ensures |AddInitialDots(parts)| == |parts|
    ensures forall i :: 0 <= i < |parts| ==>
              var r := AddInitialDots(parts)[i];
              |r| != 1 && parts[i] <= r && (|parts[i]| != 1 <==> r == parts[i])
    ensures AddInitialDots(AddInitialDots(parts)) == AddInitialDots(parts)
  {
    var r := AddInitialDots(parts);
    assert AddInitialDots(r) == r by {
      forall i | 0 <= i < |r| ensures DotSingle(r[i]) == r[i] {
        assert r[i] == DotSingle(parts[i]);
      }
    }
  }

  /** `extract_prepositions`: the words of the line that are particles. */
  function ExtractPrepositions(line: string): seq<string> {
    Filter(IsLongParticle, Split(line))
  }

  /** The particles of the line, in order and as often as they occur. */
  lemma {:induction false} ExtractPrepositionsLaws(line: string)
    ensures IsSubseq(ExtractPrepositions(line), Split(line))
    ensures forall x :: x in ExtractPrepositions(line) <==> x in Split(line) && x in LongParticles
    ensures forall x :: x in LongParticles ==> multiset(ExtractPrepositions(line))[x] == multiset(Split(line))[x]
  {
    FilterExact(IsLongParticle, Split(line));
  }

  // ---------------------------------------------------------------------
  // split_on_initials

  /** `words[:4]` */
  function FirstFour(words: seq<string>): seq<string>
  {
    if |words| <= 4 then words else words[..4]
  }

  /** `[i for i in words if i not in drop]` */
  function Without(words: seq<string>, drop: seq<string>): seq<string> {
    Filter(t => t !in drop, words)
  }

  /** `split_on_initials` on the words of the sentence: the name ends at the
      chosen capital initial among the first four words; the rest is every
      word that is not a name word. */
  function Divided(words: seq<string>): (seq<string>, seq<string>) {
    var parts := FirstFour(words);
    var name := parts[..Boundary(parts, IsInitialUpper, true)];
    (name, Without(words, name))
  }

  /** `split_on_initials` */
  method SplitOnInitials(sentence: string) returns (name: seq<string>, rest: seq<string>)
    ensures (name, rest) == Divided(Split(sentence))
  {
    var sentenceList := Split(sentence);
    var parts := FirstFour(sentenceList);
    var initials := CollectInitials(parts, IsInitialUpper);
    MapStripSplit(parts);
    BoundaryLaws(parts, IsInitialUpper, true);
    var finalInitial := ChooseInitial(initials, true);
    var finalPosition: int := -1;
    if finalInitial.Some? {
      finalPosition := IndexOf(parts, finalInitial.value);
    }
    name := parts[..finalPosition + 1];
    rest := Without(sentenceList, name);
  }

  /** The name is a prefix of the first four words. */
  lemma {:induction false} DividedNamePrefix(words: seq<string>)
    ensures var name := Divided(words).0;
            |name| <= |FirstFour(words)| && name == words[..|name|]
  {
    var parts := FirstFour(words);
    assert |parts| <= |words| && parts == words[..|parts|];
    var n := Boundary(parts, IsInitialUpper, true);
    assert Divided(words).0 == parts[..n];
  }

  /** The name is empty exactly when none of the first four words is a
      capital initial, and otherwise ends at the first occurrence of the
      last initial, or of the one before it when the last is an N or an
      O. */
  lemma {:induction false} DividedNameLaws(words: seq<string>)
    ensures var name := Divided(words).0;
            var parts := FirstFour(words);
            var initials := Filter(IsInitialUpper, parts);
            (name == [] <==> forall i :: 0 <= i < |parts| ==> !IsInitialUpper(parts[i])) &&
            (name != [] ==> Last(name) !in name[..|name| - 1] &&
                            Last(name) == if |initials| >= 2 && StartsWithNO(Last(initials))
                                          then initials[|initials| - 2] else Last(initials))
  {
    var parts := FirstFour(words);
    var n := Boundary(parts, IsInitialUpper, true);
    assert Divided(words).0 == parts[..n];
    BoundaryLaws(parts, IsInitialUpper, true);
    CutByLetter(parts, IsInitialUpper, false, true);
  }

  /** The rest keeps, in order, exactly the words that are not name
      words, so no name word is left in it. */
  lemma {:induction false} DividedRestLaws(words: seq<string>)
    ensures var (name, rest) := Divided(words);
            IsSubseq(rest, words) && forall x :: x in rest <==> x in words && x !in name
  {
    var name := Divided(words).0;
    FilterExact(t => t !in name, words);
  }

  // ---------------------------------------------------------------------
  // split_job_and_street / format_name

  /** `split_job_and_street`: with more than two comma parts the first is
      the job and the address is every part different from it; otherwise
      there is no job and every part is address. */
  function JobAndStreet(sentence: string): (seq<string>, seq<string>) {
    var parts := SplitOn(sentence, ',');
    if |parts| > 2 then
      var first := parts[0];
      ([first], Filter(t => t != first, parts))
    else ([], parts)
  }

  /** With more than two comma parts the job is the first and the address
      keeps, in order, the parts that differ from it; otherwise the job is
      empty and the address is all of the sentence, cut at the commas. */
  lemma {:induction false} JobAndStreetLaws(sentence: string)
    ensures var parts := SplitOn(sentence, ',');
            var (job, address) := JobAndStreet(sentence);
            (|parts| > 2 ==> job == [parts[0]] && IsSubseq(address, parts) &&
                              forall x :: x in address <==> x in parts && x != parts[0]) &&
            (|parts| <= 2 ==> job == [] && address != [] && Join(",", address) == sentence)
  {
    var parts := SplitOn(sentence, ',');
    if |parts| > 2 {
      var first := parts[0];
      FilterExact(t => t != first, parts);
    } else {
      JoinSplitOn(sentence, ',');
    }
  }

  /** `format_name`: initials, then particles, then the other words, joined
      by blanks. An initial such as `D.` is not taken for the particle `d.`
      as well (`DottedParticleRepeated`). */
  function FormatName(names: seq<string>): string {
    Join(" ", OrderedName(names, IsNameParticle, t => t))
  }

  /** Words joined by blanks give the empty string only when there are no
      words, provided no word is empty. */
  lemma {:induction false} JoinNonEmpty(xs: seq<string>)
    requires forall i :: 0 <= i < |xs| ==> xs[i] != []
    ensures Join(" ", xs) == [] <==> xs == []
    decreases |xs|
  {
    if |xs| > 1 {
      JoinNonEmpty(xs[1..]);
    }
  }

  /** The formatted name is a permutation of the words joined, so it is
      empty exactly when there are no words. */
  lemma {:induction false} FormatNameLaws(names: seq<string>)
    requires forall i :: 0 <= i < |names| ==> names[i] != []
    ensures multiset(OrderedName(names, IsNameParticle, t => t)) == multiset(names)
    ensures FormatName(names) == [] <==> names == []
  {
    OrderedNameCounts(names, IsNameParticle, t => t);
    var r := OrderedName(names, IsNameParticle, t => t);
    forall i | 0 <= i < |r| ensures r[i] != [] {
      assert r[i] in multiset(names);
    }
    JoinNonEmpty(r);
  }

  // ---------------------------------------------------------------------
  // The main loop

  /** `' '.join(address).strip().rstrip('.').strip()` */
  function CleanAddress(address: seq<string>): string {
    Strip(RStripDots(Strip(Join(" ", address))))
  }

  /** The record of a line whose name is `name` and whose job and address
      parts are `job` and `address`. */
  function Accepted(name: string, job: seq<string>, address: seq<string>): Option<Person> {
    if |name| >= 1 && |address| >= 1 then Some(MakePerson(name, Join(" ", job), CleanAddress(address)))
    else None
  }

  /** The line without particles, spaced after periods and with a period
      after every one-character word. */
  function Dotted(line: string): string {
    var sentence := AddSpaces(Join(" ", RemovePrepositions(SplitOn(line, ' '))));
    Join(" ", AddInitialDots(SplitOn(sentence, ' ')))
  }

  /** The name words of a line: the name found among the first four words
      of the cleaned line, followed by the particles of the original line. */
  function NameWords(line: string): seq<string> {
    Divided(Split(Dotted(line))).0 + ExtractPrepositions(line)
  }

  /** The words of a line left over for the job and the address. */
  function RestWords(line: string): seq<string> {
    Divided(Split(Dotted(line))).1
  }

  /** The body of the main loop for one line: a record is a schema.org
      Person with a non-empty name. */
  function LineRecord(line: string): (r: Option<Person>)
    ensures r.Some? ==> SchemaPerson(r.value) && r.value.name != []
  {
    var (job, address) := JobAndStreet(Join(" ", RestWords(line)));
    Accepted(FormatName(NameWords(line)), job, address)
  }

  /** A line gives a record exactly when it has name words and address
      parts; the record's name is those words formatted and its address
      has no surrounding whitespace. */
  lemma {:induction false} AcceptedLaws(names: seq<string>, job: seq<string>, address: seq<string>)
    requires forall i :: 0 <= i < |names| ==> names[i] != []
    ensures Accepted(FormatName(names), job, address).Some? <==> names != [] && address != []
    ensures Accepted(FormatName(names), job, address).Some? ==>
              var p := Accepted(FormatName(names), job, address).value;
              SchemaPerson(p) && p.name == FormatName(names) && p.jobTitle == Join(" ", job) &&
              (p.address == [] || (!IsSpace(p.address[0]) && !IsSpace(p.address[|p.address| - 1])))
  {
    FormatNameLaws(names);
    var s := RStripDots(Strip(Join(" ", address)));
    LStripLaws(s, IsSpace);
    RStripLaws(LStrip(s, IsSpace), IsSpace);
    var c := CleanAddress(address);
    if c != [] {
      var l := LStrip(s, IsSpace);
      assert c == RStrip(l, IsSpace);
      assert c[0] == l[0];
    }
  }

  /** The name words are the name words of the cleaned line and the
      particles, none of them empty. */
  lemma {:induction false} NameWordsNonEmpty(words: seq<string>, preps: seq<string>)
    requires forall i :: 0 <= i < |words| ==> words[i] != []
    requires forall i :: 0 <= i < |preps| ==> preps[i] in LongParticles
    ensures forall i :: 0 <= i < |Divided(words).0 + preps| ==> (Divided(words).0 + preps)[i] != []
  {
    var name := Divided(words).0;
    DividedNamePrefix(words);
    forall i | 0 <= i < |name + preps| ensures (name + preps)[i] != [] {
      if i < |name| {
        assert name[i] == words[i];
      } else {
        assert preps[i - |name|] in LongParticles;
      }
    }
  }

  /** The name words of a line are never empty strings. */
  lemma {:induction false} LineNameWordsNonEmpty(line: string)
    ensures forall i :: 0 <= i < |NameWords(line)| ==> NameWords(line)[i] != []
  {
    NameWordsNonEmpty(Split(Dotted(line)), ExtractPrepositions(line));
  }

  /** A line gives a record exactly when it has name words and its rest
      gives address parts. */
  lemma {:induction false} LineRecordLaws(line: string)
    ensures var address := JobAndStreet(Join(" ", RestWords(line))).1;
            LineRecord(line).Some? <==> NameWords(line) != [] && address != []
  {
    var (job, address) := JobAndStreet(Join(" ", RestWords(line)));
    LineNameWordsNonEmpty(line);
    AcceptedLaws(NameWords(line), job, address);
  }

  /** The records of the lines, in order. */
  function LinesPeople(lines: seq<string>): seq<Person> {
    Collected(LineRecord, lines)
  }

  /** Every record comes from one line, at most one per line, and is a
      schema.org Person with a non-empty name. */
  lemma {:induction false} LinesPeopleLaws(lines: seq<string>)
    ensures |LinesPeople(lines)| <= |lines|
    ensures forall k :: 0 <= k < |LinesPeople(lines)| ==>
              SchemaPerson(LinesPeople(lines)[k]) && LinesPeople(lines)[k].name != [] &&
              exists i :: 0 <= i < |lines| && LineRecord(lines[i]) == Some(LinesPeople(lines)[k])
  {
    CollectedLaws(LineRecord, lines);
    var people := LinesPeople(lines);
    forall k | 0 <= k < |people|
      ensures SchemaPerson(people[k]) && people[k].name != []
    {
      var i :| 0 <= i < |lines| && LineRecord(lines[i]) == Some(people[k]);
    }
  }

  /** The lines of the text: stripped, blank lines halved, cut at newlines. */
  function TextLines(text: string): seq<string> {
    SplitOn(Replace(StripText(text, Basic), "\n\n", "\n"), '\n')
  }

  /** The body of the main loop for one line. */
  method ProcessLine(line: string) returns (record: Option<Person>)
    ensures record == LineRecord(line)
  {
    var lineList := SplitOn(line, ' ');
    lineList := RemovePrepositions(lineList);
    var sentence := Join(" ", lineList);
    sentence := AddSpaces(sentence);
    sentence := Join(" ", AddInitialDots(SplitOn(sentence, ' ')));
    var name, rest := SplitOnInitials(sentence);
    var prepositions := ExtractPrepositions(line);
    var fullName := FormatName(name + prepositions);
    var job, address := JobAndStreet(Join(" ", rest)).0, JobAndStreet(Join(" ", rest)).1;
    record := None;
    if |fullName| >= 1 && |address| >= 1 {
      record := Some(MakePerson(fullName, Join(" ", job), CleanAddress(address)));
    }
  }

  /** The loop of the main block over the lines. */
  method ProcessLines(lines: seq<string>) returns (people: seq<Person>)
    ensures people == LinesPeople(lines)
  {
    people := [];
    var l := 0;
    while l < |lines|
      invariant 0 <= l <= |lines|
      invariant people == LinesPeople(lines[..l])
    {
      people := AddLine(lines, l, people);
      l := l + 1;
    }
    assert lines[..l] == lines;
  }

  /** One turn of the loop: the record of line `l`, if any, joins the
      records of the lines before it. */
  method AddLine(lines: seq<string>, l: nat, people: seq<Person>) returns (more: seq<Person>)
    requires l < |lines| && people == LinesPeople(lines[..l])
    ensures more == LinesPeople(lines[..l + 1])
  {
    var record := ProcessLine(lines[l]);
    CollectedPrefix(LineRecord, lines, l);
    more := people + Emitted(record);
  }

  /** The main block: the records of every line of the text. */
  method Run(text: string) returns (people: seq<Person>)
    ensures people == LinesPeople(TextLines(text))
  {
    var stripped := StripText(text, Basic);
    var lines := SplitOn(Replace(stripped, "\n\n", "\n"), '\n');
    people := ProcessLines(lines);
  }
}
