/** extract_with_llm.py: the 1927 address book. Pages are cleaned of
    hyphenation, braces and titles; lines that pass a letter-count and
    parenthesis-or-digit filter are combined into entries that start at a
    line with a parenthesis and an initial; entries with a digit are tidied
    and cut at every surname followed by a parenthesised group. */
module LlmExtract {
  import opened Py
  import opened Normalize
  import opened Groups
  import opened Scan

  // ---------------------------------------------------------------------
  // get_text

  /** The text of one page after the replacements of `get_text`. */
  function PageText(page: string): string {
    Replace(Replace(Replace(Replace(Replace(page, "-\n", ""), "{", "("), "}", ")"), "Mej.", ""), "Wed.", "")
  }

  /** No brace is left, and every character comes from the page or is a
      parenthesis put in for a brace. */
  lemma {:induction false} PageTextLaws(page: string)
    ensures '{' !in PageText(page) && '}' !in PageText(page)
    ensures forall c :: c in PageText(page) ==> c in page || c == '(' || c == ')'
  {
    var t1 := Replace(page, "-\n", "");
    var t2 := Replace(t1, "{", "(");
    var t3 := Replace(t2, "}", ")");
    var t4 := Replace(t3, "Mej.", "");
    var t5 := Replace(t4, "Wed.", "");
    ReplaceRemovesChar(t1, '{', "(");
    ReplaceRemovesChar(t2, '}', ")");
    forall c | c in t5 ensures c != '{' && c != '}' && (c in page || c == '(' || c == ')') {
      ReplaceChars(t4, "Wed.", "", c);
      ReplaceChars(t3, "Mej.", "", c);
      ReplaceChars(t2, "}", ")", c);
      if c in t2 {
        ReplaceChars(t1, "{", "(", c);
        if c in t1 {
          ReplaceChars(page, "-\n", "", c);
        }
      }
    }
  }

  /** `get_text`: the pages `first..last` (1-based, inclusive). */
  method GetText(pages: seq<string>, first: int, last: int) returns (texts: seq<string>)
    ensures texts == Map(PageText, Slice(pages, first - 1, last))
  {
    var range := Slice(pages, first - 1, last);
    texts := [];
    for i := 0 to |range|
      invariant texts == Map(PageText, range[..i])
    {
      assert range[..i + 1] == range[..i] + [range[i]];
      MapSnoc(PageText, range[..i], range[i]);
      var text := Replace(range[i], "-\n", "");
      text := Replace(text, "{", "(");
      text := Replace(text, "}", ")");
      text := Replace(text, "Mej.", "");
      text := Replace(text, "Wed.", "");
      texts := texts + [text];
    }
    assert range[..|range|] == range;
  }

  /** For a page range inside the book: one text per page, none with a
      brace. */
  lemma {:induction false} GetTextLaws(pages: seq<string>, first: int, last: int)
    requires 1 <= first <= last <= |pages|
    ensures |Map(PageText, Slice(pages, first - 1, last))| == last - first + 1
    ensures forall t :: t in Map(PageText, Slice(pages, first - 1, last)) ==> '{' !in t && '}' !in t
  {
    var texts := Map(PageText, Slice(pages, first - 1, last));
    forall t | t in texts ensures '{' !in t && '}' !in t {
      var i :| 0 <= i < |texts| && texts[i] == t;
      PageTextLaws(Slice(pages, first - 1, last)[i]);
    }
  }

  // ---------------------------------------------------------------------
  // combine_strings_with_initial

  /** `find_initials(s)` is not empty. */
  predicate HasInitial(s: string) {
    InitialStarts(s) != []
  }

  /** A line that opens an entry: a parenthesis and an initial. */
  predicate Opener(s: string) {
    HasParen(s) && HasInitial(s)
  }

  /** The state of the loop of `combine_strings_with_initial`; the empty
      `current` stands for Python's `None`. */
  datatype Combining = Combining(combined: seq<string>, current: string, found: bool)

  const Start := Combining([], "", false)

  /** One iteration of the loop. */
  function Step(st: Combining, s: string): Combining {
    if !st.found && !HasParen(s) then st
    else if HasParen(s) && HasInitial(s) then
      Combining(if st.current != [] then st.combined + [st.current] else st.combined, s, true)
    else if HasParen(s) then
      if st.found then Combining(st.combined, st.current + " " + s, true)
      else Combining(st.combined + [s], st.current, false)
    else Combining(st.combined, st.current + " " + s, true)
  }

  /** The loop over `lines` from state `st`. */
  function Fold(st: Combining, lines: seq<string>): Combining
    decreases |lines|
  {
    if lines == [] then st else Step(Fold(st, lines[..|lines| - 1]), lines[|lines| - 1])
  }

  lemma {:induction false} FoldSnoc(st: Combining, lines: seq<string>, s: string)
    ensures Fold(st, lines + [s]) == Step(Fold(st, lines), s)
  {
    assert (lines + [s])[..|lines|] == lines;
  }

  /** Running the loop over two stretches of lines one after the other. */
  lemma {:induction false} FoldAppend(st: Combining, a: seq<string>, b: seq<string>)
    ensures Fold(st, a + b) == Fold(Fold(st, a), b)
    decreases |b|
  {
    if b == [] {
      assert a + b == a;
    } else {
      var b', x := b[..|b| - 1], b[|b| - 1];
      assert a + b == (a + b') + [x];
      assert b == b' + [x];
      FoldAppend(st, a, b');
      FoldSnoc(st, a + b', x);
      FoldSnoc(Fold(st, a), b', x);
    }
  }

  /** `combine_strings_with_initial` */
  function Combined(lines: seq<string>): seq<string> {
    var st := Fold(Start, lines);
    if st.current != [] then st.combined + [st.current] else st.combined
  }

  /** The position of the first line that opens an entry, or the length. */
  function FirstOpener(lines: seq<string>): (k: nat)
    ensures k <= |lines|
    ensures forall j :: 0 <= j < k ==> !Opener(lines[j])
    ensures k < |lines| ==> Opener(lines[k])
  {
    if lines == [] || Opener(lines[0]) then 0 else 1 + FirstOpener(lines[1..])
  }

  /** Before any entry opens, the parenthesised lines are emitted on their
      own and the others are skipped. */
  lemma {:induction false} BeforeOpener(lines: seq<string>)
    requires forall j :: 0 <= j < |lines| ==> !Opener(lines[j])
    ensures Fold(Start, lines) == Combining(Filter(HasParen, lines), "", false)
    decreases |lines|
  {
    if lines != [] {
      var init, s := lines[..|lines| - 1], lines[|lines| - 1];
      BeforeOpener(init);
      FilterSnoc(HasParen, init, s);
      assert lines == init + [s];
    }
  }

  function JoinSpace(seg: seq<string>): string {
    Join(" ", seg)
  }

  /** The state once an entry has opened: the earlier output, one text per
      finished segment, and the last segment being built. */
  predicate EntryState(st: Combining, before: seq<string>, segs: seq<seq<string>>) {
    segs != [] && segs[|segs| - 1] != [] && JoinSpace(segs[|segs| - 1]) != [] &&
    st == Combining(before + Map(JoinSpace, segs[..|segs| - 1]), JoinSpace(segs[|segs| - 1]), true)
  }

  lemma {:induction false} OpenerStep(st: Combining, before: seq<string>, segs: seq<seq<string>>, s: string)
    requires EntryState(st, before, segs) && Opener(s)
    ensures EntryState(Step(st, s), before, segs + [[s]])
  {
    var n := |segs| - 1;
    assert segs == segs[..n] + [segs[n]];
    MapSnoc(JoinSpace, segs[..n], segs[n]);
    assert (segs + [[s]])[..|segs|] == segs;
    assert JoinSpace([s]) == s;
  }

  lemma {:induction false} ContinueStep(st: Combining, before: seq<string>, segs: seq<seq<string>>, s: string)
    requires EntryState(st, before, segs) && !Opener(s)
    ensures EntryState(Step(st, s), before, segs[..|segs| - 1] + [segs[|segs| - 1] + [s]])
  {
    var n := |segs| - 1;
    JoinSnoc(" ", segs[n], s);
    assert (segs[..n] + [segs[n] + [s]])[..n] == segs[..n];
  }

  /** The first opening line starts the first entry. */
  lemma {:induction false} OpenerFirst(before: seq<string>, s: string)
    requires Opener(s)
    ensures EntryState(Step(Combining(before, "", false), s), before, [[s]])
  {
    assert JoinSpace([s]) == s;
    assert Map(JoinSpace, []) == [];
    assert before + [] == before;
  }

  /** From the first opening line on, every opening line starts a segment
      and every other line is glued to the current one. */
  lemma {:induction false} FromOpener(before: seq<string>, rest: seq<string>)
    requires rest != [] && Opener(rest[0])
    ensures EntryState(Fold(Combining(before, "", false), rest), before, Segments(Opener, rest))
    decreases |rest|
  {
    var st0 := Combining(before, "", false);
    var init, s := rest[..|rest| - 1], rest[|rest| - 1];
    assert rest == init + [s];
    if init == [] {
      assert rest == [s];
      FoldSnoc(st0, [], s);
      SegmentsSnoc(Opener, [], s);
      OpenerFirst(before, s);
    } else {
      assert init[0] == rest[0];
      FromOpener(before, init);
      var st, segs := Fold(st0, init), Segments(Opener, init);
      FoldSnoc(st0, init, s);
      SegmentsSnoc(Opener, init, s);
      if Opener(s) {
        OpenerStep(st, before, segs, s);
      } else {
        ContinueStep(st, before, segs, s);
      }
    }
  }

  /** `combine_strings_with_initial` emits, in order: the parenthesised
      lines before the first line with a parenthesis and an initial, each
      on its own; then one entry per segment from that line on, a segment
      starting at each line with a parenthesis and an initial and holding
      the lines after it joined with a space. Lines without a parenthesis
      before that first line are dropped. */
  lemma {:induction false} CombinedLaws(lines: seq<string>)
    ensures Combined(lines) ==
              Filter(HasParen, lines[..FirstOpener(lines)]) +
              Map(JoinSpace, Segments(Opener, lines[FirstOpener(lines)..]))
  {
    var k := FirstOpener(lines);
    var pre, post := lines[..k], lines[k..];
    var before := Filter(HasParen, pre);
    assert lines == pre + post;
    FoldAppend(Start, pre, post);
    BeforeOpener(pre);
    if k == |lines| {
      assert post == [];
      assert Segments(Opener, post) == [];
      assert Map(JoinSpace, []) == [];
    } else {
      FromOpener(before, post);
      CombinedOfEntry(Fold(Combining(before, "", false), post), before, Segments(Opener, post));
    }
  }

  /** The entry being built is emitted last. */
  lemma {:induction false} CombinedOfEntry(st: Combining, before: seq<string>, segs: seq<seq<string>>)
    requires EntryState(st, before, segs)
    ensures (if st.current != [] then st.combined + [st.current] else st.combined) == before + Map(JoinSpace, segs)
  {
    var n := |segs| - 1;
    assert segs == segs[..n] + [segs[n]];
    MapSnoc(JoinSpace, segs[..n], segs[n]);
  }

  /** The loop of `combine_strings_with_initial`. */
  method CombineStringsWithInitial(strings: seq<string>) returns (combined: seq<string>)
    ensures combined == Combined(strings)
  {
    combined := [];
    var current := "";
    var found := false;
    for i := 0 to |strings|
      invariant Combining(combined, current, found) == Fold(Start, strings[..i])
    {
      FoldSnoc(Start, strings[..i], strings[i]);
      assert strings[..i + 1] == strings[..i] + [strings[i]];
      var s := strings[i];
      var hasParenthesis := '(' in s || ')' in s;
      var hasInitial := InitialStarts(s) != [];
      if !found && !hasParenthesis {
        continue;
      }
      if hasParenthesis && hasInitial {
        if current != [] {
          combined := combined + [current];
        }
        current := s;
        found := true;
      } else if hasParenthesis && !hasInitial {
        if found {
          current := current + " " + s;
        } else {
          combined := combined + [s];
        }
      } else if found {
        current := current + " " + s;
      }
    }
    assert strings[..|strings|] == strings;
    if current != [] {
      combined := combined + [current];
    }
  }

  // ---------------------------------------------------------------------
  // The line filters of the main loop

  /** More than three letters, and a parenthesis or a digit. */
  predicate Wanted(line: string) {
    |OnlyLetters(line)| > 3 && (HasParen(line) || HasDigit(line))
  }

  /** `dot_initials(fix_initials_dot(line))` */
  function Tidy(line: string): string {
    DotInitials(FixInitialsDot(line))
  }

  /** The lines of a page that pass the filter. */
  function WantedLines(text: string): seq<string> {
    Filter(Wanted, SplitOn(Replace(text, "\n\n", "\n"), '\n'))
  }

  /** The combined lines with a digit, tidied: what the main loop goes on
      with. */
  function Candidates(text: string): seq<string> {
    Map(Tidy, Filter(HasDigit, Combined(WantedLines(text))))
  }

  /** `fix_initials_dot` only turns a lower-case letter into a period, so
      digits stay. */
  lemma {:induction false} FixInitialsDotKeepsDigits(s: string)
    requires HasDigit(s)
    ensures HasDigit(FixInitialsDot(s))
  {
    var i :| 0 <= i < |s| && IsDigit(s[i]);
    assert FixInitialsDot(s)[i] == s[i];
  }

  /** One candidate per combined line with a digit; each still has a digit
      and every capital in it is followed by a word character or a period. */
  lemma {:induction false} CandidatesLaws(text: string)
    ensures |Candidates(text)| == |Filter(HasDigit, Combined(WantedLines(text)))|
    ensures forall c :: c in Candidates(text) ==> HasDigit(c) && CapitalsClosed(c)
  {
    var kept := Filter(HasDigit, Combined(WantedLines(text)));
    forall c | c in Candidates(text) ensures HasDigit(c) && CapitalsClosed(c) {
      var i :| 0 <= i < |kept| && Tidy(kept[i]) == c;
      FixInitialsDotKeepsDigits(kept[i]);
      DotInitialsKeepsDigits(FixInitialsDot(kept[i]));
    }
  }

  // ---------------------------------------------------------------------
  // remove_false_parenthesis

  /** A match of `\(\s*\)` at `i`. */
  predicate EmptyPairAt(s: string, i: nat) {
    i < |s| && s[i] == '(' && SkipSpace(s, i + 1) < |s| && s[SkipSpace(s, i + 1)] == ')'
  }

  /** Where the match of `\(\s*\)` at `i` ends, just past the `)`. */
  function EmptyPairEnd(s: string, i: nat): nat {
    SkipSpace(s, i + 1) + 1
  }

  function EmptyPairRep(s: string, i: nat): string {
    "("
  }

  /** A match of `([A-Z])\.\s*\)(?=\s+[A-Z])` at `i`; the lookahead is not
      part of the match. */
  predicate LooseCloseAt(s: string, i: nat) {
    i + 1 < |s| && IsUpper(s[i]) && s[i + 1] == '.' &&
    var j := SkipSpace(s, i + 2);
    j < |s| && s[j] == ')' &&
    var m := SkipSpace(s, j + 1);
    j + 1 < m < |s| && IsUpper(s[m])
  }

  /** Where the match at `i` ends, just past the `)`. */
  function LooseCloseEnd(s: string, i: nat): nat {
    SkipSpace(s, i + 2) + 1
  }

  /** `\1.`: the capital and a period. */
  function LooseCloseRep(s: string, i: nat): string {
    if i < |s| then [s[i], '.'] else "."
  }

  /** `remove_false_parenthesis`: first `re.sub(r'\(\s*\)', '(', text)`,
      then `re.sub(r'([A-Z])\.\s*\)(?=\s+[A-Z])', r'\1.', text)`. */
  function RemoveFalseParenthesis(text: string): string {
    var t := SubFrom(EmptyPairAt, EmptyPairEnd, EmptyPairRep, text, 0);
    SubFrom(LooseCloseAt, LooseCloseEnd, LooseCloseRep, t, 0)
  }

  /** The characters the two substitutions never delete. */
  predicate Solid(c: char) {
    !IsSpace(c) && c != ')'
  }

  /** A stretch of whitespace and closing parentheses makes no difference
      to what is solid. */
  lemma {:induction false} SkipLoose(s: string, i: nat, j: nat)
    requires i <= j <= |s|
    requires forall k :: i <= k < j ==> !Solid(s[k])
    ensures Filter(Solid, s[i..j]) == []
  {
    FilterNone(Solid, s[i..j]);
  }

  /** Each match of the first pattern is `(`, whitespace and `)`. */
  lemma {:induction false} EmptyPairFits(s: string)
    ensures forall p :: 0 <= p < |s| && EmptyPairAt(s, p) ==>
              p < EmptyPairEnd(s, p) <= |s| && |EmptyPairRep(s, p)| <= EmptyPairEnd(s, p) - p &&
              Filter(Solid, EmptyPairRep(s, p)) == Filter(Solid, s[p..EmptyPairEnd(s, p)])
  {
    forall p | 0 <= p < |s| && EmptyPairAt(s, p)
      ensures Filter(Solid, EmptyPairRep(s, p)) == Filter(Solid, s[p..EmptyPairEnd(s, p)])
    {
      var e := EmptyPairEnd(s, p);
      SkipLoose(s, p + 1, e);
      assert s[p..e] == "(" + s[p + 1..e];
      FilterAppend(Solid, "(", s[p + 1..e]);
    }
  }

  /** Each match of the second pattern is a capital, `.`, whitespace and
      `)`. */
  lemma {:induction false} LooseCloseFits(s: string)
    ensures forall p :: 0 <= p < |s| && LooseCloseAt(s, p) ==>
              p < LooseCloseEnd(s, p) <= |s| && |LooseCloseRep(s, p)| <= LooseCloseEnd(s, p) - p &&
              Filter(Solid, LooseCloseRep(s, p)) == Filter(Solid, s[p..LooseCloseEnd(s, p)])
  {
    forall p | 0 <= p < |s| && LooseCloseAt(s, p)
      ensures Filter(Solid, LooseCloseRep(s, p)) == Filter(Solid, s[p..LooseCloseEnd(s, p)])
    {
      var e := LooseCloseEnd(s, p);
      SkipLoose(s, p + 2, e);
      assert s[p..e] == [s[p], '.'] + s[p + 2..e];
      FilterAppend(Solid, [s[p], '.'], s[p + 2..e]);
    }
  }

  /** `remove_false_parenthesis` deletes only whitespace and closing
      parentheses: every other character, every `(` included, stays in
      order. */
  lemma {:induction false} RemoveFalseParenthesisLaws(text: string)
    ensures Filter(Solid, RemoveFalseParenthesis(text)) == Filter(Solid, text)
    ensures multiset(RemoveFalseParenthesis(text))['('] == multiset(text)['(']
  {
    var t := SubFrom(EmptyPairAt, EmptyPairEnd, EmptyPairRep, text, 0);
    EmptyPairFits(text);
    SubKeeps(EmptyPairAt, EmptyPairEnd, EmptyPairRep, Solid, text, 0);
    LooseCloseFits(t);
    SubKeeps(LooseCloseAt, LooseCloseEnd, LooseCloseRep, Solid, t, 0);
    assert text[0..] == text;
    assert t[0..] == t;
    FilterSameCounts(Solid, RemoveFalseParenthesis(text), text, '(');
  }

  /** The two substitutions never make the text longer. */
  lemma {:induction false} RemoveFalseParenthesisShorter(text: string)
    ensures |RemoveFalseParenthesis(text)| <= |text|
  {
    var t := SubFrom(EmptyPairAt, EmptyPairEnd, EmptyPairRep, text, 0);
    EmptyPairFits(text);
    SubShorter(EmptyPairAt, EmptyPairEnd, EmptyPairRep, text, 0);
    LooseCloseFits(t);
    SubShorter(LooseCloseAt, LooseCloseEnd, LooseCloseRep, t, 0);
  }

  /** A text without `)` is left unchanged. */
  lemma {:induction false} RemoveFalseParenthesisNoClose(text: string)
    requires ')' !in text
    ensures RemoveFalseParenthesis(text) == text
  {
    var t := SubFrom(EmptyPairAt, EmptyPairEnd, EmptyPairRep, text, 0);
    SubNoMatch(EmptyPairAt, EmptyPairEnd, EmptyPairRep, text, 0);
    assert text[0..] == text;
    SubNoMatch(LooseCloseAt, LooseCloseEnd, LooseCloseRep, t, 0);
    assert t[0..] == t;
  }

  // ---------------------------------------------------------------------
  // split_by_initials_with_context

  predicate NotClose(c: char) { c != ')' }

  /** The letter class `[A-Za-zÀ-ÿ]` of the pattern: the ASCII letters and
      the block from U+00C0 to U+00FF. */
  predicate NameLetter(c: char) { IsAlpha(c) || '\U{C0}' <= c <= '\U{FF}' }
  predicate NotNameLetter(c: char) { !NameLetter(c) }

  /** Where the optional whitespace and the `(` of the pattern are looked
      for after the letters that start at `p`. */
  function OpenAfter(s: string, p: nat): nat
    requires p <= |s|
  {
    var q := p + RunLength(s[p..], NameLetter);
    if q < |s| && IsSpace(s[q]) then q + 1 else q
  }

  /** A match of `[A-Za-zÀ-ÿ]+(?:\s?\([^\)]*\))[^A-Za-zÀ-ÿ]*` at `p`: letters, an
      optional whitespace, `(`, and a `)` later on. */
  predicate ContextAt(s: string, p: nat) {
    p < |s| && NameLetter(s[p]) &&
    var o := OpenAfter(s, p);
    o < |s| && s[o] == '(' && ')' in s[o + 1..]
  }

  /** The end of the match at `p`: past the first `)` after the `(` and the
      non-letters that follow it. */
  function ContextEnd(s: string, p: nat): nat {
    if !ContextAt(s, p) then p + 1
    else
      var o := OpenAfter(s, p);
      var c := o + 1 + RunLength(s[o + 1..], NotClose);
      if c < |s| then c + 1 + RunLength(s[c + 1..], NotNameLetter) else |s|
  }

  /** The starts of the surname matches, left to right. */
  function ContextStarts(text: string): seq<nat> {
    MatchesFrom(ContextAt, ContextEnd, text, 0)
  }

  /** `split_by_initials_with_context` */
  function ContextSegments(text: string): seq<string> {
    Map(Strip, Pieces(text, ContextStarts(text)))
  }

  /** One segment per surname match; the unstripped pieces run from each
      match to the next and together give the text from the first match on,
      so only the text before the first match is dropped, and no match
      starts there. */
  lemma {:induction false} ContextSegmentsLaws(text: string)
    ensures |ContextSegments(text)| == |ContextStarts(text)|
    ensures forall k :: 0 <= k < |ContextStarts(text)| ==> ContextAt(text, ContextStarts(text)[k])
    ensures ContextStarts(text) == [] ==> forall q :: !ContextAt(text, q)
    ensures ContextStarts(text) != [] ==>
              ContextStarts(text)[0] < |text| &&
              Concat(Pieces(text, ContextStarts(text))) == text[ContextStarts(text)[0]..] &&
              forall q :: q < ContextStarts(text)[0] ==> !ContextAt(text, q)
  {
    MatchesSound(ContextAt, ContextEnd, text, 0);
    MatchesFirst(ContextAt, ContextEnd, text, 0);
    if ContextStarts(text) != [] {
      MatchesAscending(ContextAt, ContextEnd, text);
      PiecesConcat(text, ContextStarts(text));
    }
  }

  /** The loop of `split_by_initials_with_context`. */
  method SplitByInitialsWithContext(text: string) returns (segments: seq<string>)
    ensures segments == ContextSegments(text)
  {
    var spans := ContextStarts(text);
    segments := [];
    for i := 0 to |spans|
      invariant segments == Map(Strip, Pieces(text, spans)[..i])
    {
      var nextStart := if i + 1 < |spans| then spans[i + 1] else |text|;
      assert Pieces(text, spans)[..i + 1] == Pieces(text, spans)[..i] + [Slice(text, spans[i], nextStart)];
      MapSnoc(Strip, Pieces(text, spans)[..i], Slice(text, spans[i], nextStart));
      segments := segments + [Strip(Slice(text, spans[i], nextStart))];
    }
    assert Pieces(text, spans)[..|spans|] == Pieces(text, spans);
  }

  // ---------------------------------------------------------------------
  // find_prefixes (the definition that is in effect)

  predicate PrefixChar(c: char) { IsWord(c) || c == '.' }

  /** A match of `\b[vdt][\w.]{0,2}\)` at `p`: at most two word characters
      or periods after the letter, then `)`. */
  predicate ClosedPrefixAt(s: string, p: nat) {
    p < |s| && (s[p] == 'v' || s[p] == 'd' || s[p] == 't') && (p == 0 || !IsWord(s[p - 1])) &&
    var r := RunLength(s[p + 1..], PrefixChar);
    r <= 2 && p + 1 + r < |s| && s[p + 1 + r] == ')'
  }

  /** The end of the match at `p`, just past the `)`. */
  function ClosedPrefixEnd(s: string, p: nat): nat {
    if ClosedPrefixAt(s, p) then p + 2 + RunLength(s[p + 1..], PrefixChar) else p + 1
  }

  /** `find_prefixes`: the text up to the end of the last match and the
      rest; `None` stands for Python's empty list. */
  function FindPrefixes(text: string): (Option<string>, string) {
    var starts := MatchesFrom(ClosedPrefixAt, ClosedPrefixEnd, text, 0);
    if starts == [] then (None, "")
    else
      var e := ClosedPrefixEnd(text, starts[|starts| - 1]);
      (Some(Slice(text, 0, e)), Slice(text, e, |text|))
  }

  /** Nothing is found exactly when nothing matches, and then the rest is
      empty too. */
  lemma {:induction false} FindPrefixesNone(text: string)
    ensures FindPrefixes(text).0.None? <==> forall p :: !ClosedPrefixAt(text, p)
    ensures FindPrefixes(text).0.None? ==> FindPrefixes(text).1 == ""
  {
    var starts := MatchesFrom(ClosedPrefixAt, ClosedPrefixEnd, text, 0);
    MatchesFirst(ClosedPrefixAt, ClosedPrefixEnd, text, 0);
    if starts != [] {
      MatchesSound(ClosedPrefixAt, ClosedPrefixEnd, text, 0);
      assert ClosedPrefixAt(text, starts[0]);
    }
  }

  /** When something is found, the two parts give the text back, the first
      ends with the `)` of a match and no match starts after it. */
  lemma {:induction false} FindPrefixesLaws(text: string)
    ensures FindPrefixes(text).0.Some? ==>
              var prefix := FindPrefixes(text).0.value;
              prefix + FindPrefixes(text).1 == text &&
              prefix != [] && prefix[|prefix| - 1] == ')' &&
              (exists p :: ClosedPrefixAt(text, p) && ClosedPrefixEnd(text, p) == |prefix|) &&
              forall q :: |prefix| <= q ==> !ClosedPrefixAt(text, q)
  {
    var starts := MatchesFrom(ClosedPrefixAt, ClosedPrefixEnd, text, 0);
    if starts != [] {
      var p := LastPrefix(text);
      var e := ClosedPrefixEnd(text, p);
      assert 0 < e <= |text| && text[e - 1] == ')';
      assert FindPrefixes(text) == (Some(Slice(text, 0, e)), Slice(text, e, |text|));
      SliceSplit(text, e);
      assert Slice(text, 0, e) == text[..e];
    }
  }

  /** The last match, after which no match starts. */
  lemma {:induction false} LastPrefix(text: string) returns (p: nat)
    requires MatchesFrom(ClosedPrefixAt, ClosedPrefixEnd, text, 0) != []
    ensures var starts := MatchesFrom(ClosedPrefixAt, ClosedPrefixEnd, text, 0);
            p == starts[|starts| - 1] && ClosedPrefixAt(text, p)
    ensures forall q :: ClosedPrefixEnd(text, p) <= q ==> !ClosedPrefixAt(text, q)
  {
    var starts := MatchesFrom(ClosedPrefixAt, ClosedPrefixEnd, text, 0);
    MatchesSound(ClosedPrefixAt, ClosedPrefixEnd, text, 0);
    MatchesLast(ClosedPrefixAt, ClosedPrefixEnd, text, 0);
    p := starts[|starts| - 1];
    assert ClosedPrefixAt(text, p);
    assert Resume(ClosedPrefixEnd, text, p) == ClosedPrefixEnd(text, p);
  }
}
