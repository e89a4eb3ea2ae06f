/** split_on_housenumbers.py: the 1926 address book. Page text without line
    breaks is cut after every house number; the pieces with a parenthesis
    lose their telephone numbers and, when of a plausible length, are tidied
    up before they are handed on. */
module HouseNumbers {
  import opened Py
  import opened Normalize
  import opened Records
  import opened Scan

  // ---------------------------------------------------------------------
  // get_text

  /** The text of one page: blank lines, hyphenation and line breaks go. */
  function PageText(page: string): string {
    Replace(Replace(Replace(page, "\n\n", "\n"), "-\n", ""), "\n", "")
  }

  /** No line break is left, and every character comes from the page. */
  lemma {:induction false} PageTextLaws(page: string)
    ensures '\n' !in PageText(page)
    ensures forall c :: c in PageText(page) ==> c in page
  {
    var t1 := Replace(page, "\n\n", "\n");
    var t2 := Replace(t1, "-\n", "");
    ReplaceRemovesChar(t2, '\n', "");
    forall c | c in PageText(page) ensures c in page {
      ReplaceChars(t2, "\n", "", c);
      ReplaceChars(t1, "-\n", "", c);
      ReplaceChars(page, "\n\n", "\n", c);
    }
  }

  /** `get_text`: the pages `first..last` (1-based, inclusive). The brace
      replacement comes after the text has been appended and so changes
      nothing in the result. */
  method GetText(pages: seq<string>, first: int, last: int) returns (texts: seq<string>)
    ensures texts == Map(PageText, Slice(pages, first - 1, last))
  {
    var range := Slice(pages, first - 1, last);
    texts := [];
    for i := 0 to |range|
      invariant texts == Map(PageText, range[..i])
    {
      assert range[..i + 1] == range[..i] + [range[i]];
      MapSnoc(PageText, range[..i], range[i]);
      var text := Replace(range[i], "\n\n", "\n");
      text := Replace(text, "-\n", "");
      text := Replace(text, "\n", "");
      texts := texts + [text];
      text := Replace(text, "{", "(");
    }
    assert range[..|range|] == range;
  }

  // ---------------------------------------------------------------------
  // House numbers

  predicate Terminator(c: char) {
    c == '.' || c == ',' || c == ';' || c == '!' || c == '?' || c == '\n'
  }

  /** The end of the run of digits that starts at `p`. */
  function DigitsEnd(s: string, p: nat): (q: nat)
    ensures p <= q
    ensures p <= |s| ==> q <= |s| && (q < |s| ==> !IsDigit(s[q]))
    ensures forall k :: p <= k < q ==> k < |s| && IsDigit(s[k])
  {
    if p >= |s| then p else p + RunLength(s[p..], IsDigit)
  }

  /** `[A-Za-z]?[.,;!?\n]` at `r`: where it ends, if it matches. */
  function TailEnd(s: string, r: nat): (e: Option<nat>)
    ensures e.Some? ==> r < e.value <= |s| && Terminator(s[e.value - 1])
  {
    if r + 1 < |s| && IsAlpha(s[r]) && Terminator(s[r + 1]) then Some(r + 2)
    else if r < |s| && Terminator(s[r]) then Some(r + 1)
    else None
  }

  /** `(?<!\d)\d{1,3}` at `p`: a run of one to three digits not preceded by
      a digit (a longer run cannot be followed by the rest of either
      pattern). */
  function ShortNumberEnd(s: string, p: nat): (q: Option<nat>)
    ensures q.Some? ==> p < q.value <= |s| && IsDigit(s[p]) && (p == 0 || !IsDigit(s[p - 1]))
  {
    if p < |s| && (p == 0 || !IsDigit(s[p - 1])) then
      var q := DigitsEnd(s, p);
      if p < q <= p + 3 then Some(q) else None
    else None
  }

  /** `(?<!\d)\d{1,3}[A-Za-z]?[.,;!?\n]` at `p`, the pattern of
      `split_by_housenumbers`. A match starts with a digit that follows no
      digit and ends with a terminator. */
  function PlainNumberMatch(s: string, p: nat): (e: Option<nat>)
    ensures e.Some? ==> p < e.value <= |s| && IsDigit(s[p]) && (p == 0 || !IsDigit(s[p - 1])) &&
                        Terminator(s[e.value - 1])
  {
    var q := ShortNumberEnd(s, p);
    if q.None? then None else TailEnd(s, q.value)
  }

  predicate PlainNumberAt(s: string, p: nat) {
    PlainNumberMatch(s, p).Some?
  }

  function PlainNumberEnd(s: string, p: nat): nat {
    if PlainNumberAt(s, p) then PlainNumberMatch(s, p).value else p + 1
  }

  /** `(?<!\d)\d{1,3}(?:[.,]\d{1,3})?[A-Za-z]?[.,;!?\n]` at `p`, the pattern
      of `split_text_with_housenumbers_included`: the decimal part is tried
      first and given up when the rest does not follow it. A match starts
      with a digit that follows no digit and ends with a terminator. */
  function HouseNumberMatch(s: string, p: nat): (e: Option<nat>)
    ensures e.Some? ==> p < e.value <= |s| && IsDigit(s[p]) && (p == 0 || !IsDigit(s[p - 1])) &&
                        Terminator(s[e.value - 1])
  {
    var q := ShortNumberEnd(s, p);
    if q.None? then None
    else
      var decimal := DecimalEnd(s, q.value);
      if decimal.Some? then decimal else TailEnd(s, q.value)
  }

  /** `[.,]\d{1,3}[A-Za-z]?[.,;!?\n]` at `q`: where it ends, if it matches. */
  function DecimalEnd(s: string, q: nat): (e: Option<nat>)
    ensures e.Some? ==> q < e.value <= |s| && Terminator(s[e.value - 1])
  {
    if q < |s| && (s[q] == '.' || s[q] == ',') then
      var r := DigitsEnd(s, q + 1);
      if q + 1 < r <= q + 4 then TailEnd(s, r) else None
    else None
  }

  predicate HouseAt(s: string, p: nat) {
    HouseNumberMatch(s, p).Some?
  }

  function HouseEnd(s: string, p: nat): nat {
    if HouseAt(s, p) then HouseNumberMatch(s, p).value else p + 1
  }

  // ---------------------------------------------------------------------
  // split_by_housenumbers

  /** `re.split` on the plain house-number pattern, the numbers captured. */
  function SplitByHousenumbers(text: string): seq<string> {
    SplitFrom(PlainNumberAt, PlainNumberEnd, text, 0, 0)
  }

  function PlainStarts(text: string): seq<nat> {
    MatchesFrom(PlainNumberAt, PlainNumberEnd, text, 0)
  }

  /** The pieces join back to the text; the house numbers found sit at the
      odd positions, and each is a match of the pattern. */
  lemma {:induction false} SplitByHousenumbersLaws(text: string)
    ensures Concat(SplitByHousenumbers(text)) == text
    ensures |SplitByHousenumbers(text)| == 2 * |PlainStarts(text)| + 1
    ensures forall k :: 0 <= k < |PlainStarts(text)| ==>
              PlainNumberAt(text, PlainStarts(text)[k]) &&
              SplitByHousenumbers(text)[2 * k + 1] ==
                Slice(text, PlainStarts(text)[k], PlainNumberEnd(text, PlainStarts(text)[k]))
  {
    SplitLaws(PlainNumberAt, PlainNumberEnd, text, 0, 0);
    MatchesSound(PlainNumberAt, PlainNumberEnd, text, 0);
    assert text[0..] == text;
  }

  // ---------------------------------------------------------------------
  // split_text_with_housenumbers_included

  function HouseStarts(text: string): seq<nat> {
    MatchesFrom(HouseAt, HouseEnd, text, 0)
  }

  /** `match.end()` for every match. */
  function HouseEnds(text: string): seq<nat> {
    MatchEnds(HouseAt, HouseEnd, text, 0)
  }

  /** `split_text_with_housenumbers_included` */
  function HouseSegments(text: string): seq<string> {
    Through(text, HouseEnds(text), 0)
  }

  /** The segments join back to the text and none is empty. Segment `k`,
      for each house number `k`, runs from the end of the previous one and
      ends with house number `k`; a last segment follows only if text is
      left, and it holds no house number. */
  lemma {:induction false} HouseSegmentsLaws(text: string)
    ensures Concat(HouseSegments(text)) == text
    ensures forall k :: 0 <= k < |HouseSegments(text)| ==> HouseSegments(text)[k] != []
    ensures |HouseSegments(text)| == |HouseStarts(text)| + (if LastEnd(0, HouseEnds(text)) < |text| then 1 else 0)
    ensures forall k :: 0 <= k < |HouseStarts(text)| ==>
              HouseAt(text, HouseStarts(text)[k]) &&
              HouseSegments(text)[k] ==
                Slice(text, Before(0, HouseEnds(text), k), HouseStarts(text)[k]) +
                Slice(text, HouseStarts(text)[k], HouseEnd(text, HouseStarts(text)[k]))
    ensures forall q :: LastEnd(0, HouseEnds(text)) <= q < |text| ==> !HouseAt(text, q)
  {
    CutLaws(HouseAt, HouseEnd, text);
  }

  /** The loop of `split_text_with_housenumbers_included`. */
  method SplitTextWithHousenumbersIncluded(text: string) returns (result: seq<string>)
    ensures result == HouseSegments(text)
  {
    var matches := HouseStarts(text);
    ghost var ends := HouseEnds(text);
    result := [];
    var lastEnd: nat := 0;
    for i := 0 to |matches|
      invariant result + Through(text, ends[i..], lastEnd) == HouseSegments(text)
    {
      var end := HouseEnd(text, matches[i]);
      assert ends[i..][1..] == ends[i + 1..];
      result := result + [Slice(text, lastEnd, end)];
      lastEnd := end;
    }
    if lastEnd < |text| {
      result := result + [Slice(text, lastEnd, |text|)];
    }
  }

  // ---------------------------------------------------------------------
  // remove_phone_numbers

  predicate TextAt(s: string, p: nat, w: string) {
    p + |w| <= |s| && s[p..p + |w|] == w
  }

  /** `\b(?:[Tt]el|[Tt]elef|[Tt]elefoon)\.` at `p`: just past the period. */
  function PhoneWordEnd(s: string, p: nat): (e: Option<nat>)
    ensures e.Some? ==> p < e.value <= |s| && s[e.value - 1] == '.'
  {
    if p < |s| && (s[p] == 'T' || s[p] == 't') && (p == 0 || !IsWord(s[p - 1])) then
      if TextAt(s, p + 1, "el.") then TextAtLast(s, p + 1, "el."); Some(p + 4)
      else if TextAt(s, p + 1, "elef.") then TextAtLast(s, p + 1, "elef."); Some(p + 6)
      else if TextAt(s, p + 1, "elefoon.") then TextAtLast(s, p + 1, "elefoon."); Some(p + 9)
      else None
    else None
  }

  lemma {:induction false} TextAtLast(s: string, p: nat, w: string)
    requires w != [] && TextAt(s, p, w)
    ensures s[p + |w| - 1] == w[|w| - 1]
  {
    assert s[p..p + |w|][|w| - 1] == s[p + |w| - 1];
  }

  /** `\b(?:[Tt]el|[Tt]elef|[Tt]elefoon)\.\s*\d+\b` at `p`: the digits must
      run up to a character that is not a word character. */
  function PhoneMatch(s: string, p: nat): (e: Option<nat>)
    ensures e.Some? ==> p < e.value <= |s| && IsDigit(s[e.value - 1]) && '.' in s[p..e.value]
  {
    var w := PhoneWordEnd(s, p);
    if w.None? then None
    else
      var d := SkipSpace(s, w.value);
      var e := DigitsEnd(s, d);
      if d < e && (e == |s| || !IsWord(s[e])) then
        assert s[p..e][w.value - 1 - p] == '.';
        Some(e)
      else None
  }

  predicate PhoneAt(s: string, p: nat) {
    PhoneMatch(s, p).Some?
  }

  function PhoneEnd(s: string, p: nat): nat {
    if PhoneAt(s, p) then PhoneMatch(s, p).value else p + 1
  }

  /** `remove_phone_numbers` */
  function RemovePhoneNumbers(text: string): string {
    SubFrom(PhoneAt, PhoneEnd, NoText, text, 0)
  }

  function PhoneStarts(text: string): seq<nat> {
    MatchesFrom(PhoneAt, PhoneEnd, text, 0)
  }

  /** Removing the telephone numbers never makes the text longer. */
  lemma {:induction false} RemovePhoneNumbersShorter(text: string)
    ensures |RemovePhoneNumbers(text)| <= |text|
  {
    PhoneInside(text);
    SubShorter(PhoneAt, PhoneEnd, NoText, text, 0);
  }

  /** Only the telephone numbers go: without one the text is unchanged,
      and otherwise the text before the first one is kept as it is, that
      number is dropped and the removal goes on after it. */
  lemma {:induction false} RemovePhoneNumbersLaws(text: string)
    ensures PhoneStarts(text) == [] ==> RemovePhoneNumbers(text) == text
    ensures PhoneStarts(text) != [] ==>
              PhoneStarts(text)[0] < |text| &&
              RemovePhoneNumbers(text) ==
                text[..PhoneStarts(text)[0]] + SubFrom(PhoneAt, PhoneEnd, NoText, text, PhoneEnd(text, PhoneStarts(text)[0]))
  {
    PhoneAdvances(text);
    DeleteStart(PhoneAt, PhoneEnd, text);
  }

  /** A text without a period is left as it is. */
  lemma {:induction false} RemovePhoneNumbersNoPeriod(text: string)
    requires '.' !in text
    ensures RemovePhoneNumbers(text) == text
  {
    NoPeriodNoPhone(text);
    SubNoMatch(PhoneAt, PhoneEnd, NoText, text, 0);
    assert text[0..] == text;
  }

  lemma {:induction false} PhoneAdvances(text: string)
    ensures forall p :: 0 <= p < |text| && PhoneAt(text, p) ==> p < PhoneEnd(text, p)
  {
  }

  lemma {:induction false} PhoneInside(text: string)
    ensures forall p :: 0 <= p < |text| && PhoneAt(text, p) ==>
              p < PhoneEnd(text, p) <= |text| && |NoText(text, p)| <= PhoneEnd(text, p) - p
  {
  }

  /** Every telephone number holds a period. */
  lemma {:induction false} PhoneHasPeriod(text: string, p: nat)
    ensures PhoneAt(text, p) ==> exists k :: p <= k < |text| && text[k] == '.'
  {
    if PhoneAt(text, p) {
      var e := PhoneMatch(text, p).value;
      var j :| 0 <= j < e - p && text[p..e][j] == '.';
      assert text[p + j] == '.';
    }
  }

  /** A text without a period holds no telephone number. */
  lemma {:induction false} NoPeriodNoPhone(text: string)
    requires '.' !in text
    ensures forall p :: 0 <= p < |text| ==> !PhoneAt(text, p)
  {
    forall p | 0 <= p < |text| ensures !PhoneAt(text, p) {
      PhoneHasPeriod(text, p);
    }
  }

  // ---------------------------------------------------------------------
  // fix_ocr_mistakes

  /** The first `)` at or after `o`, or the end. */
  function CloseFrom(s: string, o: nat): (c: nat)
    requires o <= |s|
    ensures o <= c <= |s|
    ensures forall k :: o <= k < c ==> s[k] != ')'
    ensures c < |s| ==> s[c] == ')'
  {
    o + RunLength(s[o..], c => c != ')')
  }

  /** `\(([^)]*)\)` at `p`. */
  predicate OcrGroupAt(s: string, p: nat) {
    p < |s| && s[p] == '(' && CloseFrom(s, p + 1) < |s|
  }

  function OcrGroupEnd(s: string, p: nat): nat {
    if OcrGroupAt(s, p) then CloseFrom(s, p + 1) + 1 else p + 1
  }

  /** The group with `)` and `}` read as `J.`. */
  function OcrGroupRep(s: string, p: nat): string {
    if OcrGroupAt(s, p) then
      "(" + Replace(Replace(s[p + 1..CloseFrom(s, p + 1)], ")", "J."), "}", "J.") + ")"
    else ""
  }

  /** `fix_ocr_mistakes` */
  function FixOcrMistakes(text: string): string {
    SubFrom(OcrGroupAt, OcrGroupEnd, OcrGroupRep, text, 0)
  }

  /** What `fix_ocr_mistakes` never touches. */
  predicate NotOcr(c: char) {
    c != '}' && c != 'J' && c != '.'
  }

  /** Within a group, only `}` is rewritten (a `)` cannot occur inside
      it); no `}` is left in the group. */
  lemma {:induction false} OcrGroupLaws(s: string, p: nat)
    requires OcrGroupAt(s, p)
    ensures var c := CloseFrom(s, p + 1);
            ')' !in s[p + 1..c] &&
            OcrGroupRep(s, p) == "(" + Replace(s[p + 1..c], "}", "J.") + ")" &&
            '}' !in OcrGroupRep(s, p)
  {
    var c := CloseFrom(s, p + 1);
    var g := s[p + 1..c];
    assert ')' !in g by {
      forall k | 0 <= k < |g| ensures g[k] != ')' {
        assert g[k] == s[p + 1 + k];
      }
    }
    ReplaceAbsent(g, ')', "J.");
    var r := Replace(g, "}", "J.");
    assert OcrGroupRep(s, p) == "(" + r + ")";
    ReplaceRemovesChar(g, '}', "J.");
    assert '}' !in "(" + r + ")";
  }

  /** Rewriting a group changes nothing but `}`, `J` and `.`. */
  lemma {:induction false} OcrGroupKeeps(s: string, p: nat)
    requires OcrGroupAt(s, p)
    ensures Filter(NotOcr, OcrGroupRep(s, p)) == Filter(NotOcr, s[p..OcrGroupEnd(s, p)])
  {
    var c := CloseFrom(s, p + 1);
    var g := s[p + 1..c];
    assert OcrGroupEnd(s, p) == c + 1;
    assert s[p..c + 1] == "(" + g + ")" by { Enclosed(s, p, c); }
    OcrGroupLaws(s, p);
    BracedKeeps(g, OcrGroupRep(s, p), s[p..OcrGroupEnd(s, p)]);
  }

  /** A slice from `p` through `c` is its two ends around what lies between. */
  lemma {:induction false} Enclosed(s: string, p: nat, c: nat)
    requires p < c < |s|
    ensures s[p..c + 1] == [s[p]] + s[p + 1..c] + [s[c]]
  {
  }

  /** Rewriting `}` inside a bracketed group keeps what `NotOcr` sees. */
  lemma {:induction false} BracedKeeps(g: string, rep: string, whole: string)
    requires rep == "(" + Replace(g, "}", "J.") + ")" && whole == "(" + g + ")"
    ensures Filter(NotOcr, rep) == Filter(NotOcr, whole)
  {
    ReplaceKeeps(NotOcr, g, "}", "J.");
    var r := Replace(g, "}", "J.");
    FilterAppend(NotOcr, "(" + g, ")");
    FilterAppend(NotOcr, "(", g);
    FilterAppend(NotOcr, "(" + r, ")");
    FilterAppend(NotOcr, "(", r);
  }

  /** Everything `fix_ocr_mistakes` does not touch stays in order; a text
      without `(` is unchanged. */
  lemma {:induction false} FixOcrMistakesLaws(text: string)
    ensures Filter(NotOcr, FixOcrMistakes(text)) == Filter(NotOcr, text)
    ensures '(' !in text ==> FixOcrMistakes(text) == text
  {
    forall p | 0 <= p < |text| && OcrGroupAt(text, p)
      ensures p < OcrGroupEnd(text, p) <= |text| &&
              Filter(NotOcr, OcrGroupRep(text, p)) == Filter(NotOcr, text[p..OcrGroupEnd(text, p)])
    {
      OcrGroupKeeps(text, p);
    }
    SubKeeps(OcrGroupAt, OcrGroupEnd, OcrGroupRep, NotOcr, text, 0);
    assert text[0..] == text;
    if '(' !in text {
      SubNoMatch(OcrGroupAt, OcrGroupEnd, OcrGroupRep, text, 0);
    }
  }

  // ---------------------------------------------------------------------
  // replace_digits_parentheses

  /** The first line break at or after `o`, or the end. */
  function LineEnd(s: string, o: nat): (e: nat)
    requires o <= |s|
    ensures o <= e <= |s|
  {
    o + RunLength(s[o..], c => c != '\n')
  }

  /** The last `)` on the line of the `(` at `p`, or a position not after
      `p` when there is none. */
  function LastClose(s: string, p: nat): (c: int)
    requires p < |s|
    ensures c > p ==> c < |s| && s[c] == ')'
  {
    RFindUpTo(s, ")", LineEnd(s, p + 1) - 1)
  }

  predicate HasFixedDigit(t: string) {
    '1' in t || '3' in t || '4' in t
  }

  /** `\(.*[134].*\)` at `p`: `.` does not cross a line break, and the
      greedy stars make the match end at the last `)` of the line. */
  predicate DigitGroupAt(s: string, p: nat) {
    p < |s| && s[p] == '(' && LastClose(s, p) > p && HasFixedDigit(s[p + 1..LastClose(s, p)])
  }

  function DigitGroupEnd(s: string, p: nat): nat {
    if DigitGroupAt(s, p) then LastClose(s, p) + 1 else p + 1
  }

  /** The match with `1` read as `J.`, and `3` and `4` as `J`. */
  function DigitGroupRep(s: string, p: nat): string {
    if DigitGroupAt(s, p) then
      Replace(Replace(Replace(s[p..LastClose(s, p) + 1], "1", "J."), "3", "J"), "4", "J")
    else ""
  }

  /** `replace_digits_parentheses` */
  function ReplaceDigitsParentheses(text: string): string {
    SubFrom(DigitGroupAt, DigitGroupEnd, DigitGroupRep, text, 0)
  }

  /** What `replace_digits_parentheses` never touches. */
  predicate NotFixed(c: char) {
    c != '1' && c != '3' && c != '4' && c != 'J' && c != '.'
  }

  /** A rewritten group holds no `1`, `3` or `4`, and is otherwise the
      group. */
  lemma {:induction false} DigitGroupLaws(s: string, p: nat)
    requires DigitGroupAt(s, p)
    ensures !HasFixedDigit(DigitGroupRep(s, p))
    ensures Filter(NotFixed, DigitGroupRep(s, p)) == Filter(NotFixed, s[p..DigitGroupEnd(s, p)])
  {
    var g := s[p..LastClose(s, p) + 1];
    var r1 := Replace(g, "1", "J.");
    var r2 := Replace(r1, "3", "J");
    var r3 := Replace(r2, "4", "J");
    ReplaceRemovesChar(g, '1', "J.");
    ReplaceRemovesChar(r1, '3', "J");
    ReplaceRemovesChar(r2, '4', "J");
    if '1' in r3 {
      ReplaceChars(r2, "4", "J", '1');
      ReplaceChars(r1, "3", "J", '1');
    }
    if '3' in r3 {
      ReplaceChars(r2, "4", "J", '3');
    }
    ReplaceKeeps(NotFixed, g, "1", "J.");
    ReplaceKeeps(NotFixed, r1, "3", "J");
    ReplaceKeeps(NotFixed, r2, "4", "J");
  }

  /** Everything the rewriting does not touch stays in order, the text
      before the first group is kept as it is, and a text without `(` is
      unchanged. */
  lemma {:induction false} ReplaceDigitsParenthesesLaws(text: string)
    ensures Filter(NotFixed, ReplaceDigitsParentheses(text)) == Filter(NotFixed, text)
    ensures MatchesFrom(DigitGroupAt, DigitGroupEnd, text, 0) != [] ==>
              var m := MatchesFrom(DigitGroupAt, DigitGroupEnd, text, 0)[0];
              m < |text| &&
              ReplaceDigitsParentheses(text) ==
                text[..m] + DigitGroupRep(text, m) + SubFrom(DigitGroupAt, DigitGroupEnd, DigitGroupRep, text, DigitGroupEnd(text, m))
    ensures '(' !in text ==> ReplaceDigitsParentheses(text) == text
  {
    forall p | 0 <= p < |text| && DigitGroupAt(text, p)
      ensures p < DigitGroupEnd(text, p) <= |text| &&
              Filter(NotFixed, DigitGroupRep(text, p)) == Filter(NotFixed, text[p..DigitGroupEnd(text, p)])
    {
      DigitGroupLaws(text, p);
    }
    SubKeeps(DigitGroupAt, DigitGroupEnd, DigitGroupRep, NotFixed, text, 0);
    SubFirst(DigitGroupAt, DigitGroupEnd, DigitGroupRep, text, 0);
    assert text[0..] == text;
    var ms := MatchesFrom(DigitGroupAt, DigitGroupEnd, text, 0);
    if ms != [] {
      MatchesSound(DigitGroupAt, DigitGroupEnd, text, 0);
      assert Resume(DigitGroupEnd, text, ms[0]) == DigitGroupEnd(text, ms[0]);
    }
    if '(' !in text {
      SubNoMatch(DigitGroupAt, DigitGroupEnd, DigitGroupRep, text, 0);
    }
  }

  // ---------------------------------------------------------------------
  // The per-segment filter of the main loop

  predicate NotLetter(c: char) {
    !IsAlpha(c)
  }

  /** What becomes of one segment with a parenthesis: stripped and without
      telephone numbers, it goes on only when longer than 15 and shorter
      than 150 characters, and then gets dotted initials, loses its leading
      non-letters and has its digit groups rewritten. */
  function Prepared(segment: string): Option<string> {
    var line := RemovePhoneNumbers(Strip(segment));
    if 15 < |line| < 150 then Some(ReplaceDigitsParentheses(LStrip(DotInitials(line), NotLetter)))
    else None
  }

  /** The lines of a page that are handed on, in order. */
  function PageLines(page: string): seq<string> {
    Collected(Prepared, Filter(HasParen, HouseSegments(StripText(page, WithBrackets))))
  }

  /** A segment goes on exactly when its length is in range, and what goes
      on is empty or starts with a letter. */
  lemma {:induction false} PreparedLaws(segment: string)
    ensures Prepared(segment).Some? <==> 15 < |RemovePhoneNumbers(Strip(segment))| < 150
    ensures Prepared(segment).Some? ==> Prepared(segment).value == [] || IsAlpha(Prepared(segment).value[0])
  {
    var line := RemovePhoneNumbers(Strip(segment));
    var t := LStrip(DotInitials(line), NotLetter);
    LStripLaws(DotInitials(line), NotLetter);
    if t != [] {
      assert !DigitGroupAt(t, 0);
      assert ReplaceDigitsParentheses(t) == [t[0]] + SubFrom(DigitGroupAt, DigitGroupEnd, DigitGroupRep, t, 1);
    }
  }

  /** At most one line per segment with a parenthesis, each the prepared
      form of one of them. */
  lemma {:induction false} PageLinesLaws(page: string)
    ensures |PageLines(page)| <= |Filter(HasParen, HouseSegments(StripText(page, WithBrackets)))|
    ensures forall l :: l in PageLines(page) ==>
              exists seg :: seg in HouseSegments(StripText(page, WithBrackets)) && HasParen(seg) && Prepared(seg) == Some(l)
  {
    var segs := HouseSegments(StripText(page, WithBrackets));
    var kept := Filter(HasParen, segs);
    CollectedLaws(Prepared, kept);
    forall l | l in PageLines(page)
      ensures exists seg :: seg in segs && HasParen(seg) && Prepared(seg) == Some(l)
    {
      var k :| 0 <= k < |PageLines(page)| && PageLines(page)[k] == l;
      var i :| 0 <= i < |kept| && Prepared(kept[i]) == Some(l);
      FilterMember(HasParen, segs, kept[i]);
    }
  }

  /** A segment whose stripped text without telephone numbers is longer
      than 15 and shorter than 150 characters. */
  predicate InRange(segment: string) {
    15 < |RemovePhoneNumbers(Strip(segment))| < 150
  }

  /** Exactly one line for each segment with a parenthesis whose length is
      in range. */
  lemma {:induction false} PageLinesCount(page: string)
    ensures |PageLines(page)| == |Filter(InRange, Filter(HasParen, HouseSegments(StripText(page, WithBrackets))))|
  {
    var kept := Filter(HasParen, HouseSegments(StripText(page, WithBrackets)));
    CollectedCount(Prepared, InRange, kept);
  }

  /** The loop over the segments of one page. */
  method PageLoop(page: string) returns (lines: seq<string>)
    ensures lines == PageLines(page)
  {
    var text := StripText(page, WithBrackets);
    var pageList := SplitTextWithHousenumbersIncluded(text);
    var withParentheses := Filter(HasParen, pageList);
    lines := [];
    for j := 0 to |withParentheses|
      invariant lines == Collected(Prepared, withParentheses[..j])
    {
      CollectedPrefix(Prepared, withParentheses, j);
      var i := Strip(withParentheses[j]);
      var line := RemovePhoneNumbers(i);
      if 15 < |line| < 150 {
        line := DotInitials(line);
        line := LStrip(line, NotLetter);
        line := ReplaceDigitsParentheses(line);
        lines := lines + [line];
      }
    }
    assert withParentheses[..|withParentheses|] == withParentheses;
  }
}
