/** The text normalisers shared by the per-year scripts: the allow-list
    filter `strip_text`, `only_letters`, `add_spaces`, `dot_initials`,
    `fix_initials_dot` and the `\b[A-Z]\.` scanner behind `find_initials`.
    Each regex substitution is written as an explicit scanner. */
module Normalize {
  import opened Py

  // ---------------------------------------------------------------------
  // strip_text and only_letters

  /** The allow-lists of the `strip_text` variants. */
  datatype AllowList =
    | Basic        // `[^a-zA-Z0-9\s,.\n']` (the 1854, 1865 and 1880 scripts)
    | WithHyphen   // adds `-` (basic_extract_test.py, extract_with_llm.py)
    | WithBrackets // adds `-`, `(`, `)`, `{`, `}` (split_on_housenumbers.py)

  predicate Allowed(a: AllowList, c: char) {
    IsAlpha(c) || IsDigit(c) || IsSpace(c) || c == ',' || c == '.' || c == '\'' ||
    (a != Basic && c == '-') ||
    (a == WithBrackets && (c == '(' || c == ')' || c == '{' || c == '}'))
  }

  /** `strip_text`: deletes every character outside the allow-list. */
  function StripText(s: string, a: AllowList): (r: string)
    ensures forall i :: 0 <= i < |r| ==> Allowed(a, r[i])
    ensures forall c :: Allowed(a, c) ==> multiset(r)[c] == multiset(s)[c]
  {
    forall c | Allowed(a, c) ensures multiset(Filter(c => Allowed(a, c), s))[c] == multiset(s)[c] {
      FilterCount(c => Allowed(a, c), s, c);
    }
    Filter(c => Allowed(a, c), s)
  }

  /** `strip_text` keeps the order of what it keeps, and a second pass
      changes nothing. */
  lemma {:induction false} StripTextLaws(s: string, a: AllowList)
    ensures IsSubseq(StripText(s, a), s)
    ensures StripText(StripText(s, a), a) == StripText(s, a)
  {
    FilterIsSubseq(c => Allowed(a, c), s);
    FilterIdempotent(c => Allowed(a, c), s);
  }

  /** `only_letters` */
  function OnlyLetters(s: string): (r: string)
    ensures forall i :: 0 <= i < |r| ==> IsAlpha(r[i])
    ensures forall c :: IsAlpha(c) ==> multiset(r)[c] == multiset(s)[c]
  {
    forall c | IsAlpha(c) ensures multiset(Filter(IsAlpha, s))[c] == multiset(s)[c] {
      FilterCount(IsAlpha, s, c);
    }
    Filter(IsAlpha, s)
  }

  lemma {:induction false} OnlyLettersLaws(s: string)
    ensures IsSubseq(OnlyLetters(s), s)
    ensures OnlyLetters(OnlyLetters(s)) == OnlyLetters(s)
  {
    FilterIsSubseq(IsAlpha, s);
    FilterIdempotent(IsAlpha, s);
  }

  // ---------------------------------------------------------------------
  // add_spaces

  predicate NotSpace(c: char) { !IsSpace(c) }

  /** The non-whitespace characters of a text, in order. */
  function Visible(s: string): string {
    Filter(NotSpace, s)
  }

  /** First substitution of `add_spaces`: `(?<=[.])(?=[^\s])` becomes a space,
      i.e. a space is inserted between a period and a following
      non-whitespace character. */
  function SpaceAfterDots(s: string): (r: string)
    ensures |s| > 0 ==> |r| > 0 && r[0] == s[0]
    decreases |s|
  {
    if |s| < 2 then s
    else if s[0] == '.' && !IsSpace(s[1]) then [s[0], ' '] + SpaceAfterDots(s[1..])
    else [s[0]] + SpaceAfterDots(s[1..])
  }

  /** Every period that is not the last character is followed by whitespace. */
  predicate DotsSpaced(s: string) {
    forall i :: 0 <= i < |s| - 1 && s[i] == '.' ==> IsSpace(s[i + 1])
  }

  /** Whitespace is only single plain spaces. */
  predicate Collapsed(s: string) {
    (forall i :: 0 <= i < |s| && IsSpace(s[i]) ==> s[i] == ' ') &&
    (forall i :: 0 <= i < |s| - 1 && IsSpace(s[i]) ==> !IsSpace(s[i + 1]))
  }

  lemma {:induction false} SpaceAfterDotsSpaced(s: string)
    ensures DotsSpaced(SpaceAfterDots(s))
    decreases |s|
  {
    if |s| >= 2 {
      var rest := SpaceAfterDots(s[1..]);
      SpaceAfterDotsSpaced(s[1..]);
      var r := SpaceAfterDots(s);
      if s[0] == '.' && !IsSpace(s[1]) {
        assert r == [s[0], ' '] + rest;
        forall i | 0 <= i < |r| - 1 && r[i] == '.' ensures IsSpace(r[i + 1]) {
          if i >= 2 { assert r[i] == rest[i - 2] && r[i + 1] == rest[i - 1]; }
        }
      } else {
        assert r == [s[0]] + rest;
        assert rest[0] == s[1];
        forall i | 0 <= i < |r| - 1 && r[i] == '.' ensures IsSpace(r[i + 1]) {
          if i >= 1 { assert r[i] == rest[i - 1] && r[i + 1] == rest[i]; }
        }
      }
    }
  }

  lemma {:induction false} SpaceAfterDotsVisible(s: string)
    ensures Visible(SpaceAfterDots(s)) == Visible(s)
    decreases |s|
  {
    if |s| >= 2 {
      var c := s[0];
      var rest := SpaceAfterDots(s[1..]);
      var head := if NotSpace(c) then [c] else [];
      assert Visible(rest) == Visible(s[1..]) by { SpaceAfterDotsVisible(s[1..]); }
      assert Visible(s) == head + Visible(s[1..]) by {
        assert s == [c] + s[1..];
        FilterCons(NotSpace, c, s[1..]);
      }
      if c == '.' && !IsSpace(s[1]) {
        assert Visible([' '] + rest) == Visible(rest) by { FilterCons(NotSpace, ' ', rest); }
        assert Visible([c] + ([' '] + rest)) == head + Visible([' '] + rest) by {
          FilterCons(NotSpace, c, [' '] + rest);
        }
        assert SpaceAfterDots(s) == [c] + ([' '] + rest);
      } else {
        assert Visible([c] + rest) == head + Visible(rest) by { FilterCons(NotSpace, c, rest); }
        assert SpaceAfterDots(s) == [c] + rest;
      }
    }
  }

  lemma {:induction false} SpaceAfterDotsFixed(s: string)
    requires DotsSpaced(s)
    ensures SpaceAfterDots(s) == s
    decreases |s|
  {
    if |s| >= 2 {
      assert DotsSpaced(s[1..]) by {
        forall i | 0 <= i < |s[1..]| - 1 && s[1..][i] == '.' ensures IsSpace(s[1..][i + 1]) {
          assert s[i + 1] == '.';
        }
      }
      SpaceAfterDotsFixed(s[1..]);
      assert s == [s[0]] + s[1..];
    }
  }

  /** Second substitution of `add_spaces`: `\s+` becomes one space. */
  function CollapseSpaces(s: string): (r: string)
    ensures s == [] <==> r == []
    ensures s != [] ==> r[0] == if IsSpace(s[0]) then ' ' else s[0]
    decreases |s|
  {
    if s == [] then []
    else if IsSpace(s[0]) then [' '] + CollapseSpaces(s[RunLength(s, IsSpace)..])
    else [s[0]] + CollapseSpaces(s[1..])
  }

  lemma {:induction false} CollapseSpacesCollapsed(s: string)
    ensures Collapsed(CollapseSpaces(s))
    decreases |s|
  {
    if s != [] {
      var r := CollapseSpaces(s);
      if IsSpace(s[0]) {
        var t := s[RunLength(s, IsSpace)..];
        var rest := CollapseSpaces(t);
        CollapseSpacesCollapsed(t);
        assert r == [' '] + rest;
        assert t == [] || !IsSpace(t[0]);
        forall i | 0 <= i < |r| && IsSpace(r[i]) ensures r[i] == ' ' {
          if i >= 1 { assert r[i] == rest[i - 1]; }
        }
        forall i | 0 <= i < |r| - 1 && IsSpace(r[i]) ensures !IsSpace(r[i + 1]) {
          if i >= 1 { assert r[i] == rest[i - 1] && r[i + 1] == rest[i]; }
        }
      } else {
        var rest := CollapseSpaces(s[1..]);
        CollapseSpacesCollapsed(s[1..]);
        assert r == [s[0]] + rest;
        forall i | 0 <= i < |r| && IsSpace(r[i]) ensures r[i] == ' ' {
          if i >= 1 { assert r[i] == rest[i - 1]; }
        }
        forall i | 0 <= i < |r| - 1 && IsSpace(r[i]) ensures !IsSpace(r[i + 1]) {
          assert r[i] == rest[i - 1] && r[i + 1] == rest[i];
        }
      }
    }
  }

  lemma {:induction false} CollapseSpacesVisible(s: string)
    ensures Visible(CollapseSpaces(s)) == Visible(s)
    decreases |s|
  {
    if s != [] {
      if IsSpace(s[0]) {
        var k := RunLength(s, IsSpace);
        var t := s[k..];
        CollapseSpacesVisible(t);
        assert s == s[..k] + t;
        FilterNone(NotSpace, s[..k]);
        FilterAppend(NotSpace, s[..k], t);
        FilterCons(NotSpace, ' ', CollapseSpaces(t));
      } else {
        CollapseSpacesVisible(s[1..]);
        assert s == [s[0]] + s[1..];
        FilterCons(NotSpace, s[0], s[1..]);
        FilterCons(NotSpace, s[0], CollapseSpaces(s[1..]));
      }
    }
  }

  lemma {:induction false} CollapseSpacesKeepsDotsSpaced(s: string)
    requires DotsSpaced(s)
    ensures DotsSpaced(CollapseSpaces(s))
    decreases |s|
  {
    if s != [] {
      var r := CollapseSpaces(s);
      if IsSpace(s[0]) {
        var k := RunLength(s, IsSpace);
        var t := s[k..];
        assert DotsSpaced(t) by {
          forall i | 0 <= i < |t| - 1 && t[i] == '.' ensures IsSpace(t[i + 1]) {
            assert s[k + i] == '.';
          }
        }
        CollapseSpacesKeepsDotsSpaced(t);
        var rest := CollapseSpaces(t);
        assert r == [' '] + rest;
        forall i | 0 <= i < |r| - 1 && r[i] == '.' ensures IsSpace(r[i + 1]) {
          assert r[i] == rest[i - 1] && r[i + 1] == rest[i];
        }
      } else {
        assert DotsSpaced(s[1..]) by {
          forall i | 0 <= i < |s[1..]| - 1 && s[1..][i] == '.' ensures IsSpace(s[1..][i + 1]) {
            assert s[i + 1] == '.';
          }
        }
        CollapseSpacesKeepsDotsSpaced(s[1..]);
        var rest := CollapseSpaces(s[1..]);
        assert r == [s[0]] + rest;
        forall i | 0 <= i < |r| - 1 && r[i] == '.' ensures IsSpace(r[i + 1]) {
          if i == 0 {
            assert IsSpace(s[1]);
            assert rest[0] == ' ';
          } else {
            assert r[i] == rest[i - 1] && r[i + 1] == rest[i];
          }
        }
      }
    }
  }

  lemma {:induction false} CollapseSpacesFixed(s: string)
    requires Collapsed(s)
    ensures CollapseSpaces(s) == s
    decreases |s|
  {
    if s != [] {
      assert Collapsed(s[1..]) by {
        forall i | 0 <= i < |s[1..]| && IsSpace(s[1..][i]) ensures s[1..][i] == ' ' {
          assert IsSpace(s[i + 1]);
        }
        forall i | 0 <= i < |s[1..]| - 1 && IsSpace(s[1..][i]) ensures !IsSpace(s[1..][i + 1]) {
          assert IsSpace(s[i + 1]);
        }
      }
      CollapseSpacesFixed(s[1..]);
      if IsSpace(s[0]) {
        assert |s| == 1 || !IsSpace(s[1]);
        assert RunLength(s, IsSpace) == 1;
      }
      assert s == [s[0]] + s[1..];
    }
  }

  /** `add_spaces`: a space after every period that lacks one, then every
      whitespace run becomes a single space. Only whitespace changes. */
  function AddSpaces(s: string): (r: string)
    ensures Collapsed(r)
    ensures forall i :: 0 <= i < |r| - 1 && r[i] == '.' ==> r[i + 1] == ' '
    ensures Visible(r) == Visible(s)
  {
    var t := SpaceAfterDots(s);
    SpaceAfterDotsSpaced(s);
    SpaceAfterDotsVisible(s);
    CollapseSpacesCollapsed(t);
    CollapseSpacesVisible(t);
    CollapseSpacesKeepsDotsSpaced(t);
    CollapseSpaces(t)
  }

  /** `add_spaces` is idempotent. */
  lemma {:induction false} AddSpacesIdempotent(s: string)
    ensures AddSpaces(AddSpaces(s)) == AddSpaces(s)
  {
    var r := AddSpaces(s);
    assert DotsSpaced(r);
    SpaceAfterDotsFixed(r);
    CollapseSpacesFixed(r);
  }

  /** `add_spaces` keeps every non-whitespace character, so a text with a
      digit still has one. */
  lemma {:induction false} AddSpacesKeepsDigits(s: string)
    ensures HasDigit(s) ==> HasDigit(AddSpaces(s))
  {
    if HasDigit(s) {
      var i :| 0 <= i < |s| && IsDigit(s[i]);
      assert s[i] in multiset(s);
      FilterSameCounts(NotSpace, AddSpaces(s), s, s[i]);
      assert s[i] in AddSpaces(s);
      var j :| 0 <= j < |AddSpaces(s)| && AddSpaces(s)[j] == s[i];
    }
  }

  // ---------------------------------------------------------------------
  // dot_initials

  predicate NotDot(c: char) { c != '.' }

  /** Every capital letter is followed by a word character or a period. */
  predicate CapitalsClosed(s: string) {
    forall i :: 0 <= i < |s| && IsUpper(s[i]) ==> i + 1 < |s| && (IsWord(s[i + 1]) || s[i + 1] == '.')
  }

  /** `re.sub(r'(?<=[A-Z])(?!\.)\b', '.', s)`: a period is inserted after
      each capital that ends a word and is not already followed by one. */
  function DotAfterCapitals(s: string): (r: string)
    ensures |s| > 0 ==> |r| > 0 && r[0] == s[0]
    decreases |s|
  {
    if s == [] then []
    else if IsUpper(s[0]) && (|s| == 1 || (!IsWord(s[1]) && s[1] != '.')) then
      [s[0], '.'] + DotAfterCapitals(s[1..])
    else [s[0]] + DotAfterCapitals(s[1..])
  }

  lemma {:induction false} DotAfterCapitalsClosed(s: string)
    ensures CapitalsClosed(DotAfterCapitals(s))
    decreases |s|
  {
    if s != [] {
      var r := DotAfterCapitals(s);
      var rest := DotAfterCapitals(s[1..]);
      DotAfterCapitalsClosed(s[1..]);
      if IsUpper(s[0]) && (|s| == 1 || (!IsWord(s[1]) && s[1] != '.')) {
        assert r == [s[0], '.'] + rest;
        forall i | 0 <= i < |r| && IsUpper(r[i]) ensures i + 1 < |r| && (IsWord(r[i + 1]) || r[i + 1] == '.') {
          if i >= 2 { assert r[i] == rest[i - 2] && r[i + 1] == rest[i - 1]; }
        }
      } else {
        assert r == [s[0]] + rest;
        forall i | 0 <= i < |r| && IsUpper(r[i]) ensures i + 1 < |r| && (IsWord(r[i + 1]) || r[i + 1] == '.') {
          if i >= 1 { assert r[i] == rest[i - 1] && r[i + 1] == rest[i]; }
          else { assert rest[0] == s[1]; }
        }
      }
    }
  }

  /** The characters `DotAfterCapitals` puts before the rest of the text. */
  function DottedHead(s: string): string
    requires s != []
  {
    if IsUpper(s[0]) && (|s| == 1 || (!IsWord(s[1]) && s[1] != '.')) then [s[0], '.'] else [s[0]]
  }

  lemma {:induction false} DotAfterCapitalsStep(s: string)
    requires s != []
    ensures DotAfterCapitals(s) == DottedHead(s) + DotAfterCapitals(s[1..])
  {
  }

  /** The inserted periods are the only change: without periods the text is
      the same. */
  lemma {:induction false} DotAfterCapitalsUndotted(s: string)
    ensures Filter(NotDot, DotAfterCapitals(s)) == Filter(NotDot, s)
    decreases |s|
  {
    if s != [] {
      DotAfterCapitalsUndotted(s[1..]);
      UndottedStep(s);
    }
  }

  lemma {:induction false} UndottedStep(s: string)
    requires s != []
    requires Filter(NotDot, DotAfterCapitals(s[1..])) == Filter(NotDot, s[1..])
    ensures Filter(NotDot, DotAfterCapitals(s)) == Filter(NotDot, s)
  {
    var rest := DotAfterCapitals(s[1..]);
    assert s == [s[0]] + s[1..];
    FilterAppend(NotDot, [s[0]], s[1..]);
    DottedHeadUndotted(s);
    DotAfterCapitalsStep(s);
    FilterAppend(NotDot, DottedHead(s), rest);
  }

  /** The inserted period is invisible without periods. */
  lemma {:induction false} DottedHeadUndotted(s: string)
    requires s != []
    ensures Filter(NotDot, DottedHead(s)) == Filter(NotDot, [s[0]])
  {
    if |DottedHead(s)| == 2 {
      assert DottedHead(s) == [s[0]] + ['.'];
      FilterAppend(NotDot, [s[0]], ['.']);
      FilterCons(NotDot, '.', []);
    }
  }

  lemma {:induction false} DotAfterCapitalsFixed(s: string)
    requires CapitalsClosed(s)
    ensures DotAfterCapitals(s) == s
    decreases |s|
  {
    if s != [] {
      assert CapitalsClosed(s[1..]) by {
        forall i | 0 <= i < |s[1..]| && IsUpper(s[1..][i]) ensures i + 1 < |s[1..]| && (IsWord(s[1..][i + 1]) || s[1..][i + 1] == '.') {
          assert IsUpper(s[i + 1]);
        }
      }
      DotAfterCapitalsFixed(s[1..]);
      assert s == [s[0]] + s[1..];
    }
  }

  /** `dot_initials`: `add_spaces`, then a period after every capital that
      ends a word. Afterwards every capital is followed by a word character
      or a period, and apart from whitespace and periods the text is the
      input. */
  function DotInitials(s: string): (r: string)
    ensures CapitalsClosed(r)
    ensures Filter(NotDot, r) == Filter(NotDot, AddSpaces(s))
  {
    DotAfterCapitalsClosed(AddSpaces(s));
    DotAfterCapitalsUndotted(AddSpaces(s));
    DotAfterCapitals(AddSpaces(s))
  }

  /** `dot_initials` keeps every digit. */
  lemma {:induction false} DotInitialsKeepsDigits(s: string)
    ensures HasDigit(s) ==> HasDigit(DotInitials(s))
  {
    if HasDigit(s) {
      AddSpacesKeepsDigits(s);
      var a := AddSpaces(s);
      var i :| 0 <= i < |a| && IsDigit(a[i]);
      assert a[i] in multiset(a);
      FilterSameCounts(NotDot, DotInitials(s), a, a[i]);
      assert a[i] in DotInitials(s);
      var j :| 0 <= j < |DotInitials(s)| && DotInitials(s)[j] == a[i];
    }
  }

  // ---------------------------------------------------------------------
  // fix_initials_dot

  /** A match of `\b([A-Z])([a-z])\b` starting at `p`. */
  predicate TwoLetterWordAt(s: string, p: int) {
    0 <= p && p + 1 < |s| && IsUpper(s[p]) && IsLower(s[p + 1]) &&
    (p == 0 || !IsWord(s[p - 1])) && (p + 2 == |s| || !IsWord(s[p + 2]))
  }

  /** What `fix_initials_dot` leaves at position `j`. */
  function FixedChar(s: string, j: nat): char
    requires j < |s|
  {
    if j > 0 && TwoLetterWordAt(s, j - 1) then '.' else s[j]
  }

  /** The left-to-right scan of `re.sub(r'\b([A-Z])([a-z])\b', r'\1.', s)`
      from position `i`. */
  function FixDotsFrom(s: string, i: nat): string
    decreases |s| - i
  {
    if i >= |s| then []
    else if TwoLetterWordAt(s, i) then [s[i], '.'] + FixDotsFrom(s, i + 2)
    else [s[i]] + FixDotsFrom(s, i + 1)
  }

  lemma {:induction false} FixDotsFromPointwise(s: string, i: nat)
    requires i <= |s|
    requires i == 0 || !TwoLetterWordAt(s, i - 1)
    ensures |FixDotsFrom(s, i)| == |s| - i
    ensures forall j :: i <= j < |s| ==> FixDotsFrom(s, i)[j - i] == FixedChar(s, j)
    decreases |s| - i
  {
    if i < |s| {
      var r := FixDotsFrom(s, i);
      if TwoLetterWordAt(s, i) {
        FixDotsFromPointwise(s, i + 2);
        var rest := FixDotsFrom(s, i + 2);
        assert r == [s[i], '.'] + rest;
        forall j | i <= j < |s| ensures r[j - i] == FixedChar(s, j) {
          if j >= i + 2 { assert r[j - i] == rest[j - (i + 2)]; }
        }
      } else {
        FixDotsFromPointwise(s, i + 1);
        var rest := FixDotsFrom(s, i + 1);
        assert r == [s[i]] + rest;
        forall j | i <= j < |s| ensures r[j - i] == FixedChar(s, j) {
          if j >= i + 1 { assert r[j - i] == rest[j - (i + 1)]; }
        }
      }
    }
  }

  /** `fix_initials_dot`: each stand-alone upper+lower two-letter word
      becomes the capital and a period. Length is kept, only the second
      letter of such words changes, and no such word is left. */
  function FixInitialsDot(s: string): (r: string)
    ensures |r| == |s|
    ensures forall j :: 0 <= j < |s| ==> r[j] == FixedChar(s, j)
    ensures forall p :: !TwoLetterWordAt(r, p)
  {
    FixDotsFromPointwise(s, 0);
    var r := FixDotsFrom(s, 0);
    forall p ensures !TwoLetterWordAt(r, p) {
      NoTwoLetterWordLeft(s, r, p);
    }
    r
  }

  lemma {:induction false} NoTwoLetterWordLeft(s: string, r: string, p: int)
    requires |r| == |s|
    requires forall j :: 0 <= j < |s| ==> r[j] == FixedChar(s, j)
    ensures !TwoLetterWordAt(r, p)
  {
    if 0 <= p && p + 1 < |r| && IsUpper(r[p]) && IsLower(r[p + 1]) {
      // a period is neither upper nor lower case, so both letters are original
      assert r[p] == s[p] && r[p + 1] == s[p + 1];
      if p >= 2 {
        assert !TwoLetterWordAt(s, p - 2);
      }
      assert p == 0 || r[p - 1] == s[p - 1];
      assert !TwoLetterWordAt(s, p + 1);
      assert p + 2 >= |s| || r[p + 2] == s[p + 2];
      assert !TwoLetterWordAt(s, p);
    }
  }

  // ---------------------------------------------------------------------
  // find_initials

  /** A match of `\b[A-Z]\.` starting at `p`. */
  predicate InitialAt(s: string, p: int) {
    0 <= p && p + 1 < |s| && IsUpper(s[p]) && s[p + 1] == '.' && (p == 0 || !IsWord(s[p - 1]))
  }

  predicate Increasing(xs: seq<nat>) {
    forall i, j :: 0 <= i < j < |xs| ==> xs[i] < xs[j]
  }

  /** `re.finditer(r'\b[A-Z]\.', s)` from position `i`: the match starts. */
  function InitialStartsFrom(s: string, i: nat): (r: seq<nat>)
    ensures forall k :: 0 <= k < |r| ==> i <= r[k]
    ensures Increasing(r)
    ensures forall p :: p in r <==> i <= p && InitialAt(s, p)
    decreases |s| - i
  {
    if i >= |s| then []
    else if InitialAt(s, i) then [i] + InitialStartsFrom(s, i + 2)
    else InitialStartsFrom(s, i + 1)
  }

  /** `find_initials`: the start of every `\b[A-Z]\.` match, left to right. */
  function InitialStarts(s: string): seq<nat> {
    InitialStartsFrom(s, 0)
  }
}
