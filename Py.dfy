/** Python string and list primitives that the extraction scripts rely on,
    with Python's own edge cases (empty tokens, first occurrence, wrap-around
    slicing). Character classes are the ASCII view of Python's `str`
    predicates and of the regex classes `\d`, `\w` and `\s`. */
module Py {

  datatype Option<T> = None | Some(value: T)

  // ---------------------------------------------------------------------
  // Character classes

  predicate IsDigit(c: char) { '0' <= c <= '9' }
  predicate IsUpper(c: char) { 'A' <= c <= 'Z' }
  predicate IsLower(c: char) { 'a' <= c <= 'z' }
  predicate IsAlpha(c: char) { IsUpper(c) || IsLower(c) }

  /** Regex `\w`. */
  predicate IsWord(c: char) { IsAlpha(c) || IsDigit(c) || c == '_' }

  /** Regex `\s` and the separators of `str.split()`: space, `\t` to `\r`
      and the four information separators `\x1c` to `\x1f`. */
  predicate IsDot(c: char) { c == '.' }
  predicate IsBlank(c: char) { c == ' ' }

  predicate IsSpace(c: char) {
    c == ' ' || '\U{9}' <= c <= '\U{D}' || '\U{1C}' <= c <= '\U{1F}'
  }

  function ToLower(c: char): char {
    if IsUpper(c) then (c as int + 32) as char else c
  }

  function ToUpper(c: char): char {
    if IsLower(c) then (c as int - 32) as char else c
  }

  /** `str.lower()` */
  function Lower(s: string): string {
    seq(|s|, i requires 0 <= i < |s| => ToLower(s[i]))
  }

  /** `str.upper()` */
  function Upper(s: string): string {
    seq(|s|, i requires 0 <= i < |s| => ToUpper(s[i]))
  }

  /** `any(ch.isdigit() for ch in s)` */
  predicate HasDigit(s: string) {
    exists i :: 0 <= i < |s| && IsDigit(s[i])
  }

  /** `'(' in s or ')' in s` */
  predicate HasParen(s: string) {
    '(' in s || ')' in s
  }

  /** `str.isupper()`: some cased character and no lower-case one. */
  predicate IsUpperStr(s: string) {
    (exists i :: 0 <= i < |s| && IsUpper(s[i])) && forall i :: 0 <= i < |s| ==> !IsLower(s[i])
  }

  // ---------------------------------------------------------------------
  // Slicing with Python's rules

  /** Normalises one bound of `xs[lo:hi]`: negative bounds count from the
      end, then the bound is clamped to `0..n`. */
  function SliceBound(k: int, n: nat): (b: nat)
    ensures b <= n
    ensures 0 <= k <= n ==> b == k
  {
    if k < 0 then (if k + n < 0 then 0 else k + n) else if k > n then n else k
  }

  /** `xs[lo:hi]` */
  function Slice<T>(xs: seq<T>, lo: int, hi: int): seq<T> {
    var a := SliceBound(lo, |xs|);
    var b := SliceBound(hi, |xs|);
    if a < b then xs[a..b] else []
  }

  /** `xs[:k] + xs[k:] == xs` for every integer k, negative or past the end. */
  lemma {:induction false} SliceSplit<T>(xs: seq<T>, k: int)
    ensures Slice(xs, 0, k) + Slice(xs, k, |xs|) == xs
  {
    var b := SliceBound(k, |xs|);
    if b == 0 {
      assert Slice(xs, 0, k) == [];
    } else if b == |xs| {
      assert Slice(xs, k, |xs|) == [];
    } else {
      assert xs[..b] + xs[b..] == xs;
    }
  }

  // ---------------------------------------------------------------------
  // Runs, splitting, joining, stripping

  /** Length of the longest prefix of `s` whose characters satisfy `p`. */
  function RunLength(s: string, p: char -> bool): (n: nat)
    ensures n <= |s|
    ensures forall i :: 0 <= i < n ==> p(s[i])
    ensures n < |s| ==> !p(s[n])
  {
    if s == [] || !p(s[0]) then 0 else 1 + RunLength(s[1..], p)
  }

  predicate NoSpace(t: string) {
    forall j :: 0 <= j < |t| ==> !IsSpace(t[j])
  }

  /** `str.split()`: the maximal runs of non-whitespace characters; empty
      tokens are never produced. */
  function Split(s: string): (r: seq<string>)
    ensures forall i :: 0 <= i < |r| ==> r[i] != [] && NoSpace(r[i])
    decreases |s|
  {
    var t := s[RunLength(s, IsSpace)..];
    if t == [] then []
    else
      var n := RunLength(t, c => !IsSpace(c));
      WordAtFront(t, n);
      [t[..n]] + Split(t[n..])
  }

  /** The first run of non-whitespace of a text that starts with one. */
  lemma {:induction false} WordAtFront(t: string, n: nat)
    requires t != [] && !IsSpace(t[0]) && n <= |t|
    requires forall i :: 0 <= i < n ==> !IsSpace(t[i])
    requires n < |t| ==> IsSpace(t[n])
    ensures 0 < n && NoSpace(t[..n])
  {
    assert forall j :: 0 <= j < n ==> t[..n][j] == t[j];
  }

  /** The length of the text before the first `sep`, or the whole length. */
  function PieceLength(s: string, sep: char): (n: nat)
    ensures n <= |s| && (n < |s| ==> s[n] == sep)
    ensures forall j :: 0 <= j < n ==> s[j] != sep
  {
    RunLength(s, c => c != sep)
  }

  /** `str.split(sep)` for a one-character separator: keeps empty pieces. */
  function SplitOn(s: string, sep: char): (r: seq<string>)
    ensures |r| >= 1
    decreases |s|
  {
    var n := PieceLength(s, sep);
    if n == |s| then [s] else [s[..n]] + SplitOn(s[n + 1..], sep)
  }

  /** `sep.join(xs)` */
  function Join(sep: string, xs: seq<string>): string {
    if xs == [] then "" else if |xs| == 1 then xs[0] else xs[0] + sep + Join(sep, xs[1..])
  }

  /** No piece of `str.split(sep)` holds the separator. */
  lemma {:induction false} SplitOnNoSep(s: string, sep: char)
    ensures forall i :: 0 <= i < |SplitOn(s, sep)| ==> sep !in SplitOn(s, sep)[i]
    decreases |s|
  {
    var n := PieceLength(s, sep);
    SplitOnStep(s, sep);
    if n < |s| {
      var rest := SplitOn(s[n + 1..], sep);
      SplitOnNoSep(s[n + 1..], sep);
      forall i | 0 <= i < |SplitOn(s, sep)| ensures sep !in SplitOn(s, sep)[i] {
        if i > 0 {
          assert SplitOn(s, sep)[i] == rest[i - 1];
        }
      }
    }
  }

  /** One step of `SplitOn`: the piece before the first separator, then
      the pieces of the text after it. */
  lemma {:induction false} SplitOnStep(s: string, sep: char)
    ensures var n := PieceLength(s, sep);
            n <= |s| &&
            (n == |s| ==> SplitOn(s, sep) == [s]) &&
            (n < |s| ==> s[n] == sep && SplitOn(s, sep) == [s[..n]] + SplitOn(s[n + 1..], sep))
  {
  }

  /** Joining a piece in front of other pieces. */
  lemma {:induction false} JoinCons(sep: string, x: string, xs: seq<string>)
    requires xs != []
    ensures Join(sep, [x] + xs) == x + sep + Join(sep, xs)
  {
    assert ([x] + xs)[1..] == xs;
  }

  lemma {:induction false} SplitAround(s: string, n: nat)
    requires n < |s|
    ensures s == s[..n] + [s[n]] + s[n + 1..]
  {
  }

  /** Splitting on a separator and joining with it gives the text back. */
  lemma {:induction false} JoinSplitOn(s: string, sep: char)
    ensures Join([sep], SplitOn(s, sep)) == s
    decreases |s|
  {
    var n := PieceLength(s, sep);
    SplitOnStep(s, sep);
    if n < |s| {
      var rest := SplitOn(s[n + 1..], sep);
      JoinSplitOn(s[n + 1..], sep);
      JoinCons([sep], s[..n], rest);
      SplitAround(s, n);
    }
  }

  /** Joining one more piece appends the separator and the piece. */
  lemma {:induction false} JoinSnoc(sep: string, xs: seq<string>, x: string)
    requires xs != []
    ensures Join(sep, xs + [x]) == Join(sep, xs) + sep + x
    decreases |xs|
  {
    if |xs| > 1 {
      assert (xs + [x])[1..] == xs[1..] + [x];
      JoinSnoc(sep, xs[1..], x);
    }
  }

  /** Every character of a join comes from a piece or from the separator. */
  lemma {:induction false} JoinChars(sep: string, xs: seq<string>, c: char)
    requires c in Join(sep, xs)
    ensures c in sep || exists i :: 0 <= i < |xs| && c in xs[i]
  {
    if |xs| > 1 {
      if c !in xs[0] && c !in sep {
        JoinChars(sep, xs[1..], c);
        var i :| 0 <= i < |xs[1..]| && c in xs[1..][i];
        assert c in xs[i + 1];
      }
    }
  }

  /** A character of a piece occurs in the join. */
  lemma {:induction false} JoinKeeps(sep: string, xs: seq<string>, i: nat, c: char)
    requires i < |xs| && c in xs[i]
    ensures c in Join(sep, xs)
  {
    if |xs| > 1 && i > 0 {
      JoinKeeps(sep, xs[1..], i - 1, c);
    }
  }

  /** `s.lstrip(chars)` with the stripped characters given by `p`. */
  function LStrip(s: string, p: char -> bool): string {
    s[RunLength(s, p)..]
  }

  /** `lstrip` removes the longest prefix of stripped characters. */
  lemma {:induction false} LStripLaws(s: string, p: char -> bool)
    ensures var r := LStrip(s, p);
            |r| <= |s| && r == s[|s| - |r|..] &&
            (r == [] || !p(r[0])) &&
            forall i :: 0 <= i < |s| - |r| ==> p(s[i])
  {
  }

  /** `s.rstrip(chars)` with the stripped characters given by `p`. */
  function RStrip(s: string, p: char -> bool): string
    decreases |s|
  {
    if s != [] && p(s[|s| - 1]) then RStrip(s[..|s| - 1], p) else s
  }

  /** `rstrip` removes the longest suffix of stripped characters. */
  lemma {:induction false} RStripLaws(s: string, p: char -> bool)
    ensures var r := RStrip(s, p);
            |r| <= |s| && r == s[..|r|] &&
            (r == [] || !p(r[|r| - 1])) &&
            forall i :: |r| <= i < |s| ==> p(s[i])
    decreases |s|
  {
    if s != [] && p(s[|s| - 1]) {
      RStripLaws(s[..|s| - 1], p);
    }
  }

  /** `rstrip` applied twice strips nothing more. */
  lemma {:induction false} RStripIdempotent(s: string, p: char -> bool)
    ensures RStrip(RStrip(s, p), p) == RStrip(s, p)
  {
    RStripLaws(s, p);
  }

  /** `s.strip()` */
  function Strip(s: string): string {
    RStrip(LStrip(s, IsSpace), IsSpace)
  }

  /** A leading space makes no difference to `strip()`. */
  lemma {:induction false} StripSpacePrefix(x: string)
    ensures Strip(" " + x) == Strip(x)
  {
    assert (" " + x)[1..] == x;
    assert LStrip(" " + x, IsSpace) == LStrip(x, IsSpace);
  }

  /** A token without whitespace is its own `strip()`. */
  lemma {:induction false} StripNoSpace(t: string)
    requires NoSpace(t)
    ensures Strip(t) == t
  {
    assert LStrip(t, IsSpace) == t;
    assert t == [] || !IsSpace(t[|t| - 1]);
  }

  /** `s.rstrip('.')` */
  function RStripDots(s: string): string {
    RStrip(s, IsDot)
  }

  /** `rstrip('.')` keeps every digit. */
  lemma {:induction false} RStripDotsKeepsDigits(s: string)
    requires HasDigit(s)
    ensures HasDigit(RStripDots(s))
  {
    RStripLaws(s, IsDot);
    var i :| 0 <= i < |s| && IsDigit(s[i]);
    assert i < |RStripDots(s)|;
    assert RStripDots(s)[i] == s[i];
  }

  /** A piece holding a digit gives a join holding a digit. */
  lemma {:induction false} JoinHasDigit(sep: string, xs: seq<string>, i: nat)
    requires i < |xs| && HasDigit(xs[i])
    ensures HasDigit(Join(sep, xs))
  {
    var j :| 0 <= j < |xs[i]| && IsDigit(xs[i][j]);
    JoinKeeps(sep, xs, i, xs[i][j]);
    var c := xs[i][j];
    var k :| 0 <= k < |Join(sep, xs)| && Join(sep, xs)[k] == c;
  }

  // ---------------------------------------------------------------------
  // Substrings

  predicate OccursAt(s: string, sub: string, i: int) {
    0 <= i && i + |sub| <= |s| && s[i..i + |sub|] == sub
  }

  /** `sub in s` */
  predicate Contains(s: string, sub: string) {
    FindFrom(s, sub, 0) >= 0
  }

  /** `s.find(sub)` from position `from` on. */
  function FindFrom(s: string, sub: string, from: nat): (k: int)
    ensures k == -1 || (from <= k && OccursAt(s, sub, k))
    ensures k == -1 ==> forall j :: from <= j ==> !OccursAt(s, sub, j)
    ensures k >= 0 ==> forall j :: from <= j < k ==> !OccursAt(s, sub, j)
    decreases |s| - from
  {
    if from + |sub| > |s| then -1
    else if s[from..from + |sub|] == sub then from
    else FindFrom(s, sub, from + 1)
  }

  /** `s.find(sub)` */
  function Find(s: string, sub: string): int {
    FindFrom(s, sub, 0)
  }

  /** `s.rfind(sub)`, searching the start positions `0..upto` downwards. */
  function RFindUpTo(s: string, sub: string, upto: int): (k: int)
    ensures k == -1 || (k <= upto && OccursAt(s, sub, k))
    ensures k == -1 ==> forall j :: j <= upto ==> !OccursAt(s, sub, j)
    ensures k >= 0 ==> forall j :: k < j <= upto ==> !OccursAt(s, sub, j)
    decreases upto + 1
  {
    if upto < 0 then -1
    else if OccursAt(s, sub, upto) then upto
    else RFindUpTo(s, sub, upto - 1)
  }

  /** `s.rfind(sub)` */
  function RFind(s: string, sub: string): int {
    RFindUpTo(s, sub, |s| - |sub|)
  }

  /** `s.replace(pat, rep)`: left-to-right, non-overlapping. */
  function Replace(s: string, pat: string, rep: string): string
    requires pat != []
    decreases |s|
  {
    if |s| < |pat| then s
    else if s[..|pat|] == pat then rep + Replace(s[|pat|..], pat, rep)
    else [s[0]] + Replace(s[1..], pat, rep)
  }

  /** `replace` introduces no character other than those of the text and
      of the replacement. */
  lemma {:induction false} ReplaceChars(s: string, pat: string, rep: string, c: char)
    requires pat != []
    requires c in Replace(s, pat, rep)
    ensures c in s || c in rep
    decreases |s|
  {
    if |s| >= |pat| {
      if s[..|pat|] == pat {
        if c !in rep {
          ReplaceChars(s[|pat|..], pat, rep, c);
        }
      } else if c != s[0] {
        ReplaceChars(s[1..], pat, rep, c);
      }
    }
  }

  /** Replacing a single character by a text without it removes it. */
  lemma {:induction false} ReplaceRemovesChar(s: string, c: char, rep: string)
    requires c !in rep
    ensures c !in Replace(s, [c], rep)
    decreases |s|
  {
    if |s| >= 1 {
      ReplaceRemovesChar(s[1..], c, rep);
    }
  }

  /** A replacement that does not occur leaves the text unchanged. */
  lemma {:induction false} ReplaceAbsent(s: string, c: char, rep: string)
    requires c !in s
    ensures Replace(s, [c], rep) == s
    decreases |s|
  {
    if |s| >= 1 {
      assert s[..1] == [s[0]];
      ReplaceAbsent(s[1..], c, rep);
      assert s == [s[0]] + s[1..];
    }
  }

  /** Replacing one text by another, when neither holds a character `p`
      keeps, changes nothing that `p` keeps. */
  lemma {:induction false} ReplaceKeeps(p: char -> bool, s: string, pat: string, rep: string)
    requires pat != []
    requires forall c :: c in pat ==> !p(c)
    requires forall c :: c in rep ==> !p(c)
    ensures Filter(p, Replace(s, pat, rep)) == Filter(p, s)
    decreases |s|
  {
    if |s| >= |pat| {
      if s[..|pat|] == pat {
        ReplaceKeeps(p, s[|pat|..], pat, rep);
        FilterAppend(p, rep, Replace(s[|pat|..], pat, rep));
        FilterNone(p, rep);
        assert s == pat + s[|pat|..];
        FilterAppend(p, pat, s[|pat|..]);
        FilterNone(p, pat);
      } else {
        ReplaceKeeps(p, s[1..], pat, rep);
        FilterAppend(p, [s[0]], Replace(s[1..], pat, rep));
        assert s == [s[0]] + s[1..];
        FilterAppend(p, [s[0]], s[1..]);
      }
    }
  }

  /** `s.split(sep)` for a separator of any length: cut at each
      occurrence, left to right, keeping empty pieces. */
  function SplitStr(s: string, sep: string): (r: seq<string>)
    requires sep != []
    ensures |r| >= 1
    decreases |s|
  {
    var k := Find(s, sep);
    if k < 0 then [s] else [s[..k]] + SplitStr(s[k + |sep|..], sep)
  }

  /** Joining the pieces with the separator gives the text back, and no
      piece holds the separator. */
  lemma {:induction false} SplitStrLaws(s: string, sep: string)
    requires sep != []
    ensures Join(sep, SplitStr(s, sep)) == s
    ensures forall i, j :: 0 <= i < |SplitStr(s, sep)| ==> !OccursAt(SplitStr(s, sep)[i], sep, j)
    decreases |s|
  {
    var k := Find(s, sep);
    if k >= 0 {
      var rest := SplitStr(s[k + |sep|..], sep);
      SplitStrLaws(s[k + |sep|..], sep);
      var r := [s[..k]] + rest;
      assert SplitStr(s, sep) == r;
      JoinCons(sep, s[..k], rest);
      assert s == s[..k] + sep + s[k + |sep|..];
      NoOccurBefore(s, sep, k);
      forall i, j | 0 <= i < |r| ensures !OccursAt(r[i], sep, j) {
        if i > 0 {
          assert r[i] == rest[i - 1];
        }
      }
    }
  }

  /** The text before the first occurrence holds no occurrence. */
  lemma {:induction false} NoOccurBefore(s: string, sep: string, k: nat)
    requires sep != [] && k <= |s|
    requires forall j :: 0 <= j < k ==> !OccursAt(s, sep, j)
    ensures forall j :: !OccursAt(s[..k], sep, j)
  {
    forall j ensures !OccursAt(s[..k], sep, j) {
      if 0 <= j && j + |sep| <= k {
        assert j < k && !OccursAt(s, sep, j);
        assert s[..k][j..j + |sep|] == s[j..j + |sep|];
      }
    }
  }

  // ---------------------------------------------------------------------
  // Lists

  /** `xs.index(x)`: the first occurrence (Python raises when absent). */
  function IndexOf<T(==)>(xs: seq<T>, x: T): (i: nat)
    requires x in xs
    ensures i < |xs| && xs[i] == x
    ensures forall j :: 0 <= j < i ==> xs[j] != x
  {
    if xs[0] == x then 0 else 1 + IndexOf(xs[1..], x)
  }

  /** `xs.remove(x)`: drops the first occurrence. */
  function RemoveFirst<T(==)>(xs: seq<T>, x: T): (r: seq<T>)
    requires x in xs
    ensures |r| == |xs| - 1
  {
    var i := IndexOf(xs, x);
    xs[..i] + xs[i + 1..]
  }

  /** `list.remove(x)` takes away one occurrence of `x` and nothing else. */
  lemma {:induction false} RemoveFirstCounts<T>(xs: seq<T>, x: T)
    requires x in xs
    ensures multiset(RemoveFirst(xs, x)) == multiset(xs) - multiset{x}
  {
    var i := IndexOf(xs, x);
    assert xs == xs[..i] + [x] + xs[i + 1..];
  }

  /** One more element of `t` after `d`. */
  lemma {:induction false} SnocSlice<T>(d: seq<T>, t: seq<T>, j: nat)
    requires j < |t|
    ensures d + t[..j + 1] == (d + t[..j]) + [t[j]]
  {
    assert t[..j + 1] == t[..j] + [t[j]];
  }

  /** No element of `t`, and all of it, after `d`. */
  lemma {:induction false} SliceEnds<T>(d: seq<T>, t: seq<T>)
    ensures d + t[..0] == d
    ensures t[..|t|] == t
  {
  }

  lemma {:induction false} AppendAssoc<T>(a: seq<T>, b: seq<T>, c: seq<T>)
    ensures (a + b) + c == a + (b + c)
  {
  }

  /** `[f(x) for x in xs]` */
  function Map<T, U>(f: T -> U, xs: seq<T>): (r: seq<U>)
    ensures |r| == |xs|
    ensures forall i :: 0 <= i < |xs| ==> r[i] == f(xs[i])
  {
    seq(|xs|, i requires 0 <= i < |xs| => f(xs[i]))
  }

  lemma {:induction false} MapSnoc<T, U>(f: T -> U, xs: seq<T>, x: T)
    ensures Map(f, xs + [x]) == Map(f, xs) + [f(x)]
  {
  }

  lemma {:induction false} MapAppend<T, U>(f: T -> U, a: seq<T>, b: seq<T>)
    ensures Map(f, a + b) == Map(f, a) + Map(f, b)
  {
  }

  predicate Distinct<T(==)>(xs: seq<T>) {
    forall i, j :: 0 <= i < j < |xs| ==> xs[i] != xs[j]
  }

  function Last<T>(xs: seq<T>): T
    requires xs != []
  {
    xs[|xs| - 1]
  }

  function Concat<T>(xss: seq<seq<T>>): seq<T> {
    if xss == [] then [] else Concat(xss[..|xss| - 1]) + xss[|xss| - 1]
  }

  lemma {:induction false} ConcatSnoc<T>(xss: seq<seq<T>>, xs: seq<T>)
    ensures Concat(xss + [xs]) == Concat(xss) + xs
  {
    assert (xss + [xs])[..|xss|] == xss;
  }

  lemma {:induction false} ConcatAppend<T>(a: seq<seq<T>>, b: seq<seq<T>>)
    ensures Concat(a + b) == Concat(a) + Concat(b)
    decreases |b|
  {
    if b == [] {
      assert a + b == a;
    } else {
      var b' := b[..|b| - 1];
      assert a + b == (a + b') + [b[|b| - 1]];
      ConcatSnoc(a + b', b[|b| - 1]);
      ConcatAppend(a, b');
      ConcatSnoc(b', b[|b| - 1]);
      assert b == b' + [b[|b| - 1]];
    }
  }

  /** `[x for x in xs if p(x)]` */
  function Filter<T(!new)>(p: T -> bool, xs: seq<T>): (r: seq<T>)
    ensures |r| <= |xs|
    ensures forall i :: 0 <= i < |r| ==> p(r[i])
    decreases |xs|
  {
    if xs == [] then []
    else
      var init := xs[..|xs| - 1];
      assert xs == init + [xs[|xs| - 1]];
      Filter(p, init) + (if p(xs[|xs| - 1]) then [xs[|xs| - 1]] else [])
  }

  lemma {:induction false} FilterSnoc<T(!new)>(p: T -> bool, xs: seq<T>, x: T)
    ensures Filter(p, xs + [x]) == Filter(p, xs) + (if p(x) then [x] else [])
  {
    assert (xs + [x])[..|xs|] == xs;
  }

  /** One more element of a prefix through the filter. */
  lemma {:induction false} FilterPrefix<T(!new)>(p: T -> bool, xs: seq<T>, i: nat)
    requires i < |xs|
    ensures Filter(p, xs[..i + 1]) == Filter(p, xs[..i]) + (if p(xs[i]) then [xs[i]] else [])
  {
    assert xs[..i + 1] == xs[..i] + [xs[i]];
    FilterSnoc(p, xs[..i], xs[i]);
  }

  /** Filtering distributes over concatenation. */
  lemma {:induction false} FilterAppend<T(!new)>(p: T -> bool, a: seq<T>, b: seq<T>)
    ensures Filter(p, a + b) == Filter(p, a) + Filter(p, b)
    decreases |b|
  {
    if b == [] {
      assert a + b == a;
    } else {
      var b' := b[..|b| - 1];
      var x := b[|b| - 1];
      assert a + b == (a + b') + [x];
      assert b == b' + [x];
      FilterSnoc(p, a + b', x);
      FilterSnoc(p, b', x);
      FilterAppend(p, a, b');
    }
  }

  /** Filtering keeps every occurrence of what it keeps. */
  lemma {:induction false} FilterCount<T(!new)>(p: T -> bool, xs: seq<T>, x: T)
    requires p(x)
    ensures multiset(Filter(p, xs))[x] == multiset(xs)[x]
    decreases |xs|
  {
    if xs != [] {
      var init := xs[..|xs| - 1];
      var y := xs[|xs| - 1];
      FilterCount(p, init, x);
      assert xs == init + [y];
      FilterSnoc(p, init, y);
    }
  }

  /** Filtering a list with a first element. */
  lemma {:induction false} FilterCons<T(!new)>(p: T -> bool, x: T, xs: seq<T>)
    ensures Filter(p, [x] + xs) == (if p(x) then [x] else []) + Filter(p, xs)
  {
    FilterAppend(p, [x], xs);
    FilterSnoc(p, [], x);
    assert [] + [x] == [x];
  }

  /** `a` is `b` with some elements left out, order kept. */
  ghost predicate IsSubseq<T>(a: seq<T>, b: seq<T>)
    decreases |b|
  {
    a == [] ||
    (b != [] &&
     ((a[|a| - 1] == b[|b| - 1] && IsSubseq(a[..|a| - 1], b[..|b| - 1])) ||
      IsSubseq(a, b[..|b| - 1])))
  }

  /** Filtering keeps the order of what it keeps. */
  lemma {:induction false} FilterIsSubseq<T(!new)>(p: T -> bool, xs: seq<T>)
    ensures IsSubseq(Filter(p, xs), xs)
    decreases |xs|
  {
    if xs != [] {
      var init := xs[..|xs| - 1];
      var x := xs[|xs| - 1];
      var r := Filter(p, xs);
      FilterIsSubseq(p, init);
      if p(x) {
        assert r == Filter(p, init) + [x];
        assert r[..|r| - 1] == Filter(p, init);
      } else {
        assert r == Filter(p, init);
      }
    }
  }

  /** Filtering twice with the same predicate changes nothing more. */
  lemma {:induction false} FilterIdempotent<T(!new)>(p: T -> bool, xs: seq<T>)
    ensures Filter(p, Filter(p, xs)) == Filter(p, xs)
    decreases |xs|
  {
    if xs != [] {
      var init := xs[..|xs| - 1];
      var x := xs[|xs| - 1];
      var f := Filter(p, init);
      FilterIdempotent(p, init);
      if p(x) {
        assert Filter(p, xs) == f + [x];
        FilterSnoc(p, f, x);
        assert Filter(p, f + [x]) == Filter(p, f) + [x];
      } else {
        assert Filter(p, xs) == f;
      }
    }
  }

  /** A filter that keeps nothing gives the empty list. */
  lemma {:induction false} FilterNone<T(!new)>(p: T -> bool, xs: seq<T>)
    requires forall i :: 0 <= i < |xs| ==> !p(xs[i])
    ensures Filter(p, xs) == []
    decreases |xs|
  {
    if xs != [] {
      FilterNone(p, xs[..|xs| - 1]);
    }
  }

  /** Two texts with the same filtered view hold the same number of each
      character the filter keeps. */
  lemma {:induction false} FilterSameCounts<T(!new)>(p: T -> bool, a: seq<T>, b: seq<T>, x: T)
    requires Filter(p, a) == Filter(p, b) && p(x)
    ensures multiset(a)[x] == multiset(b)[x]
  {
    FilterCount(p, a, x);
    FilterCount(p, b, x);
  }

  /** What a filter keeps comes from its input. */
  lemma {:induction false} FilterMember<T(!new)>(p: T -> bool, xs: seq<T>, x: T)
    requires x in Filter(p, xs)
    ensures x in xs && p(x)
  {
    FilterCount(p, xs, x);
    assert x in multiset(Filter(p, xs));
  }

  /** An input element the filter accepts is kept. */
  lemma {:induction false} FilterKeeps<T(!new)>(p: T -> bool, xs: seq<T>, x: T)
    requires x in xs && p(x)
    ensures x in Filter(p, xs)
  {
    FilterCount(p, xs, x);
    assert x in multiset(xs);
  }

  /** A filter keeps, in input order, exactly the elements it accepts,
      each as often as it occurs. */
  lemma {:induction false} FilterExact<T(!new)>(p: T -> bool, xs: seq<T>)
    ensures IsSubseq(Filter(p, xs), xs)
    ensures forall x :: x in Filter(p, xs) <==> x in xs && p(x)
    ensures forall x :: p(x) ==> multiset(Filter(p, xs))[x] == multiset(xs)[x]
  {
    FilterIsSubseq(p, xs);
    forall x ensures x in Filter(p, xs) <==> x in xs && p(x) {
      if x in Filter(p, xs) { FilterMember(p, xs, x); }
      if x in xs && p(x) { FilterKeeps(p, xs, x); }
    }
    forall x | p(x) ensures multiset(Filter(p, xs))[x] == multiset(xs)[x] {
      FilterCount(p, xs, x);
    }
  }

  /** Two filters that agree on every element of the list agree. */
  lemma {:induction false} FilterCongruent<T(!new)>(p: T -> bool, q: T -> bool, xs: seq<T>)
    requires forall i :: 0 <= i < |xs| ==> p(xs[i]) == q(xs[i])
    ensures Filter(p, xs) == Filter(q, xs)
    decreases |xs|
  {
    if xs != [] {
      FilterCongruent(p, q, xs[..|xs| - 1]);
    }
  }

  /** Filtering by three predicates of which every element meets exactly
      one and concatenating the results only reorders the elements. */
  lemma {:induction false} PartitionCounts<T(!new)>(p: T -> bool, q: T -> bool, o: T -> bool, xs: seq<T>)
    requires forall x :: !(p(x) && q(x))
    requires forall x :: o(x) == (!p(x) && !q(x))
    ensures multiset(Filter(p, xs) + Filter(q, xs) + Filter(o, xs)) == multiset(xs)
    decreases |xs|
  {
    if xs != [] {
      var init, x := xs[..|xs| - 1], xs[|xs| - 1];
      PartitionCounts(p, q, o, init);
      assert xs == init + [x];
      FilterSnoc(p, init, x);
      FilterSnoc(q, init, x);
      FilterSnoc(o, init, x);
    }
  }

  /** A filter that keeps everything is the identity. */
  lemma {:induction false} FilterAll<T(!new)>(p: T -> bool, xs: seq<T>)
    requires forall i :: 0 <= i < |xs| ==> p(xs[i])
    ensures Filter(p, xs) == xs
    decreases |xs|
  {
    if xs != [] {
      FilterAll(p, xs[..|xs| - 1]);
      assert xs == xs[..|xs| - 1] + [xs[|xs| - 1]];
    }
  }

  /** Stripping characters a filter never keeps leaves the filtered view
      unchanged. */
  lemma {:induction false} LStripKeeps(q: char -> bool, s: string, p: char -> bool)
    requires forall c :: p(c) ==> !q(c)
    ensures Filter(q, LStrip(s, p)) == Filter(q, s)
  {
    var n := RunLength(s, p);
    assert s == s[..n] + LStrip(s, p);
    FilterAppend(q, s[..n], LStrip(s, p));
    FilterNone(q, s[..n]);
  }

  lemma {:induction false} RStripKeeps(q: char -> bool, s: string, p: char -> bool)
    requires forall c :: p(c) ==> !q(c)
    ensures Filter(q, RStrip(s, p)) == Filter(q, s)
  {
    RStripLaws(s, p);
    var r := RStrip(s, p);
    assert s == r + s[|r|..];
    FilterAppend(q, r, s[|r|..]);
    FilterNone(q, s[|r|..]);
  }

  lemma {:induction false} StripKeeps(q: char -> bool, s: string)
    requires forall c :: IsSpace(c) ==> !q(c)
    ensures Filter(q, Strip(s)) == Filter(q, s)
  {
    LStripKeeps(q, s, IsSpace);
    RStripKeeps(q, LStrip(s, IsSpace), IsSpace);
  }

  /** `strip()` keeps a slice of the text that neither starts nor ends
      with whitespace. */
  lemma {:induction false} StripLaws(s: string)
    ensures forall c :: c in Strip(s) ==> c in s
    ensures Strip(s) == [] || (!IsSpace(Strip(s)[0]) && !IsSpace(Strip(s)[|Strip(s)| - 1]))
  {
    var l := LStrip(s, IsSpace);
    LStripLaws(s, IsSpace);
    RStripLaws(l, IsSpace);
    var r := Strip(s);
    assert r == l[..|r|];
    forall c | c in r ensures c in s {
      var i :| 0 <= i < |r| && r[i] == c;
      assert l[i] == s[|s| - |l| + i];
    }
  }

  /** Filtering by a narrower predicate after a wider one is filtering by
      the narrower one alone. */
  lemma {:induction false} FilterNested<T(!new)>(q: T -> bool, p: T -> bool, xs: seq<T>)
    requires forall x :: q(x) ==> p(x)
    ensures Filter(q, Filter(p, xs)) == Filter(q, xs)
    decreases |xs|
  {
    if xs != [] {
      var init, x := xs[..|xs| - 1], xs[|xs| - 1];
      FilterNested(q, p, init);
      assert xs == init + [x];
      FilterSnoc(p, init, x);
      FilterSnoc(q, init, x);
      if p(x) {
        assert Filter(p, xs) == Filter(p, init) + [x];
        FilterSnoc(q, Filter(p, init), x);
      } else {
        assert Filter(p, xs) == Filter(p, init);
      }
    }
  }
}
