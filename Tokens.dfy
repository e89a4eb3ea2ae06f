/** Token-level pieces shared by the per-year scripts: the initial-shaped
    tokens, the name particles, the choice of the last initial with the N/O
    fallback, `find_preposition`, and the `format_name` that orders a name
    as initials, particles, rest. */
module Tokens {
  import opened Py

  // ---------------------------------------------------------------------
  // Token shapes

  /** Python's `$` also matches just before a final newline. */
  predicate TwoCharsAndEnd(t: string) {
    |t| == 2 || (|t| == 3 && t[2] == '\n')
  }

  /** `re.match(r'^[A-Za-z](?:[.,])$', t)` when `anyCase`, else
      `re.match(r'^[A-Z](?:[.,])$', t)`. */
  predicate InitialShape(t: string, anyCase: bool) {
    TwoCharsAndEnd(t) && (if anyCase then IsAlpha(t[0]) else IsUpper(t[0])) &&
    (t[1] == '.' || t[1] == ',')
  }

  predicate IsInitialAnyCase(t: string) { InitialShape(t, true) }
  predicate IsInitialUpper(t: string) { InitialShape(t, false) }

  /** `re.match(r"^[A-Z]\.$", t)` */
  predicate IsDottedCapital(t: string) {
    TwoCharsAndEnd(t) && IsUpper(t[0]) && t[1] == '.'
  }

  /** The particle list of scripts/1854.py and 1880.py. */
  const LongParticles: seq<string> := ["van", "de", "der", "den", "ter", "ten", "vander", "v.", "d", "v", "d."]

  /** The particle list of 1865.py and 1854.py. */
  const ShortParticles: seq<string> := ["van", "de", "der", "den", "ter", "ten", "vander"]

  predicate IsLongParticle(t: string) { t in LongParticles }
  predicate IsShortParticle(t: string) { t in ShortParticles }

  /** `part.lower() in prepositions_list` */
  predicate LowerIsLongParticle(t: string) { Lower(t) in LongParticles }
  predicate LowerIsShortParticle(t: string) { Lower(t) in ShortParticles }

  // ---------------------------------------------------------------------
  // Choosing the boundary initial

  /** `'n' in t.lower() or 'o' in t.lower()` */
  predicate HasNOLetter(t: string) {
    'n' in Lower(t) || 'o' in Lower(t)
  }

  /** A token that starts with an N or an O, in either case. */
  predicate StartsWithNO(t: string) {
    |t| > 0 && t[0] in "nNoO"
  }

  /** On an initial token the N/O test looks only at its letter. */
  lemma {:induction false} NOTestIsLetter(t: string, anyCase: bool)
    requires InitialShape(t, anyCase)
    ensures HasNOLetter(t) <==> StartsWithNO(t)
  {
    var l := Lower(t);
    assert l[1] == t[1] && (|t| == 3 ==> l[2] == '\n');
    if |t| == 2 {
      assert l == [l[0], l[1]];
    } else {
      assert l == [l[0], l[1], l[2]];
    }
  }

  /** The initial whose first occurrence ends the name: the last one, or,
      when `fallback` is on and the last one is an N or O, the one before
      it if there is one. */
  function ChooseInitial(initials: seq<string>, fallback: bool): (r: Option<string>)
    ensures r == None <==> initials == []
    ensures r.Some? ==> r.value in initials
  {
    if initials == [] then None
    else if fallback && HasNOLetter(Last(initials)) then
      (if |initials| > 1 then Some(initials[|initials| - 2]) else Some(Last(initials)))
    else Some(Last(initials))
  }

  /** The choice in terms of the initials' letters. */
  lemma {:induction false} ChooseInitialByLetter(initials: seq<string>, anyCase: bool, fallback: bool)
    requires forall i :: 0 <= i < |initials| ==> InitialShape(initials[i], anyCase)
    ensures initials != [] && (!fallback || !StartsWithNO(Last(initials))) ==>
              ChooseInitial(initials, fallback) == Some(Last(initials))
    ensures fallback && |initials| >= 2 && StartsWithNO(Last(initials)) ==>
              ChooseInitial(initials, fallback) == Some(initials[|initials| - 2])
    ensures fallback && |initials| == 1 ==> ChooseInitial(initials, fallback) == Some(initials[0])
  {
    if initials != [] {
      NOTestIsLetter(Last(initials), anyCase);
    }
  }

  /** `len(parts[:pos + 1])` where `pos` is the first occurrence of the
      chosen initial, or -1 without one. */
  function NameLength(parts: seq<string>, chosen: Option<string>): (n: nat)
    requires chosen.Some? ==> chosen.value in parts
    ensures n <= |parts|
    ensures chosen == None ==> n == 0
    ensures chosen.Some? ==> 0 < n && parts[n - 1] == chosen.value &&
                             forall j :: 0 <= j < n - 1 ==> parts[j] != chosen.value
  {
    if chosen.None? then 0 else IndexOf(parts, chosen.value) + 1
  }

  /** The loop of `count_initials`: every stripped part that matches the
      initial pattern, in order. */
  method CollectInitials(parts: seq<string>, isInitial: string -> bool) returns (initials: seq<string>)
    ensures initials == Filter(isInitial, Map(Strip, parts))
  {
    initials := [];
    var i := 0;
    while i < |parts|
      invariant 0 <= i <= |parts|
      invariant initials == Filter(isInitial, Map(Strip, parts[..i]))
    {
      var part := Strip(parts[i]);
      ghost var seen := Map(Strip, parts[..i]);
      assert Map(Strip, parts[..i + 1]) == seen + [part] by {
        assert parts[..i + 1] == parts[..i] + [parts[i]];
        MapSnoc(Strip, parts[..i], parts[i]);
      }
      FilterSnoc(isInitial, seen, part);
      if isInitial(part) {
        initials := initials + [part];
      }
      i := i + 1;
    }
    assert parts[..i] == parts;
  }

  /** The parts of `str.split()` are their own `strip()`. */
  lemma {:induction false} MapStripSplit(parts: seq<string>)
    requires forall i :: 0 <= i < |parts| ==> NoSpace(parts[i])
    ensures Map(Strip, parts) == parts
  {
    forall i | 0 <= i < |parts| ensures Map(Strip, parts)[i] == parts[i] {
      StripNoSpace(parts[i]);
    }
  }

  /** The whole boundary computation on split parts: the name is the parts
      up to the chosen initial, the address the rest. */
  lemma {:induction false} BoundaryLaws(parts: seq<string>, isInitial: string -> bool, fallback: bool)
    ensures ChooseInitial(Filter(isInitial, parts), fallback).Some? ==>
              ChooseInitial(Filter(isInitial, parts), fallback).value in parts
    ensures var chosen := ChooseInitial(Filter(isInitial, parts), fallback);
            var n := NameLength(parts, chosen);
            (n == 0 <==> forall i :: 0 <= i < |parts| ==> !isInitial(parts[i])) &&
            (n > 0 ==> isInitial(parts[n - 1]))
  {
    var initials := Filter(isInitial, parts);
    var chosen := ChooseInitial(initials, fallback);
    if chosen.Some? {
      FilterMember(isInitial, parts, chosen.value);
    } else {
      forall i | 0 <= i < |parts| ensures !isInitial(parts[i]) {
        if isInitial(parts[i]) {
          FilterKeeps(isInitial, parts, parts[i]);
        }
      }
    }
    if forall i :: 0 <= i < |parts| ==> !isInitial(parts[i]) {
      FilterNone(isInitial, parts);
    }
  }

  /** How many parts go to the name: up to and including the first
      occurrence of the chosen initial, none without an initial. */
  function Boundary(parts: seq<string>, isInitial: string -> bool, fallback: bool): (n: nat)
    ensures n <= |parts|
  {
    BoundaryLaws(parts, isInitial, fallback);
    NameLength(parts, ChooseInitial(Filter(isInitial, parts), fallback))
  }

  /** Where the boundary falls, in terms of the initials' letters: after
      the first occurrence of the last initial, or of the one before it
      when the fallback is on, the last one is an N or an O and there are
      two or more; nowhere without an initial. */
  lemma {:induction false} BoundaryByLetter(parts: seq<string>, isInitial: string -> bool, anyCase: bool, fallback: bool)
    requires forall t :: isInitial(t) ==> InitialShape(t, anyCase)
    ensures var n := Boundary(parts, isInitial, fallback);
            var initials := Filter(isInitial, parts);
            (n == 0 <==> initials == []) &&
            (n > 0 ==> parts[n - 1] !in parts[..n - 1]) &&
            (n > 0 ==> parts[n - 1] == if fallback && |initials| >= 2 && StartsWithNO(Last(initials))
                                       then initials[|initials| - 2] else Last(initials))
  {
    var initials := Filter(isInitial, parts);
    BoundaryLaws(parts, isInitial, fallback);
    ChooseInitialByLetter(initials, anyCase, fallback);
    var n := Boundary(parts, isInitial, fallback);
    if initials != [] {
      assert initials[0] in initials;
      FilterMember(isInitial, parts, initials[0]);
    }
    if n > 0 {
      var before := parts[..n - 1];
      assert parts[n - 1] !in before by {
        forall j | 0 <= j < |before| ensures before[j] != parts[n - 1] {
          assert before[j] == parts[j];
        }
      }
    }
  }

  /** `BoundaryByLetter` in terms of the name `parts[..n]` and the address
      `parts[n..]` of the cut. */
  lemma {:induction false} CutByLetter(parts: seq<string>, isInitial: string -> bool, anyCase: bool, fallback: bool)
    requires forall t :: isInitial(t) ==> InitialShape(t, anyCase)
    ensures var n := Boundary(parts, isInitial, fallback);
            var name := parts[..n];
            var initials := Filter(isInitial, parts);
            name + parts[n..] == parts &&
            (name == [] <==> initials == []) &&
            (name != [] ==> Last(name) !in name[..|name| - 1]) &&
            (name != [] ==> Last(name) == if fallback && |initials| >= 2 && StartsWithNO(Last(initials))
                                         then initials[|initials| - 2] else Last(initials))
  {
    BoundaryByLetter(parts, isInitial, anyCase, fallback);
    var n := Boundary(parts, isInitial, fallback);
    assert parts[..n] + parts[n..] == parts;
    if n > 0 {
      assert parts[..n][..n - 1] == parts[..n - 1];
    }
  }

  // ---------------------------------------------------------------------
  // find_preposition

  /** `item.replace(',', '')` */
  function NoCommas(t: string): (r: string)
    ensures ',' !in r
  {
    ReplaceRemovesChar(t, ',', "");
    Replace(t, [','], "")
  }

  /** The particles of `ps`, in order, that occur in `address`. */
  function Present(address: seq<string>, ps: seq<string>): seq<string>
    decreases |ps|
  {
    if ps == [] then []
    else Present(address, ps[..|ps| - 1]) + (if Last(ps) in address then [Last(ps)] else [])
  }

  /** Name and address after `find_preposition` has looked at the particles
      `ps` in order: each particle still in the address is appended to the
      name and its first occurrence removed from the address. */
  function Moved(name: seq<string>, address: seq<string>, ps: seq<string>): (seq<string>, seq<string>)
    decreases |ps|
  {
    if ps == [] then (name, address)
    else
      var (n, a) := Moved(name, address, ps[..|ps| - 1]);
      var p := Last(ps);
      if p in a then (n + [p], RemoveFirst(a, p)) else (n, a)
  }

  /** `find_preposition`: commas are removed from the address tokens, then
      each listed particle found in the address moves to the end of the
      name. */
  method FindPreposition(name: seq<string>, address: seq<string>, particles: seq<string>)
    returns (nameOut: seq<string>, addressOut: seq<string>)
    ensures (nameOut, addressOut) == Moved(name, Map(NoCommas, address), particles)
  {
    nameOut := name;
    addressOut := Map(NoCommas, address);
    var i := 0;
    while i < |particles|
      invariant 0 <= i <= |particles|
      invariant (nameOut, addressOut) == Moved(name, Map(NoCommas, address), particles[..i])
    {
      var prep := particles[i];
      assert particles[..i + 1][..i] == particles[..i];
      if prep in addressOut {
        nameOut := nameOut + [prep];
        addressOut := RemoveFirst(addressOut, prep);
      }
      i := i + 1;
    }
    assert particles[..i] == particles;
  }

  /** With distinct particles, `find_preposition` keeps the name as a
      prefix, appends exactly the listed particles present in the
      comma-free address (in list order), removes one occurrence of each
      from the address, and so keeps the token count. */
  lemma {:induction false} MovedLaws(name: seq<string>, address: seq<string>, ps: seq<string>)
    requires Distinct(ps)
    ensures var (n, a) := Moved(name, address, ps);
            n == name + Present(address, ps) &&
            multiset(a) + multiset(Present(address, ps)) == multiset(address) &&
            |n| + |a| == |name| + |address|
    decreases |ps|
  {
    if ps != [] {
      var init := ps[..|ps| - 1];
      assert Distinct(init);
      MovedLaws(name, address, init);
      var (n0, a0) := Moved(name, address, init);
      var p := Last(ps);
      if p in a0 {
        RemoveFirstCounts(a0, p);
      }
      assert p !in init;
      PresentAbsent(address, init, p);
      assert p !in Present(address, init);
      // p occurs in the remaining address exactly when it occurs in the original one
      assert multiset(a0)[p] == multiset(address)[p];
      assert p in a0 <==> p in address by {
        assert p in a0 <==> multiset(a0)[p] > 0;
        assert p in address <==> multiset(address)[p] > 0;
      }
    }
  }

  /** `name, address = parts[:n], parts[n:]` followed by `find_preposition`
      with the particles `ps`. */
  function Cut(parts: seq<string>, isInitial: string -> bool, fallback: bool, ps: seq<string>): (seq<string>, seq<string>) {
    var n := Boundary(parts, isInitial, fallback);
    Moved(parts[..n], Map(NoCommas, parts[n..]), ps)
  }

  /** `cut` splits `parts` after position `n`: `n` is 0 exactly when no
      part is an initial, and otherwise ends at the first occurrence of the
      chosen initial; the name then gains the particles present in the
      comma-free rest, and the address loses one occurrence of each, so no
      part is lost. */
  ghost predicate CutAt(parts: seq<string>, isInitial: string -> bool, fallback: bool, ps: seq<string>,
                        n: int, cut: (seq<string>, seq<string>)) {
    0 <= n <= |parts| &&
    (n == 0 <==> forall i :: 0 <= i < |parts| ==> !isInitial(parts[i])) &&
    (n > 0 ==> isInitial(parts[n - 1]) && Some(parts[n - 1]) == ChooseInitial(Filter(isInitial, parts), fallback) &&
               forall j :: 0 <= j < n - 1 ==> parts[j] != parts[n - 1]) &&
    var rest := Map(NoCommas, parts[n..]);
    cut.0 == parts[..n] + Present(rest, ps) &&
    multiset(cut.1) + multiset(Present(rest, ps)) == multiset(rest) &&
    |cut.0| + |cut.1| == |parts|
  }

  lemma {:induction false} CutLaws(parts: seq<string>, isInitial: string -> bool, fallback: bool, ps: seq<string>)
    requires Distinct(ps)
    ensures CutAt(parts, isInitial, fallback, ps, Boundary(parts, isInitial, fallback), Cut(parts, isInitial, fallback, ps))
  {
    var n := Boundary(parts, isInitial, fallback);
    BoundaryLaws(parts, isInitial, fallback);
    MovedLaws(parts[..n], Map(NoCommas, parts[n..]), ps);
  }

  /** Every part `Present` returns is one of the particles. */
  lemma {:induction false} PresentIn(address: seq<string>, ps: seq<string>)
    ensures forall i :: 0 <= i < |Present(address, ps)| ==> Present(address, ps)[i] in ps
    decreases |ps|
  {
    if ps != [] {
      PresentIn(address, ps[..|ps| - 1]);
    }
  }

  lemma {:induction false} PresentAbsent(address: seq<string>, ps: seq<string>, p: string)
    requires p !in ps
    ensures p !in Present(address, ps)
    decreases |ps|
  {
    if ps != [] {
      PresentAbsent(address, ps[..|ps| - 1], p);
    }
  }

  // ---------------------------------------------------------------------
  // format_name (the comprehension form)

  /** The token list of `format_name` in scripts/1854.py, 1865.py and
      1880.py: the `^[A-Z]\.$` tokens, then the particle tokens, then the
      others, each group in input order; `clean` applies `only_letters` to
      the others (scripts/1854.py and 1865.py). */
  function OrderedName(names: seq<string>, isParticle: string -> bool, clean: string -> string): (r: seq<string>)
    ensures r == Filter(IsDottedCapital, names) + Filter(isParticle, names) +
                 Map(clean, Filter(t => !IsDottedCapital(t) && !isParticle(t), names))
  {
    var initials := Filter(IsDottedCapital, names);
    var preps := Filter(isParticle, names);
    var restIn := Filter(t => t !in initials && t !in preps, names);
    forall i | 0 <= i < |names|
      ensures (names[i] !in initials && names[i] !in preps) == (!IsDottedCapital(names[i]) && !isParticle(names[i]))
    {
      if names[i] in initials { FilterMember(IsDottedCapital, names, names[i]); }
      if IsDottedCapital(names[i]) { FilterKeeps(IsDottedCapital, names, names[i]); }
      if names[i] in preps { FilterMember(isParticle, names, names[i]); }
      if isParticle(names[i]) { FilterKeeps(isParticle, names, names[i]); }
    }
    FilterCongruent(t => t !in initials && t !in preps, t => !IsDottedCapital(t) && !isParticle(t), names);
    initials + preps + Map(clean, restIn)
  }

  /** `D.` and `V.` are initials and, lower-cased, particles of the long
      list, so `format_name` as written lists such an initial twice. */
  lemma {:induction false} DottedParticleRepeated(clean: string -> string)
    ensures OrderedName(["D.", "Jansen"], LowerIsLongParticle, clean) == ["D.", "D.", clean("Jansen")]
  {
    var names: seq<string> := ["D.", "Jansen"];
    assert Lower(names[0]) == "d.";
    assert Lower(names[1]) == "jansen";
    assert IsDottedCapital(names[0]) && LowerIsLongParticle(names[0]);
    assert !IsDottedCapital(names[1]) && !LowerIsLongParticle(names[1]);
    OrderedNameRepeats(names[0], names[1], LowerIsLongParticle, clean);
  }

  /** An initial that is also a particle is listed twice, before the
      other part. */
  lemma {:induction false} OrderedNameRepeats(a: string, b: string, isParticle: string -> bool, clean: string -> string)
    requires IsDottedCapital(a) && isParticle(a)
    requires !IsDottedCapital(b) && !isParticle(b)
    ensures OrderedName([a, b], isParticle, clean) == [a, a, clean(b)]
  {
    FilterPair(IsDottedCapital, a, b);
    FilterPair(isParticle, a, b);
    FilterPair(t => !IsDottedCapital(t) && !isParticle(t), a, b);
  }

  lemma {:induction false} FilterPair(p: string -> bool, a: string, b: string)
    ensures Filter(p, [a, b]) == (if p(a) then [a] else []) + (if p(b) then [b] else [])
  {
    assert [a, b] == [a] + [b];
    FilterCons(p, a, [b]);
    FilterCons(p, b, []);
  }

  /** A particle of the long list that is not also an initial: what
      `format_name` evidently means by a particle. */
  predicate IsNameParticle(t: string) {
    LowerIsLongParticle(t) && !IsDottedCapital(t)
  }

  /** The corrected particle test changes the name only when a part is an
      initial that is also a particle (`D.`, `V.`): on every other name
      the corrected `format_name` gives what the program gives. */
  lemma {:induction false} OrderedNameAgrees(names: seq<string>, clean: string -> string)
    requires forall i :: 0 <= i < |names| ==> !(IsDottedCapital(names[i]) && LowerIsLongParticle(names[i]))
    ensures OrderedName(names, IsNameParticle, clean) == OrderedName(names, LowerIsLongParticle, clean)
  {
    FilterCongruent(IsNameParticle, LowerIsLongParticle, names);
    FilterCongruent(t => !IsDottedCapital(t) && !IsNameParticle(t),
                    t => !IsDottedCapital(t) && !LowerIsLongParticle(t), names);
  }

  /** With particles that are never initials, `format_name` places every
      part exactly once: it only reorders the parts. */
  lemma {:induction false} OrderedNameCounts(names: seq<string>, isParticle: string -> bool, clean: string -> string)
    requires forall t :: isParticle(t) ==> !IsDottedCapital(t)
    ensures |OrderedName(names, isParticle, clean)| == |names|
    ensures multiset(OrderedName(names, isParticle, t => t)) == multiset(names)
  {
    var others := (t: string) => !IsDottedCapital(t) && !isParticle(t);
    var rest := Filter(others, names);
    assert Map(t => t, rest) == rest;
    assert OrderedName(names, isParticle, t => t) == Filter(IsDottedCapital, names) + Filter(isParticle, names) + rest;
    PartitionCounts(IsDottedCapital, isParticle, others, names);
    assert |multiset(OrderedName(names, isParticle, t => t))| == |names|;
  }

  /** No particle of the short list is an initial, so `format_name` of
      1865.py places every part once. */
  lemma {:induction false} ShortParticlesNotInitials(t: string)
    requires LowerIsShortParticle(t)
    ensures !IsDottedCapital(t)
  {
    var l := Lower(t);
    assert |l| < 2 || l[1] != '.' by {
      assert l in ShortParticles;
    }
    assert |t| >= 2 ==> l[1] == ToLower(t[1]);
  }
}
