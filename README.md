# archieven: the record extractors as a Dafny model

The `archieven` scripts turn the OCR text of Dutch address books
(adresboeken) into person records `{name, jobTitle, address}` in the
schema.org Person shape. There is one script per book year, each with its
own heuristics: the 1854 book (`1854.py` and `scripts/1854.py`), the 1865
book (`1865.py`), the 1880 book (`1880.py`), a 1911 trial
(`basic_extract_test.py`), the 1926/1927 books (`extract_with_llm.py`,
`split_on_housenumbers.py`) and the 1968 book (`extract.py`). This project
models those heuristics and proves what they do:

- normalisers (`strip_text`, `only_letters`, `add_spaces`, `dot_initials`,
  `fix_initials_dot`, the phone-number and parenthesis rewriters), with
  character-set, length and order postconditions;
- segmenters that group the lines of a page under job headers, by
  parentheses, by house numbers or by name matches, with round-trip
  (concatenation) and exact-membership properties;
- boundary locators that split a token run at the last initial, with the
  N/O fallback, and the `find_name`/`find_prefixes` string splits;
- the `format_name` variants, including the in-place rotation of `1854.py`;
- the record assemblers, with their exact acceptance conditions and the
  normalisation of the job title and the address.

Modules:

| module | file | models |
|---|---|---|
| `Py` | `Py.dfy` | Python's `str.split`, `split(sep)`, `join`, `strip`/`lstrip`/`rstrip`, `replace`, `find`/`rfind`, `list.index`/`remove`, slices with negative bounds, `str.isupper`, ASCII character classes, order-preserving filters |
| `Scan` | `Scan.dfy` | left-to-right, non-overlapping regular-expression search (`re.finditer`, `re.sub`, `re.split`) over one pattern given as a matcher |
| `Normalize` | `Normalize.dfy` | the shared text normalisers |
| `Tokens` | `Tokens.dfy` | the shared pieces of `count_initials`/`split_on_initials` (initial-shaped tokens, the initials loop, the boundary cut, the particle move of `find_preposition`) and the comprehension form of `format_name` |
| `Sections` | `Sections.dfy` | `extract_lines` with its header index list, and a Python dict as an ordered association list |
| `Groups` | `Groups.dfy` | the line-grouping specification (a group opens at each start line) that `process_sentences` is proved against |
| `Records` | `Records.dfy` | the schema.org person record built by `make_json_object`, and the per-line collection of records |
| `Scripts1854`, `Book1865`, `Book1854`, `Book1880` | one file each | the per-year pipelines of `scripts/1854.py`, `1865.py`, `1854.py` and `1880.py`: the `get_job_list`, `count_initials` or `split_on_initials`, `format_name` and `extract_people` each script defines (`1880.py` has no job list and builds its records in its main loop), and the job-title formatting |
| `BasicExtract`, `LlmExtract`, `HouseNumbers`, `Extract1968` | one file each | `basic_extract_test.py` (with `remove_junk` and `process_sentences`), `extract_with_llm.py`, `split_on_housenumbers.py`, `extract.py` |

Functions that are comprehensions or substitutions in the scripts are Dafny
functions; loops that build lists and dicts, and the functions that change
lists in place (`find_preposition`, the `1854.py` `format_name`,
`remove_name_from_job`), are methods proved against specification
functions. Character classes are ASCII. Regular expressions are written as
scanners for the one pattern each script uses, following Python's
backtracking order (leftmost match, greedy quantifiers, alternatives tried
in order). Where the prose description of the scripts and the code differ,
the model follows the code, with one exception: the two defects listed
under "## Findings" are modelled as written, and the record pipelines of
`1854.py`, `scripts/1854.py` and `1880.py` then use the corrected forms
(see "## Left out" for the members this affects and the names on which
the two versions agree).

## Model

| member | source | states |
|---|---|---|
| Py.SliceSplit | split_on_housenumbers.py:202-207 | Python slices `xs[:k]` and `xs[k:]`, with negative and out-of-range bounds, give the sequence back |
| Py.RunLength | extract.py:45 | the longest run of characters passing the test at the start of the text |
| Py.Split | 1854.py:92 | the parts of `str.split()` are non-empty and hold no whitespace |
| Py.SplitOn | extract.py:25 | `str.split(ch)` gives at least one part |
| Py.SplitOnNoSep | extract.py:25 | no part of `str.split(ch)` holds the separator |
| Py.JoinSplitOn | extract.py:25 | joining the parts of `str.split(ch)` with `ch` gives the text back |
| Py.SplitStr | extract.py:21 | `str.split(sep)` gives at least one part |
| Py.SplitStrLaws | extract.py:21 | joining the parts with the separator gives the text back, and no part holds the separator |
| Py.LStripLaws | extract.py:27 | `lstrip` removes the longest prefix of stripped characters and nothing else |
| Py.RStripLaws | extract.py:24 | `rstrip` removes the longest suffix of stripped characters and nothing else |
| Py.RStripIdempotent | 1854.py:172 | `rstrip` applied twice strips nothing more |
| Py.StripLaws | extract.py:64 | `strip()` keeps characters of the text only, and the result neither starts nor ends with whitespace |
| Py.StripNoSpace | 1854.py:103-104 | a token without whitespace is its own `strip()` |
| Py.StripKeeps | extract.py:64 | `strip()` removes only whitespace |
| Py.RStripDotsKeepsDigits | scripts/1854.py:240 | `rstrip('.')` keeps every digit |
| Py.JoinHasDigit | scripts/1854.py:236 | the joined text has a digit when one of its parts does |
| Py.FindFrom | extract.py:59 | `find` gives the first occurrence at or after the start, or -1 exactly when there is none |
| Py.RFindUpTo | basic_extract_test.py:201 | `rfind` gives the last occurrence up to the bound, or -1 exactly when there is none |
| Py.ReplaceChars | extract_with_llm.py:140-144 | every character after `replace` comes from the text or from the replacement |
| Py.ReplaceRemovesChar | extract_with_llm.py:141-142 | replacing a character by a text without it leaves none of it |
| Py.ReplaceAbsent | split_on_housenumbers.py:279 | replacing a character that does not occur changes nothing |
| Py.ReplaceKeeps | split_on_housenumbers.py:285 | characters outside the pattern and the replacement keep their order |
| Py.RemoveFirstCounts | scripts/1854.py:156 | `list.remove(x)` takes away exactly one occurrence of `x` |
| Scan.MatchesSound | extract_with_llm.py:217 | `re.finditer` finds matches inside the text, in order and without overlap |
| Scan.MatchesFirst | basic_extract_test.py:181 | no match starts before the first one found, and none anywhere when nothing is found |
| Scan.MatchesLast | basic_extract_test.py:181-183 | no match starts after the end of the last one found |
| Scan.MatchesAscending | extract_with_llm.py:442 | the starts found are ascending and inside the text |
| Scan.SkipSpace | split_on_housenumbers.py:228 | `\s*` skips exactly a run of whitespace |
| Scan.PieceIs | extract_with_llm.py:446-452 | the piece of each start runs from it to the next start, or to the end |
| Scan.PiecesPrefix | extract_with_llm.py:446-452 | the first `k` pieces joined are the text from the first start to the end of the `k`-th piece |
| Scan.PiecesConcat | extract_with_llm.py:446-452 | all pieces joined are the text from the first start on |
| Scan.SubKeeps | split_on_housenumbers.py:279 | when every match and its replacement agree on the kept characters, `re.sub` keeps them all, in order |
| Scan.SubShorter | split_on_housenumbers.py:231 | when no replacement is longer than its match, `re.sub` does not make the text longer |
| Scan.SubFirst | split_on_housenumbers.py:231 | `re.sub` keeps the text before the first match, replaces it and goes on after it; without a match the text is unchanged |
| Scan.SubStart | split_on_housenumbers.py:231 | the same from the start of the text |
| Scan.SubNoMatch | split_on_housenumbers.py:231 | a text with no match is unchanged |
| Scan.ThroughConcat | split_on_housenumbers.py:199-207 | the cut pieces join back to the text and none is empty |
| Scan.ThroughPieces | split_on_housenumbers.py:199-207 | one piece per cut, from the previous cut to this one, plus one for text left over |
| Scan.MatchEndsRising | split_on_housenumbers.py:199-203 | the match ends rise strictly and lie inside the text |
| Scan.CutLaws | split_on_housenumbers.py:193-209 | cutting after every match: the pieces join back to the text, none is empty, piece `k` ends with match `k`, and the text after the last cut holds no match |
| Scan.CutPiece | split_on_housenumbers.py:202 | a piece is the text before its match followed by the match |
| Scan.CutRest | split_on_housenumbers.py:206-207 | no match starts after the last cut |
| Scan.SplitLaws | split_on_housenumbers.py:172-173 | `re.split` with a captured pattern: the pieces join back to the text, and the matches sit at the odd positions |
| Scan.SplitMatch | split_on_housenumbers.py:172-173 | the same, from a position where a match starts |
| Py.SliceBound | basic_extract_test.py:184-186 | a slice bound lies in range, and an in-range bound is kept as is |
| Normalize.StripText | scripts/1854.py:56-57 | the result holds only characters of the allow-list, and every allowed character occurs in it exactly as often as in the input (the `AllowList` variants are the classes of scripts/1854.py:56, extract_with_llm.py:180 which adds `-`, and split_on_housenumbers.py:156 which adds `-`, brackets and braces) |
| Normalize.StripTextLaws | scripts/1854.py:56-57 | the result is an order-preserving subsequence of the input, and stripping twice is stripping once |
| Normalize.OnlyLetters | scripts/1854.py:70-71 | the result holds only ASCII letters, each letter exactly as often as in the input |
| Normalize.OnlyLettersLaws | scripts/1854.py:70-71 | the letters keep their order, and a second pass changes nothing |
| Normalize.SpaceAfterDots | scripts/1854.py:133 | the first substitution of `add_spaces` keeps the first character |
| Normalize.SpaceAfterDotsSpaced | scripts/1854.py:133 | after the first substitution every period that is not the last character is followed by whitespace |
| Normalize.SpaceAfterDotsVisible | scripts/1854.py:133 | the first substitution inserts only whitespace: the non-whitespace characters are those of the input, in order |
| Normalize.SpaceAfterDotsFixed | scripts/1854.py:133 | a text where every period is already followed by whitespace is left unchanged |
| Normalize.CollapseSpaces | scripts/1854.py:134 | the result is empty exactly when the input is; its first character is the input's, or `' '` for leading whitespace |
| Normalize.CollapseSpacesCollapsed | scripts/1854.py:134 | after `\s+` → `' '` all whitespace is single plain spaces |
| Normalize.CollapseSpacesVisible | scripts/1854.py:134 | collapsing keeps every non-whitespace character, in order |
| Normalize.CollapseSpacesKeepsDotsSpaced | scripts/1854.py:133-134 | collapsing keeps every period followed by whitespace |
| Normalize.CollapseSpacesFixed | scripts/1854.py:134 | an already collapsed text is left unchanged |
| Normalize.AddSpaces | scripts/1854.py:123-137 | the result has only single plain spaces, every period not at the end is followed by `' '`, and its non-whitespace characters are the input's, in order |
| Normalize.AddSpacesIdempotent | scripts/1854.py:123-137 | applying `add_spaces` twice is applying it once |
| Normalize.AddSpacesKeepsDigits | scripts/1854.py:123-137 | a text with a digit still has one after `add_spaces` |
| Normalize.DotAfterCapitals | extract_with_llm.py:151 | the substitution keeps the first character |
| Normalize.DotAfterCapitalsClosed | extract_with_llm.py:151 | after `(?<=[A-Z])(?!\.)\b` → `.` every capital is followed by a word character or a period |
| Normalize.DotAfterCapitalsUndotted | extract_with_llm.py:151 | the substitution inserts nothing but periods |
| Normalize.DotAfterCapitalsFixed | extract_with_llm.py:151 | a text where every capital is already followed by a word character or a period is left unchanged |
| Normalize.DotInitials | extract_with_llm.py:150-151 | every capital of the result is followed by a word character or a period, and apart from periods the result is `add_spaces` of the input |
| Normalize.DotInitialsKeepsDigits | extract_with_llm.py:150-151 | a text with a digit still has one after `dot_initials` |
| Normalize.FixDotsFromPointwise | extract_with_llm.py:198-199 | the left-to-right substitution equals the position-by-position description (`FixedChar`) |
| Normalize.FixInitialsDot | extract_with_llm.py:184-199 | the length is kept; the lower-case letter of every stand-alone capital+lower-case word becomes `.` and nothing else changes; no such word is left |
| Normalize.NoTwoLetterWordLeft | extract_with_llm.py:198-199 | a text rewritten position by position as above contains no stand-alone capital+lower-case word |
| Normalize.InitialStartsFrom | extract_with_llm.py:217-218 | the match starts are ascending and are exactly the positions where `\b[A-Z]\.` matches |
| Tokens.NOTestIsLetter | 1854.py:113-114 | on an initial-shaped token, the test "`n` or `o` in the lower-cased token" is the same as "starts with N or O" |
| Tokens.ChooseInitial | 1854.py:110-118 | a boundary initial is chosen exactly when there are initials, and it is one of them |
| Tokens.ChooseInitialByLetter | 1854.py:110-118 | the last initial is chosen unless the fallback applies and it is an N or O; then the second to last is chosen, or the only one when it stands alone |
| Tokens.NameLength | 1854.py:121-126 | the name ends just after the first occurrence of the chosen initial (`parts.index`), and is empty without one |
| Tokens.CollectInitials | 1854.py:99-106 | the loop collects, in order, the stripped parts that are initial-shaped |
| Tokens.MapStripSplit | 1854.py:101-104 | the parts of `str.split()` are their own `strip()` |
| Tokens.BoundaryLaws | 1854.py:90-126 | the name is empty exactly when no part is an initial, and otherwise ends in an initial that is one of the parts |
| Tokens.Boundary | scripts/1854.py:174-178 | the boundary lies within the parts |
| Tokens.BoundaryByLetter | 1854.py:90-126 | where the boundary falls, by the initials' letters: it ends at the first occurrence of the last initial, or of the second to last one when the fallback applies to a final N or O |
| Tokens.NoCommas | scripts/1854.py:153 | the result has no comma |
| Tokens.FindPreposition | scripts/1854.py:139-158 | the method's lists are the particle move of the comma-free address: each listed particle present in the address is appended to the name and one occurrence removed from the address, in list order |
| Tokens.MovedLaws | scripts/1854.py:155-158 | with distinct particles the name gains exactly the present particles, in list order, the address loses one occurrence of each, and no part is lost |
| Tokens.CutLaws | scripts/1854.py:161-180 | `split_on_initials`: the name ends at the boundary initial's first occurrence (empty exactly when there is no initial), then gains the particles found in the comma-free rest, and together name and address hold as many parts as the sentence |
| Tokens.PresentIn | scripts/1854.py:155-156 | every moved part is one of the particles |
| Tokens.PresentAbsent | scripts/1854.py:155-156 | a token that is not a particle is never moved |
| Tokens.OrderedName | 1865.py:106-114 | the name is the dotted capitals, then the particles, then the remaining parts cleaned, each group in the input order |
| Tokens.DottedParticleRepeated | scripts/1854.py:194-198 | a part that is both a dotted capital and a particle (`D.`) is placed twice: `["D.", "Jansen"]` gives `["D.", "D.", "Jansen"]` |
| Tokens.OrderedNameRepeats | scripts/1854.py:194-198 | for any name of a dotted capital that counts as a particle followed by a plain part, the capital is listed twice |
| Tokens.OrderedNameCounts | 1865.py:106-114 | when no particle is a dotted capital, `format_name` only reorders the parts: same count, and without cleaning the same multiset |
| Tokens.OrderedNameAgrees | scripts/1854.py:194-198 | when no part is an initial that is also a particle, the corrected particle test gives the same name as `part.lower() in prepositions_list` |
| Tokens.ShortParticlesNotInitials | 1865.py:107 | no particle of the short list is a dotted capital, so the reordering result above applies to 1865.py |
| Groups.SegmentsSnoc | basic_extract_test.py:53-63 | one more line opens a new group when it passes the start test or nothing has been grouped yet, and otherwise joins the last group |
| Groups.SegmentsConcat | basic_extract_test.py:48-70 | grouping loses and invents no line: the groups, concatenated, are the input, and there are groups exactly when there are lines |
| Groups.SegmentsShape | basic_extract_test.py:48-70 | every group is non-empty with no start line after its first, and every group after the first starts with a start line |
| Records.CollectedSnoc | scripts/1854.py:223-245 | a line appended at the end adds its record, if any, at the end |
| Records.CollectedPrefix | scripts/1854.py:223-245 | the records of one more line of a list are those of the shorter prefix followed by that line's record |
| Records.CollectedLaws | scripts/1854.py:223-245 | there are at most as many records as lines, and every record is the record of some line |
| Records.CollectedCount | scripts/1854.py:223-245 | there are exactly as many records as lines that produce one |
| Sections.Keys | scripts/1854.py:116 | a dictionary has one key per entry, in insertion order |
| Sections.LookupAbsent | scripts/1854.py:116 | a key never written is not found |
| Sections.AssignLaws | scripts/1854.py:116 | `d[k] = v` makes `k` map to `v` and leaves the other keys alone |
| Sections.AssignKeys | scripts/1854.py:116 | `d[k] = v` appends `k` to the key order only when it is new |
| Sections.IndexList | scripts/1854.py:111 | one index per header, each the first occurrence of that header among the lines |
| Sections.IndexLoop | 1854.py:42-44 | the loop builds the same index list as the comprehension |
| Sections.FillSections | scripts/1854.py:114-116 | the loop writes the dictionary that maps each header line to the lines up to the next header, or to the end of the text for the last one (1854.py:46-52 finds the last one by comparing index values, `byValue`) |
| Sections.Positions | scripts/1854.py:110 | the header positions lie within the lines |
| Sections.PositionsLaws | scripts/1854.py:110 | the positions are those of the header lines, ascending, one per header found |
| Sections.PositionOf | scripts/1854.py:110 | every header line has its position in the list |
| Sections.NextHeader | scripts/1854.py:115 | the next header at or after `q`: no header in between, and a header unless it is the end of the text |
| Sections.IndexListIsPositions | scripts/1854.py:111 | with distinct header lines, `index` finds every header at its own position |
| Sections.SectionsKeys | scripts/1854.py:114-116 | with distinct headers the dictionary's keys are the headers in order |
| Sections.SectionsOfIncreasing | scripts/1854.py:114-116 | with ascending, distinct header positions every header maps to the lines between it and the next header, or the end |
| Sections.NextHeaderOfPosition | scripts/1854.py:115 | the section of the k-th header ends at the (k+1)-th header, or at the end of the text |
| Sections.HeaderDictKeys | scripts/1854.py:101-118 | with distinct headers the keys are the headers in text order |
| Sections.HeaderDictLaws | scripts/1854.py:101-118 | with distinct headers each header maps to exactly the lines of its section |
| Sections.LookupAtHeader | scripts/1854.py:101-118 | looking up a header line gives the lines after it up to the next header |
| Sections.HeaderSections | scripts/1854.py:101-118 | `extract_lines` on split lines: keys are the headers found, each mapped to the lines after it up to the next header |
| Sections.HeadersOccur | scripts/1854.py:111 | every header found is one of the lines, so `index` never raises |
| Sections.SectionsKeysSatisfy | scripts/1854.py:114-116 | every key the loop writes is a line at one of the given positions |
| Sections.ExtractedKeysAreHeaders | scripts/1854.py:101-118 | every key of the result passes the header test |
| Sections.ExtractedSectionsLaws | scripts/1854.py:101-118 | on a text whose header lines are distinct, the keys are exactly the header lines in order, and each maps to the lines after it up to the next header or the end of the text (after `\n\n` → `\n`) |
| Scripts1854.GetJobList | scripts/1854.py:74-97 | the header lines, in text order, each as often as it occurs in the text, and nothing else |
| Scripts1854.ExtractLines | scripts/1854.py:101-118 | the dictionary of `extract_lines`, whose keys all pass the header test; with distinct header lines the keys are exactly the headers in order, each mapped to the lines of its section |
| Scripts1854.SplitOnInitials | scripts/1854.py:161-180 | the name and address of the initial cut of the spaced sentence, with the particles moved to the name |
| Scripts1854.SplitNameLaws | scripts/1854.py:161-180 | the cut obeys the boundary and particle-move description of `Tokens.CutLaws` (the last initial of either case, no N/O fallback) |
| Scripts1854.FormatJobLaws | scripts/1854.py:239 | the job title has its first character upper-cased, the others lower-cased, and loses exactly its trailing periods after the first character |
| Scripts1854.PersonOfLaws | scripts/1854.py:234-241 | a line gives a record exactly when its name has more than one part and its joined address holds a digit; the record is a schema.org Person with the formatted job and an address that keeps a digit |
| Scripts1854.DictPeopleLaws | scripts/1854.py:223-243 | every record of the dictionary is a schema.org Person whose address holds a digit |
| Scripts1854.LinePeopleLaws | scripts/1854.py:232-243 | every record of a section carries that section's formatted job, is a schema.org Person and has a digit in its address |
| Scripts1854.Register.constructor | scripts/1854.py:248 | the register starts empty |
| Scripts1854.Register.ExtractPeople | scripts/1854.py:223-243 | the records of all sections, in dictionary order, are appended to the register |
| Scripts1854.Register.ExtractSection | scripts/1854.py:232-243 | the records of one section's lines, in line order, are appended to the register |
| Scripts1854.ExtractPerson | scripts/1854.py:234-241 | one line's body of the loop gives exactly the record described by `PersonOf` |
| Scripts1854.Run | scripts/1854.py:246-252 | the main block gives the records of the stripped text's sections, each a schema.org Person with a digit in its address |
| Book1865.GetJobList | 1865.py:34-41 | the loop keeps exactly the lines that pass the header test, in order: a subsequence of the lines holding every passing line as often as it occurs and no other line |
| Book1865.ExtractLines | 1865.py:43-58 | the dictionary of `extract_lines` (the last section found by comparing index values); its keys pass the header test and, with distinct header lines, are the headers in order, each mapped to the lines of its section |
| Book1865.CountInitials | 1865.py:68-102 | the name and address of the spaced sentence cut at the boundary initial (upper-case initials only, with the N/O fallback) |
| Book1865.CountedLaws | 1865.py:68-102 | name followed by address is the sentence; the name is empty exactly when there is no initial, and otherwise ends at the first occurrence of the last initial, or of the second to last when the last is an N or O |
| Book1865.FormatJobLaws | 1865.py:139 | the job title keeps its first character, lower-cases the others and loses exactly its trailing blanks and periods |
| Book1865.FormatJobNotIdempotent | 1865.py:139 | reformatting the already formatted job changes it again: `"Xa ."` becomes `"Xa "` and then `"Xa"` |
| Book1865.Rebound | 1865.py:135-139 | the job after any number of records is never empty |
| Book1865.SectionOutcome | 1865.py:130-143 | the job passed on to the next line is never empty |
| Book1865.EmitLine | 1865.py:135-143 | the loop over the address parts reformats the job once per part holding a digit, and the line gives a record exactly when some part holds one |
| Book1865.ProcessLine | 1865.py:133-143 | one line gives its first record and the job the next line sees, as `LineOutcome` describes |
| Book1865.ExtractSection | 1865.py:132-143 | the records of a section's lines, in order, and the job left after them |
| Book1865.ExtractPeople | 1865.py:128-143 | the records of all sections, in dictionary order |
| Book1865.OutcomeLaws | 1865.py:133-143 | a line gives a record exactly when its name has more than one part and some address part holds a digit; the record is a schema.org Person with the formatted job and a digit in its address |
| Book1865.Run | 1865.py:147-154 | the main block gives the records of the stripped text's sections, and every key is a non-empty job |
| Book1854.GetJobList | 1854.py:28-34 | the loop keeps exactly the upper-case lines longer than three characters, in order: a subsequence of the lines holding every such line as often as it occurs and no other line |
| Book1854.ExtractLines | 1854.py:36-55 | the dictionary of `extract_lines`; its keys pass the header test and, with distinct header lines, are the headers in order, each mapped to the lines of its section |
| Book1854.CountInitials | 1854.py:90-127 | the name and address of the spaced sentence cut at the boundary initial (either case, with the N/O fallback), with the seven particles moved to the name |
| Book1854.CountedLaws | 1854.py:90-127 | the cut obeys the boundary and particle-move description of `Tokens.CutLaws` |
| Book1854.CountedChoice | 1854.py:113-118 | the name ends at the last initial, or at the second to last when the last one is an N or O |
| Book1854.MoveToEndNoSpace | 1854.py:139-140 | moving a part to the end keeps every part free of whitespace |
| Book1854.Rotated | 1854.py:134-142 | the loop as written keeps the number of parts |
| Book1854.RotatedStep | 1854.py:135-140 | on parts without whitespace `item.strip()` is the part itself, and one move keeps that so |
| Book1854.RotatedLaws | 1854.py:134-142 | the loop as written only reorders the parts (same multiset) |
| Book1854.FirstInitial | 1854.py:134-142 | the position of the first initial lies within the list, or is its end |
| Book1854.FirstInitialIs | 1854.py:134-142 | a position with no initial before it and an initial at it (or the end) is the first-initial position |
| Book1854.RotationLaws | 1854.py:129-148 | the intended rotation reorders the parts, starts with an initial exactly when the list has one, and turns the list at a position with no initial before it |
| Book1854.FirstInitialLaws | 1854.py:134-142 | no part before the first-initial position is an initial, and the part there is one |
| Book1854.RotatedSkipsParts | 1854.py:134-142 | on `["de", "Wit,", "J."]` the loop as written gives `["Wit,", "J.", "de"]` where the intended rotation gives `["J.", "de", "Wit,"]` |
| Book1854.RotatedAgrees | 1854.py:134-142 | the loop as written gives the intended rotation when the list starts with an initial, or when one non-initial part stands before an initial that is last or followed by another initial |
| Book1854.RotationOfSurname | 1854.py:129-148 | a surname of two parts followed by an initial is moved behind the initial |
| Book1854.JoinedName | 1854.py:145-146 | the joined name holds no comma |
| Book1854.FormatName | 1854.py:129-148 | as written: the caller's list is left as the skipping loop leaves it, with the same parts, and the name is that list joined, without a trailing comma and with the other commas turned into periods |
| Book1854.FormatNameIntended | 1854.py:129-148 | corrected: the list turned so that it starts at its first initial, and the name is that list joined with no comma |
| Book1854.FormatJob | 1854.py:172 | the job title keeps its first character |
| Book1854.FormatJobIdempotent | 1854.py:172 | formatting the job twice is formatting it once, so rebinding `job` at each record leaves later titles unchanged |
| Book1854.ParticlesNoSpace | 1854.py:61-88 | the seven particles hold no whitespace |
| Book1854.CountedNoSpace | 1854.py:90-127 | the name parts of `count_initials` hold no whitespace |
| Book1854.SectionPeoplePrefix | 1854.py:166-175 | the records of one more line are those of the shorter prefix followed by that line's record |
| Book1854.EmitLine | 1854.py:168-175 | the loop over the address parts gives a record exactly when some part holds a digit, and leaves the job formatted once |
| Book1854.ProcessLine | 1854.py:166-175 | one line gives the record `LineOutcome` describes, and leaves the job unchanged or formatted once |
| Book1854.AddLine | 1854.py:166-175 | one round of the inner loop appends the line's record, if any, to the records of the lines before it, whatever job an earlier line left |
| Book1854.ExtractSection | 1854.py:164-175 | the records of a section's lines, in order |
| Book1854.ExtractPeople | 1854.py:163-175 | the records of all sections, in dictionary order |
| Book1854.OutcomeLaws | 1854.py:166-175 | a line gives a record exactly when its name has more than one part and some address part holds a digit; the record is a schema.org Person with no comma in its name, a digit in its address and the formatted job |
| Book1854.Run | 1854.py:177-184 | the main block gives the records of the stripped text's sections, and every key is a non-empty job |
| Book1880.RemovePrepositionsLaws | 1880.py:75-78 | exactly the parts equal to a particle are dropped; every other part stays, in order and as often as it occurs |
| Book1880.AddInitialDotsLaws | 1880.py:97-99 | the number of parts is kept, no part of one character is left, only such parts change and only by a period appended, and a second pass changes nothing |
| Book1880.ExtractPrepositionsLaws | 1880.py:152-156 | the particles among the words, in order and as often as they occur |
| Book1880.SplitOnInitials | 1880.py:102-138 | the name and the rest of the sentence as `Divided` describes them |
| Book1880.DividedNamePrefix | 1880.py:102-134 | the name is a prefix of the first four words |
| Book1880.DividedNameLaws | 1880.py:102-134 | the name is empty exactly when none of the first four words is a capital initial, and otherwise ends at the first occurrence of the last initial, or of the second to last when the last is an N or O |
| Book1880.DividedRestLaws | 1880.py:135 | the rest is a subsequence of the words and holds exactly the words that are not in the name |
| Book1880.JobAndStreetLaws | 1880.py:141-150 | with more than two comma parts the job is the first and the address keeps, in order, the parts that differ from it; otherwise the job is empty and the address is the whole sentence cut at its commas |
| Book1880.JoinNonEmpty | 1880.py:167 | non-empty words joined by blanks give the empty string only when there are none |
| Book1880.FormatNameLaws | 1880.py:159-167 | with non-empty parts the corrected `format_name` only reorders them, and gives the empty name only for no parts |
| Book1880.LineRecord | 1880.py:202-216 | a record is a schema.org Person with a non-empty name |
| Book1880.AcceptedLaws | 1880.py:213-214 | a line is accepted exactly when it has name parts and an address; the record carries the formatted name, the joined job and an address without outer whitespace |
| Book1880.NameWordsNonEmpty | 1880.py:208-210 | the name words and the particles added to them are non-empty |
| Book1880.LineNameWordsNonEmpty | 1880.py:203-210 | every name word of a line is non-empty |
| Book1880.LineRecordLaws | 1880.py:202-216 | a line gives a record exactly when it has name words and its rest gives an address |
| Book1880.LinesPeopleLaws | 1880.py:202-216 | at most one record per line; every record is a schema.org Person with a non-empty name and is the record of some line |
| Book1880.ProcessLine | 1880.py:203-216 | one iteration of the main loop gives the line's record |
| Book1880.AddLine | 1880.py:203-216 | one turn of the loop appends the record of the line, if any, to the records of the lines before it |
| Book1880.ProcessLines | 1880.py:202-216 | the loop collects the records of the lines, in order |
| Book1880.Run | 1880.py:196-216 | the main block gives the records of the lines of the stripped text |
| BasicExtract.RemoveJunk | basic_extract_test.py:101-107 | the loop keeps, in order, exactly the lines with a parenthesis or a digit |
| BasicExtract.RemoveJunkLaws | basic_extract_test.py:101-107 | the kept lines are a subsequence of the input, are exactly the lines with a parenthesis or a digit, and each occurs as often as in the input |
| BasicExtract.GroupingSnoc | basic_extract_test.py:53-63 | a parenthesised line closes the running group (if it is not empty) and starts a new one; any other line is appended to the running group after a blank |
| BasicExtract.RunningNotEmpty | basic_extract_test.py:57-63 | the running text of a group is never empty, and stripped it is the group's text |
| BasicExtract.ParenStep | basic_extract_test.py:55-60 | a parenthesised line keeps the loop state in step with the line groups: it closes the last group and opens its own |
| BasicExtract.PlainStep | basic_extract_test.py:61-63 | a line without parenthesis keeps the loop state in step with the line groups: it joins the last group |
| BasicExtract.GroupingSegments | basic_extract_test.py:48-70 | after any non-empty list of lines, the loop has closed every group but the last, and holds the running text of the last |
| BasicExtract.GroupedSegments | basic_extract_test.py:48-70 | `process_sentences` returns one stripped, blank-joined text per group of lines, where a group starts at each parenthesised line (`Groups.SegmentsConcat` and `Groups.SegmentsShape` say what the groups are) |
| BasicExtract.ProcessSentences | basic_extract_test.py:48-70 | the loop returns exactly the grouped texts |
| BasicExtract.FindItemWithDigit | basic_extract_test.py:144-155 | nothing (Python's empty list) exactly when no item holds a digit; otherwise the first item that holds one |
| BasicExtract.NameAndJobLaws | basic_extract_test.py:158-166 | the person changes exactly when the job holds `(`, `)` or `}`; then the job is appended to the name and becomes `"None"`; no bracket is left in the job, so a second call changes nothing |
| BasicExtract.PersonDict.constructor | basic_extract_test.py:80-98 | the new person holds the given name, job and address |
| BasicExtract.PersonDict.RemoveNameFromJob | basic_extract_test.py:158-166 | the dictionary's name and job become what `NameAndJob` gives for the old ones, and the address is untouched |
| BasicExtract.FindInitialsLaws | basic_extract_test.py:180-188 | nothing exactly when no `\b[A-Z]\.` matches; otherwise the last match with the character before it, where a match at the very start wraps around to the empty slice (or to `.` when the name is just the initial) |
| BasicExtract.PrefixEnd | basic_extract_test.py:170 | the greedy match of a particle prefix is non-empty and stays inside the text |
| BasicExtract.FindPrefixesNone | basic_extract_test.py:169-177 | nothing exactly when no prefix can start anywhere |
| BasicExtract.FindPrefixesLaws | basic_extract_test.py:169-177 | when something is found: the last match (none starts after it) with the character before it, wrapping around for a match at the start |
| BasicExtract.PrefixSliceIs | basic_extract_test.py:173-175 | the slice `name[start - 1:end]` of a match is the match preceded by its character, or the wrapped-around slice at the start |
| BasicExtract.Max | basic_extract_test.py:211 | `max` returns an element no smaller than any other |
| BasicExtract.SliceFound | basic_extract_test.py:201 | a non-empty slice of the name occurs in it, so `rfind` finds it |
| BasicExtract.InitialPieceOccurs | basic_extract_test.py:198-202 | the initial found occurs in the name |
| BasicExtract.PrefixPieceOccurs | basic_extract_test.py:204-208 | the prefix found occurs in the name |
| BasicExtract.FoundPiecesOccur | basic_extract_test.py:196-208 | every piece `find_name` cuts after occurs in the name |
| BasicExtract.CutAfterLaws | basic_extract_test.py:210-214 | the two halves give the name back; without pieces the rest is empty; with pieces the first half ends exactly at the end of the last occurrence of one of them, and no piece's last occurrence ends later |
| BasicExtract.FindNameLaws | basic_extract_test.py:191-214 | on the cleaned name (`strip_text`, then `dot_initials`): the halves give it back, and the cut falls at the furthest end of the last occurrences of the initial and the prefix found, or nowhere when neither is found |
| BasicExtract.CommaSplitLaws | basic_extract_test.py:235-243 | a line is skipped exactly when it has no comma; otherwise name, job (when it is a part) and address, joined with commas, give the line back and none of them holds a comma |
| BasicExtract.LineEntryLaws | basic_extract_test.py:234-247 | a line gives an entry exactly when it has a comma; the entry keeps the split's address, its job holds no bracket, and its name is the stripped first half of the cleaned name with `rest` the second half |
| BasicExtract.ProcessLine | basic_extract_test.py:235-247 | one line of the main loop gives the entry `LineEntry` describes |
| BasicExtract.GetTextLaws | basic_extract_test.py:25-46 | for a page range inside the book, one text per page, in order, each with the hyphenated line breaks removed |
| BasicExtract.LineEntrySome | basic_extract_test.py:236 | a line gives an entry exactly when it has a comma |
| BasicExtract.EntriesCount | basic_extract_test.py:234-247 | a page gives exactly one entry per complete line that holds a comma |
| BasicExtract.PageLoop | basic_extract_test.py:234-247 | the loop collects the entries of the complete lines, in order |
| BasicExtract.Run | basic_extract_test.py:225-248 | the main block gives the entries of every page's complete lines, page by page |
| LlmExtract.PageTextLaws | extract_with_llm.py:140-144 | a cleaned page holds no brace, and every character comes from the page or is a parenthesis put in for a brace |
| LlmExtract.GetText | extract_with_llm.py:123-147 | the loop gives the cleaned text of every page from `first` to `last` (1-based, inclusive, with Python's slice bounds), in order |
| LlmExtract.GetTextLaws | extract_with_llm.py:123-147 | for a page range inside the book, one text per page, none with a brace |
| LlmExtract.FoldSnoc | extract_with_llm.py:243-263 | one more line is one more iteration of the loop |
| LlmExtract.FoldAppend | extract_with_llm.py:243-263 | running the loop over two stretches of lines one after the other is running it over both |
| LlmExtract.FirstOpener | extract_with_llm.py:252-256 | the first line with a parenthesis and an initial: no earlier line is one |
| LlmExtract.BeforeOpener | extract_with_llm.py:248-261 | before any entry opens, the parenthesised lines are emitted on their own and the others are skipped |
| LlmExtract.OpenerStep | extract_with_llm.py:252-256 | a line with a parenthesis and an initial closes the running entry and opens a new one |
| LlmExtract.ContinueStep | extract_with_llm.py:257-263 | once an entry is open, any other line is appended to it after a blank |
| LlmExtract.FromOpener | extract_with_llm.py:243-263 | from the first opener on, the loop holds one blank-joined text per finished entry and the entry being built |
| LlmExtract.CombinedLaws | extract_with_llm.py:221-269 | the result is the parenthesised lines before the first opener, each on its own, followed by one blank-joined text per entry, where an entry runs from an opener to the line before the next one |
| LlmExtract.CombineStringsWithInitial | extract_with_llm.py:221-269 | the loop gives exactly the combination `CombinedLaws` describes |
| LlmExtract.FixInitialsDotKeepsDigits | extract_with_llm.py:198-199 | a line with a digit still has one after `fix_initials_dot` |
| LlmExtract.CandidatesLaws | extract_with_llm.py:510-523 | one tidied line per combined line with a digit; every one holds a digit and has every capital followed by a word character or a period |
| LlmExtract.EmptyPairFits | extract_with_llm.py:366 | each match of `\(\s*\)` is replaced by a text no longer than the match with the same non-blank characters other than `)` |
| LlmExtract.LooseCloseFits | extract_with_llm.py:367 | each match of the initial-then-`)` pattern is replaced by a text no longer than the match with the same non-blank characters other than `)` |
| LlmExtract.SkipLoose | extract_with_llm.py:366-367 | a stretch of blanks and `)` holds none of the characters the substitutions keep |
| LlmExtract.RemoveFalseParenthesisLaws | extract_with_llm.py:352-369 | the two substitutions only delete blanks and `)`: every other character is kept in order and the number of `(` is unchanged |
| LlmExtract.RemoveFalseParenthesisShorter | extract_with_llm.py:352-369 | the text never grows |
| LlmExtract.RemoveFalseParenthesisNoClose | extract_with_llm.py:352-369 | a text without `)` is left alone |
| LlmExtract.ContextSegmentsLaws | extract_with_llm.py:425-454 | one segment per surname match; the unstripped pieces run from each match to the next and together give the text from the first match on, and no match starts before the first |
| LlmExtract.SplitByInitialsWithContext | extract_with_llm.py:425-454 | the loop gives, for each match, the stripped text from its start to the next match's start or the end |
| LlmExtract.FindPrefixesNone | extract_with_llm.py:457-481 | nothing (and an empty rest) exactly when `\b[vdt][\w.]{0,2}\)` matches nowhere |
| LlmExtract.FindPrefixesLaws | extract_with_llm.py:457-481 | when something is found: prefix and rest give the text back, the prefix ends with the `)` of a match, and no match starts in the rest |
| HouseNumbers.PageTextLaws | split_on_housenumbers.py:133-135 | a page text holds no line break, and every character comes from the page |
| HouseNumbers.GetText | split_on_housenumbers.py:116-143 | the loop gives the text of every page from `first` to `last` (1-based, inclusive, with Python's slice bounds), in order |
| HouseNumbers.DigitsEnd | split_on_housenumbers.py:172 | the run of digits from `p` ends at a non-digit or the end of the text |
| HouseNumbers.TailEnd | split_on_housenumbers.py:172 | a match of `[A-Za-z]?[.,;!?\n]` ends with a terminator |
| HouseNumbers.ShortNumberEnd | split_on_housenumbers.py:172 | a number of one to three digits starts at a digit that follows no digit |
| HouseNumbers.PlainNumberMatch | split_on_housenumbers.py:172 | a house number of `split_by_housenumbers` starts with a digit that follows no digit and ends with a terminator |
| HouseNumbers.HouseNumberMatch | split_on_housenumbers.py:192 | a house number of `split_text_with_housenumbers_included` (the decimal part tried first) starts with a digit that follows no digit and ends with a terminator |
| HouseNumbers.SplitByHousenumbersLaws | split_on_housenumbers.py:160-173 | the pieces join back to the text, there are two per house number plus one, and the odd pieces are the house numbers found, in order |
| HouseNumbers.HouseSegmentsLaws | split_on_housenumbers.py:177-209 | the segments join back to the text and none is empty; segment `k` runs from the end of the previous house number to the end of house number `k`; a last segment follows only when text is left, and it holds no house number |
| HouseNumbers.SplitTextWithHousenumbersIncluded | split_on_housenumbers.py:177-209 | the loop gives exactly those segments |
| HouseNumbers.PhoneWordEnd | split_on_housenumbers.py:228 | the telephone word ends with its period |
| HouseNumbers.PhoneMatch | split_on_housenumbers.py:228 | a telephone number holds a period and ends with a digit |
| HouseNumbers.RemovePhoneNumbersShorter | split_on_housenumbers.py:212-231 | removing the telephone numbers never makes the text longer |
| HouseNumbers.RemovePhoneNumbersLaws | split_on_housenumbers.py:212-231 | without a telephone number the text is unchanged, and otherwise the text before the first number is kept, the number is dropped and the removal goes on after it |
| HouseNumbers.RemovePhoneNumbersNoPeriod | split_on_housenumbers.py:212-231 | a text without a period is left unchanged |
| HouseNumbers.PhoneInside | split_on_housenumbers.py:228-231 | every telephone match lies inside the text and is replaced by nothing |
| HouseNumbers.PhoneHasPeriod | split_on_housenumbers.py:228 | a telephone number can only start where a period follows |
| HouseNumbers.NoPeriodNoPhone | split_on_housenumbers.py:228 | no telephone number starts in a text without a period |
| HouseNumbers.CloseFrom | split_on_housenumbers.py:279 | the first `)` from `o` on, or the end of the text |
| HouseNumbers.OcrGroupLaws | split_on_housenumbers.py:279 | a group `(…)` holds no `)` inside; it is rewritten to `(`, the inside with every `}` turned into `J.`, and `)`; no `}` is left |
| HouseNumbers.OcrGroupKeeps | split_on_housenumbers.py:279 | rewriting a group changes nothing but `}`, `J` and `.` |
| HouseNumbers.Enclosed | split_on_housenumbers.py:279 | a group is its `(`, its inside and its `)` |
| HouseNumbers.BracedKeeps | split_on_housenumbers.py:279 | turning `}` into `J.` changes no other character of the group |
| HouseNumbers.FixOcrMistakesLaws | split_on_housenumbers.py:272-279 | every character other than `}`, `J` and `.` is kept, in order, and a text without `(` is left unchanged |
| HouseNumbers.LineEnd | split_on_housenumbers.py:285 | the end of the line (`.` does not cross a newline) lies in the text |
| HouseNumbers.LastClose | split_on_housenumbers.py:285 | the greedy `.*\)` ends at a `)` |
| HouseNumbers.DigitGroupLaws | split_on_housenumbers.py:285 | a rewritten group holds no `1`, `3` or `4`, and apart from those, `J` and `.` it is the group |
| HouseNumbers.ReplaceDigitsParenthesesLaws | split_on_housenumbers.py:282-286 | every character other than `1`, `3`, `4`, `J` and `.` is kept in order; the text before the first group is kept, that group is rewritten and the rewriting goes on after it; a text without `(` is left unchanged |
| HouseNumbers.PreparedLaws | split_on_housenumbers.py:329-335 | a segment goes on exactly when, stripped and without telephone numbers, it is longer than 15 and shorter than 150 characters; what goes on is empty or starts with a letter |
| HouseNumbers.PageLinesLaws | split_on_housenumbers.py:325-335 | at most one line per segment with a parenthesis, and every line comes from such a segment |
| HouseNumbers.PageLinesCount | split_on_housenumbers.py:325-335 | the page has exactly one line for each segment with a parenthesis whose stripped text without telephone numbers is longer than 15 and shorter than 150 characters |
| HouseNumbers.PageLoop | split_on_housenumbers.py:325-335 | the loop gives the lines of the page, in order |
| Extract1968.FlatSnoc | extract.py:17-23 | the entries of one more page follow those of the pages before it |
| Extract1968.FlatAppend | extract.py:17-23 | the entries of two runs of pages are those of the first run followed by those of the second |
| Extract1968.FlatSplit | extract.py:17-23 | the entries of all pages are those before page `i`, then page `i`'s, then those after it |
| Extract1968.PieceItemsLaws | extract.py:24-27 | the items of an entry hold neither a comma nor a line break, and none starts with whitespace |
| Extract1968.SplitOnChars | extract.py:25 | every character of a comma part comes from the text |
| Extract1968.PieceVerdictLaws | extract.py:28-42 | a job found is the second or third item, has more than three characters, no digit, fewer than four words and no capital first; the test raises `IndexError` exactly when there are no items, the first is empty, or (outside the dash branch, with three or more items) the second is empty or is capitalised with an empty third; entries whose items are all non-empty never raise; in the dash branch the second item is the job exactly when it looks like one and does not start with a capital |
| Extract1968.FoldSnoc | extract.py:23-42 | one more entry is one more step of the pass |
| Extract1968.FoldNone | extract.py:23-42 | once the pass has stopped, no entry restarts it |
| Extract1968.FoldAppend | extract.py:17-42 | running the pass over two runs of entries one after the other is running it over both |
| Extract1968.FoldCrash | extract.py:17-42 | an entry that raises stops the whole pass, whatever comes before and after it |
| Extract1968.FoldLaws | extract.py:17-42 | the pass stops exactly when some entry raises; otherwise it keeps the job of every entry that has one, in order |
| Extract1968.JobsLaws | extract.py:17-42 | at most one job per entry, and every job kept is the job of some entry |
| Extract1968.CandidateJobsLaws | extract.py:17-42 | over all pages, the pass stops exactly when some entry raises; otherwise there are at most as many candidates as entries, and every candidate looks like a job and does not start with a capital |
| Extract1968.CrashIn | extract.py:17-42 | one entry that raises on any page stops the pass |
| Extract1968.JudgeEntry | extract.py:24-42 | the body of the inner loop gives the entry's verdict: raise, no job, or the job |
| Extract1968.CollectJobCandidates | extract.py:17-42 | the nested loops give the candidate list, or stop at the first entry that raises |
| Extract1968.DedupLaws | extract.py:44 | the de-duplicated list holds no repeat, and holds exactly the candidates |
| Extract1968.StripLeadingLaws | extract.py:45 | only a leading run of non-letters goes: what is left is a suffix of the job, empty or starting with a letter, and it keeps every letter |
| Extract1968.LexTotal | extract.py:46 | any two keys are ordered one way or the other |
| Extract1968.LexTrans | extract.py:46 | the key order is transitive |
| Extract1968.SortedCons | extract.py:46 | a key no larger than all others can go in front of a sorted list |
| Extract1968.InsertLaws | extract.py:46 | inserting into a sorted list keeps it sorted and adds exactly that element |
| Extract1968.InsertAfter | extract.py:46 | insertion behind a smaller head keeps the list sorted and a permutation |
| Extract1968.SortByLowerLaws | extract.py:46 | the sorted list is ordered by lower-case key and is a permutation of the input |
| Extract1968.CleanJobsLaws | extract.py:44-46 | the job list is sorted by lower-case key, is a permutation of the stripped distinct candidates, is no longer than the candidate list, and each entry is empty or starts with a letter and is a stripped candidate |
| Extract1968.LongestIndex | extract.py:58 | `max(…, key=len)` picks the first of the longest present jobs |
| Extract1968.PresentJobsLaws | extract.py:56 | the present jobs are exactly the jobs the line contains |
| Extract1968.CutAtLaws | extract.py:56-65 | a line is cut exactly when it contains some job; then name text, job and address text give the line back, the job is a longest one contained, and it does not occur earlier in the line |
| Extract1968.NameOfLaws | extract.py:62-64 | the name holds only letters, periods and inner spaces, and every letter of the text before the job |
| Extract1968.AddressOfLaws | extract.py:65-68 | the address holds only letters, periods, hyphens, blanks and digits, and exactly the digits of the text after the job, so it has a digit exactly when that text has one |
| Extract1968.HasDigitFilter | extract.py:79 | a text has a digit exactly when its digits are not empty |
| Extract1968.LineRecordLaws | extract.py:55-80 | a line gives a person exactly when it contains a job and the text after that job holds a digit; the person is a schema.org Person keeping the letters of the name text, the digits of the address text and the letters of the job, and the job title holds only letters, periods, hyphens and blanks |
| Extract1968.ProcessLine | extract.py:56-80 | the body of the loop for one line gives the person `LineRecord` describes |
| Extract1968.BuildRegister | extract.py:50-80 | the nested loops give the persons of all lines of all pages, in order |
| Extract1968.RegisterLaws | extract.py:50-80 | at most one person per line; every person is a schema.org Person with a digit in its address, and is the person of some line |
| Extract1968.Run | extract.py:17-82 | the whole script: no register when the first pass raises, and otherwise the register built with the cleaned job list |
| Extract1968.OutcomeLaws | extract.py:17-82 | the script raises exactly when some entry fails the job test; otherwise every person of the register is a schema.org Person with a digit in its address |

## Findings

| source | as written | input that shows it | evidently intended | confidence | as-written member | corrected member |
|---|---|---|---|---|---|---|
| 1854.py:134-142 | `format_name` removes and appends on the list it is iterating over, so the loop skips the part after each move | `["de", "Wit,", "J."]` gives `"Wit. J. de"` | turn the list until it starts at its first initial: `"J. de Wit"` | high, not executed | Book1854.RotatedSkipsParts | Book1854.RotationLaws |
| scripts/1854.py:194-198, 1880.py:162-165 | a part is a particle when its lower-case form is in the list, and the list holds `d.` and `v.`, so the initials `D.` and `V.` are placed both as initial and as particle | `["D.", "Jansen"]` gives `"D. D. Jansen"` | each part placed once: `"D. Jansen"` | medium, not executed | Tokens.DottedParticleRepeated | Tokens.OrderedNameCounts |

The rest of the model uses the corrected forms: `Book1854.FormatNameIntended`
in the 1854 records, and `Tokens.IsNameParticle` (a long-list particle that
is not a dotted capital) in `Scripts1854.FormatName` and
`Book1880.FormatName`. The records therefore differ from the program's
where the two versions differ; `Book1854.RotatedAgrees` and
`Tokens.OrderedNameAgrees` state the names on which they agree, and
"## Left out" lists the members concerned. `1865.py` uses the short particle list, which holds
no dotted capital (`Tokens.ShortParticlesNotInitials`), so it is modelled
as written.

## Left out

- Reading and writing files: `open_json`/`load_json`, `json.dumps`, `make_page_json`, the file writes, `print` and `tqdm`. Page texts are parameters, already in memory.
- The `get_text` of `1854.py`, `1865.py`, `1880.py` and `scripts/1854.py`, which only concatenate the page texts read from the JSON file: the per-book `Run` takes the concatenated text.
- The language-model calls (`System_Message`, `Human_Message`, `ask_llama`, `schema` and the client in `extract_with_llm.py` and `split_on_housenumbers.py`): network calls whose answers the scripts only pass on.
- `clean_initials_in_parentheses`, `add_parenthesis_to_last_initial`, `split_by_initials` and `split_by_name` of `extract_with_llm.py`: their patterns need a general backtracking regular-expression engine; the `main` of that script is modelled up to its filters, before these calls.
- The first `find_prefixes` of `extract_with_llm.py` (lines 272-294), which is redefined at line 457 and never called.
- Unicode: `str.isalpha`, `isdigit`, `isupper`, `lower`/`upper`, `\w`, `\d` and `\s` are modelled on ASCII (plus the `\x1c`-`\x1f` separators Python counts as whitespace); the `À-ÿ` range of the name pattern is modelled as the code points U+00C0 to U+00FF.
- Python's `re` module in general: each script's pattern is a scanner of its own.
- The later records emitted from the same line by `extract_people` of `1854.py` and `1865.py`, which rebind `job` and `address` inside the per-token loop and repeat a garbled record: only the first record of a line is modelled. The job rebinding carries over to the next lines and is modelled (`Book1865.Rebound`; in `1854.py` it changes nothing, `Book1854.FormatJobIdempotent`).
- Set iteration order in `extract.py`: the job set is modelled as a first-occurrence deduplication, so jobs that differ only in case may come out of the stable sort in a different order than in the script.
- The page-number `print` of `extract.py`, and its rewrite of `split[0]` at line 29, which is modelled but never read afterwards.
- `HouseNumbers.FixOcrMistakes` is modelled, although the `main` block of `split_on_housenumbers.py` never calls `fix_ocr_mistakes`.
- LlmExtract.PageTextLaws: states that no `{` or `}` is left and every other character comes from the page, but does not claim that every `-\n`, `Mej.` and `Wed.` is gone (a removal can bring two halves of a new occurrence together).
- HouseNumbers.RemovePhoneNumbersLaws: characterises the result through the first match and the rest of the text, not by a closed formula over all matches.
- HouseNumbers.ReplaceDigitsParenthesesLaws: characterises the result through the first match and the rest of the text, not by a closed formula over all matches.
- BasicExtract.GetTextLaws: stated only for page ranges inside the book; for other ranges the script's slice gives fewer pages, which `GetText` models but no lemma describes.
- LlmExtract.GetTextLaws: stated only for page ranges inside the book, for the same reason.
- Book1854.SectionPeoplePrefix: the record names come from the corrected rotation `FormatNameIntended`, not from the skipping loop of 1854.py:134-142, so a name with particles or a surname of more than one part (`Wit, J. de` gives `J. de Wit`, the program `J. Wit. de`) differs from the program's; the names agree where `Book1854.RotatedAgrees` applies.
- Book1854.EmitLine: the record names come from the corrected rotation `FormatNameIntended`, not from the skipping loop of 1854.py:134-142, so a name with particles or a surname of more than one part (`Wit, J. de` gives `J. de Wit`, the program `J. Wit. de`) differs from the program's; the names agree where `Book1854.RotatedAgrees` applies.
- Book1854.ProcessLine: the record names come from the corrected rotation `FormatNameIntended`, not from the skipping loop of 1854.py:134-142, so a name with particles or a surname of more than one part (`Wit, J. de` gives `J. de Wit`, the program `J. Wit. de`) differs from the program's; the names agree where `Book1854.RotatedAgrees` applies.
- Book1854.AddLine: the record names come from the corrected rotation `FormatNameIntended`, not from the skipping loop of 1854.py:134-142, so a name with particles or a surname of more than one part (`Wit, J. de` gives `J. de Wit`, the program `J. Wit. de`) differs from the program's; the names agree where `Book1854.RotatedAgrees` applies.
- Book1854.ExtractSection: the record names come from the corrected rotation `FormatNameIntended`, not from the skipping loop of 1854.py:134-142, so a name with particles or a surname of more than one part (`Wit, J. de` gives `J. de Wit`, the program `J. Wit. de`) differs from the program's; the names agree where `Book1854.RotatedAgrees` applies.
- Book1854.ExtractPeople: the record names come from the corrected rotation `FormatNameIntended`, not from the skipping loop of 1854.py:134-142, so a name with particles or a surname of more than one part (`Wit, J. de` gives `J. de Wit`, the program `J. Wit. de`) differs from the program's; the names agree where `Book1854.RotatedAgrees` applies.
- Book1854.Run: the record names come from the corrected rotation `FormatNameIntended`, not from the skipping loop of 1854.py:134-142, so a name with particles or a surname of more than one part (`Wit, J. de` gives `J. de Wit`, the program `J. Wit. de`) differs from the program's; the names agree where `Book1854.RotatedAgrees` applies.
- Scripts1854.ExtractPerson: the record names come from the corrected particle test `Tokens.IsNameParticle`, not from `part.lower() in prepositions_list` at scripts/1854.py:195, so a name with the initial `D.` or `V.` is written with that initial once (`D. Jansen`) where the program writes it twice (`D. D. Jansen`); the names agree where `Tokens.OrderedNameAgrees` applies.
- Scripts1854.Register.ExtractSection: the record names come from the corrected particle test `Tokens.IsNameParticle`, not from `part.lower() in prepositions_list` at scripts/1854.py:195, so a name with the initial `D.` or `V.` is written with that initial once (`D. Jansen`) where the program writes it twice (`D. D. Jansen`); the names agree where `Tokens.OrderedNameAgrees` applies.
- Scripts1854.Register.ExtractPeople: the record names come from the corrected particle test `Tokens.IsNameParticle`, not from `part.lower() in prepositions_list` at scripts/1854.py:195, so a name with the initial `D.` or `V.` is written with that initial once (`D. Jansen`) where the program writes it twice (`D. D. Jansen`); the names agree where `Tokens.OrderedNameAgrees` applies.
- Scripts1854.Run: the record names come from the corrected particle test `Tokens.IsNameParticle`, not from `part.lower() in prepositions_list` at scripts/1854.py:195, so a name with the initial `D.` or `V.` is written with that initial once (`D. Jansen`) where the program writes it twice (`D. D. Jansen`); the names agree where `Tokens.OrderedNameAgrees` applies.
- Book1880.FormatNameLaws: "only reorders" is proved of the corrected `format_name`; the program's, which tests `part.lower() in prepositions_list` at 1880.py:163, lists an initial `D.` or `V.` twice (`Tokens.DottedParticleRepeated`), so it keeps the parts but may repeat one.
- Book1880.LineRecord: the record names come from the corrected particle test `Tokens.IsNameParticle`, not from `part.lower() in prepositions_list` at 1880.py:163, so a name with the initial `D.` or `V.` is written with that initial once (`D. Jansen`) where the program writes it twice (`D. D. Jansen`); the names agree where `Tokens.OrderedNameAgrees` applies.
- Book1880.AcceptedLaws: the record names come from the corrected particle test `Tokens.IsNameParticle`, not from `part.lower() in prepositions_list` at 1880.py:163, so a name with the initial `D.` or `V.` is written with that initial once (`D. Jansen`) where the program writes it twice (`D. D. Jansen`); the names agree where `Tokens.OrderedNameAgrees` applies.
- Book1880.ProcessLine: the record names come from the corrected particle test `Tokens.IsNameParticle`, not from `part.lower() in prepositions_list` at 1880.py:163, so a name with the initial `D.` or `V.` is written with that initial once (`D. Jansen`) where the program writes it twice (`D. D. Jansen`); the names agree where `Tokens.OrderedNameAgrees` applies.
- Book1880.AddLine: the record names come from the corrected particle test `Tokens.IsNameParticle`, not from `part.lower() in prepositions_list` at 1880.py:163, so a name with the initial `D.` or `V.` is written with that initial once (`D. Jansen`) where the program writes it twice (`D. D. Jansen`); the names agree where `Tokens.OrderedNameAgrees` applies.
- Book1880.ProcessLines: the record names come from the corrected particle test `Tokens.IsNameParticle`, not from `part.lower() in prepositions_list` at 1880.py:163, so a name with the initial `D.` or `V.` is written with that initial once (`D. Jansen`) where the program writes it twice (`D. D. Jansen`); the names agree where `Tokens.OrderedNameAgrees` applies.
- Book1880.Run: the record names come from the corrected particle test `Tokens.IsNameParticle`, not from `part.lower() in prepositions_list` at 1880.py:163, so a name with the initial `D.` or `V.` is written with that initial once (`D. Jansen`) where the program writes it twice (`D. D. Jansen`); the names agree where `Tokens.OrderedNameAgrees` applies.
