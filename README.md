# Spack version constraints and package names, in Dafny

This project models two parts of an early Spack (the package manager for scientific software):

- **The version-constraint engine.** `ver(...)` turns text into a version, a range `lo:hi` or a
  list of both. It also supports:
  - the version order;
  - `in` (containment);
  - `overlaps`;
  - the canonical form of lists.

  Its behaviour is pinned down by `lib/spack/spack/test/versions.py`, and the model follows those
  assertions. The implementation module `spack/version.py` is not part of this model.
- **Package names.** This part covers:
  - `valid_package_name` / `validate_package_name`;
  - `class_name_for_package_name`;
  - the process-wide `instances` memo behind `get`.

  All of it is in `lib/spack/spack/packages/__init__.py`.

Modules, one file each:

| module | what it holds |
|---|---|
| `Wrappers` | `Option` and `Result` |
| `Versions` | Segments (`Num(n)` / `Alpha(s)`) and the tokenizer. Version order and its laws. Separator and zero-padding laws. Rendering, with the round trip `ParseVersion(Render(v)) == v`. |
| `Ranges` | Inclusive ranges with optional bounds. Containment, overlap, merging and range order. |
| `VersionLists` | Canonical lists built by inserting elements one at a time. Queries on lists, and the proof that the canonical list depends only on the set of inserted ranges. |
| `Text` | Whitespace trimming, counting, `str.split` and `str.join` on one character. |
| `Constraints` | Parsing `ver(text)` and `ver(list)`. The operations on parsed constraints. |
| `Packages` | Name validity, the class name derived from a name, the memo (`Registry`). |
| `Examples` | Cases from the test file, stated on parsed segments; the version order and range containment cases also on the test strings themselves. |

Meaning, in brief:

- **Tokenizer.** `.`, `_` and `-` separate segments and are dropped. A maximal run of digits is a numeric segment, valued as a number. A maximal run of any other characters is an alphabetic segment.
- **Version order.** Versions compare segment by segment:
  - a number beats a word;
  - two words compare as strings;
  - two numbers compare by value;
  - a proper prefix is smaller.
- **Ranges and lists.**
  - An absent lower bound lies below every version, and an absent upper bound above every version.
  - A single version takes part in range algebra as `v:v`.
  - A list is canonical when every element is well formed and lies strictly before the next one.
  - Inserting an element merges it with every element it overlaps, including one that only shares a bound.
  - Ranges order lexicographically by lower bound, then upper bound. Lists order lexicographically over that range order.

## Model

| member | source | states |
|---|---|---|
| Versions.Lt | lib/spack/spack/test/versions.py:12-39 | no version is below itself, and of two versions at most one is below the other |
| Versions.LtAtFirstDifference | lib/spack/spack/test/versions.py:62-105 | version order is exactly the first-difference order: after a common prefix of segments, either the first version ends while the second goes on, or its next segment is the smaller |
| Versions.Trichotomy | lib/spack/spack/test/versions.py:12-39 | between two versions exactly one of `<`, `==`, `>` holds |
| Versions.ComparisonsAgree | lib/spack/spack/test/versions.py:12-39 | `<=`, `>=`, `!=` agree with `<` and `==` in every combination the three assertion helpers check |
| Versions.LtIrreflexive | lib/spack/spack/test/versions.py:32-39 | no version is below itself |
| Versions.LtAsymmetric | lib/spack/spack/test/versions.py:12-29 | `a < b` and `b < a` never both hold |
| Versions.LtTransitive | lib/spack/spack/test/versions.py:12-29 | version order is transitive |
| Versions.LeTransitive | lib/spack/spack/test/versions.py:12-39 | `<=` is transitive |
| Versions.LeAntisymmetric | lib/spack/spack/test/versions.py:32-39 | `a <= b` and `b <= a` force `a == b` |
| Versions.DigitRunMaximal | lib/spack/spack/test/versions.py:92-97 | a digit run covers only digits and stops at the first non-digit |
| Versions.OtherRunMaximal | lib/spack/spack/test/versions.py:92-97 | an alphabetic run covers only non-digit, non-separator characters and stops at the first digit or separator |
| Versions.Tokenize | lib/spack/spack/test/versions.py:62-162 | a version string never yields more segments than it has characters; what the segments are is stated by `Versions.PieceToken`, `Versions.TokenizeWellFormed` and `Versions.TokenizeRender` |
| Versions.ParseVersion | lib/spack/spack/test/versions.py:12-39 | a parsed version has well-formed segments, no more of them than characters |
| Versions.TokenizeWellFormed | lib/spack/spack/test/versions.py:83-105 | every segment the tokenizer produces is well formed: an alphabetic one is a non-empty run of non-digit, non-separator characters |
| Versions.PieceToken | lib/spack/spack/test/versions.py:92-97 | a whole token followed by text that does not continue it tokenizes on its own (`10xyz` is `10` then `xyz`) |
| Versions.ExtensionIsGreater | lib/spack/spack/test/versions.py:68-80 | appending any non-empty tail, numeric or alphabetic, gives a strictly greater version (`2.0 < 2.0.1 < 2.0.1a`) |
| Versions.NumberBeatsAlpha | lib/spack/spack/test/versions.py:92-105 | at the first difference a numeric segment beats an alphabetic one, whatever follows |
| Versions.NumbersByValue | lib/spack/spack/test/versions.py:83-89 | at the first difference two numeric segments decide by value, whatever follows (`5.5p1 < 5.5p10`) |
| Versions.LeadingZeroValue | lib/spack/spack/test/versions.py:131-136 | a leading zero does not change a digit run's value |
| Versions.ZeroTokenizes | lib/spack/spack/test/versions.py:131-136 | a leading zero in front of a digit run tokenizes away |
| Versions.TokenizeSplitsAtSeparator | lib/spack/spack/test/versions.py:131-136 | text that ends with a separator tokenizes independently of what follows it |
| Versions.ZeroPaddingIgnored | lib/spack/spack/test/versions.py:131-136 | a zero that starts a digit run is ignored wherever the run starts: at the start, after a separator or after a letter (`10.0001 == 10.1`) |
| Versions.TokenizeSplitsBeforeDigit | lib/spack/spack/test/versions.py:92-97 | text ending with a letter tokenizes independently of a digit run that follows it |
| Versions.SeparatorsInterchangeable | lib/spack/spack/test/versions.py:150-153 | two strings that differ only in which separator they use tokenize alike (`2_0 == 2.0`) |
| Versions.TokenizeRender | lib/spack/spack/test/versions.py:62-71 | rendering well-formed segments joined by `.` and tokenizing gives the segments back |
| Versions.ParseRender | lib/spack/spack/test/versions.py:62-71 | `ParseVersion(Render(v)) == v` for every version with well-formed segments |
| Ranges.InRange | lib/spack/spack/test/versions.py:177-189 | a range that holds some version is not inverted, and `:` holds every version |
| Ranges.Contains | lib/spack/spack/test/versions.py:177-189 | an open side of the inner range needs an open side of the outer one, and a range enclosing a well-formed range is well formed |
| Ranges.ContainsPoint | lib/spack/spack/test/versions.py:177-189 | a range contains the point `v:v` exactly when `v` lies within both inclusive bounds |
| Ranges.PointHoldsOnlyItself | lib/spack/spack/test/versions.py:204-206 | the point `v:v` holds `w` exactly when `w == v` |
| Ranges.ContainsSound | lib/spack/spack/test/versions.py:177-189 | whatever an enclosed range holds, the enclosing range holds |
| Ranges.ContainsExact | lib/spack/spack/test/versions.py:177-189 | for a well-formed inner range with a lower bound (the upper one may be open), containment is exactly inclusion of version sets |
| Ranges.ContainsReflexive | lib/spack/spack/test/versions.py:177-189 | every range contains itself |
| Ranges.ContainsTransitive | lib/spack/spack/test/versions.py:177-189 | containment is transitive |
| Ranges.ContainsAntisymmetric | lib/spack/spack/test/versions.py:177-189 | two ranges that contain each other are equal |
| Ranges.EverythingContainsAll | lib/spack/spack/test/versions.py:187 | `:` contains every range and every version and overlaps every range |
| Ranges.Overlaps | lib/spack/spack/test/versions.py:204-217 | two ranges overlap exactly when neither lies strictly before the other |
| Ranges.OverlapsSymmetric | lib/spack/spack/test/versions.py:204-217 | overlap is symmetric |
| Ranges.CommonWitnessInBoth | lib/spack/spack/test/versions.py:204-217 | two overlapping well-formed ranges share an explicit common version |
| Ranges.OverlapsIffCommonVersion | lib/spack/spack/test/versions.py:204-217 | well-formed ranges overlap exactly when some version lies in both |
| Ranges.StrictlyBeforeDisjoint | lib/spack/spack/test/versions.py:220-231 | a range strictly before another overlaps it in neither direction |
| Ranges.DisjointSeparated | lib/spack/spack/test/versions.py:220-231 | two well-formed ranges that do not overlap lie one strictly before the other |
| Ranges.Merge | lib/spack/spack/test/versions.py:238-251 | the merge of two ranges contains both |
| Ranges.MergeLeast | lib/spack/spack/test/versions.py:238-251 | any range containing both contains their merge |
| Ranges.MergeWellFormed | lib/spack/spack/test/versions.py:238-251 | merging keeps a range well formed |
| Ranges.MergeIsUnion | lib/spack/spack/test/versions.py:250-251 | the merge of two overlapping ranges holds exactly the versions of either (`1.3:1.4` with `1.4:1.5` is `1.3:1.5`) |
| Ranges.RangeLt | lib/spack/spack/test/versions.py:167-174 | a smaller range never has the higher lower bound, and a strictly lower lower bound makes a range smaller |
| Ranges.RangeLtIrreflexive | lib/spack/spack/test/versions.py:167-174 | no range is below itself |
| Ranges.RangeLtTransitive | lib/spack/spack/test/versions.py:167-174 | range order is transitive |
| Ranges.RangeLtTrichotomy | lib/spack/spack/test/versions.py:167-174 | range order is total and asymmetric |
| Ranges.RangeLtPoints | lib/spack/spack/test/versions.py:167-174 | between points, range order is version order |
| VersionLists.ContainsVersion | lib/spack/spack/test/versions.py:192-197 | a version is in a list exactly when some element holds it |
| VersionLists.ContainsRange | lib/spack/spack/test/versions.py:198-201 | a range is in a list exactly when a single element encloses it |
| VersionLists.ContainsList | lib/spack/spack/test/versions.py:192-201 | a list is in a list exactly when every element of the first is in the second |
| VersionLists.OverlapsAny | lib/spack/spack/test/versions.py:220-231 | a list meets a range exactly when some element overlaps it |
| VersionLists.ListOverlaps | lib/spack/spack/test/versions.py:220-231 | two lists overlap exactly when some pair of elements overlaps |
| VersionLists.Insert | lib/spack/spack/test/versions.py:234-260 | inserting grows a list by at most one element and never leaves it empty |
| VersionLists.FromSeq | lib/spack/spack/test/versions.py:234-260 | a built list is no longer than its input, and empty exactly when there was no input |
| VersionLists.InsertCanonical | lib/spack/spack/test/versions.py:234-260 | inserting a well-formed range keeps a list canonical |
| VersionLists.InsertMembers | lib/spack/spack/test/versions.py:234-260 | after inserting, the list holds exactly the old versions and those of the new range |
| VersionLists.InsertEncloses | lib/spack/spack/test/versions.py:234-260 | after inserting, every old element and the new one are enclosed by a single element |
| VersionLists.FromSeqCanonical | lib/spack/spack/test/versions.py:234-260 | a list built from well-formed ranges is canonical |
| VersionLists.FromSeqMembers | lib/spack/spack/test/versions.py:234-260 | a built list holds exactly the versions some input holds |
| VersionLists.SortedUnique | lib/spack/spack/test/versions.py:234-260 | two canonical lists with the same elements are equal |
| VersionLists.CharacterizationUnique | lib/spack/spack/test/versions.py:234-260 | at most one canonical list is made from, and encloses, a given set of ranges |
| VersionLists.FromSeqCharacterizes | lib/spack/spack/test/versions.py:234-260 | the built list is that canonical list for the set of inputs |
| VersionLists.FromSeqOrderIndependent | lib/spack/spack/test/versions.py:244-251 | inputs with the same elements, in any order and with any repetition, build the same list |
| VersionLists.FromSeqPermutation | lib/spack/spack/test/versions.py:244-251 | every permutation of the input builds the same list |
| VersionLists.CanonicalFixpoint | lib/spack/spack/test/versions.py:234-236 | re-inserting a canonical list's elements rebuilds that list |
| VersionLists.FromSeqIdempotent | lib/spack/spack/test/versions.py:234-260 | building a list twice changes nothing the second time |
| VersionLists.InsertEnclosedNoChange | lib/spack/spack/test/versions.py:241-245 | inserting a range that one element already encloses leaves a canonical list unchanged |
| VersionLists.EverythingAbsorbsInsertions | lib/spack/spack/test/versions.py:259-260 | a list built from `:` followed by any well-formed ranges is `:` alone |
| VersionLists.CanonicalSortedByLower | lib/spack/spack/test/versions.py:234-260 | the elements of a canonical list have strictly increasing lower bounds |
| VersionLists.ContainsPointElement | lib/spack/spack/test/versions.py:192-197 | the point `v:v` is in a list exactly when the version is |
| VersionLists.ContainsListSound | lib/spack/spack/test/versions.py:198-201 | whatever a contained list holds, the containing list holds |
| VersionLists.ListOverlapsSymmetric | lib/spack/spack/test/versions.py:220-231 | list overlap is symmetric |
| VersionLists.ListOverlapsIffCommonVersion | lib/spack/spack/test/versions.py:220-231 | lists of well-formed ranges overlap exactly when some version is in both |
| VersionLists.EverythingListAbsorbs | lib/spack/spack/test/versions.py:192-231 | `:` overlaps every non-empty list and contains every list |
| VersionLists.ListLt | lib/spack/spack/test/versions.py:167-174 | no list is below itself or below the empty list, and the empty list is below every non-empty list |
| VersionLists.ListLtTransitive | lib/spack/spack/test/versions.py:167-174 | list order is transitive |
| VersionLists.ListLtTrichotomy | lib/spack/spack/test/versions.py:167-174 | list order is total and asymmetric |
| VersionLists.ListLtSingletons | lib/spack/spack/test/versions.py:167-174 | between one-element lists, list order is range order |
| Text.Split | lib/spack/spack/test/versions.py:253-257 | splitting on a character gives one more piece than there are occurrences |
| Text.SplitJoin | lib/spack/spack/test/versions.py:253-257 | the pieces hold no separator and join back to the text |
| Text.TrimSlice | lib/spack/spack/test/versions.py:256-260 | trimming leaves a slice of the input with only white space outside it, neither starting nor ending with white space |
| Constraints.ParseElement | lib/spack/spack/test/versions.py:167-189 | a piece fails exactly when it is blank or holds two or more `:`; with no `:` it is the version of the trimmed text; with one it is a range |
| Constraints.ParseElementRange | lib/spack/spack/test/versions.py:256-257 | a piece with one `:` is the range whose bounds are the trimmed sides, an empty side an open bound |
| Constraints.ParseTokens | lib/spack/spack/test/versions.py:253-260 | parsing pieces fails exactly when some piece fails; otherwise piece `i` gives element `i` |
| Constraints.Parse | lib/spack/spack/test/versions.py:220-231 | text without `,` parses as one piece; text with `,` that parses is a list |
| Constraints.ParseErrors | lib/spack/spack/test/versions.py:220-231 | text with `,` fails exactly when one of its comma-separated pieces fails |
| Constraints.ParseAll | lib/spack/spack/test/versions.py:234-260 | a list of strings fails exactly when one string fails |
| Constraints.ParseAllMembers | lib/spack/spack/test/versions.py:234-260 | the elements gathered from all the strings hold a version exactly when the constraint of one string does |
| Constraints.ParseList | lib/spack/spack/test/versions.py:234-260 | `ver(list)` fails exactly when one string fails, and otherwise is a list |
| Constraints.ParsedStrings | lib/spack/spack/test/versions.py:234-251 | `ver(list)` of strings with well-formed elements is canonical and holds exactly the versions one of the strings holds |
| Constraints.ParsedList | lib/spack/spack/test/versions.py:253-260 | a parsed list is canonical and holds exactly the versions some piece holds |
| Constraints.PiecesMembers | lib/spack/spack/test/versions.py:253-260 | the parsed pieces hold a version exactly when one piece's range does |
| Constraints.LessOnVersions | lib/spack/spack/test/versions.py:12-39 | between parsed versions `<` is version order and sameness is equality |
| Constraints.LessOnRanges | lib/spack/spack/test/versions.py:167-174 | between ranges and versions `<` is range order, a version taken as `v:v` |
| Constraints.ConstraintOrder | lib/spack/spack/test/versions.py:12-39 | on constraints exactly one of `<`, same, `>` holds, and `<` is transitive |
| Constraints.VersionIn | lib/spack/spack/test/versions.py:192-197 | a version is in a constraint exactly when some element holds it |
| Constraints.VersionInRange | lib/spack/spack/test/versions.py:177-189 | a version is in a range exactly when it lies between the bounds |
| Constraints.Less | lib/spack/spack/test/versions.py:12-39 | `a < b`: no constraint is below itself, and of two constraints at most one is below the other |
| Constraints.Same | lib/spack/spack/test/versions.py:12-39 | `a == b` exactly when neither constraint is below the other |
| Constraints.In | lib/spack/spack/test/versions.py:42-47 | `needle in haystack`: whatever the needle holds, the haystack holds; `:` holds every constraint |
| Constraints.ConstraintOverlaps | lib/spack/spack/test/versions.py:54-59 | constraints of well-formed ranges overlap exactly when they share a version |
| Constraints.ConstraintOverlapsSymmetric | lib/spack/spack/test/versions.py:54-59 | `a.overlaps(b)` exactly when `b.overlaps(a)` |
| Examples.OrderExamples | lib/spack/spack/test/versions.py:62-89 | `5.5p1 < 5.5p2 < 5.5p10`, `2.0 < 2.0.1 < 2.0.1a`, `6.0 < 6.0.rc1`, `4.999.9 < 5.0` |
| Examples.WordExamples | lib/spack/spack/test/versions.py:156-162 | `1b.fc17 < 1.fc17 < 1g.fc17`, `xyz.4 < 2`, `10xyz < 10.1xyz`, `1.0a < 1.0aa`, `10a2 < 10b2` |
| Examples.ContainmentExamples | lib/spack/spack/test/versions.py:177-189 | `1.3.5-7` and `1.2.5` are in `1.2:1.4`; `1.1`, `1.5`, `1.4.2` are not; `:` contains `1.2.7:1.4` |
| Examples.ListContainmentExamples | lib/spack/spack/test/versions.py:192-201 | `1.2.5:1.2.7` is in `1.5, 1.2:1.3`; `1.4` and `1.2.5:1.5` are not |
| Examples.OverlapExamples | lib/spack/spack/test/versions.py:204-231 | `1.2:1.7` meets `1.6:1.9`; `:1.7` meets `1.6:`; `1, 2, 4` does not meet `3, 6:7` |
| Examples.CanonicalPointsExample | lib/spack/spack/test/versions.py:235-236 | `1.2, 1.3, 1.3, 1.4` builds `1.2, 1.3, 1.4` |
| Examples.CanonicalLowerEndExample | lib/spack/spack/test/versions.py:238-239 | `1.2, 1.3, 1.3:1.4` builds `1.2, 1.3:1.4` |
| Examples.CanonicalUpperEndExample | lib/spack/spack/test/versions.py:241-242 | `1.2, 1.3:1.4, 1.4` builds `1.2, 1.3:1.4` |
| Examples.RangeOrderExamples | lib/spack/spack/test/versions.py:167-174 | `1.2:1.4 < 1.6`, `1.2:1.4 < 1.5:1.6`, `1.2:1.4 < 1.2:1.6` |
| Examples.TextPatchExamples | lib/spack/spack/test/versions.py:84-89 | on the text itself: `5.5p1 < 5.5p2` and `5.5p2 < 5.5p10` |
| Examples.TextOrderExamples | lib/spack/spack/test/versions.py:69-141 | on the text itself: `2.0 < 2.0.1 < 2.0.1a`, `6.0 < 6.0.rc1`, `4.999.9 < 5.0` |
| Examples.TextWordExamples | lib/spack/spack/test/versions.py:93-162 | on the text itself: `1b.fc17 < 1.fc17 < 1g.fc17`, `xyz.4 < 2`, `10xyz < 10.1xyz` |
| Examples.TextLetterExamples | lib/spack/spack/test/versions.py:121-128 | on the text itself: `1.0a < 1.0aa` and `10a2 < 10b2` |
| Examples.TextContainmentExamples | lib/spack/spack/test/versions.py:179-187 | on the text itself: `1.3.5-7` and `1.2.5` are in `1.2:1.4`; `1.1`, `1.5`, `1.4.2` are not; `:` contains `1.2.7:1.4` |
| Packages.ValidPackageNameAsWritten | lib/spack/spack/packages/__init__.py:15-33 | a name the check as written accepts starts with `[A-Za-z0-9_]`, and every character is in `[A-Za-z0-9_-]` except that the last may be a newline |
| Packages.ValidPackageName | lib/spack/spack/packages/__init__.py:14-33 | the intended check is the check as written on names holding no newline |
| Packages.AsWrittenAcceptsTrailingNewline | lib/spack/spack/packages/__init__.py:15-33 | the check as written accepts exactly the valid names and the valid names followed by one newline |
| Packages.NewlineNameAsWritten | lib/spack/spack/packages/__init__.py:15-33 | `"abc\n"` passes the check as written but is not a valid name |
| Packages.ValidNameCharacters | lib/spack/spack/packages/__init__.py:14-15 | a valid name is non-empty, starts with `[A-Za-z0-9_]` (never `-`), and holds only `[A-Za-z0-9_-]` |
| Packages.DoubledJoinerInvalid | lib/spack/spack/packages/__init__.py:17-18 | a name with two of `_`/`-` in a row is not valid |
| Packages.ValidatePackageNameAsWritten | lib/spack/spack/packages/__init__.py:36-38 | as written, the error happens exactly when the as-written check refuses the name, and carries that name |
| Packages.ValidatePackageName | lib/spack/spack/packages/__init__.py:36-38 | the error happens exactly when the name is invalid, and carries that name |
| Packages.UnderscoresToDashes | lib/spack/spack/packages/__init__.py:67 | every `_` becomes `-` and every other character is kept, at the same position |
| Packages.Capitalize | lib/spack/spack/packages/__init__.py:67 | `str.capitalize` keeps the length, upper-cases the first character and lower-cases the rest |
| Packages.CapWords | lib/spack/spack/packages/__init__.py:67 | `capwords` (split, capitalise, join) equals the character-by-character walk |
| Packages.JoinCapitalized | lib/spack/spack/packages/__init__.py:67 | joining capitalised separator-free pieces equals walking their join |
| Packages.CapitalizeRunAt | lib/spack/spack/packages/__init__.py:67 | character `i` of the walk depends only on character `i` and the one before it |
| Packages.CapitalizedNameAt | lib/spack/spack/packages/__init__.py:67 | the capitalised name keeps the length; joiners become `-`; the first character and every character after a joiner are upper-cased; the rest are lower-cased |
| Packages.ClassNameOf | lib/spack/spack/packages/__init__.py:67-74 | the class name made from a name is as long as the name, plus four when the name starts with a digit |
| Packages.ClassNameForPackageName | lib/spack/spack/packages/__init__.py:62-74 | the class name fails exactly for invalid names, with their own name as the error; otherwise it is as long as the name, plus four for a leading digit |
| Packages.ClassNameForPackageNameAsWritten | lib/spack/spack/packages/__init__.py:62-74 | as written, the class name fails exactly when the as-written check refuses the name, with that name as the error |
| Packages.NewlineClassNameAsWritten | lib/spack/spack/packages/__init__.py:15-74 | as written, `"abc\n"` gets the class name `"Abc\n"`; the intended check refuses it |
| Packages.ClassNameShape | lib/spack/spack/packages/__init__.py:62-74 | for a valid name the class name is `Num_` plus the capitalised name exactly when the name starts with a digit, and the capitalised name otherwise |
| Packages.ClassNameHasNoUnderscore | lib/spack/spack/packages/__init__.py:62-74 | the capitalised name holds no `_`, and the class name ends with it |
| Packages.Memo | lib/spack/spack/packages/__init__.py:22-28 | a recorded spec returns its instance and changes nothing; an unrecorded spec records and returns what `build` yields, or returns `build`'s error with the memo unchanged |
| Packages.MemoIdempotent | lib/spack/spack/packages/__init__.py:22-28 | a second lookup of the same spec changes nothing and returns the same instance |
| Packages.Registry.constructor | lib/spack/spack/packages/__init__.py:20 | the memo starts empty |
| Packages.Registry.Get | lib/spack/spack/packages/__init__.py:22-28 | `get` updates the memo as the memo step says: old entries are kept, and a success returns `instances[spec]` |

## Left out

- `spack/version.py` is not part of this model. The engine is modelled from the test file's assertions, so the exact token rules there are an assumption. Characters that are neither digits nor `.`, `_`, `-` form alphabetic segments.
- The display string of a version, and the printing of ranges and lists: only the segments are kept. Version equality is segment equality, as the tests observe it (`2_0 == 2.0`, `10.0001 == 10.1`).
- A single version `v` and the range `v:v` are the same constraint here (`Same`). The tests never tell them apart.
- Comparisons between a list and a version or range follow Python's list-to-list comparison of the element lists. The tests only compare versions and ranges.
- "Touching" elements of a list merge when their inclusive ranges share a bound (`1.3:1.4` with `1.4:1.5`). No gap between distinct versions is modelled beyond that.
- Degenerate ranges (lower above upper) are not rejected by the parser; the tests contain none. The list theorems require well-formed ranges.
- Packages.ValidatePackageName, Packages.ClassNameForPackageName: follow the intended check, so a valid name followed by one newline is refused, where the code accepts it (see Findings). The code's own behaviour is `Packages.ValidatePackageNameAsWritten` and `Packages.ClassNameForPackageNameAsWritten`; `Packages.NewlineClassNameAsWritten` shows the two differ on `"abc\n"`.
- Constraints.ParsedList: requires every piece to be a well-formed range, because the canonical-form theorems assume it.
- Ranges.ContainsExact: stated for inner ranges with a lower bound. With an open inner lower bound, containment asks for an open outer lower bound. Inclusion is weaker: the empty version lies below every version, so an outer lower bound at the empty version holds the same versions.
- Examples.OrderExamples, Examples.WordExamples, Examples.ContainmentExamples: stated on parsed segments. The `Examples.Text*` lemmas restate every one of their cases on the test strings, by tokenizing each string.
- Examples.ListContainmentExamples, Examples.OverlapExamples, Examples.RangeOrderExamples: stated on parsed segments. The range and list text (`1.5, 1.2:1.3`, `:1.7`) is not tokenized in these examples; `Constraints.Parse`, `Constraints.ParsedList` and `Versions.ParseRender` tie the general texts to their segments.
- Examples.CanonicalPointsExample: stated on parsed segments, as the list examples are. The five-element canonicalisations at lines 244-260 are covered by the general lemmas (`FromSeqOrderIndependent`, `InsertEnclosedNoChange`, `MergeIsUnion`, `EverythingAbsorbsInsertions`) and are not spelled out as examples.
- White space is trimmed around each comma-separated piece and each side of `:`. The white-space characters are ASCII space, tab, newline, carriage return, vertical tab and form feed.
- `get_class_for_package_name` (dynamic import, `getattr`, `inspect.isclass`, `pkg_name.capitalize()`) is foreign code and is left out. `Registry.Get` takes the whole constructor step as the `build` parameter, which either yields an instance or fails.
- `spack.spec.make_spec` is left out, for the same reason. The memo key is taken as already made.
- `filename_for_package_name`, `installed_packages`, `all_package_names` and `all_packages` are filesystem and module-listing I/O.
- `compute_dependents` and `graph_dependencies` mutate loaded package objects and write dot text to a stream.
- `tty.die` and the message text of `InvalidPackageNameError`: errors are result values carrying the name.
- `str.capitalize` and `capwords` are modelled for ASCII letters only (Python 2 byte strings in the C locale). A name starting with `_` gives a class name starting with `-`, as the code does.

## Findings

| source | as written | input that shows it | evidently intended | confidence | as-written member | corrected member |
|---|---|---|---|---|---|---|
| lib/spack/spack/packages/__init__.py:15-33 | `re.match(r'^\w[\w-]*$', name)`: `$` also matches just before a newline that ends the text | `"abc\n"` is accepted as a valid package name | the whole name must be `\w[\w-]*` | not executed | Packages.NewlineClassNameAsWritten | Packages.ValidPackageName |
