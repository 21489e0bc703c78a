# Auxid core, modelled in Dafny

This project models the deterministic core of Auxid. Auxid is a C++ toolkit made of four parts:

- a Clang-based **Validator**, which polices ownership wrappers;
- the **libauxid** runtime library;
- a build-script **builder**, which writes Ninja manifests;
- the `auxid` **command line**.

Every mutating C++ member becomes a pure function or a method from the old value to the new one. A panic becomes an explicit `Panicked` outcome (`Common.Checked`). Checks that the source compiles only into debug builds (`#if !defined(NDEBUG)`: `Option::operator*` and `operator->`, the `Span` accessors and slicers, `VecT::operator[]`) are modelled as a debug build runs them, so a failed check is `Panicked` too; a release build would skip them. Where the source has no check at all and relies on its caller (`VecT::back`), that obligation is a precondition.

- **Validator analyses.**
  - `CfgAst` is the slice of the Clang AST the analyses inspect: parentheses, implicit casts, variable references, calls, operators and `return`.
  - `UseAfterMove` and `UseAfterFree` are the two data-flow analyses. Each has its per-statement visitor with staged kills and revives, its `commit`, and the `merge`, `transfer`, `transfer_initializer` and `transfer_implicit_dtor` steps of its solver. Each also states the invariant that the state map holds only Moved or Dangling entries.
  - `RawType` covers the three copies of the raw-type check: `is_type_safe` with its prefix stripping and trimming, and the filters and report wording of the police, the matcher and the validator.
  - `ValidatorMain` is the Validator's `main`. It covers the resource-directory argument, the newline trim, and the argument adjuster.
- **Containers.**
  - `AuString` covers `compare`, `search_substring`, `find`, FNV-1a `hash_string_view`, and the `String` operations reserve, assign, append, push, pop, `==` and `+`.
  - `AuVec` is the growable vector.
  - `HashBase` holds the integer and string hashers, `EqualTo` and `INDEX_INVALID`.
  - `HashSet` is the open-addressing set. It uses linear probing, backward-shift deletion and swap-remove. Its bucket invariant is proved to be preserved by every operation.
  - `AuSpan` models slicing and indexing.
  - `AuOption` and `AuResult` are the optional and result types, with `AU_TRY` and `AU_TRY_DISCARD`.
- **Memory.** `AuMemory` covers the address arithmetic of `aligned_alloc`/`aligned_free` and the bump `ArenaAllocator`.
- **Build tooling.**
  - `Ninja` is the manifest generator and its text.
  - `Target` covers the build targets and their build info.
  - `Builder` covers the builder's run mode, settings, edges, manifest, metadata text and `RUN_BUILDER` sequencing.
  - `Cli` is the command dispatch of `auxid`.
  - `RuntimeInit` is the per-thread initialisation counters.
  - `Version` is the 64-bit version packing.

Some things outside the model become parameters:

- Clang's answers, such as `is_cheap_to_copy`, the source text of a type, or whether a location is in a system header.
- The allocator's returned block.
- The calling thread.
- The words the option parser leaves over.

Integer widths are written out where the source's arithmetic can wrap.

## Model

| member | source | states |
|---|---|---|
| UseAfterMove.InitialState | Validator/src/cpp/use_after_move.cpp:111-114 | The analysis starts with no variable known to be moved-from, and every state it builds records only `Moved` entries. |
| UseAfterMove.Visit | Validator/src/cpp/use_after_move.cpp:48-108 | One visit stages at most one move and emits at most one report. Every report names a variable that is already moved in the state before the element. No cheap-to-copy variable is ever staged as moved. |
| UseAfterMove.Merge | Validator/src/cpp/use_after_move.cpp:116-128 | The join keeps every variable `current` tracks and adds exactly the variables `incoming` marks as moved. |
| UseAfterMove.MergeLoop | Validator/src/cpp/use_after_move.cpp:116-128 | The source's loop over the incoming map gives the order-free join, whatever order the hash map yields its entries in. |
| UseAfterMove.Commit | Validator/src/cpp/use_after_move.cpp:36-46 | After `commit` every variable staged for revival is untracked, every other staged move reads `Moved`, and no `Alive` entry is left behind. |
| UseAfterMove.Transfer | Validator/src/cpp/use_after_move.cpp:130-137 | A null statement changes nothing. Otherwise at most one report, each naming a variable moved before the element, and the "only `Moved` is stored" invariant is kept. |
| UseAfterMove.TransferInitializer | Validator/src/cpp/use_after_move.cpp:139-146 | An initializer is exactly a transfer of its expression, and nothing when it has none. Its reports name variables moved before it. |
| UseAfterMove.TransferImplicitDtor | Validator/src/cpp/use_after_move.cpp:148-153 | An implicit destructor leaves the state unchanged and reports nothing. |
| UseAfterMove.TransferBlock | Validator/src/cpp/use_after_move.cpp:130-137 | A block of elements reports at most once per element and keeps the invariant. A one-element block is one transfer. |
| UseAfterMove.CommitSpec | Validator/src/cpp/use_after_move.cpp:36-46 | After `commit`, a variable is tracked iff it was tracked or staged for a move, and it was not staged for revival. A staged move writes `Moved`; any other tracked entry keeps its status. |
| UseAfterMove.CommitMovedSet | Validator/src/cpp/use_after_move.cpp:36-46 | The moved set after `commit` is (moved before ∪ staged moves) minus staged revivals, so a revival staged in the same element wins over a move. |
| UseAfterMove.TransferPreservesOnlyMoved | Validator/src/cpp/use_after_move.cpp:130-137 | A transfer never writes an `Alive` entry that survives: the invariant "every entry is Moved" holds after every transfer. |
| UseAfterMove.TransferBlockPreservesOnlyMoved | Validator/src/cpp/use_after_move.cpp:130-137 | The invariant holds across any straight-line block of elements. |
| UseAfterMove.ReportsUsePreState | Validator/src/cpp/use_after_move.cpp:94-107 | The reports of a transfer are those of the visit on the state before the element, and each names a variable moved in that state. |
| UseAfterMove.NoOpTransfers | Validator/src/cpp/use_after_move.cpp:130-153 | A null statement, an implicit destructor, and an initializer without an expression change nothing and report nothing. |
| UseAfterMove.InitializerIsTransfer | Validator/src/cpp/use_after_move.cpp:139-146 | A constructor initializer with an expression behaves exactly like a transfer of that expression. |
| UseAfterMove.MoveCallMarksMoved | Validator/src/cpp/use_after_move.cpp:74-92 | `std::move(x)`, with `x` a bare variable that is not cheap to copy, adds exactly `x` to the moved set and reports nothing. Any other argument leaves the state unchanged. |
| UseAfterMove.AssignmentRevives | Validator/src/cpp/use_after_move.cpp:55-71 | An assignment reports only what its right-hand side reports; the left-hand side is never read. A bare-variable left-hand side is alive afterwards. |
| UseAfterMove.SelfMoveAssignLeavesAlive | Validator/src/cpp/use_after_move.cpp:55-92 | `x = std::move(x)` reports nothing and leaves `x` alive and untracked. |
| UseAfterMove.ReferenceReports | Validator/src/cpp/use_after_move.cpp:94-107 | A bare reference reports exactly once iff the variable has local storage and is moved. It never changes the state. |
| UseAfterMove.OtherNodesIgnored | Validator/src/cpp/use_after_move.cpp:48-108 | Every other node kind, and every call that is not `std::move`, is ignored without descending into its children. |
| UseAfterMove.MoveThenUseReports | Validator/src/cpp/use_after_move.cpp:74-107 | `std::move(x); x;` on a local that is not cheap to copy gives exactly one report, on the reference. |
| UseAfterMove.MergeIsUnion | Validator/src/cpp/use_after_move.cpp:116-128 | The join is the union of the moved sets, and it keeps the invariant. |
| UseAfterMove.MergeLaws | Validator/src/cpp/use_after_move.cpp:116-128 | On reachable states the join is idempotent and commutative, and the initial state is its unit. |
| UseAfterFree.InitialState | Validator/src/cpp/use_after_free.cpp:161-164 | The analysis starts with no pointer known to dangle. |
| UseAfterFree.CheckUse | Validator/src/cpp/use_after_free.cpp:31-48 | One report, with the check's own message, exactly when the expression with parentheses and implicit casts stripped is a bare reference to a dangling variable; otherwise none. |
| UseAfterFree.ScanArgs | Validator/src/cpp/use_after_free.cpp:109-112 | Every argument that names a dangling pointer gets a "passed dangling pointer" report, and nothing else is reported. |
| UseAfterFree.ScanArgsLoop | Validator/src/cpp/use_after_free.cpp:109-112 | The source's loop over the arguments emits the same reports, in argument order. |
| UseAfterFree.Release | Validator/src/cpp/use_after_free.cpp:70-107 | `delete` and `free` of a bare variable stage exactly that variable for a kill and nothing for revival. They report once, with the given message, iff it already dangles. |
| UseAfterFree.Visit | Validator/src/cpp/use_after_free.cpp:64-158 | One visit stages at most one kill, and every report it emits names a pointer that dangles in the state before the element. |
| UseAfterFree.ApplyKills | Validator/src/cpp/use_after_free.cpp:57-58 | The kill half of `commit` tracks the old pointers plus the killed ones, and a killed pointer is `Dangling`. |
| UseAfterFree.ApplyRevives | Validator/src/cpp/use_after_free.cpp:60-61 | The revive half of `commit` erases exactly the revived pointers and leaves the other entries as they were. |
| UseAfterFree.Commit | Validator/src/cpp/use_after_free.cpp:55-62 | After `commit` a revived pointer is untracked and a killed one that is not revived dangles. Every other pointer is tracked iff it was before. |
| UseAfterFree.Transfer | Validator/src/cpp/use_after_free.cpp:179-186 | A null statement changes nothing. Every report of a transfer names a pointer dangling before the element. |
| UseAfterFree.TransferBlock | Validator/src/cpp/use_after_free.cpp:179-186 | A block of null statements changes nothing and reports nothing, and a one-element block is one transfer. |
| UseAfterFree.TransferBlockSplits | Validator/src/cpp/use_after_free.cpp:179-186 | Transferring a block equals transferring its first part, then its second part from the state the first part ends in. The reports are the first part's, then the second part's. |
| UseAfterFree.TransferInitializer | Validator/src/cpp/use_after_free.cpp:188-193 | Member initializers are not analysed: the state is unchanged. |
| UseAfterFree.TransferImplicitDtor | Validator/src/cpp/use_after_free.cpp:195-199 | Implicit destructors leave the state unchanged. |
| UseAfterFree.Merge | Validator/src/cpp/use_after_free.cpp:166-177 | The join tracks the current pointers plus exactly those that dangle in `incoming`. |
| UseAfterFree.CommitDanglingSet | Validator/src/cpp/use_after_free.cpp:55-62 | After `commit` a pointer dangles iff it dangled before or was killed, and it was not revived. A revival in the same element wins. |
| UseAfterFree.TransferPreservesOnlyDangling | Validator/src/cpp/use_after_free.cpp:179-186 | Every entry of every reachable state is `Dangling`. |
| UseAfterFree.NoOpTransfers | Validator/src/cpp/use_after_free.cpp:179-199 | A null statement, any initializer and an implicit destructor change nothing and report nothing. |
| UseAfterFree.DeleteKills | Validator/src/cpp/use_after_free.cpp:70-85 | `delete p` on a bare variable reports a double free iff `p` already dangles, and `p` dangles afterwards. Every other pointer keeps its status. |
| UseAfterFree.FreeKills | Validator/src/cpp/use_after_free.cpp:87-107 | `free(p)` on a bare variable behaves like `delete p` with the `free` message. It returns before the argument scan, so `p` is never reported as a passed dangling argument. |
| UseAfterFree.CallScansArguments | Validator/src/cpp/use_after_free.cpp:87-113 | Any other call changes no status and reports exactly the argument scan. |
| UseAfterFree.AssignmentRevives | Validator/src/cpp/use_after_free.cpp:115-132 | An assignment reports the right-hand side's own reports, then one "read during assignment" report iff the stripped right-hand side is a dangling reference. A bare-variable left-hand side is valid afterwards. |
| UseAfterFree.PlainCopyAssignment | Validator/src/cpp/use_after_free.cpp:115-132 | `p = q` on two bare references reports once iff `q` dangles, and only as an assignment read. |
| UseAfterFree.AccessChecks | Validator/src/cpp/use_after_free.cpp:135-157 | `*x`, `x->m`, `x[i]` and `return x` each report with their own message exactly when `x` is a bare dangling reference, and never change the state. `.` member access and a bare `return` are never checked. |
| UseAfterFree.DeleteThenDerefReports | Validator/src/cpp/use_after_free.cpp:70-145 | `delete p; *p;` reports nothing on the delete and exactly one dereference report after it. |
| UseAfterFree.MergeIsUnion | Validator/src/cpp/use_after_free.cpp:166-177 | The join is the union of the dangling sets, and it keeps the invariant. |
| UseAfterFree.MergeLaws | Validator/src/cpp/use_after_free.cpp:166-177 | On reachable states the join is idempotent and commutative. |
| CfgAst.Strip | Validator/src/cpp/use_after_free.cpp:36 | `IgnoreParenImpCasts` never returns a parenthesis or an implicit cast. A variable reference it returns is reached from the input by peeling only those wrappers. |
| CfgAst.BareVar | Validator/src/cpp/use_after_move.cpp:80-83 | An operand names a variable iff, with wrappers stripped, it is a reference to that variable. |
| CfgAst.StripIdempotent | Validator/src/cpp/use_after_free.cpp:36 | Stripping twice is stripping once. |
| CfgAst.StripSeesThroughWrappers | Validator/src/cpp/use_after_free.cpp:36 | Parentheses and implicit casts, nested in any order, do not change what the analyses see. |
| RawType.StripPrefix | Validator/src/cpp/raw_type_police.cpp:27-34 | Only the first matching namespace prefix is removed, tried in order; text with neither prefix is unchanged. |
| RawType.TrimLeft | Validator/src/cpp/raw_type_police.cpp:36 | The result is a suffix of the input that does not start with whitespace; everything dropped is whitespace. |
| RawType.TrimRight | Validator/src/cpp/raw_type_police.cpp:36 | The result is a prefix of the input that does not end with whitespace; everything dropped is whitespace. |
| RawType.Trim | Validator/src/cpp/raw_type_police.cpp:36 | The trimmed text occurs inside the input and neither starts nor ends with whitespace. |
| RawType.WordEnd | Validator/src/cpp/raw_type_police.cpp:38 | The position ends the longest leading run of identifier characters (the length of the text when the search finds nothing). |
| RawType.GapEnd | Validator/src/cpp/raw_type_police.cpp:51 | The position ends the longest leading run of `" \t\n\r"`, so vertical tab and form feed stop it. |
| RawType.IsTypeSafe | Validator/src/cpp/raw_type_police.cpp:25-57 | For any keyword set, the verdict is safe iff the stripped, trimmed text is an accepted keyword that is a non-empty identifier, then only `" \t\n\r"`, then `<`; and the caller's view is left holding that stripped, trimmed text, as the by-reference parameter does in the source. |
| RawType.VariantsWellFormed | Validator/Src/cpp/Validator.cpp:41-42 | Every accepted wrapper name, in all three copies, is a non-empty identifier. |
| RawType.IsTypeSafeIffSpelling | Validator/src/cpp/raw_type_police.cpp:25-57 | A type is safe iff its stripped, trimmed text is an accepted identifier keyword, then only `" \t\n\r"`, then `<`. The scanning algorithm is proved equal to this declarative reading. |
| RawType.SafeViewIffSpelling | Validator/src/cpp/raw_type_police.cpp:38-56 | The scan on a trimmed view agrees with the declarative reading, in both directions. |
| RawType.SafeViewGivesSpelling | Validator/src/cpp/raw_type_police.cpp:38-56 | Every view the scan accepts has the keyword-gap-bracket spelling. |
| RawType.SpellingGivesSafeView | Validator/src/cpp/raw_type_police.cpp:38-56 | Every view with the keyword-gap-bracket spelling is accepted by the scan. |
| RawType.WordEndOfKeyword | Validator/src/cpp/raw_type_police.cpp:38 | The word scan stops exactly after an identifier prefix that a non-identifier character follows. |
| RawType.GapEndReaches | Validator/src/cpp/raw_type_police.cpp:51 | The gap scan stops at the first character outside `" \t\n\r"`. |
| RawType.AllIdentWordEnd | Validator/src/cpp/raw_type_police.cpp:38-41 | An all-identifier text has no word end before its length, which the check treats as "not found". |
| RawType.NoWordIsUnsafe | Validator/src/cpp/raw_type_police.cpp:40-41 | A view that is all identifier characters, or that starts with a non-identifier character, is never safe. |
| RawType.TrimUnpadded | Validator/src/cpp/raw_type_police.cpp:36 | A text with no surrounding whitespace is its own trim. |
| RawType.KeywordThenBracketIsSafe | Validator/src/cpp/raw_type_police.cpp:43-56 | A keyword directly followed by `<` is safe, whatever comes after. |
| RawType.NonKeywordIsUnsafe | Validator/src/cpp/raw_type_police.cpp:46-49 | A leading identifier run that is not a keyword makes the view unsafe, whatever follows it. |
| RawType.PaddingHidesPrefix | Validator/src/cpp/raw_type_police.cpp:27-36 | Whitespace is trimmed only after the prefix test, so `" au::Mut<T>"` is unsafe. |
| RawType.SecondPrefixStripped | Validator/src/cpp/raw_type_police.cpp:31-34 | `"au::Mut<T>"` loses its prefix and is safe. |
| RawType.PrefixCaseMatters | Validator/Src/cpp/Matchers/RawTypeMatcher.cpp:22-29 | The matcher strips `Auxid::` where the police strips `auxid::`, so `auxid::Ref<int>` is safe for one and unsafe for the other. |
| RawType.ConstOnlyInValidator | Validator/Src/cpp/Validator.cpp:41-42 | `Const<int>` is accepted by the validator copy only. |
| RawType.Police | Validator/src/cpp/raw_type_police.cpp:59-124 | A report is made only for a non-exempt variable whose innermost spelled type is non-empty and unsafe. |
| RawType.PoliceReportsIffUnsafe | Validator/src/cpp/raw_type_police.cpp:59-124 | A variable is reported iff it is not exempt, has type source info, and its non-empty innermost spelled type is unsafe. The `auto` wording is used iff the text is exactly `auto` and the type is not const; otherwise the report carries the stripped text. |
| RawType.PoliceExemptions | Validator/src/cpp/raw_type_police.cpp:63-86 | Each exemption on its own silences the check: dependent, constexpr, const, reference, template specialisation, cheap-to-copy or deleted-function parameter, `auto` initialised by `mut(...)`, and no type source info. |
| RawType.ArraysUseElementType | Validator/src/cpp/raw_type_police.cpp:88-92 | An array declaration is judged by its innermost element type. |
| RawType.MatcherFinding | Validator/Src/cpp/Matchers/RawTypeMatcher.cpp:62-123 | The matcher prints iff the variable is in the main file at a valid, non-system location, is not exempt, and its non-empty innermost type text is unsafe. It prints the stripped, trimmed text. |
| RawType.MatcherPrintsOneLine | Validator/Src/cpp/Matchers/RawTypeMatcher.cpp:109-122 | An unsafe variable prints exactly one line, which starts with the file's path. |
| RawType.MatcherLocationFilters | Validator/Src/cpp/Matchers/RawTypeMatcher.cpp:67-72 | Variables in system headers, outside the main file, or at invalid locations print nothing. |
| RawType.ValidatorFinding | Validator/Src/cpp/Validator.cpp:57-107 | The validator prints iff the variable passes its own filters (no const, reference, template or `auto` exemption) and its non-empty innermost type text is unsafe. |
| RawType.ValidatorRawLine | Validator/Src/cpp/Validator.cpp:125-132 | In raw mode one line is printed, and it starts with the absolute path. |
| RawType.ValidatorPrettyLine | Validator/Src/cpp/Validator.cpp:108-142 | In pretty mode one line is printed. It starts with the yellow escape and the warning sign, shows the relative path when that could be computed and the absolute path otherwise, and ends by resetting the colour. |
| RawType.PrettyLineShape | Validator/Src/cpp/Validator.cpp:134-141 | Any pretty-mode line is one line, with the coloured warning lead and the colour reset at the end. |
| ValidatorMain.HasResourceArg | Validator/Src/cpp/Main.cpp:67-76 | The scan finds a resource-directory argument iff some argument, the program name included, contains `-I`, `clang` and `include`. It stops at the first such argument. |
| ValidatorMain.TrimTrailingNewlines | Validator/Src/cpp/Main.cpp:54-56 | The result is a prefix of the output that does not end in a newline or carriage return, and everything removed was one. |
| ValidatorMain.TrimIsUnique | Validator/Src/cpp/Main.cpp:54-56 | The trimming contract determines the result: two strings meeting it for the same input are equal. |
| ValidatorMain.TrimmedText | Validator/Src/cpp/Main.cpp:54-56 | The recursive reference definition of the trim meets the same contract. |
| ValidatorMain.TrimAgrees | Validator/Src/cpp/Main.cpp:54-56 | The source's `pop_back` loop computes exactly the reference trim. |
| ValidatorMain.ResourceDir | Validator/Src/cpp/Main.cpp:29-59 | Fails with the "clang not found" message iff the process could not be started; otherwise yields the trimmed output followed by `/include`. |
| ValidatorMain.MainOutcome | Validator/Src/cpp/Main.cpp:61-98 | Usage iff fewer than two arguments, and with only the program name the usage line is `Usage: <argv[0]> <file.cpp> [options]`. A resource error iff no argument names the resource directory and `clang` cannot be run. Otherwise the arguments are passed on unchanged, or with exactly one `--extra-arg=-I<dir>/include` appended when none named the directory. |
| ValidatorMain.ExitStatus | Validator/Src/cpp/Main.cpp:62-92 | `main` returns 1 on the usage and resource-error paths, and hands over to the tool otherwise. |
| ValidatorMain.ExtraArgAddedOnce | Validator/Src/cpp/Main.cpp:67-96 | Running the driver on its own output adds nothing more: the appended argument is itself recognised as naming the resource directory. |
| ValidatorMain.ArgNamesResourceDir | Validator/Src/cpp/Main.cpp:71-72 | An argument built from a resource directory whose path mentions `clang` passes the resource-directory test. |
| ValidatorMain.AdjustArgs | Validator/Src/cpp/Main.cpp:110-135 | The adjuster loop, with its index skip over a flag's operand, computes exactly the recursive definition of the adjusted arguments. |
| ValidatorMain.AdjustedHeader | Validator/Src/cpp/Main.cpp:113-120 | The output opens with the compiler name when there is one, then the two warning switches. |
| ValidatorMain.FilteredKeepsOnlyPlainArgs | Validator/Src/cpp/Main.cpp:122-133 | Every kept argument is an input argument, is not a precompiled-header flag, and is not a response file. |
| ValidatorMain.FilteredWithoutPch | Validator/Src/cpp/Main.cpp:122-133 | Without precompiled-header flags, the adjuster drops exactly the response files and keeps the order. |
| ValidatorMain.PchPairDropped | Validator/Src/cpp/Main.cpp:123-126 | A precompiled-header flag takes exactly one following argument with it, whatever that argument is. |
| ValidatorMain.TrailingPchFlagDropped | Validator/Src/cpp/Main.cpp:123-126 | A precompiled-header flag with no operand is dropped alone. |
| AuString.Compare | libauxid/include/auxid/containers/string.hpp:38-43 | The sign of `memcmp` over `n` bytes is 0 exactly when the first `n` bytes agree. The result is -1, 0 or 1. |
| AuString.CompareAntisymmetric | libauxid/include/auxid/containers/string.hpp:38-43 | Swapping the operands negates the comparison. |
| AuString.CompareFirstDifference | libauxid/include/auxid/containers/string.hpp:38-43 | The first differing byte decides the sign, with bytes compared as unsigned. |
| AuString.SearchFrom | libauxid/include/auxid/containers/string.hpp:66-76 | The result is `NPOS` or a whole-needle match at or after `i`, and no match comes before it. |
| AuString.Search | libauxid/include/auxid/containers/string.hpp:55-77 | An empty needle is found at `pos` when `pos` is inside or at the end. A start at or past the end gives `NPOS`. Otherwise the result is the least match at or after `pos`, or `NPOS` when there is none. |
| AuString.SearchSubstring | libauxid/include/auxid/containers/string.hpp:55-77 | The loop with the length guard, comparing the first byte and then the rest, returns exactly the specified search result. |
| AuString.SearchAsWrittenOverrunExample | libauxid/include/auxid/containers/string.hpp:62-70 | Searching the one-byte haystack "a" for "ab" from 0 reads past the haystack. |
| AuString.SearchAsWrittenOverruns | libauxid/include/auxid/containers/string.hpp:62-70 | A needle longer than the haystack, with a start inside the haystack, always makes the code as written read past the end. |
| AuString.ScanOverruns | libauxid/include/auxid/containers/string.hpp:66-75 | Once the wrapped bound lies past the haystack, the scan reaches the end and reads beyond it. |
| AuString.SearchAsWrittenAgrees | libauxid/include/auxid/containers/string.hpp:55-77 | When the needle fits in the haystack, the code as written returns the guarded search's answer. |
| AuString.SearchAsWritten | libauxid/include/auxid/containers/string.hpp:55-77 | Whenever the code as written returns an index other than `NPOS`, the needle occurs there, at or after `pos`. A start at or past the end gives `NPOS`. |
| AuString.ScanAsWritten | libauxid/include/auxid/containers/string.hpp:66-75 | Any index the scan returns other than `NPOS` lies between the start and the bound and holds a whole match. |
| AuString.ScanAgrees | libauxid/include/auxid/containers/string.hpp:66-76 | With a correct bound, the scan loop finds the least match from its index on. |
| AuString.FindChar | libauxid/include/auxid/containers/string.hpp:128-134 | `find(c, pos)` gives `NPOS` or an index at or after `pos` holding `c`, and no earlier index from `pos` holds `c`. |
| AuString.FindCharIsSearch | libauxid/include/auxid/containers/string.hpp:128-139 | Finding a byte gives the same answer as searching for the one-byte needle. |
| AuString.ViewEquals | libauxid/include/auxid/containers/string.hpp:146-151 | Views are equal iff their contents are. |
| AuString.CString | libauxid/include/auxid/containers/string.hpp:94-96 | The bytes taken from a C string are the longest NUL-free prefix of memory; a NUL follows them whenever memory continues. |
| AuString.HashStringView | libauxid/include/auxid/containers/string.hpp:159-168 | The loop computes the FNV-1a hash of the bytes, and the offset basis for an empty view. |
| AuString.FnvConcat | libauxid/include/auxid/containers/string.hpp:159-168 | Hashing a concatenation is hashing the first part and continuing the loop over the second. |
| AuString.Fnv1a | libauxid/include/auxid/containers/string.hpp:159-168 | FNV-1a defined back to front equals the front-to-back loop from the offset basis. |
| AuString.Reserve | libauxid/include/auxid/containers/string.hpp:321-369 | The bytes are kept. A capacity that already suffices changes nothing; otherwise the string moves to the heap with exactly the requested capacity. |
| AuString.Assign | libauxid/include/auxid/containers/string.hpp:371-393 | Afterwards the string holds exactly the view's bytes. A view that fits keeps the storage mode and capacity; a longer one moves the string to a heap block of exactly its length. |
| AuString.FromView | libauxid/include/auxid/containers/string.hpp:247-260 | The constructors give a string holding the view's bytes, inline exactly when they fit in `SSO_CAPACITY`. |
| AuString.Append | libauxid/include/auxid/containers/string.hpp:395-424 | The result holds the old bytes followed by the view's, and capacity never shrinks. An empty view changes nothing. A fitting view keeps capacity and mode; otherwise the capacity becomes the larger of twice the old capacity and the length needed. |
| AuString.GrowTo | libauxid/include/auxid/containers/string.hpp:403-409 | The grown capacity is twice the old one or the length needed, whichever is larger. |
| AuString.Push | libauxid/include/auxid/containers/string.hpp:458-462 | Pushing a byte appends exactly that byte. |
| AuString.Pop | libauxid/include/auxid/containers/string.hpp:464-483 | Popping drops the last byte and keeps capacity and mode; on an empty string it does nothing. |
| AuString.PushPop | libauxid/include/auxid/containers/string.hpp:458-483 | Pop undoes push on the bytes, and on the whole string when the push did not grow it. |
| AuString.Equals | libauxid/include/auxid/containers/string.hpp:613-620 | Strings are equal iff their bytes are, whatever their storage modes. |
| AuString.Concat | libauxid/include/auxid/containers/string.hpp:642-667 | `lhs + rhs` holds the bytes of both in order. It is inline iff the total fits, and otherwise has exactly the total as capacity. |
| AuString.ConcatChar | libauxid/include/auxid/containers/string.hpp:679-686 | `lhs + c` holds `lhs` followed by `c`, with capacity `|lhs| + 1` when on the heap. |
| AuString.AppendAssociates | libauxid/include/auxid/containers/string.hpp:395-424 | Appending two views in turn gives the same bytes as appending their concatenation. |
| AuString.Move | libauxid/include/auxid/containers/string.hpp:262-282 | A move hands the whole representation to the target and leaves the source the empty inline string. |
| AuString.CopyKeepsBytes | libauxid/include/auxid/containers/string.hpp:284-309 | Copy construction, copy assignment and `clone` give a string equal to the source. |
| AuVec.Empty | include/auxid/containers/vec.hpp:36 | A default-constructed vector has no elements and no capacity. |
| AuVec.Reserve | include/auxid/containers/vec.hpp:209-249 | The elements are kept in order. A request that fits changes nothing; otherwise the capacity becomes exactly the request. |
| AuVec.WithCapacity | include/auxid/containers/vec.hpp:38-41 | The capacity constructor gives an empty vector with exactly that capacity. |
| AuVec.FromList | include/auxid/containers/vec.hpp:43-61 | The list constructor holds the list in order, in a block of exactly its length. |
| AuVec.Grow | include/auxid/containers/vec.hpp:394-398 | Growth always makes room: 8 from empty, otherwise at least one and a half times the old capacity. |
| AuVec.Push | include/auxid/containers/vec.hpp:150-178 | Pushing places the value last and keeps every earlier element. The capacity is kept while there is room and grows only when the vector is full. |
| AuVec.Pop | include/auxid/containers/vec.hpp:180-195 | Popping drops the last element and keeps the capacity; on an empty vector it changes nothing. |
| AuVec.Clear | include/auxid/containers/vec.hpp:197-207 | Clearing removes every element and keeps the capacity. |
| AuVec.Resize | include/auxid/containers/vec.hpp:275-297 | The result has exactly the new size. Shrinking keeps the prefix and the capacity. Growing keeps the old elements, fills the new slots with the fill value, and reserves exactly the new size when needed. |
| AuVec.Fill | include/auxid/containers/vec.hpp:281-284 | The filled slots all hold the fill value. |
| AuVec.At | include/auxid/containers/vec.hpp:325-341 | Indexing returns the element iff the index is below the size, and panics with "VecT index out of bounds" otherwise. |
| AuVec.Back | include/auxid/containers/vec.hpp:363-371 | `back()` is the element a checked index of `size - 1` returns. |
| AuVec.Move | include/auxid/containers/vec.hpp:63-90 | A move hands elements and capacity to the target and leaves the source with no elements and no storage. |
| AuVec.Copy | include/auxid/containers/vec.hpp:92-110 | A copy holds the same elements in a block of exactly their number. |
| AuVec.CopyAssign | include/auxid/containers/vec.hpp:112-135 | Copy assignment leaves exactly the source's elements and never shrinks the target's capacity. |
| AuVec.PushThenPop | include/auxid/containers/vec.hpp:150-190 | Pop undoes push on the elements, and on the whole vector when the push did not grow it. |
| AuVec.ResizeDownUp | include/auxid/containers/vec.hpp:275-297 | Shrinking and growing back keeps the kept prefix and refills the rest with the fill value. |
| AuVec.PushAll | include/auxid/containers/vec.hpp:150-178 | Pushing a list one item at a time from empty yields the list, with the capacity the growth rule reaches. |
| AuVec.GrowthCap | include/auxid/containers/vec.hpp:394-398 | After `n` pushes from empty the capacity holds all `n` elements, and is at least 8 once anything has been pushed. |
| AuVec.GrowthCapSmall | include/auxid/containers/vec.hpp:394-398 | From empty the first push allocates 8 slots, and the ninth push is the next to reallocate, to 13. |
| AuVec.PushAsWrittenAgrees | include/auxid/containers/vec.hpp:150-158 | While the grown capacity fits the size type, the push as written is the model's push. |
| AuVec.TinyVecGrowthWraps | include/auxid/containers/vec.hpp:394-398 | A full `TinyVec` of capacity 43690 computes a new capacity of 0, does not grow, and writes past its block. |
| AuVec.GrowAsWrittenStalls | include/auxid/containers/vec.hpp:394-398 | Once the growth sum reaches the size type's range, growing as written never increases the capacity. |
| AuVec.GrowAsWritten | include/auxid/containers/vec.hpp:394-398 | From empty the capacity becomes 8. Otherwise the result fits the size type, and it equals the model's growth exactly when `cap + cap/2 + 1` fits. |
| AuVec.PushAsWritten | include/auxid/containers/vec.hpp:150-158 | The push as written writes past the block iff the vector is full and the wrapped capacity does not grow. Otherwise it places the value last without shrinking the capacity. A vector with room keeps its capacity. |
| HashBase.FoldHighInvolution | include/auxid/containers/hash_base.hpp:44-46 | The fold `t ^= t >> 32` undoes itself and leaves the high half alone, so it loses no information. |
| HashBase.FoldHighInjective | include/auxid/containers/hash_base.hpp:44-46 | Different products fold to different hashes. |
| HashBase.FoldHigh | include/auxid/containers/hash_base.hpp:45 | `t ^= t >> 32` passes the high half of `t` through unchanged. |
| HashBase.MixU64 | include/auxid/containers/hash_base.hpp:64-66 | The hash is the 64-bit product of the value and the golden-ratio constant, folded: its high half is the product's, and folding it again gives the product back. |
| HashBase.HashU64 | include/auxid/containers/hash_base.hpp:60-68 | `Hash<u64>` is the golden-ratio product folded once, so folding the hash gives the product back. |
| HashBase.HashU32 | include/auxid/containers/hash_base.hpp:50-58 | `Hash<u32>` widens to 64 bits and is the golden-ratio product folded once. |
| HashBase.HashI32 | include/auxid/containers/hash_base.hpp:40-48 | `Hash<i32>` sign-extends, then is the golden-ratio product folded once. A non-negative value hashes like the same `u32`. |
| HashBase.SignExtend | include/auxid/containers/hash_base.hpp:44 | Widening an `i32` to `u64` keeps non-negative values and maps a negative one to 2^64 plus it. |
| HashBase.IntegerHashesAgree | include/auxid/containers/hash_base.hpp:40-68 | `Hash<u32>`, `Hash<i32>` and `Hash<u64>` give the same hash for every value all three can hold. |
| HashBase.NegativeI32HashesAsU64 | include/auxid/containers/hash_base.hpp:40-47 | A negative `i32` hashes like its sign-extended `u64`. |
| HashBase.HashString | include/auxid/containers/hash_base.hpp:70-92 | `String`, `StringView` and C-string keys all hash to the FNV-1a of the bytes they stand for. |
| HashBase.StringHashesAgree | include/auxid/containers/hash_base.hpp:70-92 | Keys with the same bytes hash alike, whatever their kind. |
| HashBase.CStringHashesItsPrefix | include/auxid/containers/hash_base.hpp:86-92 | A C string hashes like the view of the bytes before its terminator, whatever follows the NUL. |
| HashBase.CStringOfTerminated | include/auxid/containers/hash_base.hpp:86-92 | The bytes of a C string are exactly the text before its first NUL. |
| HashBase.HashObject | include/auxid/containers/hash_base.hpp:25-38 | The generic byte-wise hash of an object's representation equals the string hash of a view of those bytes. |
| HashBase.EqualTo | include/auxid/containers/hash_base.hpp:94-100 | `EqualTo` holds exactly for equal values. |
| AuSpan.SizeBytes | libauxid/include/auxid/containers/span.hpp:93-96 | For a non-zero element size, the byte size is 0 exactly for an empty span and is never below the element count. |
| AuSpan.SizeBytesSplits | libauxid/include/auxid/containers/span.hpp:93-96 | The byte size of a span is the sum of the byte sizes of the two halves of any split. |
| AuSpan.Index | libauxid/include/auxid/containers/span.hpp:103-110 | Indexing returns the element iff the index is inside the span, and panics with "Span index out of bounds" otherwise. |
| AuSpan.Front | libauxid/include/auxid/containers/span.hpp:112-119 | `front()` returns iff the span is non-empty, and then gives element 0. |
| AuSpan.Back | libauxid/include/auxid/containers/span.hpp:121-128 | `back()` returns iff the span is non-empty, and then gives the last element. |
| AuSpan.First | libauxid/include/auxid/containers/span.hpp:152-159 | `first(count)` succeeds iff `count` is at most the size, and gives a prefix of exactly `count` elements. |
| AuSpan.Last | libauxid/include/auxid/containers/span.hpp:161-168 | `last(count)` succeeds iff `count` is at most the size, and gives a suffix of exactly `count` elements. |
| AuSpan.Subspan | libauxid/include/auxid/containers/span.hpp:170-187 | `subspan` succeeds iff the offset is inside the span and the count is the default or fits in the remainder. It gives the elements starting at the offset: the whole remainder by default, otherwise exactly `count` of them. |
| AuSpan.TemplateFormsAgree | libauxid/include/auxid/containers/span.hpp:190-228 | The compile-time `first`, `last` and `subspan` accept exactly what the run-time forms accept, and give the same elements. |
| AuSpan.FirstN | libauxid/include/auxid/containers/span.hpp:190-197 | `first<Count>()` succeeds iff `Count` is at most the size, and gives a prefix of exactly `Count` elements. |
| AuSpan.LastN | libauxid/include/auxid/containers/span.hpp:199-206 | `last<Count>()` succeeds iff `Count` is at most the size, and gives the final `Count` elements in order. |
| AuSpan.SubspanN | libauxid/include/auxid/containers/span.hpp:208-228 | `subspan<Offset, Count>()` succeeds iff the offset is inside the span and the count is the default or fits. It gives a prefix of the elements from the offset, exactly `Count` of them unless the default is used. |
| AuSpan.FirstThenLast | libauxid/include/auxid/containers/span.hpp:152-187 | The last `b` of the first `a` elements are the sub-span of length `b` at `a - b`. |
| AuSpan.FirstLastSplit | libauxid/include/auxid/containers/span.hpp:152-168 | `first(n)` followed by `last(size - n)` is the whole span. |
| AuSpan.Equals | libauxid/include/auxid/containers/span.hpp:230-235 | Spans are equal iff they have the same elements in the same order. |
| AuOption.EmptyOptionPanics | libauxid/include/auxid/containers/option.hpp:43-49 | The default and `nullopt` constructors give the only option with no value, and `unwrap`, `expect`, `operator*` and `operator->` on it all panic with their messages. |
| AuOption.Just | libauxid/include/auxid/containers/option.hpp:51-57 | An option built from a value holds it, and `unwrap` gives it back. |
| AuOption.PresenceQueriesAgree | libauxid/include/auxid/containers/option.hpp:146-164 | `has_value`, `is_some` and `operator bool` agree, `is_none` is their negation, and an option has a value exactly when it was built from one. |
| AuOption.Deref | libauxid/include/auxid/containers/option.hpp:166-182 | `operator*` returns the value iff there is one, and panics with "Option::operator* on None" otherwise. |
| AuOption.Arrow | libauxid/include/auxid/containers/option.hpp:184-200 | `operator->` reaches the value iff there is one, and panics with "Option::operator-> on None" otherwise. |
| AuOption.Unwrap | libauxid/include/auxid/containers/option.hpp:202-221 | `unwrap` returns the value iff there is one, and panics with "Called unwrap() on None Option" otherwise, in every build. |
| AuOption.Expect | libauxid/include/auxid/containers/option.hpp:223-228 | `expect(msg)` returns iff there is a value, and otherwise panics with the caller's message. |
| AuOption.ValueOr | libauxid/include/auxid/containers/option.hpp:230-238 | `value_or(d)` is the held value when there is one and `d` otherwise. |
| AuOption.Map | libauxid/include/auxid/containers/option.hpp:240-247 | `map(f)` has a value iff the option has, and then holds `f` applied to the held value. |
| AuOption.AccessorsAgree | libauxid/include/auxid/containers/option.hpp:166-238 | All accessors succeed together, and then all return the same value, the one `value_or` gives. |
| AuOption.MapLaws | libauxid/include/auxid/containers/option.hpp:240-247 | Mapping the identity changes nothing, and mapping twice is mapping the composition. |
| AuOption.Reset | libauxid/include/auxid/containers/option.hpp:91-95 | After `reset` or assigning `nullopt` the option is empty and `unwrap` panics. |
| AuOption.ResetIdempotent | libauxid/include/auxid/containers/option.hpp:250-260 | Resetting twice is resetting once. |
| AuOption.CopyAssign | libauxid/include/auxid/containers/option.hpp:97-119 | After copy assignment the target has a value iff the source has, and the same one. Self-assignment changes nothing. |
| AuOption.MoveAssign | libauxid/include/auxid/containers/option.hpp:121-143 | Move assignment leaves the target as copy assignment would. The source keeps its presence flag, and self-assignment changes nothing. |
| AuOption.MoveConstruct | libauxid/include/auxid/containers/option.hpp:72-83 | Move construction gives an option equal to the source, and the source keeps its presence flag. |
| AuOption.AssignmentTakesSource | libauxid/include/auxid/containers/option.hpp:97-143 | Whatever the target held, assignment from another option leaves the target equal to it, and assigning an empty option is a reset. |
| AuResult.Fail | include/auxid/pch.hpp:116-132 | `fail(e)` wraps exactly `e`. |
| AuResult.FromValue | include/auxid/pch.hpp:152-162 | A result built from a value is Ok, and `unwrap` gives the value back. |
| AuResult.FromUnexpected | include/auxid/pch.hpp:165-167 | A result built from `fail(e)` is an error, and `unwrap_err` gives `e` back. |
| AuResult.VoidOk | include/auxid/pch.hpp:357-360 | The default `ResultT<void, E>` is Ok. |
| AuResult.TagQueriesAgree | include/auxid/pch.hpp:307-345 | `is_err` is the negation of `is_ok`, and `has_value` and `operator bool` are `is_ok`. A result is Ok iff it was built from a value, and an error iff it was built from `fail`. |
| AuResult.Unwrap | include/auxid/pch.hpp:269-288 | `unwrap` returns the value iff the result is Ok, and panics with "Called unwrap() on an Error Result" otherwise. |
| AuResult.UnwrapErr | include/auxid/pch.hpp:290-305 | `unwrap_err` returns the error iff the result is an error, and panics with "Called unwrap_err() on an Ok Result" otherwise. |
| AuResult.ExactlyOneSideUnwraps | include/auxid/pch.hpp:269-305 | Exactly one of `unwrap` and `unwrap_err` succeeds on any result. |
| AuResult.CopyAssign | include/auxid/pch.hpp:203-234 | After copy assignment the target has the source's tag and payload. Self-assignment changes nothing. |
| AuResult.MoveAssign | include/auxid/pch.hpp:236-267 | Move assignment leaves the target as copy assignment would, and the source keeps its tag. |
| AuResult.MoveConstruct | libauxid/include/auxid/pch.hpp:186-192 | Move construction gives a result equal to the source, and the source keeps its tag. |
| AuResult.AssignmentTakesSource | include/auxid/pch.hpp:203-267 | Whatever the target held, assignment leaves it equal to the source. |
| AuResult.Try | include/auxid/pch.hpp:441-451 | `AU_TRY` continues with the value iff the result is Ok, and otherwise returns `fail` of the error from the enclosing function. |
| AuResult.TryDiscard | include/auxid/pch.hpp:453-462 | `AU_TRY_DISCARD` continues iff the result is Ok, and otherwise returns `fail` of the error. |
| AuResult.Then | libauxid/include/auxid/pch.hpp:382-390 | A function that runs `AU_TRY` and then the rest fails with the tried error, and otherwise is the rest applied to the value. |
| AuResult.ThenLaws | libauxid/include/auxid/pch.hpp:382-390 | `AU_TRY` sequencing obeys the bind laws: left identity, right identity and associativity. |
| AuResult.DiscardAgreesWithTry | libauxid/include/auxid/pch.hpp:373-399 | `AU_TRY_PURE` and `AU_TRY_DISCARD` run the rest exactly when `AU_TRY` would, and fail with the same error otherwise. |
| AuMemory.LowBits | libauxid/include/auxid/memory/arena.hpp:44 | Masking with `align - 1` yields a value below `align` and no larger than the address. |
| AuMemory.LowBitsOne | libauxid/include/auxid/memory/arena.hpp:44 | Every address is aligned to 1. |
| AuMemory.LowBitsShift | libauxid/include/auxid/memory/arena.hpp:44 | Adding `align` leaves the low bits unchanged. |
| AuMemory.Padding | libauxid/include/auxid/memory/arena.hpp:43-45 | The arena's padding is below `align`, makes the address aligned, and is 0 exactly for an aligned address. |
| AuMemory.PaddingAligns | libauxid/include/auxid/memory/arena.hpp:43-45 | The padding formula reaches the next multiple of `align`, and is 0 exactly when the address is already aligned. |
| AuMemory.PadBitsShift | libauxid/include/auxid/memory/arena.hpp:44-45 | The padding depends only on the low bits. |
| AuMemory.RoundUpIsPadding | libauxid/include/auxid/pch.hpp:116-117 | The round-up formula of `aligned_alloc` adds exactly the arena's padding, so both allocators align the same way. |
| AuMemory.RoundUpIsPadBits | libauxid/include/auxid/pch.hpp:116-117 | Rounding up is adding the padding, for every non-zero alignment. |
| AuMemory.RoundUpShift | libauxid/include/auxid/pch.hpp:117 | Rounding up commutes with adding `align`. |
| AuMemory.RoundUpSmall | libauxid/include/auxid/pch.hpp:117 | Below `align`, rounding up adds the padding. |
| AuMemory.RoundUp | libauxid/include/auxid/pch.hpp:116-117 | Rounding up never goes below the address and adds less than one alignment. |
| AuMemory.AlignedAlloc | libauxid/include/auxid/pch.hpp:105-123 | Null iff the alignment is zero or not a power of two, the request does not fit in 64 bits, or `malloc` fails. Otherwise the block is aligned and starts at least one pointer past the raw block. The requested size fits inside the raw allocation, and `raw` is stored in the word just below the block. |
| AuMemory.AlignedFree | libauxid/include/auxid/pch.hpp:125-131 | `aligned_free` frees nothing exactly when given null. |
| AuMemory.AlignedFreeFreesRaw | libauxid/include/auxid/pch.hpp:105-131 | `aligned_free` of a block `aligned_alloc` returned frees exactly the raw block `malloc` gave. |
| AuMemory.AlignedAllocAsWrittenAgrees | libauxid/include/auxid/pch.hpp:105-123 | When the total request fits in 64 bits, the code as written is the corrected `aligned_alloc`. |
| AuMemory.AlignedAllocAsWritten | libauxid/include/auxid/pch.hpp:105-123 | As written, the result is null only for a bad alignment or a failed `malloc`, never for an overflowing request. A returned block starts at least one pointer past the raw block and less than one alignment beyond that, with `raw` stored just below it. |
| AuMemory.AlignedAllocAsWrittenWraps | libauxid/include/auxid/pch.hpp:110-122 | Asking for 2^64 - 16 bytes at alignment 8 requests 0 bytes as written, and still hands out a pointer; the corrected version gives null. |
| AuMemory.Init | libauxid/include/auxid/memory/arena.hpp:28-33 | `init` makes the whole buffer free, and the arena is valid when the buffer does not wrap the address space. |
| AuMemory.Alloc | libauxid/include/auxid/memory/arena.hpp:41-55 | Null iff the offset has passed the end or the padded request does not fit in what is left, and then nothing changes. Otherwise the offset advances by the request plus less than one alignment. The block is aligned, lies at or after the old cursor, ends at the new one, and validity is kept. |
| AuMemory.NoWrapInside | libauxid/include/auxid/memory/arena.hpp:43-52 | Inside a valid arena the cursor and the padded cursor do not wrap. |
| AuMemory.AllocDefault | libauxid/include/auxid/memory/arena.hpp:36-39 | `alloc(size)` is `alloc(size, 8)`, and its blocks are 8-byte aligned. |
| AuMemory.SuccessiveBlocksDisjoint | libauxid/include/auxid/memory/arena.hpp:41-55 | Two blocks handed out one after the other do not overlap, and both lie inside the buffer. |
| AuMemory.InitThenAllocAll | libauxid/include/auxid/memory/arena.hpp:28-55 | A fresh arena hands out its whole buffer to one byte-aligned request. |
| AuMemory.Realloc | libauxid/include/auxid/memory/arena.hpp:57-65 | The arena never resizes: `realloc` always gives null and changes nothing. |
| AuMemory.Free | libauxid/include/auxid/memory/arena.hpp:67-72 | `free` changes nothing: blocks are never given back. |
| AuMemory.AllocAsWrittenAgrees | libauxid/include/auxid/memory/arena.hpp:41-55 | When `size + padding` fits in 64 bits, the code as written is the corrected `alloc`. |
| AuMemory.AllocAsWritten | libauxid/include/auxid/memory/arena.hpp:41-55 | As written, the request fails iff the offset has passed the end or the wrapped total does not fit, and a failure changes nothing. A success keeps the offset inside the buffer. |
| AuMemory.ArenaTotalWraps | libauxid/include/auxid/memory/arena.hpp:47-54 | A request of 2^64 - 7 bytes at alignment 8 wraps `total` to 0 as written and is handed out from a 16-byte arena; the corrected version gives null. |
| Ninja.Fresh | libauxid/src/hpp/builder/ninja_generator.hpp:46-51 | A new generator has no globals, rules or edges, and its manifest is the version header and two blank lines. |
| Ninja.AddGlobalVariable | libauxid/src/hpp/builder/ninja_generator.hpp:54-57 | `add_global_variable` appends one variable and leaves the rules and edges alone. |
| Ninja.AddRule | libauxid/src/hpp/builder/ninja_generator.hpp:59-62 | `add_rule` appends one rule and leaves the globals and edges alone. |
| Ninja.AddEdge | libauxid/src/hpp/builder/ninja_generator.hpp:64-67 | `add_edge` appends one edge and leaves the globals and rules alone. |
| Ninja.JoinAppend | libauxid/src/cpp/builder/ninja_generator.cpp:24-65 | Each loop's text grows by exactly one item's text per item appended. |
| Ninja.GenerateManifest | libauxid/src/cpp/builder/ninja_generator.cpp:20-68 | The generated text is the manifest: the `ninja_required_version = 1.5` header, the globals, a blank line, the rules, a blank line, then the edges. |
| Ninja.GlobalsText | libauxid/src/cpp/builder/ninja_generator.cpp:24-27 | The global loop writes one `key = value` line per variable, in order. |
| Ninja.RulesText | libauxid/src/cpp/builder/ninja_generator.cpp:30-48 | The rule loop writes every rule's text, in order. |
| Ninja.AppendRule | libauxid/src/cpp/builder/ninja_generator.cpp:32-47 | One rule is its name line and command line, then its description, depfile and deps lines, each only when set. |
| Ninja.AppendOptional | libauxid/src/cpp/builder/ninja_generator.cpp:35-47 | An optional rule field adds its indented line when it is non-empty, and leaves the text unchanged exactly when it is empty. |
| Ninja.EdgesText | libauxid/src/cpp/builder/ninja_generator.cpp:51-65 | The edge loop writes every edge's text, in order. |
| Ninja.AppendEdge | libauxid/src/cpp/builder/ninja_generator.cpp:53-64 | One edge is `build`, each output and a space, a colon, the rule name, each input and a space, a newline, then its variables indented. |
| Ninja.SpacedText | libauxid/src/cpp/builder/ninja_generator.cpp:54-58 | The output and input loops write each path followed by one space, in order. The builder's flag loops use the same shape. |
| Ninja.EdgeVariablesText | libauxid/src/cpp/builder/ninja_generator.cpp:61-64 | The edge-variable loop writes one indented `key = value` line per variable, in order. |
| Ninja.AddEdgeAppendsText | libauxid/src/cpp/builder/ninja_generator.cpp:51-65 | Adding an edge appends exactly that edge's text to the end of the manifest. |
| Ninja.AddRuleInsertsText | libauxid/src/cpp/builder/ninja_generator.cpp:30-49 | Adding a rule inserts exactly that rule's text after the other rules and before the edges. |
| Ninja.AddGlobalInsertsLine | libauxid/src/cpp/builder/ninja_generator.cpp:24-28 | Adding a global inserts exactly its `key = value` line after the other globals. |
| Ninja.ImplicitInputsIgnored | libauxid/src/cpp/builder/ninja_generator.cpp:51-65 | An edge's implicit inputs never reach the manifest. |
| Ninja.MinimalRuleText | libauxid/src/cpp/builder/ninja_generator.cpp:32-47 | A rule with only a name and a command prints exactly two lines. |
| Ninja.RuleText | libauxid/src/cpp/builder/ninja_generator.cpp:32-47 | A rule's text starts with its `rule` line and `command` line, and ends with a line break. |
| Ninja.EdgeText | libauxid/src/cpp/builder/ninja_generator.cpp:53-64 | An edge's text starts with `build ` and ends with a line break. |
| Ninja.Manifest | libauxid/src/cpp/builder/ninja_generator.cpp:20-68 | The manifest starts with the version header and ends with a line break. Without rules and edges it is the header, the global lines and two blank lines. |
| Target.New | libauxid/include/auxid/builder/target.hpp:48-57 | A new target of any kind has an empty name and every list empty. |
| Target.WithField | libauxid/include/auxid/builder/target.hpp:51-57 | Replacing one list changes that list only, and neither the kind nor the name. |
| Target.AddValues | libauxid/include/auxid/builder/target.hpp:60-93 | Each `add_*` call appends the values to its own list, in order, and changes no other list, the kind or the name. |
| Target.LinkPackage | libauxid/include/auxid/builder/target.hpp:95-98 | `link_package` appends one name to the linked packages and changes nothing else. |
| Target.GenerateBuildInfo | libauxid/include/auxid/builder/target.hpp:105-119 | The build info carries the name, the class's kind and every list of the target. |
| Target.BuildInfoAfterAdds | libauxid/include/auxid/builder/target.hpp:60-134 | The build info of a new target keeps its kind and empty name, and holds exactly what was added, in the list it was added to. |
| Builder.Fresh | libauxid/include/auxid/builder/builder.hpp:70-79 | A new builder is in run mode `Invalid` and has declared no packages or targets. |
| Builder.FirstMode | libauxid/src/cpp/builder/builder.cpp:24-40 | The scan yields `Invalid` iff no argument from the index on is a mode flag, and otherwise the mode of the first one. |
| Builder.Init | libauxid/src/cpp/builder/builder.cpp:22-41 | `init` always succeeds, changes only the run mode, and sets it from the first mode flag after the program name. |
| Builder.ProgramNameIgnored | libauxid/src/cpp/builder/builder.cpp:24 | A mode flag as the program name does not select a mode. |
| Builder.SetPackage | libauxid/include/auxid/builder/builder.hpp:86-114 | Each package setter changes its own field only, and nothing else in the builder. |
| Builder.Names | libauxid/include/auxid/builder/builder.hpp:76 | The key list of the required-package map holds the names, in order. |
| Builder.VersionOf | libauxid/include/auxid/builder/builder.hpp:76 | A name has a required version iff it is among the keys. |
| Builder.UpsertLookup | libauxid/include/auxid/builder/builder.hpp:122-125 | After `map[name] = version`, `name` maps to the new version and every other name keeps its version. |
| Builder.Upsert | libauxid/include/auxid/builder/builder.hpp:122-125 | Assigning to a present name keeps every key in its position. Assigning to an absent name appends exactly one entry for it. |
| Builder.UpsertNames | libauxid/include/auxid/builder/builder.hpp:122-125 | The key order is unchanged when the name was present, and otherwise gains the name at the end. Keys stay unique. |
| Builder.UpsertLookupAll | libauxid/include/auxid/builder/builder.hpp:122-125 | The lookup property holds for every other name at once. |
| Builder.RequirePackage | libauxid/include/auxid/builder/builder.hpp:122-125 | `require_package` records the version for the name and leaves every other requirement and the rest of the builder alone. |
| Builder.RequireTwiceLastWins | libauxid/include/auxid/builder/builder.hpp:122-125 | Requiring a package twice keeps one entry, with the second version. |
| Builder.AddExecutable | libauxid/include/auxid/builder/builder.hpp:128-133 | `add_executable` appends one new, empty executable target and changes nothing else. |
| Builder.AddStaticLib | libauxid/include/auxid/builder/builder.hpp:135-140 | `add_static_lib` appends one new, empty static-library target and changes nothing else. |
| Builder.JoinEmptyIff | libauxid/src/cpp/builder/builder.cpp:55-63 | Joining items whose texts are never empty gives the empty text iff there are no items. |
| Builder.LdFlags | libauxid/src/cpp/builder/builder.cpp:55-63 | A target's link flags are empty iff it has no library directories and no link flags, and hold at least one character per item. |
| Builder.CFlags | libauxid/src/cpp/builder/builder.cpp:45-53 | A target's compile flags are empty iff it has no include directories and no compile flags, and hold at least one character per item. |
| Builder.ObjectPaths | libauxid/src/cpp/builder/builder.cpp:65-69 | Each source has one object file, `.auxid/obj/<name>/<source>.o`, in source order. |
| Builder.CompileEdge | libauxid/src/cpp/builder/builder.cpp:68-78 | A compile edge uses rule `cxx`, reads exactly its source, and writes one object under `.auxid/obj/<name>/` ending in `<source>.o`. Its one variable is `cflags`. |
| Builder.CompileEdges | libauxid/src/cpp/builder/builder.cpp:66-79 | There is one compile edge per source, in source order, each reading its own source with the target's compile flags. |
| Builder.LinkEdges | libauxid/src/cpp/builder/builder.cpp:81-106 | An executable or static library gets exactly one link edge over all the object files, and any other kind none. Only an executable with link flags passes `ldflags`. |
| Builder.TargetEdges | libauxid/src/cpp/builder/builder.cpp:65-107 | A target contributes one compile edge per source, in order, plus one link edge iff it is an executable or a static library. |
| Builder.GenerateNinjaForTarget | libauxid/src/cpp/builder/builder.cpp:43-108 | `generate_ninja_for_target` appends exactly the target's edges and leaves globals and rules alone. |
| Builder.CFlagsText | libauxid/src/cpp/builder/builder.cpp:45-53 | The compile-flag loops build `-I<dir> ` per include directory and then `<flag> ` per compile flag. |
| Builder.LdFlagsText | libauxid/src/cpp/builder/builder.cpp:55-63 | The link-flag loops build `-L<dir> ` per library directory and then `<flag> ` per link flag. The result is empty iff both lists are. |
| Builder.BuildGenerator | libauxid/src/cpp/builder/builder.cpp:130-162 | The `GenerateNinja` branch sets up two globals, the `cxx`, `link_exe` and `link_static_lib` rules, and then the edges of every executable before every static library. On a builder whose lists hold targets of their own kinds, there is at least one edge per target. |
| Builder.NinjaFor | libauxid/src/cpp/builder/builder.cpp:130-162 | The generator has two globals and three rules with distinct names, and every edge names one of those rules. |
| Builder.AddTargets | libauxid/src/cpp/builder/builder.cpp:155-162 | One `generate_ninja_for_target` per target, in order, appends all their edges. |
| Builder.Entries | libauxid/src/cpp/builder/builder.cpp:117-121 | Each dependency becomes one JSON object with its name and version, in map order. |
| Builder.DependencyLinesSeparated | libauxid/src/cpp/builder/builder.cpp:117-121 | The dependency lines are the entries separated by commas and line breaks, and the last entry has no trailing comma. |
| Builder.MetadataListsDependencies | libauxid/src/cpp/builder/builder.cpp:112-126 | The metadata dump is a JSON object with the package name and the comma-separated dependency list. |
| Builder.PrintMetadata | libauxid/src/cpp/builder/builder.cpp:112-124 | The `printf` calls, with the last-index test of the loop, write exactly the metadata text. |
| Builder.Metadata | libauxid/src/cpp/builder/builder.cpp:112-126 | The dump opens the JSON object with the package name first, and ends by closing the dependency list and then the object. |
| Builder.Finalize | libauxid/src/cpp/builder/builder.cpp:110-180 | `finalize` always succeeds. It prints the metadata in `DumpMetadata` mode and the manifest between two `!` lines in `GenerateNinja` mode. Otherwise it deletes every target and prints the standalone notice. |
| Builder.RunBuilderMain | libauxid/include/auxid/builder/builder.hpp:25-54 | The builder's `main` exits with 0 iff `init` and `finalize` both succeed, and with -1 otherwise. `run` is reached iff `init` succeeded, and a failed `init` or `finalize` prints its error. The main-thread guard leaves the calling thread's counter as it found it. On a thread not yet initialised, the guard sets up the allocator once and tears it down once. |
| Builder.ErrorLine | libauxid/include/auxid/builder/builder.hpp:43 | An error line is `[ERROR]: `, the message, and a line break, and the message can be read back out of it. |
| Builder.BaseBuilderExitsZero | libauxid/include/auxid/builder/builder.hpp:36-54 | With the base `init` and `finalize`, `main` always runs the script and exits with 0, printing no error. |
| RuntimeInit.Initial | src/cpp/auxid.cpp:27-37 | Before any call every thread's counter reads 0. |
| RuntimeInit.SetCount | src/cpp/auxid.cpp:44 | Writing one thread's counter leaves every other counter and the main thread alone. |
| RuntimeInit.InitializeMain | src/cpp/auxid.cpp:39-53 | The calling thread's counter goes up by one and no other changes. Only when it is now at most 1 does the call record the thread as main and initialise the allocator. |
| RuntimeInit.TerminateMain | src/cpp/auxid.cpp:55-67 | The calling thread's counter goes down by one and no other changes. The allocator is finalised iff the counter is now at most 0. |
| RuntimeInit.InitializeWorker | src/cpp/auxid.cpp:69-81 | As for the main thread, but no id is recorded and the call initialises the allocator for this thread only. |
| RuntimeInit.TerminateWorker | src/cpp/auxid.cpp:83-95 | As for the main thread, finalising the allocator for this thread only. |
| RuntimeInit.IsThreadInitialized | src/cpp/auxid.cpp:102-105 | The answer is whether the thread's counter is positive. The lookup may add a zero entry, which changes no count. |
| RuntimeInit.IsMainThread | src/cpp/auxid.cpp:97-100 | Before any main-thread initialisation only the value-initialised thread id counts as main. |
| RuntimeInit.Apply | src/cpp/auxid.cpp:39-95 | One call moves the caller's counter by one, up for an initialisation and down for a termination. No other counter moves, at most one allocator call is made, and only a main-thread initialisation can change the main thread. |
| RuntimeInit.Run | src/cpp/auxid.cpp:39-95 | A run makes at most one allocator call per call, and a run with no main-thread initialisation keeps the main thread. |
| RuntimeInit.RunCount | src/cpp/auxid.cpp:39-67 | A sequence of calls on one thread changes its counter by the number of initialisations minus terminations, and no other counter. |
| RuntimeInit.BalancedRestoresCount | src/cpp/auxid.cpp:39-67 | As many terminations as initialisations restore the counter. |
| RuntimeInit.NestedInitOnce | src/cpp/auxid.cpp:39-53 | `n` nested initialisations on a fresh thread initialise the allocator once, on the first, and leave the counter at `n`. |
| RuntimeInit.InitsAboveOne | src/cpp/auxid.cpp:44-46 | Initialisations on a thread already initialised call nothing. |
| RuntimeInit.NestedTerminateOnce | src/cpp/auxid.cpp:55-67 | `n` terminations from counter `n` finalise the allocator once, on the last. |
| RuntimeInit.UnmatchedTerminate | src/cpp/auxid.cpp:55-95 | A termination without a matching initialisation drives the counter to -1 and still finalises. |
| RuntimeInit.FirstInitMarksMain | src/cpp/auxid.cpp:39-105 | The first main-thread initialisation makes the caller the main thread and initialised, and no other thread initialised. |
| Cli.Parse | toolchain/auxid/cpp/cli.cpp:22-99 | No word left fails with the usage hint. Otherwise the stored arguments become the words after the command. The parse succeeds iff the command is known and accepts that many arguments, and then yields the command. An unknown word fails naming it. |
| Cli.Dispatch | toolchain/auxid/cpp/cli.cpp:53-96 | A command is accepted iff the word is known and the argument count suits it, and the command is selected by that word. `install` picks the install-all command iff there are no arguments. An unknown word fails with the word in the message. |
| Cli.SignedDecimal | toolchain/auxid/cpp/cli.cpp:104 | The `%d` rendering is never empty and starts with `-` iff the number is negative. |
| Cli.GetArg | toolchain/auxid/cpp/cli.cpp:101-107 | `get_arg(i)` returns the stored argument iff `i` is a valid index, and otherwise fails with a message naming `i`. |
| Cli.ParsedArgumentsRoundTrip | toolchain/auxid/cpp/cli.cpp:41-51 | After a parse, `get_arg` gives back exactly the words that followed the command, in order, and nothing beyond them. |
| Cli.SingleArgumentCommands | toolchain/auxid/cpp/cli.cpp:53-96 | A one-argument command parses and can read its argument back with `get_arg(0)`. |
| Cli.InstallArity | toolchain/auxid/cpp/cli.cpp:77-84 | `install` picks between its two commands by the argument count alone, and fails for more than one argument. |
| Version.FromU64 | libauxid/include/auxid/auxid.hpp:88-91 | Reading the fields back out always gives a version whose fields fit their bit ranges. |
| Version.ToU64 | libauxid/include/auxid/auxid.hpp:88-91 | The low 16 bits of the packed number are those of `patch`. The number is 0 iff `patch` and `minor` are 0 and `major` has no bits below bit 24. |
| Version.DefaultIsZero | libauxid/include/auxid/auxid.hpp:82-91 | The default version packs to 0. |
| Version.RoundTrip | libauxid/include/auxid/auxid.hpp:88-91 | A version whose fields fit comes back unchanged from its packed form. |
| Version.MajorField | libauxid/include/auxid/auxid.hpp:90 | The major field is recovered from bits 40 and up. |
| Version.MinorField | libauxid/include/auxid/auxid.hpp:90 | The minor field is recovered from bits 16 to 39. |
| Version.PatchField | libauxid/include/auxid/auxid.hpp:90 | The patch field is recovered from bits 0 to 15. |
| Version.Injective | libauxid/include/auxid/auxid.hpp:88-91 | Distinct versions whose fields fit pack to distinct numbers, so the packed order can tell them apart. |
| Version.HighMajorBitsLost | libauxid/include/auxid/auxid.hpp:90 | Bits of `major` from bit 24 up are shifted out of the packed number. |
| Version.Collisions | libauxid/include/auxid/auxid.hpp:88-91 | Without those bounds different versions can pack alike: major 2^24 packs like the default, and patch 2^16 like minor 1. |
| HashSet.Next | include/auxid/containers/hash_set.hpp:111 | Stepping to the next bucket with the mask stays inside the table. |
| HashSet.Dist | include/auxid/containers/hash_set.hpp:248-249 | The masked probe distance is inside the table and is 0 exactly from a bucket to itself. |
| HashSet.Home | include/auxid/containers/hash_set.hpp:94-95 | A key's home bucket `h & m_mask` lies inside the table. |
| HashSet.DistNext | include/auxid/containers/hash_set.hpp:110-111 | One probe step lengthens the distance from the home bucket by one, until the table wraps. |
| HashSet.NextCloser | include/auxid/containers/hash_set.hpp:257 | One step brings the scan one bucket closer to any other bucket. |
| HashSet.Free | include/auxid/containers/hash_set.hpp:102-103 | The number of empty buckets never exceeds the bucket count. |
| HashSet.FreeAll | include/auxid/containers/hash_set.hpp:195 | A table just filled with `INDEX_INVALID` has every bucket empty. |
| HashSet.SomeFree | include/auxid/containers/hash_set.hpp:210-213 | When some bucket is empty, one can be named. |
| HashSet.InsertIntoBuckets | include/auxid/containers/hash_set.hpp:205-216 | Placing entry `i` keeps every occupied bucket and extends the probing invariant to entries `0..i`. |
| HashSet.RehashBuckets | include/auxid/containers/hash_set.hpp:190-203 | Rehashing into `n` empty buckets places every entry, and the probing invariant holds for the whole entry list. |
| HashSet.Contains | include/auxid/containers/hash_set.hpp:89-116 | `contains` answers true iff the key is in the set, with the probe bounded by the table size. |
| HashSet.Probe | include/auxid/containers/hash_set.hpp:98-115 | The probe loop finds a key iff it sits in a bucket on its probe path. |
| HashSet.BackwardShift | include/auxid/containers/hash_set.hpp:234-261 | Removing the entry at the hole and shifting later entries back keeps every remaining entry reachable from its home bucket without crossing an empty bucket. |
| HashSet.UpdateBucketPointer | include/auxid/containers/hash_set.hpp:263-277 | The bucket that pointed at the old index now points at the new one, and no other bucket changes. |
| HashSet.SwapRemove | include/auxid/containers/hash_set.hpp:222-231 | The last entry moves into the removed slot, the list shrinks by one, and every other entry stays where it was. |
| HashSet.SwapRemoveMembers | include/auxid/containers/hash_set.hpp:222-231 | Swap-removal of distinct entries keeps them distinct and removes exactly the one key. |
| HashSet.RemoveAtBucket | include/auxid/containers/hash_set.hpp:218-232 | `remove_at_bucket` keeps the set valid, swap-removes exactly that entry, and keeps the bucket count and the mask. |
| HashSet.RemoveEntry | include/auxid/containers/hash_set.hpp:218-232 | The bucket array after the shift and the relink is a valid probing table for the swap-removed entry list. |
| HashSet.IndexOf | include/auxid/containers/hash_set.hpp:133-135 | The first index that holds the key. |
| HashSet.Erase | include/auxid/containers/hash_set.hpp:118-141 | `erase` keeps the set valid and removes exactly the key. It reports whether the key was present, and otherwise leaves the set unchanged. The erased entry is swap-removed, and the bucket count and capacity are kept. |
| HashSet.Locate | include/auxid/containers/hash_set.hpp:126-140 | The erase probe, bounded only by the first empty bucket, finds the bucket holding the key whenever the key is in the set. |
| HashSet.New | include/auxid/containers/hash_set.hpp:43-45 | A new set has no keys, no buckets and no capacity. |
| HashSet.NewValid | include/auxid/containers/hash_set.hpp:43-45 | A new set is valid for every hasher. |
| HashSet.ShouldGrow | include/auxid/containers/hash_set.hpp:179-182 | The set grows when it has no buckets or is at least 80% full. Otherwise an entry can be added with an empty bucket left over. |
| HashSet.Grow | include/auxid/containers/hash_set.hpp:184-188 | Growing gives 16 buckets from none and doubles them otherwise, keeps every entry, and keeps the set valid. |
| HashSet.Insert | include/auxid/containers/hash_set.hpp:74-87 | `insert` keeps the set valid and adds exactly the key. It reports true iff the key was absent. A present key leaves the set unchanged, and a new key is appended to the entries. |
| HashSet.InsertAbsent | include/auxid/containers/hash_set.hpp:79-85 | Inserting an absent key appends it and adds exactly it to the keys. |
| HashSet.AppendEntry | include/auxid/containers/hash_set.hpp:82-85 | Placing a new last entry into a table with room extends the probing invariant to it. |
| HashSet.Reserve | include/auxid/containers/hash_set.hpp:53-63 | `reserve(n)` keeps the entries and the keys. Enough capacity changes nothing. Otherwise the capacity becomes exactly `n`, and the bucket count becomes the smallest power of two from 8 up that is at least `2n`. |
| HashSet.WithCapacity | include/auxid/containers/hash_set.hpp:47-50 | The capacity constructor gives an empty, valid set with exactly that capacity, and at least twice as many buckets. |
| HashSet.Clear | include/auxid/containers/hash_set.hpp:65-72 | `clear` removes every key and keeps the set valid, with the same bucket count, capacity and mask. |
| HashSet.SizeCountsKeys | include/auxid/containers/hash_set.hpp:163-166 | Distinct entries: the entry count is the number of keys. |
| HashSet.SizeAndEmpty | include/auxid/containers/hash_set.hpp:163-171 | `size()` is the number of keys, and `empty()` holds iff there are none. |

## Left out

- Clang AST matching, CFG construction and the `fixpoint::DataFlowSolver` worklist are foreign code. The analyses are modelled per statement and per merge, and the solver's iteration is not modelled.
- `Lexer::getSourceText`, `is_std_call` and `is_cheap_to_copy` are given as inputs to the model, because they are Clang queries.
- `CfgAst.Strip`: the AST abstraction has only parentheses and implicit casts as wrappers. Clang's `IgnoreParenImpCasts` also skips `FullExpr`, `MaterializeTemporaryExpr` and `CXXBindTemporaryExpr` nodes, which the model does not have.
- Report printing through `llvm::outs` and column computation are out of scope. Reports are an abstract sequence of (kind, variable) values. Only the Validator's own output lines are modelled as text.
- `ValidatorMain.MainOutcome`: with `argc == 0` the source streams a null `argv[0]` into the usage line, which is undefined behaviour. The model prints the usage line with an empty program name instead.
- The `clang -print-resource-dir` subprocess (`popen`) is out of scope. Its output is an input string.
- `CLI::parse` runs argparse first. The model starts from the words argparse leaves over, because argparse is a foreign library.
- `malloc`, `free` and rpmalloc are outside the model. Their results are inputs, and allocation failure only shows where the source checks for null.
- Thread ids are natural numbers, and the thread-local map is one map from id to counter. Concurrent access is not modelled.
- `RuntimeInit.InitializeMain`: the counter is an unbounded integer, so the `i32` overflow after 2^31 nested initialisations is not modelled.
- `String::format` is out of scope, because it goes through `vsnprintf`.
- The byte layout of `String` (the union of `size_shifted` and `cap_flagged`) is abstracted to a sequence of bytes and a capacity.
- `String::append` where the view points into the string's own buffer is not modelled, because the model has no aliasing.
- `AuVec.Push`: the value is taken by copy. In the source, `push(v[0])` on a full vector passes a reference into the vector's own block. `grow()` then moves the elements and frees that block, and `construct_at` only afterwards reads the reference, so it reads freed memory (vec.hpp:150-163 and 209-249). The model has no aliasing, so it appends the element's old value instead.
- `AuString.Compare`: only the sign of `memcmp` is modelled, not its magnitude.
- `AuString.Search`: positions and lengths are naturals, with `NPOS` as `2^64 - 1`. Lengths of `2^64 - 1` bytes and more are excluded by the requires, because the haystack's length must stay below `NPOS`.
- `AuVec`: sizes are naturals. Only the `u16` `TinyVec` width is modelled separately, in the Findings.
- `HashBase.HashObject` takes the object's representation bytes as an input, because `reinterpret_cast` of an arbitrary `T` has no meaning in the model.
- `HashSet.Insert`: the table holds fewer than 2^29 entries (`MAX_ENTRIES`), which the source does not check. The bound is conservative. It keeps the bucket count that growth reaches within `MAX_BUCKETS`, which is 2^31, the cap that `contains` needs because it casts the mask to `i32`. The growth test `size() * 10 >= buckets * 8` is computed in `usize` and does not overflow at this size, and the `u32` entry index would only overflow at 2^32.
- `HashSet.Reserve` and `HashSet.WithCapacity`: the requested capacity is at most 2^29 (`MAX_ENTRIES`). The reason is the same: the smallest power of two at least twice the request then stays within `MAX_BUCKETS`.
- `HashSet.Valid`: the bucket count is at most 2^31, because `contains` casts the mask to `i32`.
- `HashSet`: the hasher is a function parameter, and `begin`/`end` iteration is not modelled.
- `include/auxid/containers/hash_map.hpp` is not part of this model. The builder's required packages are a list of distinct names in insertion order, and a later `require_package` overwrites the version in place.
- `AuMemory.Alloc`: only power-of-two alignments are modelled, which is what the mask arithmetic assumes.
- `AuMemory`: memory is a map from address to stored pointer value. Nothing is said about the bytes of an allocation.
- `Builder`: `add_executable` and `add_static_lib` return a reference, and build scripts fill the target through it. That editing is not modelled, because the model has no references. The builder's target lists hold `Target` values, and `WellKinded` states what the C++ element types guarantee: executables have kind `Executable` and static libraries kind `StaticLib`. `Builder.BuildGenerator` and `Builder.Finalize` require it. The reserve of the lists' capacity is not modelled.
- `Builder.Finalize`: writing the manifest or metadata file is not modelled. The text is the result.
- `Builder.Finalize`: `printf("%s", s.c_str())` stops at the first NUL byte of `s`. The model prints the whole string, because it does not model embedded NUL bytes in names and versions.
- `include/auxid/builder/package.hpp` is not part of this model. `PackageInfo` holds the six fields the `set_package_*` calls write.
- The `panic_handler` infinite loop is not modelled. A panic is a final `Panicked` outcome.
- `Version.RoundTrip`: the fields must fit in 24, 24 and 16 bits. Outside those bounds the packing loses bits, as `Version.HighMajorBitsLost` and `Version.Collisions` show.
- Thread, mutex and condition-variable wrappers, platform and workspace I/O, the test harness and the IDE extensions are out of scope. They are concurrency, I/O or UI.

## Findings

| source | as written | input that shows it | evidently intended | confidence | as-written member | corrected member |
|---|---|---|---|---|---|---|
| libauxid/include/auxid/containers/string.hpp:62-75 | `last_possible = h_len - n_len` is a `usize` subtraction. When the needle is longer than the haystack and `pos < h_len`, it wraps, and the loop compares bytes past the haystack's end. | haystack `"a"`, needle `"ab"`, `pos` 0 | return npos when the needle cannot fit | not executed | AuString.SearchAsWrittenOverruns | AuString.SearchSubstring |
| include/auxid/containers/vec.hpp:394-398 | `grow()` computes `cap + cap/2 + 1` in the size type. For `TinyVec` (`u16`) at capacity 43690 the result is 65536, which truncates to 0. `reserve(0)` does nothing, and `emplace_back` writes past the block. | a full `TinyVec` with 43690 elements, then one push | the capacity grows, or the push fails | not executed | AuVec.TinyVecGrowthWraps | AuVec.Push |
| libauxid/include/auxid/memory/arena.hpp:47-54 | `total = size + padding` is a `usize` sum. A huge `size` wraps it to a small total, which passes the bounds check. | arena at address 1, length 16, offset 0; `alloc(2^64 - 7, 8)` | the request fails with null | not executed | AuMemory.ArenaTotalWraps | AuMemory.Alloc |
| libauxid/include/auxid/pch.hpp:110-122 | `total_size = size + alignment + sizeof(void*)` wraps, so `malloc` is asked for a tiny block, and the caller gets a pointer to `size` bytes outside it. | `aligned_alloc(8, 2^64 - 16)` | return null when the total overflows | not executed | AuMemory.AlignedAllocAsWrittenWraps | AuMemory.AlignedAlloc |
