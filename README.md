# schemin-c core in Dafny

This project models the core of schemin-c, a small Scheme interpreter written
in C. It covers:

- the page allocators that back its object store (`allocator.c`);
- the object store, with its per-kind entry arenas (`memory.c`);
- the chained string hash table (`hash.c`);
- environments and the evaluator (`interpreter.c`), with the `car` primitive
  (`primitives.c`);
- the UTF-8 tokeniser (`utf8.c`);
- the reader that turns text into objects (`parser.c`);
- the string escape of the printer (`prettyprint.c`).

Modules follow the source files:

| module | models |
|---|---|
| `Allocator` | `allocator.c` |
| `Memory` | `memory.c` |
| `Hash` | `hash.c` |
| `Environment`, `Evaluation`, `Interpreter` | `interpreter.c`: specification functions, then the class whose methods run the C loops |
| `Primitives` | `primitives.c` |
| `Utf8` | `utf8.c` |
| `Parser` | `parser.c` |
| `PrettyPrint` | `prettyprint.c` |
| `EnvironmentLaws`, `EvaluationLaws`, `ParserLaws` | properties relating several operations |

Two helper modules come with it. `Wrappers` holds `Option` and `Result`. `Errors` lists the fatal errors: `error()`, `ASSERT_OR_ERROR` and the debug `assert`s become `Err` answers at the same points.

## How the model is built

**State.** Every routine that changes state in C is a method on a class:

- `Allocator.PageArena` and `Allocator.ByteArena` hold the allocator counters;
- `Memory.Store` holds the object store;
- `Hash.HashTable` holds the buckets;
- `Interpreter.Interpreter` holds the global environment and the hooked primitive table.

Each method is proved against a specification function of the old state. For example, `Interpreter.Interpreter.DefineVariable` reflects `Environment.DefineVariable`, and the evaluator methods reflect `Evaluation.Eval`. The laws are proved about those functions.

**Objects.** An object is a `Memory.Value`: its kind and its index in the entry arena of that kind. The entry arenas are `seq`s inside an abstract `Memory.Heap`, and every `allocate_*` appends to one of them. The allocators keep the C page counters, so the address an allocation returns and the address `allocator_get_item_at_index` recomputes can be compared. `Allocator.LocOf` gives the first and `Allocator.IndexLoc` the second.

**Text.** Text is `seq<byte>`. UTF-8 decoding is reduced to codepoint boundaries: a codepoint starts at every byte that is not a continuation byte (`10xxxxxx`). The whitespace test of utf8proc is a parameter `ws` over the bytes of one codepoint.

**Evaluator.** The evaluator loop carries a step budget (`fuel`). `EvaluationLaws.EvalMonotone` proves that an answer reached within a budget is the answer under every larger budget. The budget therefore only cuts evaluations short and never changes an answer.

### parser.c's duplicate helpers

parser.c carries its own copies of the tokeniser helpers:

- `utf8_take`, `verify_matching_parens`, `scan2_for_closing_paren`, `is_whitespace`, `utf8_tok_whitespace` and `utf8_tok_lisp` are byte-for-byte the same as in utf8.c. They are modelled once, in `Utf8`.
- `strnrchr`, `scan_for_closing_paren`, `utf8_take_reverse` and `trim_whitespace` differ between the two files. Each version is modelled in its own module, `Utf8` or `Parser`.

### Behaviour kept as written

The source code is followed where it departs from what its names suggest:

- **Allocator page roll (allocator.c:80).** After rolling to a new page, `remaining_elements_in_page` is set to `page_size / element_size - element_size`. So with `element_size > 1` a page is left part-used, and `allocator_get_item_at_index` no longer agrees with the address the allocation returned from the third page on. `Allocator.IndexFormulaBreaksOnThirdPage` proves this. `Memory.ConsEntryAliasFromThirdPage` gives the first cons index affected (131057) and `Memory.TextEntryAliasFromThirdPage` the first string or symbol index affected (2033). The entry lookups (`Memory.Store.GetConsEntry` and its string and symbol counterparts) state the slot C computes, but the rest of the model reads the entry allocated under the index; "## Left out" says so member by member.
- **Byte allocator fit test (allocator.c:156).** It uses a strict `<`, so a request of exactly the remaining size rolls to a new page (`Allocator.ByteStepInPage`).
- **The `max` of minmax.h (lines 71-74).** It answers the smaller argument (`Utf8.MaxIsMinimum`).
- **utf8.c's `strnrchr`.** It tests only the last byte of the window, so its `scan_for_closing_paren` finds a `)` only when it is the last byte (`Utf8.ClosingParenIsLastByte`).
- **Name matching in `scan_frame` and `find_bucket_with_key`.** Both compare with `strncmp` bounded by the query's length, so a query matches any name it is a prefix of:
  - `CString.StrnEqIsPrefix` and `Hash.PrefixQueryMatches` state this;
  - `EnvironmentLaws.ShorterNameFindsLongerBinding` shows `foo` finding the binding of `foobar`;
  - `EnvironmentLaws.DefineShorterNameOverwrites` shows defining `foo` overwriting `foobar`.
- **utf8.c's `trim_whitespace`.** It adds one to the distance between the two scans, and its reverse scan stops at the start of the last non-whitespace codepoint. Its length is therefore one byte too short when that codepoint is longer than one byte. `Parser.TrimsAgreeOnSingleByteEnd` and `Parser.TrimOfTwoByteCodepoint` prove where the two trims agree and where they differ.

A closure entry records no environment. At application (interpreter.c:327-331), a closure's body runs in an extension of the caller's environment, so variables are scoped dynamically. The model does the same.

## Model

| member | source | states |
|---|---|---|
| Allocator.Sub64 | src/allocator.c:80 | `uint64_t` subtraction: below 2^64, and the plain difference when no wrap-around occurs |
| Allocator.InitCounters | src/allocator.c:29-46 | a fresh allocator is on page 0 with nothing allocated and a whole page of elements remaining |
| Allocator.StepKeepsTable | src/allocator.c:70-77 | growing the page table by 16 keeps the current page inside it; an allocation advances at most one page |
| Allocator.StepContract | src/allocator.c:60-85 | the index handed out is the running total; in-page allocations take the next slot of the current page; otherwise slot 0 of the next page, with the cursor at 1 |
| Allocator.StepStaysInPage | src/allocator.c:60-85 | while the page geometry is consistent, every address handed out lies wholly inside its page |
| Allocator.RunCountsCalls | src/allocator.c:65-66 | allocation number k receives index k |
| Allocator.RunFirstPage | src/allocator.c:61-68 | the first page is filled slot by slot |
| Allocator.RunSecondPage | src/allocator.c:70-84 | after the roll, the second page has only `page_size/element_size - element_size` slots left (line 80 as written) |
| Allocator.IndexFormulaThroughSecondPage | src/allocator.c:87-94 | through the second page, the index formula of `allocator_get_item_at_index` finds the address the allocation returned |
| Allocator.IndexFormulaFirstPage | src/allocator.c:87-94 | the index formula is right on the first page |
| Allocator.IndexFormulaSecondPage | src/allocator.c:87-94 | the index formula is right on the second page |
| Allocator.IndexFormulaBreaksOnThirdPage | src/allocator.c:80 | with elements larger than one byte, the first element of page 2 is looked up on page 1 |
| Allocator.PageArena.constructor | src/allocator.c:29-46 | `make_allocator`: one page and the initial counters |
| Allocator.PageArena.Allocate | src/allocator.c:60-85 | `allocator_allocate`: counters advance by one step; returns that step's address and the old total; the page list grows by at most one page |
| Allocator.PageArena.ItemAt | src/allocator.c:87-94 | succeeds exactly for allocated indices below 2^63, and answers the quotient/remainder address |
| Allocator.ByteStepInPage | src/allocator.c:156-163 | the in-page path is taken exactly when the size is strictly below the remaining bytes |
| Allocator.ByteStepLarge | src/allocator.c:165-172 | a large request leaves the page counters and `total_bytes` alone and prepends one region |
| Allocator.ByteStepRoll | src/allocator.c:174-187 | a small request that does not fit starts a fresh page at offset 0 |
| Allocator.ByteStepKeepsInv | src/allocator.c:155-188 | offset plus remaining stays equal to the page size, and the page table keeps the current page |
| Allocator.ByteArena.constructor | src/allocator.c:119-137 | `make_byte_allocator`: one page and empty counters |
| Allocator.ByteArena.Allocate | src/allocator.c:155-188 | `byte_allocator_allocate`: the counters and the address are those of one byte step |
| CString.BoundedLen | src/hash.c:56 | `strnlen`: the length up to the first NUL, within the bound |
| CString.Strndup | src/hash.c:77 | `strndup` copies the prefix before the first NUL, at most n bytes |
| CString.StrnEqSelf | src/hash.c:56 | a string compares equal to itself |
| CString.StrnEqDup | src/hash.c:56 | a key compares equal to its own strndup copy |
| CString.StrnEqIsPrefix | src/interpreter.c:153-154 | `strncmp(a, b, strlen(a)) == 0` holds exactly when a is a prefix of b |
| CString.StrnEqSameLength | src/interpreter.c:66-68 | between equal-length strings, the comparison is equality |
| Hash.HashStep | src/hash.c:38-52 | one step of the PJW hash keeps the top nibble clear |
| Hash.StrHashBound | src/hash.c:38-52 | a hash is below 2^60; the empty key hashes to 0 |
| Hash.StrHash64 | src/hash.c:38-52 | the byte loop computes the specified hash |
| Hash.BucketOf | src/hash.c:66 | the bucket index is below the bucket count |
| Hash.FirstMatch | src/hash.c:54-62 | the first node answering the query, and none before it |
| Hash.FindBucketWithKey | src/hash.c:54-62 | the chain walk finds that first match |
| Hash.FirstMatchIsFirst | src/hash.c:54-62 | the match is fixed by where the first matching node sits |
| Hash.ChainSetShape | src/hash.c:64-79 | `hash_set` overwrites the first match in place, or else prepends a node holding a copy of the key |
| Hash.ChainSetThenGet | src/hash.c:64-91 | get after set answers the data set |
| Hash.ChainSetOtherKey | src/hash.c:64-91 | set leaves unchanged the answer for a key that does not meet the written node |
| Hash.PrefixQueryMatches | src/hash.c:54-62 | a query matches every key it is a prefix of |
| Hash.HashTable.constructor | src/hash.c:17-23 | `make_hash`: every bucket empty |
| Hash.HashTable.Set | src/hash.c:64-79 | only the key's bucket changes, by the chain update |
| Hash.HashTable.Get | src/hash.c:81-91 | answers the data of the first matching node in the key's bucket |
| Hash.SetThenGet | src/hash.c:64-91 | on the table, get after set answers the data set |
| Memory.ConsAt | src/memory.c:82-85 | reading a cons fails exactly on a non-cons or an unallocated index |
| Memory.StringAt | src/memory.c:87-90 | reading a string succeeds exactly on an allocated string and answers its text |
| Memory.SymbolAt | src/memory.c:92-95 | reading a symbol succeeds exactly on an allocated symbol and answers its text |
| Memory.LambdaAt | src/interpreter.c:327-329 | reading a closure succeeds exactly on an allocated closure |
| Memory.PrimitiveAt | src/interpreter.c:334-336 | reading a primitive succeeds exactly on an allocated primitive |
| Memory.NewConsThenGet | src/memory.c:70-85 | a new cons reads back its entry and every older cons is unchanged |
| Memory.WriteConsThenGet | src/memory.c:82-85 | a write through one entry changes that cons only |
| Memory.Store.constructor | src/memory.c:20-31 | `memory_init`: the empty heap |
| Memory.Store.AllocateObject | src/memory.c:33-38 | one more slot in the object arena |
| Memory.Store.AllocateString | src/memory.c:40-53 | takes one object slot, reserves the text's length plus one bytes in the byte arena (one byte-allocator step) and records where, and appends one string holding the text; the symbols keep their byte reservations |
| Memory.Store.AllocateSymbol | src/memory.c:55-68 | takes one object slot, reserves the text's length plus one bytes in the byte arena (one byte-allocator step) and records where, and appends one symbol holding the text; the strings keep their byte reservations |
| Memory.Store.AllocateCons | src/memory.c:70-80 | takes one object slot and appends one cons holding the initial entry; the byte arena and the byte reservations of strings and symbols are unchanged |
| Memory.Store.GetConsEntry | src/memory.c:82-85 | fails exactly where reading the cons fails; on success answers the slot `allocator_get_item_at_index` computes, which is the cons's own slot up to index 131056 |
| Memory.Store.GetStringEntry | src/memory.c:87-90 | fails exactly where reading the string fails; on success answers the slot `allocator_get_item_at_index` computes, which is the string's own slot up to index 2032 |
| Memory.Store.GetSymbolEntry | src/memory.c:92-95 | fails exactly where reading the symbol fails; on success answers the slot `allocator_get_item_at_index` computes, which is the symbol's own slot up to index 2032 |
| Memory.Store.SetConsEntry | src/interpreter.c:131-136 | a write through an entry pointer: that cons changes, no other entry and no byte reservation does |
| Memory.Store.AllocateLambda | src/interpreter.c:396-400 | appends one closure entry; the other arenas and the byte reservations are unchanged |
| Memory.Store.AllocatePrimitive | src/primitives.c:25 | appends one primitive entry; the other arenas and the byte reservations are unchanged |
| Memory.ConsEntryRoundTrip | src/memory.c:14-18 | through its second page, the cons arena finds each entry where it was allocated |
| Memory.ConsEntryAliasFromThirdPage | src/allocator.c:80 | cons 131057 is allocated on page 2 but looked up on page 1 |
| Memory.TextEntryAliasFromThirdPage | src/memory.c:14-18 | string and symbol entries agree up to index 2032 and part ways at 2033 |
| Memory.TextEntryRoundTrip | src/memory.c:14-18 | through index 2032, the string and symbol arenas find each entry where it was allocated |
| Primitives.CarPrimitive | src/primitives.c:11-16 | `car`: wrong argument count or a non-cons is fatal; otherwise answers the car |
| Environment.Car | src/interpreter.c:271-273 | `car` succeeds exactly on a readable cons and answers its first half |
| Environment.Cdr | src/interpreter.c:275-277 | `cdr` succeeds exactly on a readable cons and answers its second half |
| Environment.SameLength | src/interpreter.c:24-42 | comparing lengths succeeds only when both lists are null-terminated |
| Environment.SpineIsChain | src/interpreter.c:24-42 | the walk of `internal_length` visits a chain of readable cells ending in null; a non-list is fatal |
| Environment.Elements | src/interpreter.c:24-42 | the elements of a list are the cars of its cells, in order |
| Environment.ChainDistinct | src/interpreter.c:24-42 | the cells of a null-terminated list are pairwise distinct |
| Environment.SpineFindsChain | src/interpreter.c:24-42 | a chain is the walk of the list starting at its first cell |
| Environment.NameMatches | src/interpreter.c:153-154 | a variable answers a search exactly when the query text is a prefix of its name |
| Environment.ScanFrameFound | src/interpreter.c:142-165 | a binding `scan_frame` finds pairs a cell of the name list with the cell of the value list at the same position, and its name answers the search |
| Environment.ScanEnvFromFound | src/interpreter.c:181-192 | a binding `scan_environment` finds is a readable value cell holding its value |
| Environment.FindSymbol | src/interpreter.c:198-199 | the first symbol with exactly that text, or none |
| Environment.Intern | src/interpreter.c:196-202 | interning answers a symbol with that text; it may only append symbols and leaves other arenas alone |
| Environment.AddBindingToFrame | src/interpreter.c:131-136 | the frame's two lists gain one cell each at their heads; nothing else changes |
| Environment.ListCells | src/interpreter.c:291-306 | `array_to_cons` lays out one cell per object |
| Evaluation.IsTaggedList | src/interpreter.c:60-69 | true exactly for a readable cons whose head symbol is spelled exactly like the tag; a non-cons is false |
| Evaluation.IsTrue | src/interpreter.c:227-229 | true for any other kind; among symbols, anything but g_false; otherwise `is_equal` is unimplemented |
| Evaluation.EvalOperand | src/interpreter.c:319-323 | evaluating a 33rd operand overflows the operand buffer |
| EnvironmentLaws.SpineKept | src/interpreter.c:24-42 | a list's walk is the same in a heap that keeps its cdrs |
| EnvironmentLaws.ScanFrameKept | src/interpreter.c:142-165 | scan_frame gives the same result in a heap that keeps the frame's cells, up to the written value |
| EnvironmentLaws.ScanEnvFromKept | src/interpreter.c:181-192 | scan_environment gives the same result in a heap that keeps the cells it reads |
| EnvironmentLaws.AssignedScan | src/interpreter.c:231-241 | writing a value cell leaves every other search unchanged |
| EnvironmentLaws.SetThenLookup | src/interpreter.c:231-257 | after `set!` on a bound variable, lookup answers the new value |
| EnvironmentLaws.DefineFoundThenLookup | src/interpreter.c:167-179 | redefining a variable the first frame binds overwrites that binding |
| EnvironmentLaws.AddedBindingFirst | src/interpreter.c:131-165 | the added binding is the first one scan_frame meets |
| EnvironmentLaws.DefineAddedThenLookup | src/interpreter.c:167-179 | a new definition is the binding lookup finds |
| EnvironmentLaws.DefineThenLookup | src/interpreter.c:167-257 | after define, lookup answers the defined value |
| EnvironmentLaws.ExtendThenLookup | src/interpreter.c:55-58 | lookups in an extended environment search the new frame first, then the base unchanged |
| EnvironmentLaws.GrownScan | src/interpreter.c:181-192 | appending cells leaves the searches of the old heap unchanged |
| EnvironmentLaws.ListCellsChain | src/interpreter.c:291-306 | the laid-out cells form a null-terminated chain holding the objects |
| EnvironmentLaws.ListCellsElements | src/interpreter.c:291-306 | the laid-out cells form a list of exactly the objects |
| EnvironmentLaws.ArrayToConsElements | src/interpreter.c:291-306 | `array_to_cons` succeeds exactly on a nonempty array, and the list's elements are the array |
| EnvironmentLaws.ShorterNameFindsLongerBinding | src/interpreter.c:254-257 | looking up `foo` finds the binding of `foobar` |
| EnvironmentLaws.DefineShorterNameOverwrites | src/interpreter.c:167-179 | defining `foo` overwrites the value of `foobar` |
| EvaluationLaws.EvalMonotone | src/interpreter.c:361-411 | an answer reached within a budget is the answer under every larger budget |
| EvaluationLaws.EvalMore | src/interpreter.c:361-411 | one more unit of budget changes no settled answer |
| EvaluationLaws.EvalFormMore | src/interpreter.c:368-410 | the same, for the special-form dispatch |
| EvaluationLaws.EvalFormFromIfMore | src/interpreter.c:384-410 | the same, from the `if` test on |
| EvaluationLaws.EvalDefinitionMore | src/interpreter.c:368-372 | the same, for `define` |
| EvaluationLaws.EvalAssignmentMore | src/interpreter.c:378-382 | the same, for `set!` |
| EvaluationLaws.EvalIfMore | src/interpreter.c:384-394 | the same, for `if` |
| EvaluationLaws.EvalSequenceMore | src/interpreter.c:349-359 | the same, for `begin` |
| EvaluationLaws.EvalOperandMore | src/interpreter.c:319-323 | the same, for one operand |
| EvaluationLaws.EvalOperandsMore | src/interpreter.c:318-323 | the same, for the operand loop |
| EvaluationLaws.EvalApplicationMore | src/interpreter.c:312-337 | the same, for an application |
| EvaluationLaws.ApplyProcedureMore | src/interpreter.c:325-336 | the same, for applying a procedure |
| EvaluationLaws.EvalQuote | src/interpreter.c:374-376 | `(quote x)` evaluates to x and leaves the heap alone |
| EvaluationLaws.EvalDefine | src/interpreter.c:368-372 | `define` binds, with `define_variable`, the value its expression evaluates to |
| EvaluationLaws.EvalDefineThenLookup | src/interpreter.c:368-372 | after `(define v e)`, lookup of v answers e's value |
| EvaluationLaws.EvalIfChooses | src/interpreter.c:384-394 | `if` evaluates the alternative exactly when the test is g_false, the consequent for another symbol or another kind |
| EvaluationLaws.EvalCallWithoutOperands | src/interpreter.c:312-325 | calling a procedure with no operands fails the `num_objects > 0` assertion |
| EvaluationLaws.PlainHeadIsNoForm | src/interpreter.c:368-408 | a list whose head names no special form is recognised by none of them |
| Interpreter.ListCellsGrow | src/interpreter.c:291-306 | the loop's list of n+1 objects extends that of n objects by one linked cell |
| Interpreter.Interpreter.constructor | src/interpreter.c:16-22 | before `interpreter_init`, the global environment is null and no primitive is hooked |
| Interpreter.Interpreter.Init | src/interpreter.c:16-22 | `interpreter_init` builds the global environment, answers 0, and hooks primitive installation |
| Interpreter.Interpreter.SetupEnvironment | src/interpreter.c:196-202 | `setup_env`: one frame binding false and true |
| Interpreter.Interpreter.DidInstallPrimitive | src/interpreter.c:223-225 | an installed primitive is defined under its name globally |
| Interpreter.Interpreter.PrimitivesInit | src/primitives.c:22-29 | each row of the primitive table becomes a primitive and, when hooked, a global definition |
| Interpreter.Interpreter.InternalLength | src/interpreter.c:24-42 | `internal_length`: the list's cell count; cycles and non-lists are fatal |
| Interpreter.Interpreter.SameLength | src/interpreter.c:44-53 | the two length walks compared |
| Interpreter.Interpreter.ScanFrame | src/interpreter.c:142-165 | `scan_frame` answers the specified search |
| Interpreter.Interpreter.ScanLists | src/interpreter.c:150-162 | the parallel walk over the frame's lists |
| Interpreter.Interpreter.ScanEnvironment | src/interpreter.c:181-192 | `scan_environment` answers the specified search |
| Interpreter.Interpreter.InternSymbol | src/interpreter.c:196-202 | interns a symbol as `Environment.Intern` does |
| Interpreter.Interpreter.AddBindingToFrame | src/interpreter.c:131-136 | the heap after `add_binding_to_frame` |
| Interpreter.Interpreter.DefineVariable | src/interpreter.c:167-179 | `define_variable` reaches the specified heap and answer |
| Interpreter.Interpreter.SetVariableValue | src/interpreter.c:231-241 | `set_variable_value` reaches the specified heap and answer; an unbound variable is fatal |
| Interpreter.Interpreter.AssignBinding | src/interpreter.c:172-174 | the write through a found value cell |
| Interpreter.Interpreter.LookupVariableValue | src/interpreter.c:254-257 | `lookup_variable_value` answers the specified value, or NULL |
| Interpreter.Interpreter.MakeFrame | src/interpreter.c:44-53 | `make_frame` reaches the specified heap and frame |
| Interpreter.Interpreter.ExtendEnvironment | src/interpreter.c:55-58 | `extend_environment` reaches the specified heap and environment |
| Interpreter.Interpreter.ArrayToCons | src/interpreter.c:291-306 | `array_to_cons` reaches the specified heap and list |
| Interpreter.Interpreter.EvalWithEnv | src/interpreter.c:361-411 | the evaluator loop answers `Evaluation.Eval` and leaves its heap |
| Interpreter.Interpreter.Eval | src/interpreter.c:413-415 | `eval` evaluates in the global environment |
| Interpreter.Interpreter.EvalStep | src/interpreter.c:362-410 | one pass of the dispatch answers, or leaves a tail evaluation with a smaller budget |
| Interpreter.Interpreter.EvalVariable | src/interpreter.c:363-367 | a variable's value; an unbound variable is fatal |
| Interpreter.Interpreter.EvalFormStep | src/interpreter.c:368-410 | the special-form dispatch, with tail positions left to the loop |
| Interpreter.Interpreter.EvalFormFromIf | src/interpreter.c:384-410 | the rest of the dispatch |
| Interpreter.Interpreter.EvalDefinition | src/interpreter.c:368-372 | `define` as specified |
| Interpreter.Interpreter.EvalAssignment | src/interpreter.c:378-382 | `set!` as specified |
| Interpreter.Interpreter.EvalIf | src/interpreter.c:384-394 | `if`: the test nested, the branch in tail position |
| Interpreter.Interpreter.EvalSequenceStep | src/interpreter.c:349-359 | `eval_sequence`: all but the last expression nested, the last in tail position |
| Interpreter.Interpreter.EvalOperand | src/interpreter.c:319-323 | one operand evaluated into the buffer |
| Interpreter.Interpreter.EvalOperands | src/interpreter.c:318-323 | the operand loop fills the buffer as specified |
| Interpreter.Interpreter.EvalApplication | src/interpreter.c:312-337 | `eval_application` as specified |
| Interpreter.Interpreter.ApplyOperator | src/interpreter.c:316-336 | operands gathered, then the call |
| Interpreter.Interpreter.GatherOperands | src/interpreter.c:318-325 | the buffer, then `array_to_cons` |
| Interpreter.Interpreter.ApplyProcedure | src/interpreter.c:325-336 | a primitive is called on the operand array; a closure's body runs in an extended environment |
| Utf8.CodepointEnd | src/utf8.c:11-30 | the end of a codepoint: past its continuation bytes, at the next codepoint start |
| Utf8.CodepointStart | src/utf8.c:32-47 | the start of the codepoint ending at j |
| Utf8.CodepointEndShift | src/utf8.c:11-30 | a codepoint reads the same in any window that starts at or before it |
| Utf8.TakeFromIsLongest | src/utf8.c:11-30 | `utf8_take` answers the longest run of passing codepoints and stops at a failing one |
| Utf8.TakeThenRest | src/utf8.c:130-144 | after the leading run, a nonempty token follows |
| Utf8.Utf8Take | src/utf8.c:11-30 | the C loop computes the specified take |
| Utf8.TakeReverseFrom | src/utf8.c:32-47 | the backward scan never moves past its start |
| Utf8.Utf8TakeReverse | src/utf8.c:32-47 | the C loop computes the specified backward scan |
| Utf8.Max | src/minmax.h:71-74 | `max` answers one of its arguments |
| Utf8.MaxIsMinimum | src/minmax.h:71-74 | as written, `max` answers the smaller argument |
| Utf8.VerifyMatchingParens | src/utf8.c:49-67 | succeeds exactly on balanced parentheses; depth 0 is reported on success |
| Utf8.Strnrchr | src/utf8.c:69-77 | finds the character only when it is the last byte |
| Utf8.ScanForClosingParen | src/utf8.c:83-88 | succeeds exactly when the window opens with `(` and ends with `)` |
| Utf8.ScanForClosingParenMethod | src/utf8.c:83-88 | the C code computes that |
| Utf8.ClosingParenIsLastByte | src/utf8.c:69-88 | `(a) b)` is matched at its end; `(a) ` is rejected |
| Utf8.Scan2ForClosingParen | src/utf8.c:90-107 | the C loop computes the specified scan |
| Utf8.Scan2FindsMatch | src/utf8.c:90-107 | the scan answers the first return to depth 0, closed by `)`; a window opening with `(` that returns to depth 0 has such a match |
| Utf8.BalancedHasMatch | src/utf8.c:49-107 | a balanced window opening with `(` always has its match |
| Utf8.TokWhitespace | src/utf8.c:130-144 | the token is the leading whitespace, then the run of non-whitespace |
| Utf8.TokLisp | src/utf8.c:146-167 | a token is a parenthesised group up to its match or a run of non-whitespace; none only after all-whitespace |
| Utf8.Utf8TokWhitespace | src/utf8.c:130-144 | the C code computes that |
| Utf8.Utf8TokLisp | src/utf8.c:146-167 | the C code computes that |
| Utf8.TrimWhitespace | src/utf8.c:169-181 | the C code computes `Utf8.Trim` |
| Utf8.TakeReverseStopsAbove | src/utf8.c:32-47 | the backward scan stops at or above any failing codepoint |
| Utf8.TrimNeverFails | src/utf8.c:169-181 | the `start <= end` assertion of the trim holds on every input |
| Utf8.TakeFromBoundary | src/utf8.c:11-30 | the forward scan stops on a codepoint boundary |
| Parser.Strnrchr | src/parser.c:71-79 | the last occurrence of the character after position 0 |
| Parser.ScanForClosingParen | src/parser.c:85-90 | succeeds exactly when the window opens with `(` and holds a later `)`, and answers the end of the last one; any other first byte, including the NUL of an empty window, fails the `(` assertion |
| Parser.TakeReverseFrom | src/parser.c:33-49 | the backward scan never moves past its start |
| Parser.Utf8TakeReverse | src/parser.c:33-49 | the C loop computes the scan and the size behind it |
| Parser.TakeReverseIsLongest | src/parser.c:33-49 | the scan passes the longest run of passing codepoints and stops after a failing one |
| Parser.TakeReverseStopsAfter | src/parser.c:33-49 | the scan stops at or after the end of any failing codepoint |
| Parser.Trim | src/parser.c:171-184 | never fails; empty only when all whitespace; otherwise a nonempty window from the first non-whitespace codepoint to the end of the last |
| Parser.TrimWhitespace | src/parser.c:171-184 | the C code computes the trim |
| Parser.TrimIsExact | src/parser.c:171-184 | the trimmed window starts and ends on non-whitespace, with only whitespace outside it |
| Parser.ReverseScansAgree | src/parser.c:33-49 | parser.c's scan stops one codepoint after utf8.c's |
| Parser.TrimsAgreeOnSingleByteEnd | src/utf8.c:169-181 | the two trims agree on the start, and on the size exactly when the last codepoint is one byte |
| Parser.TrimOfTwoByteCodepoint | src/utf8.c:169-181 | on `é`, parser.c keeps 2 bytes and utf8.c 1 |
| Parser.ValidExpIntoObject | src/parser.c:227-251 | `valid_exp_into_object` computes the specified parse |
| Parser.ValidSexpIntoCons | src/parser.c:186-225 | `valid_sexp_into_cons` computes the specified list |
| Parser.ReadItems | src/parser.c:199-222 | the token loop reads the specified items |
| Parser.ItemsStep | src/parser.c:199-222 | each token's text is parsed in turn, its error first |
| ParserLaws.ParseBlank | src/parser.c:227-251 | parsing answers nothing exactly when the text is all whitespace |
| ParserLaws.ParseSymbol | src/parser.c:227-251 | text not opening with `(` parses to a symbol of the trimmed text |
| ParserLaws.TrimSome | src/parser.c:171-184 | text that is not all whitespace trims to the window between the forward and the backward scan |
| ParserLaws.ParseWindow | src/parser.c:227-230 | the parse of a text is the parse of its trimmed window |
| ParserLaws.ExpSymbol | src/parser.c:242-248 | a nonempty trimmed text that does not open with `(` is a symbol holding that text |
| ParserLaws.ScanNested | src/utf8.c:90-107 | a parenthesised group is matched at its own end, whatever follows |
| ParserLaws.UnparseShape | src/parser.c:186-225 | printed text is balanced, opens with a non-whitespace codepoint, and ends in its last byte |
| ParserLaws.TokenOfItem | src/utf8.c:146-167 | the tokeniser finds each printed item exactly |
| ParserLaws.ItemsOfJoin | src/parser.c:186-225 | the item loop reads back the items that were printed |
| ParserLaws.TrimUnparse | src/parser.c:171-184 | printed text needs no trimming |
| ParserLaws.ParseUnparse | src/parser.c:186-251 | printing a tree of symbols and lists and parsing it back gives the same tree |
| PrettyPrint.ReplaceLength | src/prettyprint.c:15-23 | the size the count pass computes is the length of the replaced text |
| PrettyPrint.ReplaceAbsent | src/prettyprint.c:8-38 | text without the word is copied unchanged |
| PrettyPrint.ReplaceSame | src/prettyprint.c:8-38 | replacing a word by itself changes nothing |
| PrettyPrint.CountOccurrences | src/prettyprint.c:15-21 | the count loop counts leftmost, non-overlapping occurrences |
| PrettyPrint.StrCpy | src/prettyprint.c:28 | `strcpy` writes the word and a NUL and leaves the bytes before alone |
| PrettyPrint.CopyStep | src/prettyprint.c:26-34 | one pass of the copy loop moves forward and keeps the text written so far, followed by the rest of the replacement, equal to the whole replaced text |
| PrettyPrint.NewStrWithWordReplaced | src/prettyprint.c:8-38 | the fresh buffer holds exactly the replaced text and a NUL |
| PrettyPrint.EscapeIsReplace | src/prettyprint.c:58-62 | replacing `"` by `\"` is the per-byte escape |
| PrettyPrint.EscapedQuotes | src/prettyprint.c:58-62 | every quote of the escaped text follows a backslash |
| PrettyPrint.UnescapeEscape | src/prettyprint.c:58-62 | reading `\"` back as `"` recovers the string |
| PrettyPrint.LiteralCloses | src/prettyprint.c:58-62 | a printed string literal starts and ends with a quote, and every quote strictly between them follows a backslash |

## Left out

- **I/O and process setup.** The REPL and file reading of `schemin.c` and the `system.c` helpers are not part of this model, nor are `printf` output and the `error()` exit path. Fatal errors become `Err` values.
- **Operating system.** `malloc`, `realloc`, `mmap` and `free` are represented only by their effects on the modelled state. The `destroy_*` functions are left out, because freeing changes nothing the model observes.
- **UTF-8 decoding.** `utf8proc_iterate` and `utf8proc_category` are not modelled. A codepoint is a lead byte plus its continuation bytes. `is_whitespace` is the parameter `ws`. Invalid UTF-8, and the asserts on its decode errors, are not modelled.
- **`int` overflow.** The depth counter of `verify_matching_parens` and `scan2_for_closing_paren` could overflow; it is an unbounded integer here.
- **Evaluator budget.** `Evaluation.Eval` carries a step budget. An evaluation that does not finish within it answers `OutOfFuel`, and a divergent program is not told apart from one that needs more budget.
- **Cyclic lists.** The C walks follow cdrs without limit. The model stops them after one step per cell of the heap and answers `Diverges`, where C would loop forever.
- **Unseen helpers.** The interpreter calls helpers whose definitions are not part of this model's sources. The model gives each of them the behaviour below, and the evaluator's answers (`Evaluation.IsTrue`, `EvaluationLaws.EvalIfChooses`, `Primitives.CarPrimitive`) rest on these choices:
  - `get_lambda_entry`, `allocate_lambda`, `allocate_primitive` and `get_primitive_entry`: appends to and reads of their own arenas (`Memory.Store.AllocateLambda`, `Memory.LambdaAt` and the primitive counterparts).
  - `car` and `cdr`: reads of the two halves of the cons entry, where anything but a readable cons is the same error as reading its entry (`Environment.Car`, `Environment.Cdr`).
  - `cadr`, `cddr`, `caddr` and `cadddr`: compositions of `car` and `cdr`, each step failing as that step does (`Evaluation.Cadr` and its siblings).
  - `cons`: appends a fresh cell holding the two halves (`Memory.NewCons`); it never fails and never reuses a cell.
  - `is_eq`: identity of symbol objects, that is equality of their kind and index (`Evaluation.IsEqual`). The other kinds take `is_equal`'s own `error("not implemented")` path (interpreter.c:210-218).
  - `lambda`: allocates one closure entry holding the parameters and the body (`Memory.NewLambda`, `Memory.Store.AllocateLambda`).
  - `add_did_install_primitive_hook`: sets the flag `hooked` of `Interpreter.Interpreter`. `allocate_primitive` is taken to call the installed hook on each primitive it allocates, so each row of `primitives_init` becomes a global definition exactly when the flag is set (`Interpreter.InstallFrom`). A single hook is modelled, not a list of them.
  - `g_true` and `g_false`: values the interpreter is constructed with (`falseObj` and `trueObj`). `setup_env` binds them to `false` and `true`; the model does not create them, so it does not fix their kind.
  - `g_scheme_null`: the value `Memory.Null`.
- **`symbol`.** The function that turns a name into a symbol object (called at interpreter.c:174, 178, 198, 199, 224 and 240) is not part of this model's sources. `Environment.Intern` models it as interning by exact text: it answers the first symbol with that text (`Environment.FindSymbol`) and otherwise allocates a new one, so it only ever appends to the symbols.
- **Doubles and numbers.** Number and double objects are plain values. Their arithmetic is not part of this core.
- **The printer.** Only the string case of `print_object` is modelled. The cons, symbol and null cases are `printf` calls.
- **The parse tree.** A parsed expression is a value tree (`Parser.Parsed`) rather than cells allocated in the store.
- Memory.ConsAt: answers the entry allocated under the cons's index. C reads the slot `allocator_get_item_at_index` computes, which is that entry's slot only up to index 131056 (`Memory.ConsEntryRoundTrip`); from 131057 on C reads another slot, and that is not modelled.
- Memory.StringAt: answers the entry allocated under the string's index; C's computed slot is that entry's slot only up to index 2032 (`Memory.TextEntryRoundTrip`), and what C reads from 2033 on is not modelled.
- Memory.SymbolAt: the same as `Memory.StringAt`, for symbols.
- Memory.Store.GetConsEntry: answers the index of the allocated entry and states the slot C computes for it; the two agree only up to index 131056, and every caller reads the allocated entry, not the C slot.
- Memory.Store.GetStringEntry: as `Memory.Store.GetConsEntry`, agreeing up to index 2032.
- Memory.Store.GetSymbolEntry: as `Memory.Store.GetConsEntry`, agreeing up to index 2032.
- EnvironmentLaws.SetThenLookup: assumes that the written value cell is off the structure the lookup walks. Otherwise a write could redirect the search, which C allows.
- EnvironmentLaws.DefineThenLookup: assumes that the first frame's cells are separate from its name and value lists, and that the heap has room below 2^63.
- EvaluationLaws.EvalDefineThenLookup: assumes the same separation as `DefineThenLookup`.
- Allocator.PageArena.ItemAt: index bounds are checked against 2^63 as in C; the 64-bit wrap-around of `idx * element_size` is not modelled.
- Parser.Strnrchr: requires a nonempty window, because parser.c's loop starts at `size - 1`, which wraps around on 0. Its only caller is `scan_for_closing_paren` (`Parser.ScanForClosingParen`), which fails its `(` assertion on an empty window before it reaches `strnrchr`.
- PrettyPrint.NewStrWithWordReplaced: requires a nonempty word, because with an empty one the C loops never advance. `newlen - oldlen` is a `size_t` that may wrap; it is an integer here, and the product gives the same buffer size modulo 2^64.
- PrettyPrint.Replace: `strstr(&s[i], old) == &s[i]` is modelled as a prefix test at position i, which is what it decides.
- ParserLaws.ParseUnparse: covers trees of symbols and nonempty lists printed with single spaces. It needs a whitespace test under which a space is whitespace and parentheses are not.
