# Verified model of the JETH compiler's core algorithms

JETH compiles a TypeScript-syntax contract language to EVM bytecode. This project models the parts of
the compiler whose correctness rests on state, recursion or arithmetic, and proves what they are for:

- **`Diamond.dfy`** — the contract that `@diamond('array')` expands to: an EIP-2535 selector table held as
  four mutually dependent structures and edited by swap-and-pop at two levels. The class
  `DiamondContract` refines a plain map selector -> facet; the invariant that links the structures is
  weakened only between registering a facet and giving it its first selector.
- **`Ownership.dfy`** — the two-step ownership of the solidstate diamond, over whole runs.
- **`JethTypes.dfy`, `Layout.dfy`, `Leaves.dfy`, `SlotUse.dfy`** — the type system, the storage planner, the
  flattenings that transcode a packed storage aggregate into its ABI head, and that no slot is wasted.
- **`Signatures.dfy`, `AbiGrammar.dfy`** — the ABI type printer; signatures are uniquely decodable, and a reader
  written from the grammar of the contract ABI specification reads them back.
- **`Literals.dfy`** — exact rational values of decimal literals.
- **`Classify.dfy`** — the static/dynamic split and the predicates that choose a codec.
- **`Imports.dfy`, `ImportOrder.dfy`, `Renames.dfy`, `LineMaps.dfy`, `ParserLines.dfy`** — the import bundler: depth-first search
  with cycle detection, per-file renaming, line-preserving concatenation and the way back, for the bundler's
  lines and for the parser's.
- **`EnumReader.dfy`, `EnumNesting.dfy`, `QuotedBraces.dfy`, `EnumPlacement.dfy`, `EnumWitnesses.dfy`, `Hoister.dfy`** — moving
  enums out of class bodies without shifting an offset or losing a character, and which enums those are.
- **`Linking.dfy`** — deploying libraries bottom-up and substituting their addresses.
- **`YulCache.dfy`** — the Yul cache that several processes share.
- `Wrappers.dfy`, `Sequences.dfy`, `Decimals.dfy`, `Strings.dfy` — options and results, elements of sequences,
  numerals, facts about strings.

Code that computes a value by recursion is a function with lemmas about it. Code that updates state is a
method or a class whose `ensures` ties the new state to a specification function of the old one; the
lemmas then say what that function means.

## Reading the results

Where the code and its documentation part ways, the model follows the code, and a lemma says exactly when
the documented claim holds:

- `storageSlotCount` of a struct equals the planner's slot count if and only if the struct has a field
  (`Layout.SlotCountsAgree`): for an empty struct the one says 1 and the other 0.
- A type's slots all hold leaves if and only if no struct in it is empty (`SlotUse.SlotsAreUsedIff`): an empty
  struct reserves one.
- `demangleModuleName` gives back the source name if and only if that name contains no `$m<digits>$`
  block (`Renames.DemangleRestores`). The reserved-prefix check only looks at the start of a name, so
  `A$m1$B` passes it and loses its middle (`Renames.DemangleLosesInnerBlock`).
- `isFuncrefValueAggregate` is documented as true of exactly the flat aggregates that contain a function
  pointer. It is also true of a recursive reference's empty struct (`Classify.SentinelIsNoFuncrefAggregate`);
  `Classify.FuncrefAggregateIff` gives the condition.
- The cache key separates its parts by NUL. It tells requests apart if and only if their names hold no NUL
  (`YulCache.CleanIffUnambiguous`, with `YulCache.NulCollides` as an instance).
- A cache file may be read in part or left damaged. It is safe if and only if no part of it parses to
  anything but the backend's answer (`YulCache.FileOkIff`); a text cut short is
  (`YulCache.CutShortIsUnreadable`).
- The enum hoister is documented to move exactly the enums that stand directly in a class body. It takes every
  word `class` to announce a class body at the next brace, every word `enum` with a brace behind it for an enum,
  counts the braces in strings and comments, and ends a line comment at a line feed only. A second reading tells
  keywords from names, finds the class body behind the heritage clause, passes over strings and comments and
  ends a line comment at every line end. The two find the same enums and errors if and only if they judge every
  word `enum` alike (`EnumPlacement.ReadingsAgreeIff`): what the second takes for an enum in a class body has
  harmless quoted delimiters (`QuotedBraces.EnumEndsAgreeIff`) and lies in a class body for the source too, and
  what it does not take for one, the source does not either, nor does one find anything where the other is still
  in a line comment. They do so if every `class` is a keyword with no brace between it and its body, every
  `enum` in a class body declares a harmless enum, and line comments end with line feeds
  (`EnumPlacement.PlainTextIsWellPlaced`). They do not if a field is named `class` (an enum in a method's body
  is moved), a method is named `enum` (it is moved), an enum's comment holds a closing brace (an enum in a
  method's body is moved), a type literal stands in a heritage clause or a line comment ends with a carriage
  return (an enum in the class body stays): `EnumWitnesses`.
- Hoisting is documented to keep line numbers. For the parser's lines it does if and only if no hoisted span
  holds a lone carriage return, U+2028 or U+2029 (`Hoister.LinesKeptIff`).
- Diagnostics are numbered by the parser, segments by the bundler, which knows no U+2028 and U+2029. The two
  count the same lines if and only if the text holds neither (`ParserLines.LinesAgreeIff`), and every
  diagnostic of a bundle returns to its file and line if and only if no file does (`ParserLines.AllReturnIff`).

Assumptions are parameters or predicates that the contracts name: which addresses hold code and whether
the `_init` call succeeds (`Diamond`), that no call comes from the zero address (`Ownership`), a pure
backend, a collision-free hash and a JSON writer that the reader inverts and of whose texts it parses no
proper prefix (`YulCache.World.Sound`), names without `(` (`Signatures`), export lists that hold top-level
names (`Renames.ExportsAreTopLevel`), and what the type resolver guarantees of widths and lengths
(`JethTypes.Sized`).

## Model

| member | source | states |
|---|---|---|
| Diamond.DiamondContract.DiamondCut | src/diamond.ts:207-255 | For every owner, cut and environment: for the owner of an unfrozen diamond either every entry could be performed in order, each routing or unrouting exactly its selectors, and the table is the last one reached, or the storage is as it was and the error is that of the first failing guard of the first entry that could not |
| Diamond.DiamondContract.RunCuts | src/diamond.ts:210-252 | The loop over entries keeps all links between the four structures and refines the abstract fold, error for error |
| Diamond.DiamondContract.CutAdd | src/diamond.ts:214-226 | The add branch refines the abstract add although its facet may be registered with an empty list while it runs |
| Diamond.DiamondContract.CutReplace | src/diamond.ts:227-241 | The replace branch refines the abstract replace; removing from the old facet may unregister it in mid-loop |
| Diamond.DiamondContract.CutRemove | src/diamond.ts:242-249 | The remove branch refines the abstract remove |
| Diamond.DiamondContract.OpenFacet | src/diamond.ts:217-218 | The code check is made exactly when no selector routes to the facet, and the cast of the list length to 96 bits loses nothing |
| Diamond.DiamondContract.ReplaceFunction | src/diamond.ts:229-239 | One replacement reroutes exactly one selector; its guards fail in the source's order; the next position still fits 96 bits |
| Diamond.DiamondContract.AddFacet | src/diamond.ts:257-261 | Registers the facet with an empty list, the one weakening of the invariant, or fails without effect if there is no code |
| Diamond.DiamondContract.AddFunction | src/diamond.ts:262-266 | Closes that window: afterwards everything is linked again and exactly one more selector is routed |
| Diamond.DiamondContract.RemoveFunction | src/diamond.ts:267-289 | Both swap-and-pops together unroute exactly one selector and keep every link, also while another facet is pending; no length underflows |
| Diamond.DiamondContract.DropFacet | src/diamond.ts:279-288 | The facet-level swap-and-pop does what the specified update does |
| Diamond.DiamondContract.constructor | src/diamond.ts:164-177 | A fresh diamond routes nothing and is linked |
| Diamond.DiamondContract.FacetFunctionSelectors | src/diamond.ts:190-195 | The copy loop returns exactly the selectors routed to the facet, each once |
| Diamond.DiamondContract.FacetAddresses | src/diamond.ts:196 | Returns exactly the facets some selector routes to, each once |
| Diamond.DiamondContract.FacetAddress | src/diamond.ts:197-199 | Returns the facet a selector routes to, and zero exactly for unrouted selectors |
| Diamond.DiamondContract.TransferOwnership | src/diamond.ts:180-185 | Only the owner changes the owner; nothing else changes |
| Diamond.DiamondContract.FreezeDiamond | src/diamond.ts:202-205 | Only the owner freezes; nothing else changes |
| Diamond.EntryMeaning | src/diamond.ts:210-252 | One entry, of any action byte: it succeeds iff its facet is registered or holds code and its selectors are distinct and unrouted, or routed elsewhere, or routed and not the diamond's own; it then routes or unroutes exactly those; and it raises the error of the first guard that fails, head guards before selectors, selectors in order |
| Diamond.CutsMeaning | src/diamond.ts:210-252 | A whole cut passes through stages, each the previous with one entry performed, up to its end or to the first entry that fails |
| Diamond.StagesUnique | src/diamond.ts:210-252 | No other stages exist: whenever entries can be performed in order, the cut leaves the last table |
| Diamond.FrozenIsFinal | src/diamond.ts:202-209 | No run of calls by anyone changes a frozen diamond's table or thaws it |
| Diamond.OwnFunctionsOutliveRuns | src/diamond.ts:207-269 | No run of calls ever unroutes or reroutes a selector that the table routes to the diamond's own address |
| Diamond.OwnFunctionsSurvive | src/diamond.ts:207-252 | The same for one successful cut of any length |
| Diamond.AddMeaning | src/diamond.ts:214-226 | An add succeeds iff its selectors are distinct and unrouted, and then routes exactly those |
| Diamond.ReplaceMeaning | src/diamond.ts:227-241 | A replace succeeds iff its selectors are distinct, routed, and not already at the facet or at the diamond; it changes exactly those |
| Diamond.RemoveMeaning | src/diamond.ts:242-249 | A remove succeeds iff its selectors are distinct, routed and not the diamond's own; it unroutes exactly those |
| Diamond.CutsCompose | src/diamond.ts:210-252 | Cutting `a ++ b` at once is cutting `a`, then `b` |
| Diamond.RemoveUndoesAdd | src/diamond.ts:214-249 | Removing what was just added restores the table |
| Diamond.AddFacetKeepsLinks | src/diamond.ts:257-261 | Registering a facet breaks no link but the one of its own empty list |
| Diamond.AddFunctionKeepsLinks | src/diamond.ts:262-266 | Adding a selector at the end of its facet's list restores the full invariant |
| Diamond.RemoveSelectorKeepsLinks | src/diamond.ts:270-278 | Swap-and-pop in the selector list keeps selector index and lists mutual inverses |
| Diamond.RemoveFacetKeepsLinks | src/diamond.ts:279-288 | Swap-and-pop in the facet list keeps positions and facet list mutual inverses |
| Diamond.RemoveFunctionKeepsLinks | src/diamond.ts:267-289 | The two together keep every link and unroute exactly one selector |
| Diamond.SwapPopContents | src/diamond.ts:272-277 | Swap-and-pop loses exactly one element |
| Diamond.ListedIffRouted | src/diamond.ts:190-199 | A facet's list holds exactly the selectors routed to it, each once |
| Diamond.FacetsListedIffRouted | src/diamond.ts:196-199 | The facet list holds exactly the facets with selectors, each once |
| Diamond.ListsAreBounded | src/diamond.ts:217-271 | By pigeonhole no list exceeds 2^32 entries, and the list lengths add up to the number of routed selectors, so no cast truncates and no counter overflows |
| Ownership.OwnershipPassesByConsent | src/diamond.ts:410-420 | Over every run of calls by anyone: ownership passes only to an account that accepts by its own call and that the owner of that moment had nominated, with no other nomination or owner in between |
| Ownership.NomineeIsOwnersChoice | src/diamond.ts:410-420 | At every point of every run the nominee, if any, was nominated by the present owner |
| Ownership.FrozenForever | src/diamond.ts:440-443 | Once frozen, always frozen |
| Ownership.OfferCanBeTaken | src/diamond.ts:410-420 | At any point of any run an account that the owner nominates can take over at once, which changes nothing else |
| Ownership.OwnerFreezes | src/diamond.ts:440-443 | At any point the owner's call freezes the diamond for the rest of the run |
| Ownership.SafeOwnable.TransferOwnership | src/diamond.ts:410-413 | Names a nominee and transfers nothing; only the owner may |
| Ownership.SafeOwnable.AcceptOwnership | src/diamond.ts:414-420 | Only the nominee takes over, which clears the nomination |
| Ownership.SafeOwnable.SetFallbackAddress | src/diamond.ts:425-428 | Only the owner sets the fallback |
| Ownership.SafeOwnable.FreezeDiamond | src/diamond.ts:440-443 | Only the owner freezes |
| JethTypes.ArrayElemPacks | src/types.ts:852-861 | The packed elements of one slot fit into 32 bytes |
| Layout.PlanLayout | src/layout.ts:45-79 | The planner's loop keeps order, names and types and puts every variable where the specified plan does |
| Layout.PlanIsLegal | src/layout.ts:45-79 | The plan never overlaps two variables, starts whole-slot types at offset 0 and lets no packed variable cross a slot |
| Layout.PlanIsEarliest | src/layout.ts:45-79 | No legal order-preserving layout puts any variable earlier than the plan does |
| Layout.SlotCountIsMinimal | src/layout.ts:77-79 | The slot count is the least any legal layout fits in |
| Layout.PlanFits | src/layout.ts:77-79 | The plan fits in that many slots |
| Layout.PlanIsAppendStable | src/layout.ts:45-79 | Appending variables moves none of the existing ones |
| Layout.NextIsEarliest | src/layout.ts:52-75 | Each step picks the earliest admissible place at or behind the cursor |
| Layout.SlotCountsAgree | src/types.ts:130-135 | The size taken from a struct's last field equals the planner's slot count iff the struct has a field |
| Leaves.StorageMatchesAbi | src/types.ts:195-234 | For every well-formed type nested to any depth: leaf i has ABI word i and leaf type i of the ABI flattening, there are `abiHeadWords` many, all lie inside the first `storageSlotCount` slots, none crosses a slot, and no two share a byte |
| Leaves.LeavesAreRanged | src/types.ts:195-234 | The leaves of any sub-value, at any admissible place, lie in order and without overlap within the bytes the planner reserves for it |
| Leaves.LeavesAreNumbered | src/types.ts:195-234 | The storage flattening visits the leaves in ABI order without gaps |
| Leaves.HeadWordsCountLeaves | src/types.ts:186-190 | A type has one head word per leaf |
| Leaves.LeafTypesAreLeaves | src/types.ts:195-234 | Both flattenings stop at types that are no structs or fixed arrays, whose byte width is their storage size |
| Leaves.PackedElementsAreRanged | src/types.ts:213-226 | Elements that share slots lie in order, without overlap, and none crosses a slot |
| Leaves.AbiLeaves | src/types.ts:164-183 | The push loops yield one entry per head word, numbered from 0, with the leaf types in order |
| Leaves.StructStorageLeaves | src/types.ts:195-234 | The recursive walk with its push loops yields exactly the leaves the theorems above are about |
| Leaves.Walk | src/types.ts:199-231 | Each recursive call appends exactly the leaves of its own value |
| SlotUse.SlotsAreUsedIff | src/types.ts:128-145 | For every well-formed type: the slots below `storageSlotCount` are exactly those that hold leaves of the storage flattening iff no struct in the type is empty |
| SlotUse.PackedNeighbours | src/types.ts:213-218 | Consecutive elements of a packed array share a slot whenever the second still fits behind the first, and otherwise the second begins the next slot |
| SlotUse.PacksIff | src/types.ts:852-861 | Exactly the single values that need fewer than 32 bytes, but no addresses, share slots in arrays |
| SlotUse.WidthIsLeast | src/types.ts:236-262 | The bytes reserved for a single value are the least that tell its type's values apart |
| Signatures.SignaturesDecode | src/selectors.ts:19-21 | Two signatures are equal iff the function names are and the parameter types agree up to brands, enum members, payability and struct and field names, for all ABI types |
| Signatures.TypesSplit | src/types.ts:54-86 | A canonical name followed by any separator determines the type up to erasure and what follows, through nested tuples and arrays of arrays |
| Signatures.FieldsSplit | src/types.ts:75-77 | A tuple's text determines its field types and what follows the closing parenthesis |
| Signatures.ErasedName | src/types.ts:54-86 | Erasure changes no canonical name, so it forgets no more than the printer does |
| AbiGrammar.SignatureReadsBack | src/selectors.ts:19-21 | A reader written from the ABI grammar reads every signature back to the function's name and the erased parameter types |
| AbiGrammar.ReadsType | src/types.ts:54-86 | The same for every type name, through nested tuples and arrays of arrays, whatever separator follows |
| Literals.NumericLiteralRational | src/types.ts:899-919 | For every text: a result iff it is that of a decimal literal whose exponent less its fraction digits is within 4096, and then the number the text means, read digit by digit with underscores passed over, a minus sign counting and the point moved, in lowest terms with a positive denominator |
| Literals.WholeValueAgrees | src/types.ts:880-892 | `numericLiteralWholeValue` gives v iff the reduced rational is v/1, on every literal within the cap |
| Literals.WholeValueMeaning | src/types.ts:880-892 | On every text `numericLiteralWholeValue` gives v iff the text is a literal within the cap that means v |
| Literals.DenotesMeaning | src/types.ts:900-906 | Stripping underscores and shifting by the exponent gives the number that the text means |
| Literals.UnreducedIsExact | src/types.ts:903-910 | The quotient before reduction equals the positional value of digits, fraction and exponent |
| Literals.Euclid | src/types.ts:912-917 | The loop ends and computes the greatest common divisor |
| Literals.LowestTerms | src/types.ts:917-918 | Dividing by it leaves no common divisor, and denominator 1 exactly if the quotient is whole |
| Literals.MatchReadsText | src/types.ts:900 | The regular expression reads back every well-formed literal |
| Literals.MatchedIsText | src/types.ts:900 | And accepts nothing else |
| Classify.StaticIff | src/types.ts:115-158 | Static holds iff dynamic does not and nothing unsized is held by value; so never both, and exactly when neither |
| Classify.ExactlyOneOnData | src/types.ts:115-158 | Exactly one holds on types without mapping, function pointer, void and recursive reference |
| Classify.FamiliesDisjoint | src/types.ts:538-646 | No type belongs to two of the fixed-outer families (static-struct, bytes, value, dynamic-struct leaf) |
| Classify.AdmitsIff | src/types.ts:538-646 | Each family is exactly: a fixed outer level, a certain kind of leaf, and certain levels above it |
| Classify.DynLeafFixedIff | src/types.ts:623-626 | The pointer-headed fixed family is exactly the bytes family and the value family behind a dynamic level, and admits nothing static |
| Classify.DynStructFixedIff | src/types.ts:639-646 | Admits exactly the all-fixed arrays over an admissible dynamic struct |
| Classify.DynBytesFixedIff | src/types.ts:603-608 | Admits exactly byte-sequence leaves under fixed levels outside dynamic ones |
| Classify.DynBytesIff | src/types.ts:589-594 | Admits exactly byte-sequence leaves under dynamic levels |
| Classify.StaticStructAnyIff | src/types.ts:554-559 | Admits exactly the arrays, of any levels, over a static struct |
| Classify.ValueLeafIff | src/types.ts:816-820 | Admits exactly the arrays, of any levels, over a value type |
| Classify.FixedValueIff | src/types.ts:841-844 | Admits exactly the static arrays over a value type |
| Classify.FieldOkIsNotForeign | src/types.ts:703-726 | No admitted field holds a function pointer, mapping, void or a recursive reference's empty struct at any depth |
| Classify.FieldOkHasNoRecursion | src/types.ts:20-28 | So none holds a recursive reference at all, if those are empty structs, as the type resolver makes them |
| Classify.FieldOkIff | src/types.ts:703-726 | A field is admitted iff it is an array of any levels over a single value, one over a byte sequence with fixed levels outside, or a struct of admitted fields or of static data, alone, in fixed arrays or in one dynamic array |
| Classify.FuncrefTwinExact | src/types.ts:736-740 | The direct-field test misses nothing: it holds iff a function pointer occurs at any depth and the struct is a dynamic-struct leaf with a word for each direct one |
| Classify.FuncrefAggregateIff | src/types.ts:382-388 | The documented meaning of the flat function-pointer aggregate holds iff no recursive reference stands where no function pointer does |
| Classify.SentinelIsNoFuncrefAggregate | src/types.ts:386-388 | A type on which it fails |
| Classify.FlatIffStaticAsWords | src/types.ts:369-380 | A flat aggregate is one that is static once function pointers are read as words |
| Classify.SameHeadWords | src/types.ts:369-373 | And that reading changes no image size |
| Imports.Bundle | src/imports.ts:345-510 | The search ends; it succeeds iff no import cycle is reachable and every reachable file keeps the rules: its import statements have a supported form and name a source, every imported name is one that its target marks `export` and is bound to one declaration, and no name to be renamed is taken; the order is then the depth-first post-order by import statement and holds exactly the reachable files, once each, dependencies first, the entry last; an error states a fact about the project, a cycle report being a real cycle |
| Imports.Bundler.Visit | src/imports.ts:370-515 | One recursive visit keeps the search invariant, leaves the stack as it was and extends the order by the post-order of what is new |
| Imports.Bundler.VisitImports | src/imports.ts:403-494 | The walk over a file's import statements finishes all its targets and binds its names |
| Imports.Project.TopologicalMeaning | src/imports.ts:510-517 | An order with dependencies first that holds the entry holds every reachable file and rules out reachable cycles |
| Imports.Project.ClosesCycle | src/imports.ts:371-377 | Meeting a file on the stack closes a cycle |
| Imports.JustifiedMeaning | src/imports.ts:371-435 | Every reported error excludes success |
| Imports.BundlesIff | src/imports.ts:403-505 | The checks made in the course of the search amount to those rules |
| ImportOrder.ImportsInOrder | src/imports.ts:403-494 | What the entry's first import statements need stands in front of everything that they do not need |
| Renames.BindingsLink | src/imports.ts:526-540 | Every import binding is renamed to exactly the name its target file gives the original declaration |
| Imports.ImportsBindIff | src/imports.ts:429-455 | A file's import lists are accepted iff no alias is reserved and no local name is bound to two declarations; every specifier is then bound to the declaration it names |
| Renames.OwnNamesKept | src/imports.ts:526-540 | No binding overwrites a dependency's own scoped name |
| Renames.RenamedNamesAreFree | src/imports.ts:457-505 | No spelling that a file's rename map changes is that of a nested declaration, parameter or local of the file, and no import is one of its own declarations |
| Renames.EntryKeepsNames | src/imports.ts:526-540 | The entry's own declarations are never renamed |
| Renames.ScopedNamesDistinct | src/imports.ts:512-536 | Two dependencies share a scoped name only for the same declaration |
| Renames.ScopedInjective | src/imports.ts:536 | Index and name can be read off a scoped name |
| Renames.ScopedIsReserved | src/compile.ts:836-848 | Every scoped name is one the reserved-prefix check refuses to users |
| Renames.BuildRenames | src/imports.ts:526-540 | The loops build exactly the specified map |
| Renames.DemangleRestores | src/diagnostics.ts:41-43 | Demangling a scoped name restores the source name iff that contains no `$m<digits>$` block |
| Renames.DemangleShrinks | src/diagnostics.ts:41-43 | Demangling changes exactly the names that contain a block, and shortens those |
| Renames.DemangleLosesInnerBlock | src/diagnostics.ts:41-43 | A user-writable name that it does not restore |
| Renames.DemangleIs | src/diagnostics.ts:41-43 | Demangling drops a `$m<digits>$` block that stands at the front and keeps a character at which none begins |
| LineMaps.RemapInvertsBundle | src/imports.ts:81-91 | A diagnostic on any line of the bundle, as the bundler counts lines, goes back to the file and line that the bundle line is, and one elsewhere is left alone |
| ParserLines.AllReturnIff | src/imports.ts:81-91 | Every diagnostic on a line that the parser sees returns to the file and the line there that it belongs to iff no file holds U+2028 or U+2029 |
| ParserLines.LinesAgreeIff | src/imports.ts:225-227 | The parser sees the lines that the bundler counts iff the text holds neither |
| LineMaps.OriginUnique | src/imports.ts:548-557 | That file and line are unique |
| LineMaps.EmitBundle | src/imports.ts:548-557 | The segments tile the bundle's lines with no gap or overlap |
| LineMaps.BundleLine | src/imports.ts:548-557 | Line `startLine + k` of the bundle is line k of the file's blanked text |
| LineMaps.LinesOfJoin | src/imports.ts:225-227 | Joining normalized texts concatenates their lines |
| LineMaps.LinesJoin | src/imports.ts:225-227 | The lines of a normalized text hold no line break, and joined by line feeds they are the text |
| LineMaps.NormalizeKeepsLines | src/imports.ts:349 | Normalizing line ends leaves no carriage return and changes no line |
| LineMaps.BlankSpan | src/imports.ts:216-223 | Inside the span all but line breaks become spaces, outside nothing changes |
| LineMaps.LayoutKeepsLines | src/imports.ts:215-223 | Texts of one layout, as before and after any blanking, have the same number of lines of the same lengths |
| LineMaps.BundledKeepsLines | src/imports.ts:215-227 | Normalizing an original text and blanking any spans of it keeps the number and the length of every line |
| LineMaps.RemapDiagnostics | src/imports.ts:81-91 | The loop in place moves every diagnostic by its first covering segment |
| Hoister.HoistInClassEnums | src/parser.ts:79-223 | For every text: the errors are exactly those of the token-level reading; every character outside its enums and every newline stays in place, the rest becomes a space, and each of the enums stands again behind the text; if every word `enum` is judged as the language does, these are the language's enums and errors |
| Hoister.FindEnums | src/parser.ts:79-209 | The scanner ends, and its spans and errors are those of the token-level reading |
| Hoister.Advance | src/parser.ts:95-208 | One pass through the loop makes progress and finds what the token reader finds, also inside words |
| Hoister.KeywordAt | src/parser.ts:123-129 | The neighbour test recognizes a keyword exactly where a maximal word equals it |
| EnumPlacement.ReadingsAgreeIff | src/parser.ts:61-67 | The source's reading finds the same enums and errors as the language's iff, with the two followed side by side, every word `enum` is judged alike and neither finds anything inside what the other takes for a comment |
| EnumPlacement.VerdictsAgreeIff | src/parser.ts:148-187 | One word `enum` is judged alike iff, where it declares an enum directly in a class body, the source takes the brace around it for a class body's, sees the same modifiers and finds the delimiters quoted in the enum harmless, and where it does not, the source sees another brace around it or none behind it |
| EnumPlacement.HoistedIff | src/parser.ts:61-67 | If so, an enum is hoisted iff it is declared directly inside a class body with no modifier pending; it reaches to the brace that closes it |
| EnumPlacement.MisplacedIff | src/parser.ts:69-74 | If so, an enum is reported instead iff modifiers are pending there; the error carries the span, the words and the name |
| EnumPlacement.PlainTextIsWellPlaced | src/parser.ts:123-187 | The two readings agree on every text in which `class` is used as a keyword with no brace in the class head, `enum` in a class body as the keyword of a harmless enum, and line comments end with line feeds |
| EnumWitnesses.FieldNamedClassMovesEnum | src/parser.ts:123-133 | A text with a field named `class`, of which the source moves an enum out of a method's body |
| EnumWitnesses.MethodNamedEnumIsMoved | src/parser.ts:148-187 | A text of which it moves a method named `enum` |
| EnumWitnesses.HeritageLiteralKeepsEnum | src/parser.ts:134-140 | A text with a type literal in a heritage clause, of which it leaves an enum in the class body |
| EnumWitnesses.ReturnInCommentKeepsEnum | src/parser.ts:113-117 | A text whose line comment ends with a carriage return, of which it leaves the enum behind it in the class body |
| EnumWitnesses.CommentBraceMovesEnum | src/parser.ts:155-170 | A text with a brace in an enum's comment, of which it moves an enum out of a method's body |
| QuotedBraces.EnumEndsAgreeIff | src/parser.ts:155-170 | The two find the same end of an enum iff the braces in its strings and comments never bring the count to zero inside it and cancel out at its end, and none of its head's decides whether a body opens |
| QuotedBraces.NothingQuotedIsHarmless | src/parser.ts:155-170 | An enum is harmless if none of its strings and comments holds a brace or semicolon |
| EnumReader.HoistedAs | src/parser.ts:148-187 | In either reading, an enum is hoisted iff the reader stands at the word `enum` in what is a class body to it, with no modifier pending, and sees an enum there |
| EnumReader.MisplacedAs | src/parser.ts:148-187 | In either reading, it is reported instead iff modifiers are pending there |
| EnumReader.MisplacedMeaning | src/parser.ts:156-202 | An error's modifiers are exactly the words from its start to the `enum` keyword, with only white space and comments between |
| EnumReader.ScanInOrder | src/parser.ts:81-209 | Hoisted and reported spans are within the text, increasing and disjoint |
| EnumReader.ModifiedEnumIsReported | src/parser.ts:164-205 | In either reading, no enum behind a modifier is moved, with any white space and comments between: it is reported |
| EnumReader.StringEndIs | src/parser.ts:97-111 | A string ends behind its first quote that stands behind an even number of backslashes, and with the text if there is none |
| EnumReader.EnumNameIs | src/parser.ts:172-177 | The reported name is the whole word behind the keyword and at least one white space, or nothing |
| EnumNesting.InnermostBrace | src/parser.ts:91-94 | In either reading, what stands behind an open brace with all later ones closed is in a class body iff that brace opens one |
| EnumNesting.OutsideBraces | src/parser.ts:91-94 | What stands outside all braces is in none |
| EnumNesting.ClassBehindWord | src/parser.ts:123-140 | To the source, the first brace behind a word `class` opens a class body |
| EnumNesting.NoneWithoutWord | src/parser.ts:123-140 | To the source, a brace with no such word between it and the opening brace before opens none |
| QuotedBraces.RawEnumEndIff | src/parser.ts:155-170 | To the source, an enum opens iff the first brace or semicolon behind its keyword is an opening brace, and ends where the braces from there on first cancel out |
| Hoister.BlankedAt | src/parser.ts:210-221 | Every offset stays: a character in a hoisted span becomes a space unless it is a newline, every other one is kept |
| Hoister.LinesKeptIff | src/parser.ts:67-68 | Every line number and line start that the parser sees stays iff no hoisted span holds a carriage return without a line feed behind it, U+2028 or U+2029 |
| Hoister.OriginalRecovered | src/parser.ts:210-222 | The original text is recovered from the output and the spans |
| Hoister.MoveSpans | src/parser.ts:211-222 | The assembly loop yields the blanked text followed by the spans in order |
| Linking.DeployLinked | src/evm.ts:98-149 | The libraries are deployed in exactly the work order that the passes through the list define, each behind all it references, none twice, linked against those before it; the contract is reached only with all deployed; a failure has exactly the cause it names: the next library in that order, the contract, or, with the names of the rest as listed, that no complete order exists |
| Linking.WorkOrderMeaning | src/evm.ts:132-147 | The work order has dependencies first, and is complete iff a complete order exists |
| Linking.OrderedListStands | src/evm.ts:132-147 | A list with dependencies first already is deployed as it stands |
| Linking.StuckIsUndeployable | src/evm.ts:144-145 | If every remaining library waits for a remaining one, no order exists |
| Linking.SomeLibraryIsNext | src/evm.ts:134-146 | If an order exists, every partial run has a next library |
| Linking.ReadyLinks | src/evm.ts:109-140 | Linking a library whose references are deployed can only fail on a bad placeholder length |
| Linking.Link | src/evm.ts:109-124 | Linking succeeds iff every library referenced is deployed and every placeholder listed takes 20 bytes; placeholders within the code that do not overlap then hold the digits of their library's address behind zeros, and every other character stays; an error names a library or length that is wrong |
| Linking.RunSucceedsIff | src/evm.ts:112-117 | Linking fails iff a library it looks up is not deployed or a placeholder is not 20 bytes long |
| Linking.LinkKeepsLength | src/evm.ts:118-119 | Linking never shortens the code and keeps its length iff every placeholder lies within it |
| Linking.LinkIsPointwise | src/evm.ts:109-124 | For in-range disjoint placeholders: the right library's digits at each, the original character everywhere else |
| Linking.AddressHexIs | src/evm.ts:115 | An address is written as zeros and then its digits, 40 characters in all |
| Linking.Strip0xIs | src/evm.ts:107-115 | `0x` in front is dropped, and nothing else |
| Linking.DepsIff | src/evm.ts:126-130 | A library's dependencies are exactly the libraries that its references name |
| Linking.StepsIff | src/evm.ts:112-120 | Every library referenced is looked up, every placeholder listed is filled, and nothing else is done |
| Linking.LinkOrderIrrelevant | src/evm.ts:112-122 | The order of substitutions does not matter |
| YulCache.CacheIsTransparent | src/solc.ts:86-100 | Over every interleaving of processes, with reads that see a part of a file, failed or torn writes, files left damaged and crashes anywhere, every call returns the uncached backend's answer |
| YulCache.FileOkIff | src/solc.ts:62-70 | A cache file is safe iff every reader with its key, however torn the read, gets the backend's answer or none |
| YulCache.ReadAnswersRightIff | src/solc.ts:62-70 | A call about to read is answered rightly, whatever part of the file it sees, iff the file is safe |
| YulCache.WrittenFileOk | src/solc.ts:79-80 | The complete text of a genuine result is safe |
| YulCache.CutShortIsUnreadable | src/solc.ts:62-70 | Nothing of a text cut short parses |
| YulCache.OnlySuccessesStored | src/solc.ts:86-100 | Whatever of a reachable cache file parses, and whatever a memory entry holds, is the backend's successful answer to every request with its key |
| YulCache.RunKeeps | src/solc.ts:62-100 | The cache invariant holds in every reachable state |
| YulCache.StepKeeps | src/solc.ts:62-100 | Every step of every process keeps it |
| YulCache.PreimageInjective | src/solc.ts:48-60 | Without NUL in version, EVM name and contract name the hashed text determines them and the Yul text |
| YulCache.CleanIffUnambiguous | src/solc.ts:48-60 | Version, EVM name and contract name hold no NUL iff no other request with such names has the same hashed text, of any solc version or of the same |
| YulCache.NulCollides | src/solc.ts:48-60 | Two requests that share a key |
| YulCache.Backend.CompileYul | src/solc.ts:86-100 | One process's call answers as the uncached backend whatever file operation throws, asks it only if the cache is off or neither level answers, and stores only a success |
| YulCache.Backend.ReadYulCache | src/solc.ts:62-70 | However much of the file is seen, a hit is a genuine result for the key, and it is a hit iff the file is there, the read does not throw and what it sees parses |
| YulCache.Backend.WriteYulCache | src/solc.ts:72-84 | A failed write leaves every finished file as it was |

## Left out

- Diamond: events, ERC-165, `facets()`, the router and the packed and solidstate cut builtins; the `_init` delegatecall and facet calls are taken not to touch the diamond's own storage, and `_init` is only a yes or no. The revert is modelled by restoring the storage snapshot.
- Ownership: the solidstate diamond's cut and loupe are raw-Yul builtins in `src/yul.ts`, which is not part of this model.
- Layout, Leaves: JavaScript's floating-point division is integer division here; all operands are small integers.
- Signatures: the hash of a signature; mappings, function pointers and void, which occur in no ABI position.
- Literals: an exponent too long for a JavaScript number, which lies beyond the cap in either reading.
- Classify: the topic, storage-copy and value-word predicates, which repeat these recursions on other leaves.
- Imports: the syntax tree; a file is its declared, exported, shadowing and nested names, its import statements in order, and one truth value each for the checks on single nodes. Path normalization, the ambiguous-sources error and the cross-file reference check are left out, as is `visibleByFile`.
- Renames: applying a rename map to a syntax tree; the maps alone are modelled.
- LineMaps: columns and lengths of diagnostics, which no step changes.
- EnumReader: in both readings a template literal is a string up to the next backtick, a string may run over a line's end, and a regular expression is punctuation. The language's reading takes the word behind a decorator or a modifier for a member's name, but not a `class` behind a field that only a line break ends; a `<` in a class head is a bracket.
- EnumReader: an error records also where its keyword stands, which the source's does not.
- Hoister: a character is a Unicode scalar value, so texts with unpaired surrogates, and the two code units of a character beyond the basic plane, are not told apart.
- Linking: the EVM; the outcome of the n-th deployment of a run is a parameter. Gas, callers and values are left out.
- YulCache: damage leaves a file of which nothing parses, such as one cut short; text of which some beginning parses to a wrong result is shown to be unsafe (`ReadAnswersRightIff`). A key's temporary file belongs to one live process; the JSON text of a result reads back as the result. Results handed out from memory are values here, so a caller that mutates one is outside the model.
- `src/cli.ts`, `src/abi.ts`, `src/validator.ts`, `src/typeresolver.ts` and the analyzer: argument handling, presentation and diagnostics over a foreign tree type.
