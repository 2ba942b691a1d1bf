# Alphabetical-ordering and synchronized-property macros, modelled in Dafny

This project models two Swift compile-time macros and proves properties of the model.

- `@AlphabeticalOrdering` is a peer macro. It checks two kinds of declaration:
  - an enum, whose case names must be in alphabetical order;
  - a variable whose first binding is initialised with an array literal of plain calls (`[foo(), bar()]`), whose callee names must be in alphabetical order.

  It adds no declarations. It either returns no peers or throws `invalidUsage` or `notAlphabeticallyOrdered(a, b)`.
- `@Synchronized` works in two roles.
  - As an accessor macro, it turns a typed, initialised stored property `name` into a getter and a setter. Both go through `name_lock` and `name_storage`.
  - As a peer macro, it declares `name_inner: T` and `name_lock = NSLock()` beside a named declaration.

Files:

- `syntax.dfy` (module `Syntax`): the syntax-tree node kinds the macros look at. These are declarations, pattern bindings, patterns, array elements and expressions. The module also defines which declarations have a name.
- `lexicographic.dfy` (module `Lexicographic`): the string order used by Swift's `>` in the ordering check. It proves that this is a strict total order and matches the textbook definition.
- `alphabetical_ordering.dfy` (module `AlphabeticalOrdering`): the ordering macro.
  - The loop `checkOrdering` is a method. It is proved equal to a functional specification.
  - Name extraction, dispatch and error descriptions are functions, with lemmas about them.
- `synchronized.dfy` (module `Synchronized`): both roles of the synchronized macro.
  - The generated accessors are short lists of abstract statements, such as `Lock(l)`, `ReadStorage(s)` and `DeferUnlock(l)`.
  - A small walk over those statements tracks whether the lock is held and whether an unlock is deferred. It is used to state the locking discipline of each generated accessor.

Modelling choices:

- `Outcome` gives the three ways the ordering macro can end.
  - `Returned`: the macro returns normally.
  - `Thrown`: it throws an error.
  - `Trapped`: a Swift runtime trap. This happens when `checkOrdering` receives an empty list, because its loop range `0..<count-1` then becomes `0..<-1`.

  An empty list is reachable in three ways: an enum with no cases, an enum whose members are all non-case declarations, and the literal `[]`.
- Swift's string `a > b` is modelled as `b < a` under lexicographic order of characters compared by code point.
- In the syntax library, a variable declaration is not a named declaration, since its names live in its bindings. Enum, struct, class, function, actor, protocol, typealias, associatedtype, macro and precedencegroup declarations are named declarations. The last six share the constructor `OtherNamedDecl`. As a result, the peer role declares nothing for a stored property (`StoredPropertyGetsNoPeers`).
- The naming mismatch in the synthesized code is reproduced as written. The accessors use `<name>_storage` but the peer role declares `<name>_inner`, and only `<name>_lock` is shared between them. `StorageNameNeverPeerName` proves that no choice of names makes the storage variable one the peer role declares.
- The setter releases its lock by a plain `unlock()`, while the getter uses a deferred unlock. This asymmetry is kept. `SetterDisciplined` shows that the setter would leave the lock held if it were exited after its lock or after its write.
- No I/O, clock or randomness is involved. The macro-expansion context and the attribute node are unused by the modelled code, so the model has no parameters for them.

## Model

| member | source | states |
|---|---|---|
| `Lexicographic.LessIrreflexive` | TestMacros/Sources/TestMacrosMacros/AlphabeticalOrderingMacro.swift:80 | no name sorts strictly before itself, so equal neighbours never count as out of order |
| `Lexicographic.LessTransitive` | TestMacros/Sources/TestMacrosMacros/AlphabeticalOrderingMacro.swift:80 | the string order used by the comparison is transitive |
| `Lexicographic.LessAsymmetric` | TestMacros/Sources/TestMacrosMacros/AlphabeticalOrderingMacro.swift:80 | if a sorts before b then b does not sort before a |
| `Lexicographic.LessTotal` | TestMacros/Sources/TestMacrosMacros/AlphabeticalOrderingMacro.swift:80 | any two different names are ordered one way or the other |
| `Lexicographic.NotLessIsLessOrEqual` | TestMacros/Sources/TestMacrosMacros/AlphabeticalOrderingMacro.swift:80 | "not a > b" is exactly "a <= b" |
| `Lexicographic.LessOrEqualTransitive` | TestMacros/Sources/TestMacrosMacros/AlphabeticalOrderingMacro.swift:80 | `<=` on names is transitive |
| `Lexicographic.LessCharacterization` | TestMacros/Sources/TestMacrosMacros/AlphabeticalOrderingMacro.swift:80 | a sorts before b iff a is a proper prefix of b, or the first difference has the smaller character in a (both directions) |
| `AlphabeticalOrdering.Description` | TestMacros/Sources/TestMacrosMacros/AlphabeticalOrderingMacro.swift:10-16 | invalidUsage gives the fixed usage message; notAlphabeticallyOrdered(a, b) gives "Elements are not alphabetically ordered. ", then a, " is before ", then b; only the usage message starts with '@' |
| `AlphabeticalOrdering.FirstViolation` | TestMacros/Sources/TestMacrosMacros/AlphabeticalOrderingMacro.swift:79-81 | the index found is out of order and every earlier pair from the start index is in order; None means every pair from the start index is in order |
| `AlphabeticalOrdering.Checked` | TestMacros/Sources/TestMacrosMacros/AlphabeticalOrderingMacro.swift:78-84 | traps iff the list is empty; returns iff it is non-empty with no adjacent pair out of order; otherwise throws notAlphabeticallyOrdered(s[i], s[i+1]) for the first out-of-order pair i |
| `AlphabeticalOrdering.CheckOrdering` | TestMacros/Sources/TestMacrosMacros/AlphabeticalOrderingMacro.swift:78-84 | the loop with its early throw computes exactly `Checked` |
| `AlphabeticalOrdering.CheckedPassesIffNonDecreasing` | TestMacros/Sources/TestMacrosMacros/AlphabeticalOrderingMacro.swift:78-84 | the check passes iff the list is non-empty and every adjacent pair has s[i] <= s[i+1], so equal neighbours are accepted; a one-element list passes |
| `AlphabeticalOrdering.CheckedPassImpliesSorted` | TestMacros/Sources/TestMacrosMacros/AlphabeticalOrderingMacro.swift:78-84 | a list that passes is sorted as a whole: s[i] <= s[j] for all i <= j |
| `AlphabeticalOrdering.CheckedReportsFirstViolation` | TestMacros/Sources/TestMacrosMacros/AlphabeticalOrderingMacro.swift:79-81 | a thrown check names an out-of-order pair before which every pair is in order |
| `AlphabeticalOrdering.EnumCaseNames` | TestMacros/Sources/TestMacrosMacros/AlphabeticalOrderingMacro.swift:41-46 | the flattened name list is empty exactly when no member contributes a case name |
| `AlphabeticalOrdering.CheckEnumOrdering` | TestMacros/Sources/TestMacrosMacros/AlphabeticalOrderingMacro.swift:39-49 | never throws invalidUsage; traps exactly when no member contributes a case name; returns exactly when the case names are non-empty and in order |
| `AlphabeticalOrdering.CaseNames` | TestMacros/Sources/TestMacrosMacros/AlphabeticalOrderingMacro.swift:42-45 | a case line gives all of its names left to right; any other member gives nothing |
| `AlphabeticalOrdering.EnumCaseNamesAppend` | TestMacros/Sources/TestMacrosMacros/AlphabeticalOrderingMacro.swift:41-46 | extraction follows member order: the names of a concatenation of member lists are the concatenation of their names |
| `AlphabeticalOrdering.NonCaseMemberSkipped` | TestMacros/Sources/TestMacrosMacros/AlphabeticalOrderingMacro.swift:42 | inserting a non-case member anywhere leaves the extracted names unchanged |
| `AlphabeticalOrdering.EnumCaseNamesMembership` | TestMacros/Sources/TestMacrosMacros/AlphabeticalOrderingMacro.swift:41-46 | a name is extracted iff some case line of the enum declares it |
| `AlphabeticalOrdering.CalleeName` | TestMacros/Sources/TestMacrosMacros/AlphabeticalOrderingMacro.swift:60-69 | an element yields a name iff it is a call whose callee is a plain name reference, and then it yields that base name |
| `AlphabeticalOrdering.CalleeNames` | TestMacros/Sources/TestMacrosMacros/AlphabeticalOrderingMacro.swift:59-70 | all or nothing: succeeds iff every element is a plain call, and then gives the callee names in element order |
| `AlphabeticalOrdering.FirstArrayLiteral` | TestMacros/Sources/TestMacrosMacros/AlphabeticalOrderingMacro.swift:52-57 | present exactly when there is a first binding whose initializer is an array literal, and then it holds that literal's elements |
| `AlphabeticalOrdering.CheckArrayOrdering` | TestMacros/Sources/TestMacrosMacros/AlphabeticalOrderingMacro.swift:51-74 | throws invalidUsage exactly when the declaration is malformed; otherwise it is the ordering check of the callee base names in element order |
| `AlphabeticalOrdering.Expansion` | TestMacros/Sources/TestMacrosMacros/AlphabeticalOrderingMacro.swift:27-35 | a successful expansion returns no peers; a declaration that is neither an enum nor a variable throws invalidUsage |
| `AlphabeticalOrdering.EnumExpansion` | TestMacros/Sources/TestMacrosMacros/AlphabeticalOrderingMacro.swift:27-49 | an enum passes iff its case names are non-empty and in order; traps iff it has no case names; otherwise throws on its first out-of-order pair |
| `AlphabeticalOrdering.ArrayInvalidUsage` | TestMacros/Sources/TestMacrosMacros/AlphabeticalOrderingMacro.swift:51-70 | a variable throws invalidUsage iff it has no first binding, the binding has no initializer, the initializer is not an array literal, or some element is not a plain call |
| `AlphabeticalOrdering.MalformedElementWins` | TestMacros/Sources/TestMacrosMacros/AlphabeticalOrderingMacro.swift:59-73 | one malformed element means invalidUsage, whatever the order of the other names |
| `AlphabeticalOrdering.WellFormedArrayChecksCallees` | TestMacros/Sources/TestMacrosMacros/AlphabeticalOrderingMacro.swift:59-73 | a well-formed literal is checked on exactly its callee base names, in element order |
| `AlphabeticalOrdering.OnlyFirstBindingExamined` | TestMacros/Sources/TestMacrosMacros/AlphabeticalOrderingMacro.swift:52-54 | bindings after the first never change the outcome |
| `AlphabeticalOrdering.EmptyArrayLiteralTraps` | TestMacros/Sources/TestMacrosMacros/AlphabeticalOrderingMacro.swift:79 | a variable initialised with `[]` reaches the loop with no names and traps |
| `AlphabeticalOrdering.FooBarNotOrdered` | TestMacros/Sources/TestMacrosMacros/AlphabeticalOrderingMacro.swift:59-81 | `[foo(), bar()]` throws notAlphabeticallyOrdered("foo", "bar") |
| `Synchronized.Description` | TestMacros/Sources/TestMacrosMacros/SynchronizedMacro.swift:16-21 | missingInitializer is described as "Stored property must have an initializer" |
| `Synchronized.NamingInjective` | TestMacros/Sources/TestMacrosMacros/SynchronizedMacro.swift:57-68 | different property names give different lock names and different storage names |
| `Synchronized.StorageNameNeverPeerName` | TestMacros/Sources/TestMacrosMacros/SynchronizedMacro.swift:60-82 | for any names, the `_storage` variable the accessors use is never an `_inner` or `_lock` variable the peer role declares |
| `Synchronized.AccessFollowsLock` | TestMacros/Sources/TestMacrosMacros/SynchronizedMacro.swift:56-69 | in an accessor body that runs without lock misuse, every storage access before the first return comes after a `lock()` of the lock |
| `Synchronized.Getter` | TestMacros/Sources/TestMacrosMacros/SynchronizedMacro.swift:55-63 | a `get` accessor that declares a local of the annotated type, reads `<name>_storage`, ends with `return`, uses only `<name>_lock`, and never writes or plainly unlocks |
| `Synchronized.Setter` | TestMacros/Sources/TestMacrosMacros/SynchronizedMacro.swift:64-70 | a `set` accessor that writes `<name>_storage`, uses only `<name>_lock`, and has no read, no deferred unlock and no return |
| `Synchronized.GetterDisciplined` | TestMacros/Sources/TestMacrosMacros/SynchronizedMacro.swift:56-62 | the getter is, in order, deferred unlock of `<name>_lock`, local of the annotated type, lock, read of `<name>_storage`, return. It uses the storage only under the lock and ends with the lock released. Every exit after the lock releases it; an exit between the `defer` and the lock would unlock a free lock |
| `Synchronized.SetterDisciplined` | TestMacros/Sources/TestMacrosMacros/SynchronizedMacro.swift:65-69 | the setter is, in order, lock of `<name>_lock`, write of `<name>_storage`, unlock, with no deferred unlock. It ends with the lock released, but an exit after the lock or after the write leaves the lock held |
| `Synchronized.AccessorExpansion` | TestMacros/Sources/TestMacrosMacros/SynchronizedMacro.swift:36-71 | a non-empty result is exactly two accessors, the getter first and the setter second |
| `Synchronized.Eligible` | TestMacros/Sources/TestMacrosMacros/SynchronizedMacro.swift:36-43 | the guard chain passes exactly for a variable whose first binding has an identifier pattern, no accessor block and a type annotation, and then yields that identifier, type and initializer |
| `Synchronized.SkipConditions` | TestMacros/Sources/TestMacrosMacros/SynchronizedMacro.swift:36-43 | the result is `[]` with no error iff the declaration is not a variable, has no binding, has a non-identifier pattern, has an accessor block or has no type annotation |
| `Synchronized.MissingInitializerExactly` | TestMacros/Sources/TestMacrosMacros/SynchronizedMacro.swift:36-52 | missingInitializer is thrown iff the property is otherwise eligible and its first binding has no initializer |
| `Synchronized.SkipBeforeInitializerCheck` | TestMacros/Sources/TestMacrosMacros/SynchronizedMacro.swift:36-52 | an untyped property without an initializer gives `[]`, not missingInitializer |
| `Synchronized.ExpandedAccessors` | TestMacros/Sources/TestMacrosMacros/SynchronizedMacro.swift:54-71 | an eligible, initialised property gets exactly the getter then the setter. The getter is deferred unlock, local of the annotated type, lock, read of `<name>_storage`, return. The setter is lock, write of `<name>_storage`, unlock. Both accessors are lock-disciplined, but only the getter releases the lock on every exit |
| `Synchronized.AccessorsIgnoreInitializerValue` | TestMacros/Sources/TestMacrosMacros/SynchronizedMacro.swift:50-71 | two eligible properties with the same name and type get identical accessors, whatever their initializers |
| `Syntax.DeclName` | TestMacros/Sources/TestMacrosMacros/SynchronizedMacro.swift:77 | a declaration has a name exactly when it is one of the named declaration kinds; a variable declaration is not one |
| `Synchronized.PeerExpansion` | TestMacros/Sources/TestMacrosMacros/SynchronizedMacro.swift:77-83 | `[]` iff the declaration is not named; otherwise one fragment declaring `<name>_inner: T` and `<name>_lock = NSLock()` |
| `Synchronized.PeerDeclaresLockButNotStorage` | TestMacros/Sources/TestMacrosMacros/SynchronizedMacro.swift:57-82 | the peer role of a declaration named n declares the lock the accessors of n use, but not their storage |
| `Synchronized.StoredPropertyGetsNoPeers` | TestMacros/Sources/TestMacrosMacros/SynchronizedMacro.swift:36-79 | when the accessor role rewrites a declaration, the peer role of that same declaration declares nothing |

## Left out

- The syntax library itself. Its casts (`as(...)`, `asProtocol`) become pattern matches on the node datatypes of `Syntax`.
- The cast to `ArrayElementSyntax` at AlphabeticalOrderingMacro.swift:60 always succeeds in the model, because array-literal elements are array elements by construction.
- Plugin registration, `AttributeSyntax` and `MacroExpansionContext`. The modelled code never reads them.
- Swift `String` comparison follows Unicode canonical equivalence. The model compares strings lexicographically by code point, which is an assumption of the model.
- The run-time behaviour of the generated code is not modelled: NSLock semantics, thread safety, and atomicity across several properties. The statement walk in `Synchronized` reads the order of the emitted statements, not their execution under concurrency.
- The exact text and whitespace of the generated code are not modelled. This includes the difference between the `literal:` interpolation in the accessors and the `raw:` interpolation in the peer. Names are rendered as `name + "_lock"` and similar, as the `raw:` form would produce them.
- The commented-out special case for a variable named `_lock` (SynchronizedMacro.swift:45-48) is not part of the compiled code.
- Re-running an expansion on the same declaration gives the same result. This needs no lemma, because every expansion is a Dafny function.
