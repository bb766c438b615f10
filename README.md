# CoreDataEvolution: store names and macro templates

CoreDataEvolution brings SwiftData's `@ModelActor` pattern to Core Data. This project
models in Dafny the parts of the library that make decisions on values rather than run
concurrent work:

- **The test-store file name** (`NSPersistentContainer.makeTest`).
  - The raw name is the explicit test name, or `<fileID>-<function>` when none is given.
  - `sanitizeStoreFileName` then:
    - maps every character outside the alphanumerics and `._-` to `_`;
    - collapses each run of `_`, in a loop that tracks whether the previous character was an underscore;
    - trims `._-` from both ends;
    - falls back to `CoreDataEvolutionTestStore` when nothing is left.
  - The store path is `<tmp>/<subDirectory>/<name>.sqlite`.
  - The files deleted before loading are that path with the suffixes `""`, `"-shm"` and `"-wal"`.
  - Modules `StoreName` and `TestStore` cover this. The collapse loop is the method
    `StoreName.SanitizeStoreFileName`, proved equal to the specification function
    `StoreName.SanitizedName`.
- **The macro helpers** (module `MacroHelper`).
  - `shouldGenerateInitializer` scans the attribute's labelled arguments. The first argument
    labelled `disableGenerateInit` whose value is a boolean literal decides the answer;
    otherwise the answer is yes.
  - `isPublic` asks whether any modifier is `public`.
  - The syntax nodes are abstracted: an attribute is its optional list of (label, expression)
    pairs, and a declaration is the names of its modifiers.
- **The `@NSModelActor` and `@NSMainModelActor` expansions** (modules `ModelActorMacro` and
  `MainModelActorMacro`, with the shared pieces in `Declarations`).
  - Each extension expansion produces `extension <type>: <protocol> {}`.
  - Each member expansion produces the stored-property declaration, then the initializer when
    one is to be generated.
  - Every generated declaration is prefixed with `public ` exactly when the attached type is
    public.
  - Generated declarations are plain strings. A multi-line template is the newline-joined list
    of its lines (`Text.JoinLines`).
  - Read-back functions let contracts speak about what the text declares:
    - the access modifier (`Declarations.ReadsAsPublic`);
    - whether it is an initializer, and its first parameter label (`Declarations.InitializerLabel`);
    - the extended type (`Declarations.ExtendedType`);
    - its lines (`Text.SplitLines`).

Foundation's `CharacterSet.alphanumerics` is kept abstract as a parameter
`alnum: char -> bool`. `StoreName.IsAlphanumericTable` lists what some properties assume of
it: ASCII letters and digits are in it; `.`, `_`, `-` and `/` are not. SwiftSyntax's
`decl.as(ExtensionDeclSyntax.self)` check is the parameter `parsesAsExtension`.

Where the documentation and the code disagree, the model follows the code:

- **Meaning of `disableGenerateInit`.**
  - Sources/CoreDataEvolutionMacros/Helper.swift:19 says the result is false when
    `disableGenerateInit` is false.
  - Line 33 returns false only when the literal is `true`.
  - The model follows line 33.
- **The `mode:` parameter.**
  - The expansion example at Sources/CoreDataEvolutionMacros/NSModelActorMacro.swift:25 shows a
    `mode:` parameter.
  - The template at lines 73-78 takes only `container:`, and so does the model.
- **Whether an initializer is always generated.**
  - The expansion examples in the doc comments (Sources/CoreDataEvolutionMacros/NSModelActorMacro.swift:18-30 and
    Sources/CoreDataEvolutionMacros/NSMainModelActorMacro.swift:24-35) always show an initializer taking the container.
  - In the code the initializer is optional: `disableGenerateInit: true` suppresses it
    (lines 71-80 and 74-80).
- **The protocol `@NSMainModelActor` conforms to.**
  - The doc comment at Sources/CoreDataEvolutionMacros/NSMainModelActorMacro.swift:26 and :34 shows the expansion as `@NSModelActor` with
    conformance to `CoreDataEvolution.NSModelActor`.
  - Line 48 generates conformance to `CoreDataEvolution.NSMainModelActor`, and so does the model.

## Model

| member | source | states |
|---|---|---|
| StoreName.ReplaceDisallowed | Sources/CoreDataEvolution/NSPersistentContainer+Testing.swift:100-103 | The length is kept; each allowed character (alphanumeric or one of `._-`) stays in place and every other character becomes exactly one `_`; the result has only allowed characters, and equals the input exactly when the input had only allowed characters |
| StoreName.CollapseUnderscores | Sources/CoreDataEvolution/NSPersistentContainer+Testing.swift:105-118 | The collapse step never lengthens the text, keeps its last character, takes every character from the input, and leaves no two adjacent underscores |
| StoreName.CollapseDropsOnlyUnderscores | Sources/CoreDataEvolution/NSPersistentContainer+Testing.swift:105-118 | With every underscore erased, the input and the collapsed text are the same text: no other character is dropped, added or reordered (where underscores go is stated by `CollapseRun` and `CollapseFixpoint`) |
| StoreName.CollapseMergesDoubledUnderscore | Sources/CoreDataEvolution/NSPersistentContainer+Testing.swift:108-117 | Two adjacent underscores anywhere in the input collapse exactly as one underscore in their place |
| StoreName.CollapseRun | Sources/CoreDataEvolution/NSPersistentContainer+Testing.swift:108-117 | A run of any length n >= 1 of underscores collapses exactly as a single underscore; with `CollapseFixpoint` (a text without doubled underscores is kept as is) this determines the collapse, so for example `a__b` gives `a_b` |
| StoreName.CollapseFixpoint | Sources/CoreDataEvolution/NSPersistentContainer+Testing.swift:105-118 | The collapse leaves a text unchanged if and only if it has no two adjacent underscores |
| StoreName.CollapseKeepsAllIn | Sources/CoreDataEvolution/NSPersistentContainer+Testing.swift:105-118 | For a character set containing `_`, the collapsed text lies in the set exactly when the input does |
| StoreName.TrimmedName | Sources/CoreDataEvolution/NSPersistentContainer+Testing.swift:100-120 | The name after map, collapse and trim is never longer than the raw name |
| StoreName.SanitizedName | Sources/CoreDataEvolution/NSPersistentContainer+Testing.swift:99-122 | The sanitized name is never empty, and it is either the fallback `CoreDataEvolutionTestStore` or no longer than the raw name |
| StoreName.SanitizeStoreFileName | Sources/CoreDataEvolution/NSPersistentContainer+Testing.swift:99-122 | The imperative sanitizer computes `SanitizedName`. Its loop keeps `collapsed` equal to the collapse of the prefix read so far, and keeps `previousWasUnderscore` true exactly when the previous character was `_` |
| StoreName.MappedAllPunctuation | Sources/CoreDataEvolution/NSPersistentContainer+Testing.swift:100-103 | The mapped name consists only of `._-` exactly when the raw name has no alphanumeric character |
| StoreName.TrimmedNameWellFormed | Sources/CoreDataEvolution/NSPersistentContainer+Testing.swift:100-120 | After map, collapse and trim, the name has only allowed characters, no two adjacent underscores, and neither begins nor ends with `.`, `_` or `-` |
| StoreName.FallbackNameWellFormed | Sources/CoreDataEvolution/NSPersistentContainer+Testing.swift:121 | The fallback `CoreDataEvolutionTestStore` itself has only allowed characters, no doubled underscore, and clean ends |
| StoreName.SanitizedNameWellFormed | Sources/CoreDataEvolution/NSPersistentContainer+Testing.swift:99-122 | A sanitized name is never empty, has only allowed characters (hence no `/`), no two adjacent underscores, and neither begins nor ends with `.`, `_` or `-` |
| StoreName.FallbackExactlyWithoutAlphanumerics | Sources/CoreDataEvolution/NSPersistentContainer+Testing.swift:120-121 | Trimming leaves nothing exactly when the raw name has no alphanumeric character, and then the result is exactly `CoreDataEvolutionTestStore` |
| StoreName.SanitizeIdempotent | Sources/CoreDataEvolution/NSPersistentContainer+Testing.swift:99-122 | Sanitizing an already sanitized name returns it unchanged |
| Text.TrimLeading | Sources/CoreDataEvolution/NSPersistentContainer+Testing.swift:120 | Removes exactly a prefix whose characters are all in the set; what remains does not start with a character of the set |
| Text.TrimTrailing | Sources/CoreDataEvolution/NSPersistentContainer+Testing.swift:120 | Removes exactly a suffix whose characters are all in the set; what remains does not end with a character of the set |
| Text.Trim | Sources/CoreDataEvolution/NSPersistentContainer+Testing.swift:120 | `trimmingCharacters(in:)`: the result occurs in the input at some index where everything before it and everything after it belongs to the trimmed set, so only characters of the set are removed and only from the ends; it is never longer than the input, and neither of its ends belongs to the set |
| Text.TrimEmptyExactly | Sources/CoreDataEvolution/NSPersistentContainer+Testing.swift:120 | Trimming yields the empty text exactly when every character belongs to the trimmed set |
| Text.TrimCleanUnchanged | Sources/CoreDataEvolution/NSPersistentContainer+Testing.swift:120 | A text whose ends are outside the set is returned unchanged |
| Text.TrimSlice | Sources/CoreDataEvolution/NSPersistentContainer+Testing.swift:120 | What trimming keeps is one contiguous slice `s[i..j]` of the input, and every character before `i` and from `j` on belongs to the trimmed set |
| TestStore.ResolvedTestName | Sources/CoreDataEvolution/NSPersistentContainer+Testing.swift:62 | The resolved name is never empty: it is `testName` when that is non-empty, and `fileID + "-" + function` otherwise |
| TestStore.AppendingPathComponent | Sources/CoreDataEvolution/NSPersistentContainer+Testing.swift:74 | The joined path extends the directory, ends with `/` and the component, and adds a separator only when the directory does not already end with one |
| TestStore.LastPathComponent | Sources/CoreDataEvolution/NSPersistentContainer+Testing.swift:74 | The last component of a path has no `/`, ends the path, and is preceded by a `/` when it is not the whole path |
| TestStore.AppendedComponentIsLast | Sources/CoreDataEvolution/NSPersistentContainer+Testing.swift:74 | A component without `/` appended to a directory is read back as the path's last component |
| TestStore.StorePath | Sources/CoreDataEvolution/NSPersistentContainer+Testing.swift:73-74 | The store path extends the test directory and ends with `/<name>.sqlite` |
| TestStore.StoreFileIsLastComponent | Sources/CoreDataEvolution/NSPersistentContainer+Testing.swift:73-74 | For a store name without `/`, the store path's last component is `<name>.sqlite` |
| TestStore.StaleFilePaths | Sources/CoreDataEvolution/NSPersistentContainer+Testing.swift:77-82 | Exactly three paths are removed, all distinct: the store path itself, then with `-shm` and `-wal` appended, in that order |
| TestStore.MakeTestLayout | Sources/CoreDataEvolution/NSPersistentContainer+Testing.swift:62-84 | The container name is never empty; the test directory is exactly the temporary directory with `subDirectory` appended as a path component (so it extends the temporary directory and ends with `/<subDirectory>`); the store path is `StorePath` of the test directory and the sanitized container name, so it extends the test directory and ends with `.sqlite`; the stale files are the three paths of `StaleFilePaths` |
| TestStore.MakeTestLayoutProperties | Sources/CoreDataEvolution/NSPersistentContainer+Testing.swift:62-84 | The container is named with the resolved (unsanitized) test name; the store path lies inside the test directory with last component `<sanitized>.sqlite` and one separator; the stale files are the store path with the three suffixes |
| MacroHelper.FirstDecision | Sources/CoreDataEvolutionMacros/Helper.swift:29-36 | With no deciding argument the result is true; otherwise the first argument labelled `disableGenerateInit` with a boolean literal decides, and the result is true exactly when its text is not `true` |
| MacroHelper.ShouldGenerateInitializer | Sources/CoreDataEvolutionMacros/Helper.swift:24-37 | No labelled argument list gives true; otherwise the first deciding argument decides as above, and the default is true |
| MacroHelper.NonDecidingArgumentsSkipped | Sources/CoreDataEvolutionMacros/Helper.swift:30-31 | Arguments with another label or a non-literal expression, before the first deciding one, never change the result |
| MacroHelper.LaterArgumentsIgnored | Sources/CoreDataEvolutionMacros/Helper.swift:33 | Once a deciding argument has occurred, appending more arguments never changes the result |
| MacroHelper.DisableGenerateInitLiterals | Sources/CoreDataEvolutionMacros/Helper.swift:25-36 | Writing the declared default `disableGenerateInit: false` behaves like omitting the argument or passing an empty list (generate), and `disableGenerateInit: true` suppresses the initializer |
| MacroHelper.IsPublic | Sources/CoreDataEvolutionMacros/Helper.swift:45-48 | True if and only if some modifier's name is `public` |
| Declarations.AccessModifier | Sources/CoreDataEvolutionMacros/NSModelActorMacro.swift:64 | The prefix reads as `public` exactly when the attached declaration is public, and has no line break |
| Declarations.AccessModifierRoundTrip | Sources/CoreDataEvolutionMacros/NSModelActorMacro.swift:64 | A declaration prefixed with the access modifier reads back as public exactly when it was generated public, and dropping the modifier gives the template back |
| Declarations.InitializerRoundTrip | Sources/CoreDataEvolutionMacros/NSModelActorMacro.swift:73 | A prefixed `init(<label>:` text reads back as an initializer with that access and that first parameter label |
| Declarations.InitializerLinesReadBack | Sources/CoreDataEvolutionMacros/NSModelActorMacro.swift:72-79 | An initializer template written as lines, its head `init(<label>:` behind the access modifier, still reads back once joined with newlines: an initializer with that access and that first parameter label, whatever the body lines are |
| Declarations.TrimmedType | Sources/CoreDataEvolutionMacros/NSModelActorMacro.swift:45 | `type.trimmed` removes only whitespace, and only from the ends of the type's text; it is never longer than that text, and neither of its ends is whitespace |
| Declarations.ExtensionDecl | Sources/CoreDataEvolutionMacros/NSModelActorMacro.swift:43-46 | The extension text starts with `extension `, ends with `: <protocol> {}`, is exactly as long as those two and the type together, and reads back the type it extends (for a type text without a colon) |
| Declarations.ExtensionDeclDetermined | Sources/CoreDataEvolutionMacros/NSModelActorMacro.swift:45 | Those facts fix the text: any text meeting them, for a type without a colon, is exactly `extension <type>: <protocol> {}` |
| Declarations.Assemble | Sources/CoreDataEvolutionMacros/NSModelActorMacro.swift:80 | The member list is the stored-property declaration, followed by the initializer exactly when there is one |
| Declarations.AssembleReadBack | Sources/CoreDataEvolutionMacros/NSMainModelActorMacro.swift:80 | If both declarations carry the same access and only the initializer reads as an initializer, the assembled list holds an initializer exactly when one was given, and each member carries that access |
| ModelActorMacro.ExtensionExpansion | Sources/CoreDataEvolutionMacros/NSModelActorMacro.swift:43-52 | At most one extension; one exactly when the text parses as an extension, and that extension is exactly `ExtensionDecl` of the trimmed type and `CoreDataEvolution.NSModelActor`, i.e. `extension <trimmed type>: CoreDataEvolution.NSModelActor {}` |
| ModelActorMacro.MemberExpansion | Sources/CoreDataEvolutionMacros/NSModelActorMacro.swift:63-80 | Two declarations when an initializer is to be generated and one otherwise; the first is the stored-property block; every declaration is public exactly when the attached type is; an initializer is present exactly when `shouldGenerateInitializer` holds, labelled `container`; when there is an initializer it is exactly `InitializerDecl` with the same access |
| ModelActorMacro.StoredPropertiesDecl | Sources/CoreDataEvolutionMacros/NSModelActorMacro.swift:65-70 | The stored-property block reads back with the access it was generated with and is not an initializer |
| ModelActorMacro.StoredPropertiesDeclareExecutorAndContainer | Sources/CoreDataEvolutionMacros/NSModelActorMacro.swift:65-70 | Split into lines, the block is the `nonisolated let modelExecutor` line, then the `nonisolated let modelContainer` line, each with the generated access, then an empty last line |
| ModelActorMacro.InitializerDecl | Sources/CoreDataEvolutionMacros/NSModelActorMacro.swift:71-79 | The initializer reads back with the access it was generated with, as an initializer whose first parameter is labelled `container` |
| ModelActorMacro.InitializerSetsExecutorAndContainer | Sources/CoreDataEvolutionMacros/NSModelActorMacro.swift:73-78 | Split into lines, the head line is, behind the generated access, exactly `init(container: CoreData.NSPersistentContainer) {`: one parameter (no comma), labelled `container`. The body creates a background context, then assigns `modelExecutor` from it and `modelContainer` from the container |
| ModelActorMacro.DisabledInitializerOmitted | Sources/CoreDataEvolutionMacros/NSModelActorMacro.swift:71-80 | With `disableGenerateInit: true`, as `DataHandler` is declared (Tests/CoreDataEvolutionTests/Helper/DataHandler.swift:15), only the stored properties are generated and no initializer |
| MainModelActorMacro.ExtensionExpansion | Sources/CoreDataEvolutionMacros/NSMainModelActorMacro.swift:46-55 | At most one extension; one exactly when the text parses as an extension, and that extension is exactly `ExtensionDecl` of the trimmed type and `CoreDataEvolution.NSMainModelActor`, i.e. `extension <trimmed type>: CoreDataEvolution.NSMainModelActor {}` |
| MainModelActorMacro.MemberExpansion | Sources/CoreDataEvolutionMacros/NSMainModelActorMacro.swift:66-80 | Two declarations when an initializer is to be generated and one otherwise; the first is the stored property; every declaration is public exactly when the attached type is; an initializer is present exactly when `shouldGenerateInitializer` holds, labelled `modelContainer`; when there is an initializer it is exactly `InitializerDecl` with the same access |
| MainModelActorMacro.StoredPropertyDecl | Sources/CoreDataEvolutionMacros/NSMainModelActorMacro.swift:69-72 | The stored property is a single line that reads back with the generated access and is, behind it, exactly a plain `let modelContainer: CoreData.NSPersistentContainer` (no `nonisolated`); it is not an initializer and does not mention `modelExecutor` |
| MainModelActorMacro.InitializerDecl | Sources/CoreDataEvolutionMacros/NSMainModelActorMacro.swift:74-79 | The initializer reads back with the access it was generated with, as an initializer whose first parameter is labelled `modelContainer` |
| MainModelActorMacro.InitializerAssignsContainer | Sources/CoreDataEvolutionMacros/NSMainModelActorMacro.swift:76-78 | Split into lines, the head line is, behind the generated access, exactly `init(modelContainer: CoreData.NSPersistentContainer) {`: one parameter (no comma), labelled `modelContainer`. The body assigns `self.modelContainer` from that parameter |
| MainModelActorMacro.DisabledInitializerOmitted | Sources/CoreDataEvolutionMacros/NSMainModelActorMacro.swift:74-80 | With `disableGenerateInit: true` only the stored property is generated |
| Text.JoinLines | Sources/CoreDataEvolutionMacros/NSModelActorMacro.swift:65-70 | A multi-line literal is its lines joined by newlines: the text begins with the first line and ends with the last |
| Text.SplitJoinLines | Sources/CoreDataEvolutionMacros/NSModelActorMacro.swift:65-70 | A multi-line template's text splits back into exactly its lines, when no line contains a newline |
| Text.JoinSplitLines | Sources/CoreDataEvolutionMacros/NSModelActorMacro.swift:65-70 | Joining the lines of any text gives the text back |

## Left out

- **The serial executor bridge.** `enqueue` hands jobs to `context.perform`. This is
  concurrency and a foreign call into Core Data and the Swift runtime. So is the deadlock test
  machinery.
- **Lookup subscripts and the `withContext` overloads.** They wrap calls into Core Data that
  are not part of this model, or only apply a closure.
- **File-system work and store loading in `makeTest`.** This covers directory creation, file
  existence checks and deletion, `loadPersistentStores` and its `fatalError`. All of it is
  I/O, so only the derived names and paths are modelled.
- **`NSTemporaryDirectory()`.** It becomes the parameter `temporaryDirectory`.
- **URL normalisation.** `URL.appendingPathComponent` is modelled as joining with one `/`.
  Standardisation and a trailing `/` that Foundation adds for existing directories are not
  modelled.
- **Unicode detail.**
  - `CharacterSet.alphanumerics` is a parameter.
  - The map step iterates Unicode scalars while the collapse loop iterates `Character`s. Both
    are modelled over one sequence of characters.
  - Grapheme clustering is not modelled. In Swift the collapse loop compares `Character`s, so
    `_` followed by a combining mark is one `Character` that is not `"_"`. The property "no two
    adjacent underscores" therefore holds per character of the model. It does not promise the
    same of the Unicode scalars of Swift's result.
- **`type.trimmed`.** It is modelled as removing surrounding whitespace. Comments carried as
  trivia are not modelled.
- **SwiftSyntax parsing.**
  - Parsing the generated text into declaration nodes is not modelled.
  - The extension check is an abstract parameter.
  - Generated declarations stay strings; their formatting is not normalised.
- **Read-back functions.** `Declarations.ExtendedType` reads the type up to the first `:`. The
  extension round trip is stated only for type texts without a colon.
- **Files outside the model.** The older constant-output macro in
  Sources/CoreDataEvolutionMacrosPlugin/NSModelActorMacro.swift is not part of this model. The
  same holds for the macro declarations, the plugin registration, the package manifest, the
  demo client and the test helpers' Core Data operations.
