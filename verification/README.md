# type-strip in Dafny

A model of the core of `type-strip`, a TypeScript-to-JavaScript converter.
It erases type annotations and refuses the TypeScript constructs that have
runtime meaning. The model covers three parts.

- **index.ts**:
  - the default export: the options with their defaults, the file-name
    gate, the tree transform and the optional `pretty` post-pass;
  - the `visitor` dispatch with all of its helpers, over an inductive
    syntax tree.
- **typestrip.ts**: the earlier, partial transform over the same tree. It
  never raises.
- **bump.ts**: the pure part of `updateVersion`, which defaults the
  version, splits it on dots and applies the major/minor/patch switch.

The modules are:

| module | file | contents |
|---|---|---|
| `Wrappers` | wrappers.dfy | `Option`, `Result`, `Outcome` |
| `Seqs` | seqs.dfy | `Filter` (`Array.prototype.filter`) and its lemmas |
| `Text` | text.dfy | `Split`/`Join` on a separator character, decimal digits |
| `Errors` | errors.dfy | the `TypeStripError` codes |
| `Syntax` | syntax.dfy | the tree: one constructor per kind the dispatch treats specially, and `Other(kind, children)` for every other kind; `HasModifier` |
| `Erasure` | erasure.dfy | the transform of index.ts |
| `ErasureProperties` | erasure_properties.dfy | the partner predicate `Erased` and lemmas about the transform's output, idempotence and error precedence |
| `Acceptance` | acceptance.dfy | the partner predicate `Accepted`: the trees the transform converts without error |
| `Pretty` | pretty.dfy | `pretty` over UTF-16 code units |
| `Entry` | entry.dfy | options, the file-name gate, and the default export |
| `EntryProperties` | entry_properties.dfy | which error the default export raises, and which files it converts |
| `LegacyStrip` | legacy.dfy | the transform of typestrip.ts, and its partner predicate `Clean` |
| `Bump` | bump.dfy | the version bump |

Conventions of the model:

- A thrown `TypeStripError` is a `Failure` carrying the error code.
- A node the visitor turns into `undefined` is `Success(None)`.
- A `ts.factory.update*` call is a rebuild of the record.
- `ts.visitEachChild` visits the children in order and keeps the first
  error. Children that strip to nothing are dropped.

index.ts rebuilds the tree and hands it to the compiler's printer
(index.ts:77-79); it removes no text ranges and rewrites no import paths.

## Model

| member | source | states |
|---|---|---|
| Syntax.HasModifier | index.ts:601-613 | true exactly when some element of the list has one of the searched kinds |
| Erasure.Strip | index.ts:107-168 | enum, namespace, JSX elements and prefix `<T>` assertions raise their own codes, whatever they contain; interfaces and type aliases vanish; identifiers are kept; a variable statement succeeds exactly when its modifiers are accepted and its declaration list strips, reports a rejected modifier before anything in the list, and keeps its filtered modifiers and stripped list; a variable declaration succeeds exactly when its name and initializer strip, reports the name's error before the initializer's, keeps both stripped and loses `!` and type; `as`/`satisfies`/`!` give way to their stripped operand; calls and `new` succeed exactly when their callee and arguments strip, report the callee's error first, keep both stripped and lose their type arguments; an expression with type arguments keeps its stripped expression and loses the arguments; a tagged template reports its tag's error before its template's, keeps both stripped and loses its type arguments; a template expression keeps its stripped template; every other kind succeeds exactly when its children strip, raises the error of its child list, and is rebuilt from its stripped children; only import/export declarations, assertions around a vanishing operand, interfaces, type aliases and abstract methods can vanish |
| Erasure.StripModifiers | index.ts:539-566 | `declare` raises `declare`, otherwise `accessor` raises `accessor-keyword`, otherwise a decorator raises `decorator`; it succeeds exactly when none of the three occurs; on success the result is the input minus exactly public/private/protected/readonly/override/abstract, in the original order, with every other modifier's count unchanged |
| Erasure.StripExportDeclaration | index.ts:170-216 | the declaration is removed exactly when it is type-only, has no clause (`export * from`), or its named list holds only type-only specifiers; otherwise it is no longer type-only, keeps its modifiers and module specifier, and a named list keeps exactly the value specifiers, in order |
| Erasure.StripImportDeclaration | index.ts:218-273 | the declaration is removed exactly when it has no clause, the clause is type-only, the clause has no bindings (default-only or side-effect import), or the named list holds only type-only specifiers; otherwise the clause keeps its default name, is no longer type-only, and a named list keeps exactly the value specifiers, in order |
| Erasure.StripTemplate | index.ts:323-331 | it succeeds exactly when every span's expression strips, and otherwise raises the span walk's error; the head is kept, and every span is kept with its literal text and its expression stripped |
| Erasure.StripSpans | index.ts:329 | it succeeds exactly when every span's expression strips; one span out per span in, each with its literal text and its expression stripped |
| ErasureProperties.StripSpansFirstFailure | index.ts:329 | spans are visited left to right: the first span whose expression raises decides the error |
| Erasure.StripBlock | index.ts:397 | a body strips exactly when its statements do, raises their first error, and becomes the block of the surviving statements |
| Erasure.StripOptBlock | index.ts:400-468 | the absent body of a function expression, constructor or accessor stays absent; a present body strips exactly as a block does, with the same error or result |
| Erasure.StripBinding | index.ts:364 | an identifier is kept; a binding pattern succeeds exactly when its elements strip, raises their error, and keeps the stripped elements |
| Erasure.StripParameter | index.ts:333-369 | a parameter-property modifier raises `parameter-property`; otherwise a parameter named `this` is dropped, and only it; otherwise the parameter succeeds exactly when its name and initializer strip, and a name error is reported before an initializer error; a kept parameter keeps its modifiers and rest token, holds its stripped name and initializer, and loses its `?` and its type |
| Erasure.StripFunctionLike | index.ts:371-470 | it succeeds exactly when the parameters strip and, unless it is an abstract method, the modifiers are accepted, a function declaration or method has a body, and the name of a method or accessor and the body strip; a parameter error wins over everything else; only an abstract method vanishes; a rejected modifier comes next (except on a method without a body or an abstract one), then a method or accessor name's error, then a missing body (`overload`) for a function declaration or non-abstract method, then the body's error; a result keeps its kind, asterisk and the filtered modifiers, gets the stripped parameters and body, a method or accessor gets its stripped name while the other kinds keep theirs, and has no type parameters, return type or `?` |
| Erasure.StripArrowFunction | index.ts:411-420 | it succeeds exactly when its parameters strip, its modifiers are accepted and its body strips; a parameter error wins, then a rejected modifier, then the body's error; the result is an arrow function with the filtered modifiers, the stripped parameters and body, and no type parameters or return type |
| Erasure.StripProperty | index.ts:560-579 | it succeeds exactly when its modifiers are accepted and its name and initializer strip; a rejected modifier raises its error first, then the name's, then the initializer's; the result keeps the filtered modifiers, holds the stripped name and initializer, and has no `?`/`!` token and no type |
| Erasure.StripClassLike | index.ts:481-521 | it succeeds exactly when its modifiers are accepted and its members and heritage clauses strip; a rejected class modifier is reported first, then a member error, then a heritage-clause error; the result keeps kind and name, loses its type parameters, and holds the stripped members and heritage clauses |
| Erasure.StripMembers | index.ts:495-497 | it succeeds exactly when the member list strips, and raises that list's error; no surviving member is an index signature, and there are no more members than before |
| ErasureProperties.StripMembersConcat | index.ts:495-498 | visiting a member list is visiting its parts in turn: an error in the first part hides the second, and the surviving members keep their order |
| ErasureProperties.StripMembersSingle | index.ts:495-498 | a single member survives exactly when it strips to a node that is not an index signature, and then survives as that node |
| Erasure.StripHeritageClauses | index.ts:523-537 | it succeeds exactly when the types of every `extends` clause strip (`implements` clauses are never visited); there is one clause per `extends` clause of the input, every clause left is an `extends` clause, and the output pairs in order with the input's `extends` clauses, each holding its stripped types |
| ErasureProperties.StripHeritageClausesTypes | index.ts:523-537 | the i-th clause left is the i-th `extends` clause of the input with its types stripped |
| ErasureProperties.StripHeritageClausesFirstFailure | index.ts:523-537 | clauses are visited left to right: the first `extends` clause whose types raise decides the error |
| ErasureProperties.ErasedIsFixpoint | index.ts:107-168 | a tree that is `Erased` (nothing left to erase, nothing rejected) strips to itself without error |
| ErasureProperties.StripIsErased | index.ts:107-168 | every tree the transform returns is `Erased` |
| ErasureProperties.StripModifiersAccepted | index.ts:539-566 | an accepted modifier list holds no rejected and no erased modifier |
| ErasureProperties.StripIdempotent | index.ts:107-168 | stripping an already stripped tree changes nothing and raises nothing |
| ErasureProperties.FixpointIffErased | index.ts:107-168 | the trees the transform leaves unchanged are exactly the `Erased` trees |
| ErasureProperties.StripAllSucceedsIffEach | index.ts:472-479 | a child list strips without error exactly when every child does |
| ErasureProperties.StripAllFirstFailure | index.ts:472-479 | children are visited left to right, so the first child that raises decides the error |
| ErasureProperties.StripAllConcat | index.ts:167 | visiting a list is visiting its parts in turn: an error in the first part hides the second, and the survivors keep their order |
| ErasureProperties.StripParametersFirstFailure | index.ts:381 | the first parameter that raises decides the error |
| ErasureProperties.StripParametersSucceedsIffEach | index.ts:381 | a parameter list strips without error exactly when every parameter does |
| ErasureProperties.ParameterPropertyFirst | index.ts:381-387 | a parameter property is reported before the function's own modifiers (`declare`), a missing body, or anything in the body |
| ErasureProperties.ClassErrorOrder | index.ts:491-499 | class modifiers are checked before members, and the first member that raises decides the error |
| Acceptance.StripSucceedsIffAccepted | index.ts:107-168 | the transform succeeds exactly on `Accepted` trees: those where no position the visitor reaches holds an enum, namespace, JSX element or `<T>` cast, a rejected modifier where modifiers are checked, a parameter property, or a function declaration or non-abstract method without a body; types play no part |
| Pretty.Pretty | index.ts:87-97 | the output is never longer than the input, and is strictly shorter when the text holds an escape or a run of four spaces |
| Pretty.PrettyIdentity | index.ts:87-97 | text is left unchanged exactly when it holds neither an escape nor four spaces in a row |
| Pretty.PrettyDecodesEscapes | index.ts:87-97 | text written entirely as `\uXXXX` escapes decodes back to the code units they name |
| Pretty.PrettyHalvesIndentation | index.ts:87-97 | a run of 4k+r spaces (r < 4) becomes 2k+r spaces |
| Entry.FileName | index.ts:23-27 | the file name is the caller's when given, and `input.ts` otherwise |
| Entry.CheckFileName | index.ts:43-55 | a name without a dot raises `filename`; the gate passes exactly when the name ends in `.ts`; it raises `jsx` exactly when the name ends in `.jsx` or `.tsx`; it raises `extension` exactly when the name has a dot and ends in none of `.ts`, `.jsx`, `.tsx` |
| Entry.DefaultFileNamePasses | index.ts:23-27 | the default file name passes the gate |
| Entry.TypeStrip | index.ts:39-82 | a gate error is raised before anything else; otherwise the call succeeds exactly when the transform does and raises its error; the printed output is post-processed by `pretty` only when `prettyPrint` is true |
| EntryProperties.TypeStripFirstError | index.ts:39-82 | once the gate passes, the first statement of the file that raises decides the error; an enum, namespace, JSX element or `<T>` cast there raises its own code |
| EntryProperties.TypeStripSucceedsIffAccepted | index.ts:39-82 | a file is converted exactly when its name passes the gate and its tree is `Accepted` |
| LegacyStrip.Visit | typestrip.ts:52-69 | every node keeps its syntax kind; a variable declaration keeps its name, `!` and initializer and loses its type; function-likes other than function declarations, and arrow functions, come back unchanged; a function declaration keeps its modifiers, name and body and loses its type parameters and return type; every other node is the visit of its children |
| LegacyStrip.VisitVariableDeclaration | typestrip.ts:76-87 | the type is removed, and name, `!` token and initializer are kept without being visited; an untyped declaration comes back unchanged |
| LegacyStrip.VisitParameter | typestrip.ts:96-111 | a typed parameter loses its type and its `?`; modifiers (even `public`), rest token, name and initializer are kept; an untyped parameter comes back unchanged, `?` included |
| LegacyStrip.VisitParameters | typestrip.ts:123 | one parameter out per parameter in, each the visited original |
| LegacyStrip.VisitFunctionDeclaration | typestrip.ts:120-139 | only a function declaration is rebuilt: it loses its type parameters and return type, gets its visited parameters, and keeps modifiers and body unvisited; every other function-like kind comes back unchanged |
| LegacyStrip.VisitEachChild | typestrip.ts:68 | a node without its own rule keeps its syntax kind; an identifier is unchanged; every other constructor keeps its tokens and flags and gets each child node and child list visited in place: modifiers and decorators, declaration lists, names, expressions, type arguments, parameters and annotations, call arguments, template spans, heritage-clause types and class members; the clauses and specifiers of import and export declarations are kept as they are |
| LegacyStrip.VisitAll | typestrip.ts:68 | every child is visited in place, and nothing is removed |
| LegacyStrip.VisitIsClean | typestrip.ts:52-139 | whatever the transform returns is `Clean`: no typed variable declaration and no function declaration with a type parameter, return type or typed parameter, wherever the visitor looks |
| LegacyStrip.CleanIsFixpoint | typestrip.ts:52-139 | a `Clean` tree comes back unchanged |
| LegacyStrip.VisitIdempotent | typestrip.ts:52-139 | visiting twice is visiting once |
| LegacyStrip.FixpointIffClean | typestrip.ts:52-139 | the trees the transform leaves unchanged are exactly the `Clean` trees |
| Text.Split | bump.ts:12 | there is at least one part, no part holds the separator, and joining the parts gives the text back |
| Text.SplitJoin | bump.ts:18-24 | splitting the join of separator-free parts gives the parts back |
| Bump.CurrentVersion | bump.ts:10 | a missing or empty version field becomes "0.0.0"; any other field is used as it is |
| Bump.ToNumber | bump.ts:12 | `Number` reads the empty text as 0 and a run of decimal digits as its value; anything else is `NaN` |
| Bump.Component | bump.ts:12 | a component past the end of the split is `undefined` |
| Bump.Increment | bump.ts:18-24 | adding one to a number adds one; `NaN + 1` and `undefined + 1` are `NaN` |
| Bump.Show | bump.ts:18-24 | `join` writes a number in decimal with no leading zero, `NaN` as the text `NaN` and only it, `undefined` as the empty text and only it, and never a dot |
| Bump.BumpText | bump.ts:12-31 | the bump succeeds exactly for "major", "minor" and "patch", and fails with the invalid-argument error otherwise; the new version always has three dot-separated parts |
| Bump.UpdateVersion | bump.ts:7-31 | the bump of the configuration's `version` field succeeds exactly for "major", "minor" and "patch", and fails with the invalid-argument error otherwise |
| Bump.UpdateVersionOfWellFormed | bump.ts:7-31 | a field holding the canonical text of a version becomes the canonical text of that version's successor |
| Bump.Next | bump.ts:16-25 | the successor of each kind is greater in lexicographic (major, minor, patch) order |
| Bump.FormatParse | bump.ts:12 | splitting the canonical text of a triple on dots and reading the numbers gives the triple back |
| Bump.UpdateVersionFormats | bump.ts:16-25 | on a well-formed version, "major" gives (major+1, 0, 0), "minor" gives (major, minor+1, 0) and "patch" gives (major, minor, patch+1) |
| Bump.UpdateVersionIncreases | bump.ts:12-25 | bumping a well-formed version gives a well-formed version that is greater in lexicographic order |
| Bump.DefaultVersionBump | bump.ts:10 | with no version, the bump starts from 0.0.0 |
| Bump.PatchOfShortVersionIsMalformed | bump.ts:12-24 | the bump does not validate the version: a patch bump of a version with fewer than three parts writes `NaN` as the patch, so the result is not a well-formed version |

## Left out

- The TypeScript parser and printer (`ts.createSourceFile`, `ts.createPrinter`, `printFile`, `ts.transform`) are foreign library code. The parsed tree is an input of `Entry.TypeStrip`, and the printer is a function parameter.
- `removeComments` is only passed to the printer, so it has no effect in the model.
- The module-level variables `sourceFile`, `printer` and `context` are not modelled. `context` is only handed to `ts.visitEachChild` (index.ts:167), whose node updates the model replaces with record rebuilds; the parsed tree and the printer are parameters of `Entry.TypeStrip`.
- Entry.FileName: an options object with an explicit `fileName: undefined` overrides the default and makes `split` throw a `TypeError`. The model has no such input, since an absent file name takes the default.
- A tagged template whose template has no substitutions makes `visitTaggedTemplateExpression` crash on the missing `templateSpans`. The model's tagged template always holds a template expression.
- `new C` without an argument list is modelled as `new C()`. An absent type-parameter, type-argument or heritage-clause list is modelled as the empty list. Neither changes what the transform removes or raises.
- Syntax errors that the parser accepts but the grammar forbids, such as type parameters on a constructor or an accessor, are not modelled. The model's stripped function-likes always have no type parameters.
- The `Debug` checks inside `ts.visitEachChild`, which fire when a visitor returns a node of the wrong kind, are not modelled.
- Import and export attributes (`with { … }`) are not modelled. They are copied unchanged by the source.
- Path rewriting and specifier remapping are not part of the code. They appear only in test fixtures.
- The message texts of errors.ts are not modelled. Errors are their codes, and `Errors.Code` gives the code strings.
- Bump.ToNumber: the other syntaxes `Number` accepts are read as `NaN`: surrounding whitespace, signs, hexadecimal, binary (`0b…`) and octal (`0o…`) literals, `Infinity`, exponents and fractions. The model is therefore exact only for components that are empty, decimal digits, or not numbers at all.
- Bump.Increment: numbers are unbounded naturals. IEEE doubles above 2^53 are not modelled.
- Bump.CurrentVersion: a `version` field that is present but not a string (a number, say) is not modelled. The field is an optional string.
- Reading and writing `deno.json`, the console message, and the git commands of bump.ts are I/O and are not modelled.
- LegacyStrip.Visit: the transform of typestrip.ts does not visit the initializer of a variable declaration, nor the parameters' initializers or the body of a function-like. It is modelled as written, so `Clean` only speaks of the positions the visitor reaches.
