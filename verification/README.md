# Trait compiler model

A Dafny model of the `Compiler` class of a small PHP tool. The tool turns
a concrete class into a trait that re-declares the class's methods as
abstract methods, and renders that trait as PHP text
(`exportAsAbstractMethods`, `src/Compiler.php:57-63`).

The compiler works in four steps:

1. It names the trait after the class. The name is cut at its last `_`;
   if there is no `_`, at its last `\`. `Trait` is appended.
2. It keeps every method that passes the filter. A kept method is not
   private, not static, not blacklisted, and has a truthy body.
   `__construct` is always on the blacklist.
3. It copies each kept method as an abstract method. The copy keeps the
   name, finality, static flag, visibility, parameters and the tags of its
   docblock.
4. It imports every type named in a copied docblock's typeable tags,
   except types rooted at the global namespace and PHP's built-in types.

The model is functional. Reflection is replaced by plain data:

- `Reflection.MethodDesc` describes a reflected method.
- `Reflection.ClassDesc` describes a reflected class.
- A `map` from class names to descriptors stands for class lookup.

The trait generator is replaced by `TraitModel.Trait`, which holds a name,
a namespace, a sequence of generated methods and a sequence of imports.
`Trait.name` is the name the compiler derives and hands to the generator's
constructor at `src/Compiler.php:91`, not the name the generator ends up
holding.

The model has seven modules:

| module | file | contents |
|---|---|---|
| `Wrappers` | `wrappers.dfy` | `Option` and `Result` |
| `PhpStrings` | `php_strings.dfy` | the PHP string built-ins the compiler calls: `explode` + `array_pop`, `trim`, ASCII `strtolower`, string truthiness |
| `Reflection` | `reflection.dfy` | the input descriptors |
| `DocTypes` | `doc_types.dfy` | `isPhpDocType`, the rooted-type test, what needs an import |
| `TraitModel` | `trait_model.dfy` | the generated trait and method, and `addUse` |
| `TraitCompiler` | `compiler.dfy` | name derivation, blacklist, filter, transcription, import collection, the `process` loop, the constructor |
| `Scenarios` | `scenarios.dfy` | concrete compilations |

The code has four details that are easy to misread. The model follows the
code in each:

- The built-in list has eighteen tokens, from `$this` to `void`.
- The rooted-type test looks at the raw token, before any trimming, so
  `[\Baz]` is imported.
- Blacklist matching is exact and case-sensitive, so `__Construct` is kept.
- A method body is read as a PHP boolean, so a body of `"0"` counts as
  empty and the method is skipped.

## Model

| member | source | states |
|---|---|---|
| TraitCompiler.DeriveTraitName | src/Compiler.php:74-88 | the trait name always ends in `Trait` |
| TraitCompiler.TraitNameIsLastSegmentPlusSuffix | src/Compiler.php:74-88 | the trait name is a suffix of the class name plus `Trait`. With a `_` in the name, the suffix is the text after the last `_`. With only `\`, it is the text after the last `\`. With neither, it is the whole name. The suffix never holds the chosen delimiter |
| TraitCompiler.TraitNameAfterLastDelimiter | src/Compiler.php:77-88 | cutting `prefix + d + tail` at its chosen delimiter `d`, where `tail` has no `d`, gives `tail + "Trait"` |
| TraitCompiler.TraitNameWithoutDelimiter | src/Compiler.php:83-88 | a name with neither `_` nor `\` is kept whole, plus `Trait` |
| PhpStrings.Explode | src/Compiler.php:84 | `explode` always returns at least one piece. It returns exactly one piece iff the delimiter is absent, and no piece contains the delimiter |
| PhpStrings.JoinExplode | src/Compiler.php:84 | joining the pieces with the delimiter gives back the input |
| PhpStrings.LastSegmentIsTailAfterLastDelimiter | src/Compiler.php:84-85 | `array_pop(explode(...))` is the suffix after the last delimiter. The suffix is free of the delimiter and preceded by it when one occurs; otherwise it is the whole string |
| PhpStrings.LastSegmentOfJoined | src/Compiler.php:84-85 | the last piece of `prefix + d + tail`, where `tail` has no `d`, is `tail` |
| TraitCompiler.BlacklistIsConstructorPlusCallerNames | src/Compiler.php:48-53 | a name is blacklisted iff it is `__construct` or one of the caller's names, compared exactly; `__construct` is blacklisted whatever the caller passes |
| TraitCompiler.KeepIff | src/Compiler.php:93-101 | under the merged blacklist, a method is kept iff it is public or protected, not static, neither `__construct` nor a caller name, and has a body other than `""` and `"0"` |
| TraitCompiler.Construct | src/Compiler.php:44-55 | construction fails iff the class cannot be resolved. On success, the configuration is stored and the stored blacklist matches exactly `__construct` plus the caller's names. The trait is the one `process` builds, carrying the caller's namespace and the derived name |
| TraitCompiler.Transcribe | src/Compiler.php:119-150 | the copy is abstract and keeps name, finality, static flag, visibility and parameters. It has a docblock iff the reflected doc comment is present and not empty, and then it holds that comment's tags |
| TraitModel.AddUse | src/Compiler.php:173 | registering an import keeps the earlier imports in place and adds exactly the new name, once |
| TraitModel.AddMethod | src/Compiler.php:108 | adding a method appends it and changes nothing else in the trait |
| TraitCompiler.AddTypes | src/Compiler.php:163-174 | after one tag's types, the imports are the earlier ones plus exactly the types that are neither rooted nor built-in. The earlier imports keep their order, and no import appears twice |
| TraitCompiler.ImportTypes | src/Compiler.php:156-176 | after a docblock, the imports are the earlier ones plus exactly the importable types listed by its typeable tags; other tags are skipped. Order is kept and duplicates are collapsed |
| DocTypes.PhpDocTypeIffBracketedBuiltin | src/Compiler.php:195-222 | a token is a PHPDoc type iff it is one of the eighteen built-in names, in any ASCII case, between runs of `[` and `]` |
| DocTypes.PhpDocTypeIgnoresCase | src/Compiler.php:199 | tokens equal up to ASCII case are both built-in or both not |
| DocTypes.PhpDocTypeIgnoresBrackets | src/Compiler.php:197 | surrounding a token with runs of `[` and `]` does not change whether it is built-in |
| DocTypes.PhpDocTypeIgnoresTrailingBrackets | src/Compiler.php:197 | a run of `[` and `]` written after a token, as in `int[]`, does not change whether it is built-in |
| DocTypes.UnbracketedTokenIsComparedWhole | src/Compiler.php:197-221 | a token without a bracket at either end is built-in iff its lower-cased form is in the list |
| DocTypes.LowerCasedBuiltinIsPhpDocType | src/Compiler.php:197-218 | a token whose lower-cased form is a built-in name is built-in |
| PhpStrings.TrimKeepsInnerSlice | src/Compiler.php:197 | `trim` splits a token into a leading run of list characters, the kept text and a trailing run; the kept text neither starts nor ends with a list character |
| PhpStrings.TrimIgnoresPadding | src/Compiler.php:197 | runs of list characters added around a string do not change what `trim` keeps |
| PhpStrings.LowerCommutesWithTrim | src/Compiler.php:197-199 | lower-casing before or after trimming a letter-free character list gives the same string |
| PhpStrings.LowerChar | src/Compiler.php:199 | `strtolower` on one character maps each of `A`-`Z` to the letter 32 code points above it, which is its lower-case form, and leaves every other character unchanged; the result is never an upper-case ASCII letter |
| PhpStrings.LowerCharFollowsAlphabet | src/Compiler.php:199 | against the alphabet written out, each capital `A`-`Z` lower-cases to the letter at the same place in `a`-`z`, and lower-case letters stay as they are |
| PhpStrings.ToLower | src/Compiler.php:199 | `strtolower` on a string keeps its length and lower-cases each character in place |
| TraitCompiler.FoldAppendsGenerated | src/Compiler.php:93-109 | the loop appends to the trait's methods exactly the kept methods' copies, in reflection order |
| TraitCompiler.FoldCollectsImports | src/Compiler.php:93-109 | after the loop, the imports are the earlier ones plus exactly the types that some kept, documented method's typeable tags contribute, with no duplicates |
| TraitCompiler.FoldKeepsHeader | src/Compiler.php:91-109 | the loop never changes the trait's name or namespace |
| TraitCompiler.FoldSkipsExcluded | src/Compiler.php:94-101 | a run of methods that all fail the filter leaves the trait unchanged |
| TraitCompiler.FoldConcat | src/Compiler.php:93-109 | running the loop over two lists in a row equals running it over their concatenation |
| TraitCompiler.GeneratedIsOrderedSelection | src/Compiler.php:93-109 | the positions of the kept methods increase strictly and are exactly the positions that pass the filter. The copy at each output position transcribes the input method at the matching position |
| TraitCompiler.Delimiter | src/Compiler.php:76-81 | `_` when the class name holds one, otherwise `\`, otherwise none; characterized by `TraitNameIsLastSegmentPlusSuffix` |
| TraitCompiler.Step | src/Compiler.php:94-108 | one pass of the `foreach`: the `continue` test, the transcription, the import of the docblock's types and `addMethodFromGenerator`; characterized by `ProcessOfOneKeptMethod` and `FoldSkipsExcluded` |
| TraitCompiler.Fold | src/Compiler.php:93-109 | the `foreach` over the reflected methods, in order; characterized by `FoldAppendsGenerated` and `FoldCollectsImports` |
| TraitCompiler.Process | src/Compiler.php:70-112 | `process`: the trait named by `DeriveTraitName`, in the caller's namespace, after the method loop; characterized by `ProcessBuildsTrait` |
| TraitCompiler.Keep | src/Compiler.php:94-99 | the negation of the loop's `continue` condition; characterized by `KeepIff` |
| TraitCompiler.EffectiveBlacklist | src/Compiler.php:48-53 | `array_merge(['__construct'], $blackListMethodNames)`; characterized by `BlacklistIsConstructorPlusCallerNames` |
| TraitCompiler.IsBlacklisted | src/Compiler.php:185-188 | strict `in_array` on strings, which is exact membership; characterized by `BlacklistIsConstructorPlusCallerNames` |
| TraitCompiler.HasDocComment | src/Compiler.php:126 | `getDocComment() != ''`: a comment is reported and it is not empty; used by the docblock clause of `Transcribe` |
| PhpStrings.IsTruthy | src/Compiler.php:98 | a string in a boolean context is false exactly when it is `""` or `"0"`; used by `KeepIff` |
| DocTypes.IsPhpDocType | src/Compiler.php:195-222 | `isPhpDocType`; characterized by `PhpDocTypeIffBracketedBuiltin` |
| DocTypes.IsGloballyRooted | src/Compiler.php:165 | `$type[0] === '\\'`, with the empty token not rooted; with `IsPhpDocType` it decides `ProcessImportsOnlyImportable` |
| PhpStrings.Trim | src/Compiler.php:197 | `trim($type, '[]')`; characterized by `TrimKeepsInnerSlice` and `TrimIgnoresPadding` |
| PhpStrings.LastSegment | src/Compiler.php:84-85 | `array_pop(explode(...))`; characterized by `LastSegmentIsTailAfterLastDelimiter` |
| TraitCompiler.ProcessBuildsTrait | src/Compiler.php:70-112 | `process` gives the derived name and the caller's namespace. Its methods are exactly the kept methods' copies, in order. Its imports are exactly the contributed types, each once |
| TraitCompiler.ProcessEmitsOnlyAbstractMethods | src/Compiler.php:94-101 | every method of the trait is abstract, not private and not static |
| TraitCompiler.ProcessDeclaresExactlyKeptNames | src/Compiler.php:93-109 | the trait declares a method of a given name iff some reflected method of that name passes the filter |
| TraitCompiler.GeneratedComesFromKept | src/Compiler.php:93-108 | every generated method is the copy of some kept reflected method |
| TraitCompiler.KeptIsGenerated | src/Compiler.php:93-108 | every kept reflected method has its copy in the trait |
| TraitCompiler.ProcessImportsOnlyImportable | src/Compiler.php:163-173 | no import is rooted at the global namespace or built-in |
| TraitCompiler.ExcludedMethodLeavesNoTrace | src/Compiler.php:94-101 | removing a method that fails the filter from the class changes nothing in the trait |
| TraitCompiler.BlacklistingEveryNameEmptiesTrait | src/Compiler.php:48-53 | when the caller blacklists every method name, the trait has no methods and no imports |
| TraitCompiler.ProcessOfOneKeptMethod | src/Compiler.php:93-109 | a class with one kept method compiles to that method's copy. It imports a name iff the method has a non-empty doc comment whose typeable tags list that name as an importable type, in the order the docblock registers them |
| Scenarios.NamespacedClassName | src/Compiler.php:79-88 | `App\Service\Mailer` gives `MailerTrait` |
| Scenarios.UnderscoredClassName | src/Compiler.php:77-88 | `Legacy_Db_Connection` gives `ConnectionTrait` |
| Scenarios.UnderscoreWinsOverBackslash | src/Compiler.php:77-88 | `Legacy_Db\Connection` holds both delimiters, is cut at `_`, and derives `Db\ConnectionTrait`, because `_` is preferred over `\` |
| Scenarios.PlainClassName | src/Compiler.php:83-88 | `Widget` gives `WidgetTrait` |
| Scenarios.OnlyThePublicInstanceMethodSurvives | src/Compiler.php:70-112 | of a constructor, a private, a static and a documented public method, only the public one is copied, abstract and with its docblock; `array` brings no import |
| Scenarios.BlacklistingSaveEmptiesTheTrait | src/Compiler.php:48-53 | blacklisting the remaining method leaves the trait without methods |
| Scenarios.RootedReturnTypeIsNotImported | src/Compiler.php:165-167 | `@return \App\Model\User` brings no import |
| Scenarios.UnrootedReturnTypeIsImported | src/Compiler.php:163-173 | `@return App\Model\User` imports that name as written |
| Scenarios.StringArrayIsBuiltin | src/Compiler.php:197-215 | `String[]` is built-in |
| Scenarios.ClassArrayIsImportedRaw | src/Compiler.php:169-173 | `Foo[]` is not built-in and is imported with its brackets |
| Scenarios.BracketBeforeRootIsImported | src/Compiler.php:165-173 | `[\Baz]` is imported, while `\Baz` is not |
| Scenarios.RepeatedTypeIsImportedOnce | src/Compiler.php:158-173 | a non-typeable tag adds nothing, and a type named twice is imported once |
| Scenarios.FilterIsExact | src/Compiler.php:94-101 | `__Construct` passes the filter, a body `"0"` fails it, and a body `"00"` passes |

## Left out

- Reflection itself is not modelled. `ClassReflection` and `MethodReflection` become the `ClassDesc` and `MethodDesc` descriptors. Class lookup becomes a map, and an unknown class becomes `ClassNotFound` instead of a reflection exception.
- TraitCompiler.Transcribe: the copied docblock carries only the doc comment's tags. The short and long descriptions that `DocBlockGenerator::fromReflection` also copies are not carried, because only the tags affect what the compiler imports.
- Docblock parsing is not modelled. A doc comment arrives with its tags already parsed, as reflection and `DocBlockGenerator::fromReflection` would deliver them.
- `ParameterGenerator::fromReflection` is modelled as copying each parameter descriptor unchanged. The generator's own parameter rendering is outside the compiler.
- `setSourceContent` and `setSourceDirty` are not modelled, because they only affect how the generator renders a method.
- `exportAsAbstractMethods` and the `FileGenerator` rendering to PHP text are not modelled. The model stops at the in-memory trait.
- `addMethodFromGenerator` throws on a duplicate method name; the model does not. Reflection never reports two methods of one name, so the compiler cannot hit that case.
- The generator's `addUse` keys imports by name. The model keeps them as a sequence with duplicates collapsed. A re-registered name stays at its first position; that order is the model's own choice, because the generator's order is not part of the compiler. Any alias handling in the generator is not modelled.
- What the trait generator does with the derived name is not modelled. `Trait.name` is the argument passed at `src/Compiler.php:91`. The generator splits a name holding `\` at its last `\` and lets the namespace passed beside it take precedence. So for a class such as `Legacy_Db\Connection`, the derived `Db\ConnectionTrait` is not the name the rendered trait carries.
- The PHP warning for `$type[0]` on an empty token is not modelled. The model follows the value PHP yields, an empty string, so the empty token counts as not rooted and is imported.
- `strtolower` is modelled with the ASCII mapping only. Locale-dependent lower-casing of other bytes is not modelled.
- Blacklist entries that are not strings are not modelled. The blacklist is a `seq<string>`, so the strict `in_array` is plain equality.
- PHP's case-insensitive method names are not modelled. Names are compared exactly, as `in_array(..., true)` does.
