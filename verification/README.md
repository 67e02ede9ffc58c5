# property-alias in Dafny

A model of the PHP library `selfiens/property-alias`. A class using the library's
trait declares aliases in its doc comment with lines of the form

    * @property $alias==target

Reading, writing, testing (`isset`) or unsetting `$obj->alias` then acts on
`$obj->target`. An alias may name another alias, and the chain is followed to the
end. The doc comments of the class and of all its ancestors are read.

The model covers the library's three parts:

- **The reader.** `ClassDocPropertyReader` walks the class and its ancestors.
  For each one it recognises every `@property` line of the doc comment and
  merges the declarations into one array of `name => {type, desc}`.
  `$defs[name]` is assigned for every level in walk order, so an ancestor's
  declaration replaces the derived class's
  (`ClassDocPropertyReader.PropertiesLastDeclarationWins`).
  - Module `ClassDocPropertyReader`.
  - The text classes and PHP's `trim()` are in module `Text`.
- **The table builder.** `parsePropertyDefs` is the five-stage pipeline that
  turns the declarations into an alias table of `alias => target`.
  - Module `AliasTable`.
  - It uses `pipe`, `map`, `mapKeyValue`, `filter` and `pregMatcher` from
    `functions.php` (module `Functions`).
  - PHP's ordered arrays are in module `PhpArrays`.
- **The trait.**
  - Module `Resolution`: `isAliasedProperty`, `unaliasPropertyName` and
    `unaliasProperties`.
  - Module `Accessors`: the magic `__get`, `__set`, `__isset` and `__unset`
    on an object's properties.
  - Module `Instance`: the lazily built table `$_property_aliases`, via
    `preparePropertyAliasMap`, and the public methods on an object.
  - Module `Scenarios`: the behaviour the repository's five test classes check.

A PHP array is a sequence of `(key, value)` entries in iteration order, with
integer or string keys. The object's properties are a map from name to value.

## Model

| member | source | states |
|---|---|---|
| `PhpArrays.Put` | src/ClassDocPropertyReader.php:36-39 | `$a[$k] = $v`: the key then looks up the new value; every other key looks up what it did before; distinct keys stay distinct |
| `PhpArrays.PutAppends` | src/functions.php:45 | assigning to an absent key appends the entry at the end |
| `PhpArrays.PutKeepsKeys` | src/functions.php:45 | assigning to a present key changes no key and no position |
| `PhpArrays.NextIndex` | src/functions.php:42-43 | the key `$a[] = $v` uses is not already a key of the array |
| `PhpArrays.MaxIntKey` | src/functions.php:42-43 | the largest integer key: every integer key is at most it, and it is a key |
| `PhpArrays.StoreAllLastWins` | src/functions.php:40-47 | after a sequence of assignments, a key holds the value of the last assignment naming it |
| `PhpArrays.StoreAllUntouched` | src/functions.php:40-47 | a string key that no assignment names keeps its earlier value |
| `PhpArrays.StoreAllSplit` | src/functions.php:40-47 | performing two batches of assignments is performing the first, then the second |
| `PhpArrays.StoreAllFresh` | src/functions.php:40-47 | assigning new, distinct keys appends the entries in order |
| `PhpArrays.WellFormedIffDistinct` | src/functions.php:37-49 | an array is well formed exactly when its keys are pairwise distinct |
| `PhpArrays.LookupAt` | src/ClassDocPropertyReader.php:36-39 | in a well-formed array, each entry's key looks up that entry's value |
| `Functions.PipeAppend` | src/functions.php:15-18 | piping through `fs + gs` is piping through `fs`, then through `gs` |
| `Functions.PipeLeftToRight` | src/functions.php:15-18 | the last function listed is applied last, and no functions means the data comes back unchanged |
| `Functions.Map` | src/functions.php:26-29 | `array_map` with one array: same keys in the same order, each value transformed, each lookup transformed |
| `Functions.MapKeyValue` | src/functions.php:37-49 | the result never holds a key twice |
| `Functions.MapKeyValueLastWins` | src/functions.php:40-46 | a key holds the value from the last entry whose callable result names that key |
| `Functions.MapKeyValueUnnamed` | src/functions.php:40-46 | a string key that no callable result names is absent |
| `Functions.MapKeyValueNullKeyAppends` | src/functions.php:42-43 | a callable result with a null key appends its value under the next integer index |
| `Functions.MapKeyValueSameKeys` | src/functions.php:37-49 | when every result keeps its entry's own key, the keys and their order are unchanged and each value is the callable's |
| `Functions.MapKeyValueKeepingKeys` | src/functions.php:37-49 | a `mapKeyValue` that keeps keys and maps values is `map` |
| `Functions.FilterWithKeys` | src/functions.php:56-59 | `array_filter` with both arguments: an entry is kept exactly when the predicate holds of its value and key; order is kept; keys are preserved |
| `Functions.Filter` | src/functions.php:56-59 | `array_filter` on values: an entry is kept exactly when the predicate holds of its value; order is kept; keys are preserved |
| `Text.Span` | src/ClassDocPropertyReader.php:30 | a greedy class repetition stops at the first character outside the class, or at the end |
| `Text.SpanIs` | src/ClassDocPropertyReader.php:30 | a repetition is determined by where it stops |
| `Text.Trim` | src/ClassDocPropertyReader.php:36-38 | `trim()`: the result neither starts nor ends with a trim character |
| `Text.TrimRemovesOnlyTrimChars` | src/ClassDocPropertyReader.php:36-38 | only trim characters are removed, at either end |
| `Text.TrimIdempotent` | src/PropertyAliasTrait.php:173 | trimming an already trimmed description changes nothing |
| `Text.TrimAround` | src/PropertyAliasTrait.php:173 | trimming removes leading whitespace in front of text that has no trim character at either end |
| `ClassDocPropertyReader.TypeThenDollar` | src/ClassDocPropertyReader.php:30 | when the optional type group and `\s+\$` are read, what is left is shorter and the character before it is `$` |
| `ClassDocPropertyReader.ScanShape` | src/ClassDocPropertyReader.php:29-34 | every match has a non-empty name in the name class and a description free of line breaks |
| `ClassDocPropertyReader.UntypedAccepts` | src/ClassDocPropertyReader.php:30 | without a type group, whitespace then `$` is read and the type is empty |
| `ClassDocPropertyReader.TypedAccepts` | src/ClassDocPropertyReader.php:30 | a type group (whitespace, a letter, word characters) is read and captured as the type |
| `ClassDocPropertyReader.KeywordAccepts` | src/ClassDocPropertyReader.php:30 | `*`, whitespace and `@property` are read, and matching goes on with what follows |
| `ClassDocPropertyReader.NameAndDescAccepts` | src/ClassDocPropertyReader.php:30 | the name is read up to the first character that ends it, and the description to the end of the line |
| `ClassDocPropertyReader.MatchAtAccepts` | src/ClassDocPropertyReader.php:30 | a well-formed declaration line matches, with exactly its type, name and description |
| `ClassDocPropertyReader.MatchAtSound` | src/ClassDocPropertyReader.php:30 | conversely, whatever matches is a well-formed declaration: `*`, whitespace, `@property`, no type or a type group, whitespace, `$`, a non-empty name up to the first character that ends it, and the rest of its line, with what is left starting a new line |
| `ClassDocPropertyReader.ScanDeclaration` | src/ClassDocPropertyReader.php:29-35 | scanning finds the declaration, then goes on after its line |
| `ClassDocPropertyReader.ScanSkips` | src/ClassDocPropertyReader.php:29-34 | a position without `*` is skipped |
| `ClassDocPropertyReader.KeywordNeedsWhitespace` | src/ClassDocPropertyReader.php:30 | `@property-read`, `@property-write` and `@propertyX` never match |
| `ClassDocPropertyReader.MissingDollarRejected` | src/ClassDocPropertyReader.php:30 | a line without `$` after `@property` does not match |
| `ClassDocPropertyReader.EmptyNameRejected` | src/ClassDocPropertyReader.php:30 | a `$` followed by a space, `=` or nothing does not match |
| `ClassDocPropertyReader.OneLetterTypeRejected` | src/ClassDocPropertyReader.php:30 | a one-letter type hint is not a type group, and the line does not match |
| `ClassDocPropertyReader.Properties` | src/ClassDocPropertyReader.php:22-53 | under either name rule, the declared properties never hold a name twice |
| `ClassDocPropertyReader.LevelMatchesAppend` | src/ClassDocPropertyReader.php:27-42 | the walk visits the class first and each ancestor after everything below it |
| `ClassDocPropertyReader.AncestorAssignedAfter` | src/ClassDocPropertyReader.php:27-42 | one more ancestor's declarations are assigned on top of those collected so far |
| `ClassDocPropertyReader.MissingDocContributesNothing` | src/ClassDocPropertyReader.php:28 | a class without a doc comment adds nothing, wherever it stands in the chain |
| `ClassDocPropertyReader.PropertiesLastDeclarationWins` | src/ClassDocPropertyReader.php:35-39 | the last declaration of a name in walk order is recorded, with type and description trimmed; an ancestor's declaration replaces the derived class's |
| `ClassDocPropertyReader.PropertiesUndeclared` | src/ClassDocPropertyReader.php:35-39 | a name no level declares is absent |
| `ClassDocPropertyReader.SwallowedDeclarationLine` | src/ClassDocPropertyReader.php:30 | with the pattern as written, a name without a description runs past the line break and swallows the next declaration |
| `ClassDocPropertyReader.SeparateLinesBothMatch` | src/ClassDocPropertyReader.php:30 | with names ending at any whitespace, both consecutive declarations are found |
| `AliasTable.AfterEquals` | src/PropertyAliasTrait.php:176 | reading `^\s*={1,3}\s*` leaves a strictly shorter rest |
| `AliasTable.ParsePropertyDefs` | src/PropertyAliasTrait.php:167-183 | the alias table never holds a name twice |
| `AliasTable.KeptDefsLookup` | src/PropertyAliasTrait.php:169-176 | after the first three stages, a name holds its trimmed definition exactly when its description is truthy and declares an alias |
| `AliasTable.ParsePropertyDefsLookup` | src/PropertyAliasTrait.php:167-183 | a name is in the table exactly when its description is truthy, its trimmed description declares an alias, and the captured target is not the name; its entry is that target |
| `AliasTable.NoSelfAlias` | src/PropertyAliasTrait.php:181 | the table never maps a name to itself |
| `AliasTable.CaptureNeverFails` | src/PropertyAliasTrait.php:176-179 | every description stage 3 keeps has a group 1 in stage 4, and it is an identifier |
| `AliasTable.TargetsAreIdentifiers` | src/PropertyAliasTrait.php:176-181 | every target in the table starts with a letter and continues with word characters |
| `AliasTable.AfterEqualsAccepts` | src/PropertyAliasTrait.php:176 | whitespace, one to three `=` and whitespace are read up to the next character |
| `AliasTable.AliasDescAccepts` | src/PropertyAliasTrait.php:176-179 | whitespace, `=`, `==` or `===`, whitespace and a letter declare an alias, whose target is the word starting at that letter |
| `AliasTable.TargetGroups` | src/functions.php:64-70 | `pregMatcher` with the stage-4 pattern `^\s*={1,3}\s*(\w+)` returns no groups exactly when the equals signs or the word after them are missing; otherwise the whole match, a prefix of the description, and group 1, the longest run of word characters right after `\s*`, which ends the whole match |
| `AliasTable.NoEqualsNoAlias` | src/PropertyAliasTrait.php:176 | a description without `=` after its leading whitespace declares no alias |
| `AliasTable.TooManyEqualsNoAlias` | src/PropertyAliasTrait.php:176 | four or more `=` declare no alias |
| `Resolution.Chain` | src/PropertyAliasTrait.php:143-151 | a chain of zero steps is exactly a name that is not an alias; a chain never exceeds its fuel |
| `Resolution.ChainMore` | src/PropertyAliasTrait.php:143-151 | more fuel does not change a chain that already ends |
| `Resolution.Unalias` | src/PropertyAliasTrait.php:143-151 | the resolved name is never an alias, and a name that is not an alias resolves to itself |
| `Resolution.UnaliasIdempotent` | src/PropertyAliasTrait.php:143-151 | resolving a resolved name changes nothing |
| `Resolution.UnaliasThroughTarget` | src/PropertyAliasTrait.php:149-150 | an alias resolves as its target does |
| `Resolution.FollowReachesUnalias` | src/PropertyAliasTrait.php:143-151 | following the table for at least the chain's length reaches the resolution |
| `Resolution.UnaliasIsFollow` | src/PropertyAliasTrait.php:143-151 | resolution is the table applied as many times as it has entries, stopping at a name that is not an alias |
| `Resolution.ChainNeverEnds` | src/PropertyAliasTrait.php:143-151 | a name whose chain does not leave the table within as many steps as it has entries never leaves it, however many steps are allowed |
| `Resolution.ResolvesIffEnds` | src/PropertyAliasTrait.php:143-151 | a name resolves within as many steps as the table has entries exactly when `unaliasPropertyName` on it ends after some number of steps |
| `Resolution.TwoCycleNotAcyclic` | src/PropertyAliasTrait.php:143-151 | two names aliasing each other, or a name aliasing itself, make resolution run for ever |
| `Resolution.CycleNeverResolves` | src/PropertyAliasTrait.php:143-151 | an alias that the table leads back to itself after any positive number of steps never resolves, whatever the number of steps allowed |
| `Resolution.CycleNotAcyclic` | src/PropertyAliasTrait.php:143-151 | a cycle of any length through the table makes resolution run for ever |
| `Resolution.LongChainHasCycle` | src/PropertyAliasTrait.php:143-151 | a chain that does not end within as many steps as the table has entries meets some alias twice, so the table has a cycle |
| `Resolution.AcyclicIffNoCycle` | src/PropertyAliasTrait.php:143-151 | resolution ends for every name if and only if no alias leads back to itself |
| `Resolution.UnrelatedCycle` | src/PropertyAliasTrait.php:143-151 | with `a` and `b` aliasing each other, a name that is not an alias still resolves, to itself, though the table has a cycle |
| `Resolution.RankedAcyclic` | src/PropertyAliasTrait.php:143-151 | a table is acyclic when some rank no larger than the table drops at every alias step |
| `Resolution.UnaliasProperties` | src/PropertyAliasTrait.php:131-134 | the result never holds a key twice |
| `Resolution.UnaliasPropertiesNoAlias` | src/PropertyAliasTrait.php:131-134 | no alias is left among the keys |
| `Resolution.UnaliasPropertiesLastWins` | src/PropertyAliasTrait.php:131-134 | a resolved name holds the value of the last entry whose key resolves to it |
| `Resolution.UnaliasPropertiesUnnamed` | src/PropertyAliasTrait.php:131-134 | a name no key resolves to is absent |
| `Resolution.UnaliasPropertiesResolved` | src/PropertyAliasTrait.php:131-134 | an array whose keys are already resolved comes back unchanged |
| `Accessors.Get` | src/PropertyAliasTrait.php:18-35 | for a name that is not an alias, `__get` reads that very property, or finds nothing |
| `Accessors.Set` | src/PropertyAliasTrait.php:37-51 | `__set` makes the name read back the value, adds at most the resolved property, changes no other property, and for a non-alias is a plain write |
| `Accessors.Isset` | src/PropertyAliasTrait.php:53-66 | `__isset` holds exactly when reading the name yields a value that is not null |
| `Accessors.Unset` | src/PropertyAliasTrait.php:68-101 | after `__unset` the name reads as nothing and is not set; only the resolved property is removed |
| `Accessors.GetThroughAlias` | src/PropertyAliasTrait.php:21-23 | reading an alias reads its target |
| `Accessors.SetThroughAlias` | src/PropertyAliasTrait.php:39-42 | writing an alias writes its target |
| `Accessors.SharedStorage` | src/PropertyAliasTrait.php:37-43 | a value written through one name is read through any name that resolves to the same property |
| `Accessors.SetLeavesOthers` | src/PropertyAliasTrait.php:37-51 | a write leaves every name that resolves elsewhere as it was, for reading and for `isset` |
| `Accessors.IssetAfterSet` | src/PropertyAliasTrait.php:53-66 | after a non-null value is written, the name is set |
| `Accessors.UnsetMissingIsNoOp` | src/PropertyAliasTrait.php:68-101 | unsetting a name whose property does not exist changes nothing |
| `Accessors.UnsetShared` | src/PropertyAliasTrait.php:86-99 | unsetting through one name unsets every name resolving to the same property |
| `Instance.DeclaredAliases` | src/PropertyAliasTrait.php:159 | the table built from the class's doc comments, read with the object's name rule, holds for every name exactly what its declaration declares |
| `Instance.Prepare` | src/PropertyAliasTrait.php:157-160 | `??=`: the table is built when missing and never rebuilt, and nothing else changes |
| `Instance.PrepareIdempotent` | src/PropertyAliasTrait.php:157-160 | preparing twice is preparing once |
| `Instance.AliasedProperties` | src/PropertyAliasTrait.php:118-122 | the declared alias table, with the object prepared |
| `Instance.AliasedPropertiesStable` | src/PropertyAliasTrait.php:118-122 | asking again returns the same table and leaves the object as it is |
| `Instance.IsAliasedProperty` | src/PropertyAliasTrait.php:108-112 | true exactly when the doc comments declare the name as an alias of another name |
| `Instance.UnaliasPropertyName` | src/PropertyAliasTrait.php:143-151 | the name resolved through the declared table |
| `Instance.UnaliasPropertiesOf` | src/PropertyAliasTrait.php:131-134 | the array's keys resolved through the declared table |
| `Instance.MagicGet` | src/PropertyAliasTrait.php:18-35 | `$obj->name` reads the property the declared table resolves the name to |
| `Instance.MagicSet` | src/PropertyAliasTrait.php:37-51 | `$obj->name = v` writes the resolved property and keeps the object consistent |
| `Instance.MagicIsset` | src/PropertyAliasTrait.php:53-66 | `isset($obj->name)` tests the resolved property |
| `Instance.MagicUnset` | src/PropertyAliasTrait.php:68-101 | `unset($obj->name)` removes the resolved property |
| `Instance.MagicSetThenGet` | src/PropertyAliasTrait.php:37-51 | reading a name right after writing it yields the written value, whether or not the table was built before |
| `Scenarios.ScanDocLines` | src/ClassDocPropertyReader.php:29-34 | under either name rule, doc comment lines `* @property $name` each followed by a description that starts with a space or `=` are matched line by line, with each name and description |
| `Scenarios.DocLinesProperties` | src/ClassDocPropertyReader.php:26-44 | for a class without ancestors, each line's name holds its trimmed description and other names are absent |
| `Scenarios.DeclaredAliasLine` | src/PropertyAliasTrait.php:167-183 | a `$name==target` line puts `name => target` in the table, unless the target is the name itself |
| `Scenarios.UndeclaredName` | src/PropertyAliasTrait.php:167-183 | a name no line declares is not an alias |
| `Scenarios.BasicTable` | tests/BasicTest.php:7-10 | under either name rule, the doc comment's lines `* @property $bar==foo` and `* @property $goo==zoo` give exactly the table `bar => foo`, `goo => zoo` |
| `Scenarios.BasicTest` | tests/BasicTest.php:31-56 | `bar` reads `foo`, a write to `bar` lands in `foo`, a write to `foo` is read through `bar`, and an undeclared, absent name reads as undefined |
| `Scenarios.ChainTable` | tests/MultiLevelAliasTest.php:7-11 | under either name rule, the doc comment's three `@property` lines give exactly the chain of three aliases ending at `foo` |
| `Scenarios.ChainIo` | tests/MultiLevelAliasTest.php:19-34 | on a three-step chain, the last alias resolves to `foo`, and reads, writes and unset act on `foo` |
| `Scenarios.MultiLevelTest` | tests/MultiLevelAliasTest.php:19-34 | the three-level alias reads, writes, is written through and unsets `foo` |
| `Scenarios.LoopBackTable` | tests/LoopBackTest.php:7-9 | under either name rule, the doc comment's line `* @property $alias_to_self == alias_to_self` is dropped, and nothing is an alias |
| `Scenarios.LoopBackTest` | tests/LoopBackTest.php:21-30 | the self-aliased name behaves as a plain property: unset, then set and readable, then unset again |
| `Scenarios.MissingTargetTable` | tests/AliasToNonExistingPropertyTest.php:7-9 | under either name rule, the doc comment's line declaring an alias to a missing property puts that alias in the table |
| `Scenarios.MissingTargetTest` | tests/AliasToNonExistingPropertyTest.php:31-59 | reading the alias finds nothing, writing it creates the target property, and unsetting it changes nothing and ends |
| `Scenarios.OneAliasIo` | tests/AliasToNonExistingPropertyTest.php:42-59 | on a one-alias table, the alias reads, writes and unsets its target |
| `Scenarios.TraitTestTable` | tests/PropertyAliasTraitTest.php:7-9 | under either name rule, the doc comment's line `* @property $bar==foo` gives exactly the table `bar => foo` |
| `Scenarios.PropertyAliasTraitTest` | tests/PropertyAliasTraitTest.php:12-28 | with `foo` set, `bar` reads `foo`; a write to `bar` lands in `foo`; a later write to `foo` is read through `bar` |

## Left out

- Reflection is not modelled. The doc comments of the class and its ancestors
  (`getDocComment()`, `getParentClass()`) are a parameter: a sequence with the
  class first and `None` for a class without a doc comment.
- Delegation to a parent class's `__get`, `__set`, `__isset` or `__unset` is
  not modelled (`is_callable(['parent', ...])`, `class_parents`). The model is
  the trait on a class whose ancestors do not implement them.
- PHP calls the magic methods only for names that are not accessible
  properties. For a name that is not an alias, the model's accessors behave
  like direct property access, so the two coincide. An alias name that is also
  a real property is assumed not to occur.
- The `$processingName` re-entry guard of `__unset` is not modelled. When a
  name resolves to a property that does not exist, `unset` of it simply
  changes nothing.
- `Accessors.Get`: reading a missing property yields `None`, standing for PHP's
  undefined-property warning followed by null. The test subjects define a
  `returnNativeProperty` that returns "UNDEFINED(UNIT-TEST)", but the trait
  never calls it; it calls `returnMemberField`, so the model does not produce
  that string.
- `Resolution.Unalias`: requires the name to resolve (`Resolution.Resolves`:
  its own chain leaves the table within as many steps as the table has
  entries). A cycle elsewhere in the table does not matter.
  - `unaliasPropertyName` has no cycle guard. For a name whose chain runs into
    a cycle of length two or more, it recurses until the stack overflows.
  - `Resolution.ResolvesIffEnds` shows that the excluded names are exactly
    those for which the recursion never ends.
  - `Resolution.AcyclicIffNoCycle` shows that a table where every name
    resolves is exactly one where no alias leads back to itself.
    `Resolution.TwoCycleNotAcyclic` is the two-name case.
  - A self-alias is removed by stage 5 of `parsePropertyDefs`, so it never
    reaches resolution.
- `Resolution.UnaliasProperties`: requires every key to be a string that
  resolves (`Resolution.KeysResolve`). `unaliasPropertyName(string $name)`
  under `strict_types` throws a `TypeError` for an integer key, and exceptions
  are not modelled. A key running into a cycle overflows the stack, as for
  `Resolution.Unalias`.
- `Accessors.Get`, `Accessors.Set`, `Accessors.Isset`, `Accessors.Unset` and
  the `Instance` methods `UnaliasPropertyName`, `UnaliasPropertiesOf`,
  `MagicGet`, `MagicSet`, `MagicIsset` and `MagicUnset`: each requires only
  the name (or the keys) it resolves to resolve. A name that runs into a
  cycle overflows the stack in PHP, as for `Resolution.Unalias`.
- `Accessors.Set`, `Accessors.Get`: properties are modelled as untyped.
  - The test classes declare typed properties such as `public string $foo`,
    and the trait file uses `strict_types=1`.
  - In PHP, writing a value of another type through an alias throws a
    `TypeError`. The model stores any value.
  - In PHP, reading an unset typed property throws an error ("must not be
    accessed before initialization"). The model yields `None` for it as for
    any missing property.
- PHP turns numeric-string keys such as "12" into integer keys. All names are
  modelled as string keys. Lookups coerce the same way, so this is not
  observable for names that go through the table.
- PHP's loose `!=` in stage 5 is modelled as string inequality. A target
  starts with a letter, so it is never numeric, and loose and strict
  comparison agree.
- `Functions.Pipe` takes functions of one type `T -> T`. `parsePropertyDefs`
  changes the element type in its last two stages, so those two are applied
  after the `Pipe` of the first three.
- `PhpArrays.NextIndex`, `Functions.MapKeyValueNullKeyAppends`: integer keys
  are unbounded. When the largest integer key is already PHP_INT_MAX
  (9223372036854775807), PHP 8 throws "Cannot add element to the array as the
  next element is already occupied". The model appends under PHP_INT_MAX + 1.
  The library's own callables always return a string key, so this path is
  not reached from `parsePropertyDefs` or `unaliasProperties`.
- `PhpArrays.NextIndex` follows PHP 8.3 and later, where `$a[] = $v` on an
  array whose integer keys are all negative uses one past the largest key.
  The older rule, which uses 0, is not modelled.
- `AliasTable.TargetOf` yields "" when the capture fails. This cannot happen
  after stage 3 (`AliasTable.CaptureNeverFails`), so PHP's undefined-offset
  path is not modelled.
- Characters are Dafny `char`s, and the character classes `\s`, `\w` and
  `[a-zA-Z]` are the ASCII ones PCRE uses without the `u` flag. Byte-level
  encodings are not modelled.
- The type group `(?<type>...)` is captured and trimmed but never used by the
  alias table, so only its effect on matching is modelled.
- The test scenarios use a class without ancestors. `MultiLevelAliasTest`
  and `PropertyAliasTraitTest` extend PHPUnit's `TestCase`, whose doc
  comments are not part of this model.

## Findings

| source | as written | input that shows it | evidently intended | confidence | as-written member | corrected member |
|---|---|---|---|---|---|---|
| src/ClassDocPropertyReader.php:30 | the name is `[^ =]+`, which also matches a tab, carriage return, line break, vertical tab or form feed, so a name with nothing after it runs on into the next line, and `$x`, a tab, then `y==t` declares the name `x`, tab, `y` as an alias of `t` | `* @property $x` followed on the next line by ` * @property $y`: the name becomes `x` plus the line break, the whole next line becomes its description, and `y` is never declared | `[^\s=]+`: a name ends at any whitespace, so each line declares its own property | not executed | `ClassDocPropertyReader.SwallowedDeclarationLine` | `ClassDocPropertyReader.SeparateLinesBothMatch` |

The rest of the model takes the name rule as a parameter
(`ClassDocPropertyReader.NameRule`). `AsWritten` is the pattern as written and
`Intended` the corrected one. An object (`Instance.Object`) carries the rule
its reader uses. Every scenario in `Scenarios` is proved under both rules,
because there each name is followed on its line by a space or `=`.
