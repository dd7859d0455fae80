# Caramel configuration core in Dafny

This project models the configuration core of Caramel, a Java library. Caramel finds a
configuration's files from short location descriptors, orders them by priority, folds them
into one configuration per key, and keeps the results in a registry. The model covers:

- **Descriptors.** A descriptor such as `{redis}(2.5)classpath:/conf/app.conf` carries an
  optional `{key}` segment and an optional `(priority)` segment, checked symbol by symbol
  (`LocationPickup`). The rest splits into path, name and extension (`Locations`) and becomes
  a position (`LocalLocator`), read with the pickup as the code writes it. The corrected
  pickup is modelled alongside and proved to agree with it on well-formed descriptors. The
  older `CaramelConfigLocator`, which knows no segments, is modelled too (`LegacyLocator`).
- **Candidates.** Each position expands into candidate files over the conventional
  directories and extensions. The files that exist are numbered 1, 2, … as their convention
  priority and filed by description into a bunch; bunches are grouped by key.
- **Ordering.** `PriorityComparable` puts a null priority lowest (`PriorityOrder.Compare`).
  `Collections.sort` is modelled as a stable insertion sort, with its reference
  characterisation: sorted, and each priority class kept in input order.
- **Folding.** Each key's bunches are sorted by explicit priority and each bunch's resources
  by convention priority. The parsed trees are then folded, later entries winning. Three fold
  variants exist: exact paths, kebab/camel "rename to the newcomer"
  (`ConfigResourceLoader`), and kebab/camel "keep the existing name" (`ConfigRegistry`). A
  file that cannot be read aborts the load and names that file (`ConfigMerge`,
  `ResourceLoader`).
- **Registries.** `ConfigRegistry` sorts its locators and gathers their bunches per key.
  `CaramelConfigRegistry` loads from its properties (`Registry`, `CaramelRegistry`).
- **Helpers.** The string helpers `StringAide` and `CaramelAide`, the naming conversions of
  `NamingConvention`, the path helpers of `ResourceUtils`, and the echo flags of
  `CaramelConfigEcho`.

Configuration trees are association lists from path to value, in entry order. Java `HashMap`s
are association lists in insertion order. A `null` reference is `None`. A thrown exception is
the `Err` branch of a `Result`, or an error field of an outcome datatype. Three things become
function parameters:

- the file system, as `Env`: `getResource`, `exists`, and the SHA-256 hash that may fail;
- the HOCON parser, as `parse`;
- `Double.parseDouble`, as `parseDouble`.

## Model

| member | source | states |
|---|---|---|
| StringAide.IsEmpty | caramel-core/src/main/java/com/lomcat/caramel/core/assist/StringAide.java:25-27 | true exactly for null and "" |
| StringAide.IsNotEmpty | caramel-core/src/main/java/com/lomcat/caramel/core/assist/StringAide.java:29-31 | true exactly for a non-null string with at least one character |
| StringAide.Equals | caramel-core/src/main/java/com/lomcat/caramel/core/assist/StringAide.java:33-53 | the length check and character loop answer true exactly when both are null or both hold the same characters |
| StringAide.Replace | caramel-core/src/main/java/com/lomcat/caramel/core/assist/StringAide.java:55-82 | an empty input or pattern, or a null replacement, returns the input; otherwise the result is every non-overlapping occurrence, left to right, replaced (the reference `Text.ReplaceAll`) |
| StringAide.ReplaceFound | caramel-core/src/main/java/com/lomcat/caramel/core/assist/StringAide.java:64-82 | the indexOf/StringBuilder loop builds exactly the reference left-to-right replacement |
| StringAide.ReplaceWithoutOccurrence | caramel-core/src/main/java/com/lomcat/caramel/core/assist/StringAide.java:64-69 | with no occurrence of the pattern the input comes back unchanged |
| Text.ReplaceAllLength | caramel-core/src/main/java/com/lomcat/caramel/core/assist/StringAide.java:55-82 | the replaced text is longer by the occurrence count times the length difference of replacement and pattern |
| Text.ReplaceAllChar | caramel-core/src/main/java/com/lomcat/caramel/core/assist/NamingConvention.java:130-151 | replacing a one-character pattern is replacing that character at every position |
| CaramelAide.IsEmpty | caramel-assist/src/main/java/com/lomcat/caramel/assist/CaramelAide.java:46-48 | true exactly for null and "" |
| CaramelAide.AllWhitespaceScan | caramel-assist/src/main/java/com/lomcat/caramel/assist/CaramelAide.java:54-65 | the scan answers true exactly when every character is whitespace |
| CaramelAide.IsBlank | caramel-assist/src/main/java/com/lomcat/caramel/assist/CaramelAide.java:54-65 | true exactly for null or all-whitespace text, so every empty text is blank |
| CaramelAide.IsNotBlank | caramel-assist/src/main/java/com/lomcat/caramel/assist/CaramelAide.java:67-69 | true exactly when some character is not whitespace |
| CaramelAide.TrimOrNull | caramel-assist/src/main/java/com/lomcat/caramel/assist/CaramelAide.java:81-83 | null stays null; otherwise the result is the slice of the text between its leading and trailing control-or-space characters, and has none at either end |
| CaramelAide.DefaultIfBlank | caramel-assist/src/main/java/com/lomcat/caramel/assist/CaramelAide.java:85-87 | a blank string yields the default; any other is returned as it is, and is not blank |
| CaramelAide.Substring | caramel-assist/src/main/java/com/lomcat/caramel/assist/CaramelAide.java:157-175 | a suffix of the input: from `start` when in range, the last `-start` characters for a negative start, "" past the end |
| CaramelAide.SubstringRange | caramel-assist/src/main/java/com/lomcat/caramel/assist/CaramelAide.java:177-208 | null stays null; a negative index counts back from the end; an end past the length acts as the length; a start still negative acts as 0; an end-relative start after the end gives ""; otherwise the slice between them |
| CaramelAide.SubstringRangeFromEnd | caramel-assist/src/main/java/com/lomcat/caramel/assist/CaramelAide.java:182-205 | `("abcde", -3, -1)` is `cd`, `("abcde", -9, 2)` is `ab` and `("abcde", 1, -9)` is empty |
| CaramelAide.SubstringToEnd | caramel-assist/src/main/java/com/lomcat/caramel/assist/CaramelAide.java:157-208 | the one-bound form equals the range form ending at the length |
| CaramelAide.SubstringRangeClampsEnd | caramel-assist/src/main/java/com/lomcat/caramel/assist/CaramelAide.java:185-187 | an end past the length acts as the length |
| CaramelAide.MatchRun | caramel-assist/src/main/java/com/lomcat/caramel/assist/CaramelAide.java:263-289 | the character loop agrees with the position-wise comparison |
| CaramelAide.RegionMatches | caramel-assist/src/main/java/com/lomcat/caramel/assist/CaramelAide.java:247-250 | on two strings, as `String.regionMatches`: false when an offset is negative or a region would run past its string; otherwise a non-positive length matches, and a positive one matches exactly when the regions agree character by character, case folded when asked |
| CaramelAide.StartsWith | caramel-assist/src/main/java/com/lomcat/caramel/assist/CaramelAide.java:226-234 | nulls match only each other; a longer prefix never matches; case-sensitively it is a prefix test |
| CaramelAide.EndsWith | caramel-assist/src/main/java/com/lomcat/caramel/assist/CaramelAide.java:236-245 | the same for suffixes |
| CaramelAide.EqualsIgnoreCase | caramel-assist/src/main/java/com/lomcat/caramel/assist/CaramelAide.java:122-133 | nulls equal only each other; different lengths are never equal |
| CaramelAide.EqualsIgnoreCaseIsLowerEquality | caramel-assist/src/main/java/com/lomcat/caramel/assist/CaramelAide.java:122-133 | on non-null strings it holds exactly when their lower-case forms are equal |
| CaramelAide.EqualsIgnoreCaseSymmetric | caramel-assist/src/main/java/com/lomcat/caramel/assist/CaramelAide.java:122-133 | the comparison is symmetric |
| CaramelAide.CharMatchIgnoringCase | caramel-assist/src/main/java/com/lomcat/caramel/assist/CaramelAide.java:276-286 | ignoring case, two characters match exactly when their lower-case forms agree |
| CaramelAide.EqualsIgnoreCaseAfterTrim | caramel-assist/src/main/java/com/lomcat/caramel/assist/CaramelAide.java:139-141 | nulls equal only each other; two strings are equal exactly when their trimmed texts agree after lower-casing |
| NamingConvention.Camel2Separator | caramel-core/src/main/java/com/lomcat/caramel/core/assist/NamingConvention.java:244-271 | null and "" come back unchanged; otherwise the result is the reference word splitting joined by the separator in the case mode |
| NamingConvention.LoopIsScan | caramel-core/src/main/java/com/lomcat/caramel/core/assist/NamingConvention.java:252-268 | running the loop on the rest after a prefix gives the scan of the whole input |
| NamingConvention.Camel2SeparatorLoop | caramel-core/src/main/java/com/lomcat/caramel/core/assist/NamingConvention.java:250-270 | the insert/append loop with its upper-case run counter builds exactly that result |
| NamingConvention.Camel2SeparatorKeepRoundTrip | caramel-core/src/main/java/com/lomcat/caramel/core/assist/NamingConvention.java:126-128 | in keep-case mode, removing the separator again restores any input that lacks it |
| NamingConvention.Camel2SeparatorModes | caramel-core/src/main/java/com/lomcat/caramel/core/assist/NamingConvention.java:267 | for a separator that is not a letter, lower or upper mode is keep mode followed by case conversion |
| NamingConvention.Separator2Camel | caramel-core/src/main/java/com/lomcat/caramel/core/assist/NamingConvention.java:273-305 | as written: an index error exactly when the input starts or ends with the separator; otherwise the camelised text with its first character set by the mode |
| NamingConvention.Separator2CamelLeadingSeparator | caramel-core/src/main/java/com/lomcat/caramel/core/assist/NamingConvention.java:279-291 | `_id` fails as written, while the corrected version gives `id` |
| NamingConvention.Separator2CamelStripped | caramel-core/src/main/java/com/lomcat/caramel/core/assist/NamingConvention.java:279-302 | corrected: the camelised text of the input stripped of leading and trailing separators, "" when nothing is left |
| NamingConvention.Separator2CamelStrippedAgrees | caramel-core/src/main/java/com/lomcat/caramel/core/assist/NamingConvention.java:273-305 | wherever the code as written succeeds, the corrected version gives the same |
| NamingConvention.Separator2CamelStrippedIgnoresEnds | caramel-core/src/main/java/com/lomcat/caramel/core/assist/NamingConvention.java:279-285 | a separator added at either end changes nothing |
| NamingConvention.CamelRoundTrip | caramel-core/src/main/java/com/lomcat/caramel/core/assist/NamingConvention.java:244-305 | a lower-case separated identifier survives snake→camel→snake |
| NamingConvention.ReplaceSeparator | caramel-core/src/main/java/com/lomcat/caramel/core/assist/NamingConvention.java:130-151 | null and "" come back unchanged; otherwise each character is mapped, `from` becoming `to`, then cased by the mode |
| NamingConvention.ReplaceSeparatorInverse | caramel-core/src/main/java/com/lomcat/caramel/core/assist/NamingConvention.java:138-139 | in keep-case mode, swapping the separators back restores any input not holding the target separator |
| NamingConventionExamples.SnakeMacLower | caramel-core/src/main/java/com/lomcat/caramel/core/assist/NamingConvention.java:82 | `MAC` becomes `mac` |
| NamingConventionExamples.SnakeRemoteUrlLower | caramel-core/src/main/java/com/lomcat/caramel/core/assist/NamingConvention.java:83 | `remoteURL` becomes `remote_url` |
| NamingConventionExamples.SnakeRemoteUrlIdLower | caramel-core/src/main/java/com/lomcat/caramel/core/assist/NamingConvention.java:84 | `remoteURLID` becomes `remote_urlid` |
| NamingConventionExamples.SnakeRandomSqlTextLower | caramel-core/src/main/java/com/lomcat/caramel/core/assist/NamingConvention.java:85 | `randomSQLText` becomes `random_sql_text` |
| NamingConventionExamples.SnakeOneTestStringLower | caramel-core/src/main/java/com/lomcat/caramel/core/assist/NamingConvention.java:86 | `ONETestString` becomes `one_test_string` |
| NamingConventionExamples.SnakeOneLowerTestStringLower | caramel-core/src/main/java/com/lomcat/caramel/core/assist/NamingConvention.java:87 | `ONEtestString` becomes `on_etest_string` |
| NamingConventionExamples.SnakeOneTestUpperStringLower | caramel-core/src/main/java/com/lomcat/caramel/core/assist/NamingConvention.java:88 | `oneTestSTRING` becomes `one_test_string` |
| NamingConventionExamples.SnakeMacKeep | caramel-core/src/main/java/com/lomcat/caramel/core/assist/NamingConvention.java:116 | `MAC` stays `MAC` in keep-case mode |
| NamingConventionExamples.SnakeRemoteUrlKeep | caramel-core/src/main/java/com/lomcat/caramel/core/assist/NamingConvention.java:117 | `remoteURL` becomes `remote_URL` |
| NamingConventionExamples.SnakeRemoteUrlIdKeep | caramel-core/src/main/java/com/lomcat/caramel/core/assist/NamingConvention.java:118 | `remoteURLID` becomes `remote_URLID` |
| NamingConventionExamples.SnakeRandomSqlTextKeep | caramel-core/src/main/java/com/lomcat/caramel/core/assist/NamingConvention.java:119 | `randomSQLText` becomes `random_SQL_Text` |
| NamingConventionExamples.SnakeOneTestStringKeep | caramel-core/src/main/java/com/lomcat/caramel/core/assist/NamingConvention.java:120 | `ONETestString` becomes `ONE_Test_String` |
| NamingConventionExamples.SnakeOneLowerTestStringKeep | caramel-core/src/main/java/com/lomcat/caramel/core/assist/NamingConvention.java:121 | `ONEtestString` becomes `ON_Etest_String` |
| NamingConventionExamples.SnakeOneTestUpperStringKeep | caramel-core/src/main/java/com/lomcat/caramel/core/assist/NamingConvention.java:122 | `oneTestSTRING` becomes `one_Test_STRING` |
| PriorityOrder.Compare | caramel-config/src/main/java/com/lomcat/caramel/config/internel/PriorityComparable.java:29-44 | the sign is 0 exactly for equal priorities, and negative exactly when the first is below the second (null lowest, then numeric order) |
| PriorityOrder.CompareAntisymmetric | caramel-config/src/main/java/com/lomcat/caramel/config/internel/PriorityComparable.java:29-44 | swapping the arguments negates the result |
| PriorityOrder.CompareTransitive | caramel-config/src/main/java/com/lomcat/caramel/config/internel/PriorityComparable.java:29-44 | both "at most" and "below" are transitive, as `Collections.sort` needs |
| PriorityOrder.CompareTotal | caramel-config/src/main/java/com/lomcat/caramel/config/internel/PriorityComparable.java:29-44 | any two priorities are equal or strictly ordered one way |
| PriorityOrder.Sort | caramel-config/src/main/java/com/lomcat/caramel/config/ConfigResourceLoader.java:64-74 | the result is a permutation, sorted ascending, with each priority class in input order |
| PriorityOrder.SortIsStableSort | caramel-config/src/main/java/com/lomcat/caramel/config/ConfigResourceLoader.java:66 | any sorted sequence keeping each priority class in input order is the sort: the reference definition |
| PriorityOrder.SortSorted | caramel-config/src/main/java/com/lomcat/caramel/config/ConfigResourceLoader.java:66 | sorting a sorted sequence changes nothing |
| PriorityOrder.SortRestoresStrictOrder | caramel-config/src/main/java/com/lomcat/caramel/config/ConfigResourceLoader.java:73-74 | any permutation of a strictly ascending sequence sorts back to it |
| PriorityOrder.ListenerCompare | caramel-config/src/main/java/com/lomcat/caramel/config/listener/ConfigListener.java:44-47 | zero exactly for equal orders, negative exactly for a smaller order |
| PriorityOrder.ListenerCompareSign | caramel-config/src/main/java/com/lomcat/caramel/config/listener/ConfigListener.java:44-47 | listener comparison agrees in sign with priority comparison and is antisymmetric |
| PriorityOrder.ListenersAscending | caramel-config/src/main/java/com/lomcat/caramel/config/listener/ConfigListener.java:30 | sorting listeners by order leaves them in ascending order |
| ConfigResources.CreateResource | caramel-config/src/main/java/com/lomcat/caramel/config/ConfigResource.java:33-45 | it fails exactly when hashing fails; otherwise it keeps the priority, the hash and the resource's description |
| ConfigResources.CreateBunch | caramel-config/src/main/java/com/lomcat/caramel/config/ConfigResourceBunch.java:67-77 | every field is as given and the soft priority starts at 0 |
| ConfigResources.Values | caramel-config/src/main/java/com/lomcat/caramel/config/ConfigResourceBunch.java:92-94 | the resources of the map, in its order |
| ConfigResources.BunchCompare | caramel-config/src/main/java/com/lomcat/caramel/config/ConfigResourceBunch.java:57 | bunches compare by their explicit priority as `PriorityComparable` orders it |
| ConfigResources.BunchCompareIgnoresSoftPriority | caramel-config/src/main/java/com/lomcat/caramel/config/ConfigResourceBunch.java:65 | the soft priority plays no part in the order |
| ConfigResources.SetSoftPriority | caramel-config/src/main/java/com/lomcat/caramel/config/ConfigResourceBunch.java:104-106 | sets the soft priority and nothing else |
| ConfigResources.SoftPriorityRoundTrip | caramel-config/src/main/java/com/lomcat/caramel/config/ConfigResourceBunch.java:100-106 | get after set returns the value; setting back the old value restores the bunch; the last set wins |
| ConfigTree.Lookup | caramel-config/src/main/java/com/lomcat/caramel/config/ConfigRegistry.java:166-168 | a value exactly when the path is present, and then one of its entries |
| ConfigTree.LookupEntry | caramel-config/src/main/java/com/lomcat/caramel/config/ConfigRegistry.java:166-168 | in a tree without repeated paths, every entry is what its path looks up |
| ConfigTree.WithValue | caramel-config/src/main/java/com/lomcat/caramel/config/CaramelConfig.java:35-37 | the path then holds the value, every other path is untouched, and a new path goes at the end |
| ConfigTree.WithValueInPlace | caramel-config/src/main/java/com/lomcat/caramel/config/CaramelConfig.java:35-37 | overwriting a present path keeps the entry order |
| ConfigTree.WithValueSame | caramel-config/src/main/java/com/lomcat/caramel/config/CaramelConfig.java:35-37 | writing the value already held changes nothing |
| ConfigTree.WithValueWellFormed | caramel-config/src/main/java/com/lomcat/caramel/config/CaramelConfig.java:35-37 | writing keeps paths distinct |
| ConfigTree.WithoutPath | caramel-config/src/main/java/com/lomcat/caramel/config/ConfigResourceLoader.java:100 | the path is gone, every other path is untouched, and distinct paths stay distinct |
| ConfigTree.Overwrite | caramel-config/src/main/java/com/lomcat/caramel/config/CaramelConfig.java:35-37 | paths not in the new tree keep their values; with distinct new paths, every new path holds its new value |
| ConfigTree.OverwriteWellFormed | caramel-config/src/main/java/com/lomcat/caramel/config/CaramelConfig.java:35-37 | overwriting keeps paths distinct |
| ConfigTree.OverwriteEmpty | caramel-config/src/main/java/com/lomcat/caramel/config/CaramelConfig.java:35-37 | an empty overwrite changes nothing |
| ConfigTree.OverwriteHolding | caramel-config/src/main/java/com/lomcat/caramel/config/CaramelConfig.java:35-37 | overwriting with entries already held changes nothing |
| ConfigTree.OverwriteIdempotent | caramel-config/src/main/java/com/lomcat/caramel/config/CaramelConfig.java:35-37 | overwriting twice with the same tree is overwriting once |
| ConfigMerge.FoldName | caramel-config/src/main/java/com/lomcat/caramel/config/ConfigResourceLoader.java:90-92 | the comparison name is the name without dashes, lower-cased |
| ConfigMerge.FoldIgnoresDash | caramel-config/src/main/java/com/lomcat/caramel/config/ConfigResourceLoader.java:90-92 | a dash anywhere does not change the comparison name |
| ConfigMerge.FoldIgnoresCase | caramel-config/src/main/java/com/lomcat/caramel/config/ConfigResourceLoader.java:90-92 | case does not change the comparison name |
| ConfigMerge.ScanMatches | caramel-config/src/main/java/com/lomcat/caramel/config/ConfigResourceLoader.java:91-97 | the scan keeps the last same-class entry found so far and none after it matches |
| ConfigMerge.LastMatch | caramel-config/src/main/java/com/lomcat/caramel/config/ConfigResourceLoader.java:91-97 | the index of the last entry in the new property's kebab/camel class, or -1; no later entry is in that class |
| ConfigMerge.RenamingStep | caramel-config/src/main/java/com/lomcat/caramel/config/ConfigResourceLoader.java:98-103 | the new name holds the new value; the last old name of its class is removed; every path outside the class is untouched |
| ConfigMerge.KeepNameStep | caramel-config/src/main/java/com/lomcat/caramel/config/ConfigRegistry.java:150-164 | the existing name of the class takes the new value, or the new name when the class is absent; nothing else changes |
| ConfigMerge.MergeExactIsOverwrite | caramel-config/src/main/java/com/lomcat/caramel/config/ConfigRegistry.java:165-171 | merging by exact path is `CaramelConfig.overwrite` |
| ConfigMerge.RenamingStepClassUnique | caramel-config/src/main/java/com/lomcat/caramel/config/ConfigResourceLoader.java:98-103 | a renaming step keeps at most one property per class |
| ConfigMerge.KeepNameStepClassUnique | caramel-config/src/main/java/com/lomcat/caramel/config/ConfigRegistry.java:160-164 | a keep-name step keeps at most one property per class |
| ConfigMerge.MergeTreeClassUnique | caramel-config/src/main/java/com/lomcat/caramel/config/ConfigResourceLoader.java:85-112 | merging a whole tree with either kebab/camel fold keeps at most one property per class |
| ConfigMerge.FoldResources | caramel-config/src/main/java/com/lomcat/caramel/config/ConfigResourceLoader.java:76-117 | it succeeds exactly when every resource parses; otherwise it fails naming the first resource that does not; no tree only when nothing was read |
| ConfigMerge.FirstTreeVerbatim | caramel-config/src/main/java/com/lomcat/caramel/config/ConfigResourceLoader.java:81-83 | the first tree read is taken as it is, not merged |
| ConfigMerge.ExactFoldLastWins | caramel-config/src/main/java/com/lomcat/caramel/config/ConfigRegistry.java:165-171 | folding onto a tree by exact path, each path takes its last definition, else keeps its value |
| ConfigMerge.ExactLoadLastWins | caramel-config/src/main/java/com/lomcat/caramel/config/CaramelConfigRegistry.java:131-150 | with exact paths, every path of the loaded key holds its last definition in load order |
| ConfigMerge.ResourceOrder | caramel-config/src/main/java/com/lomcat/caramel/config/ConfigResourceLoader.java:73-74 | a permutation of the bunch's resources, sorted by convention priority when sorting is on |
| ConfigMerge.ResourceOrderRestoresEnumeration | caramel-config/src/main/java/com/lomcat/caramel/config/ConfigResourceLoader.java:73-74 | sorting a bunch's map values gives back the strictly ascending enumeration order, whatever order the map holds them in |
| ConfigMerge.LoadOrderBunchMajor | caramel-config/src/main/java/com/lomcat/caramel/config/ConfigResourceLoader.java:64-76 | the load order is bunch-major: the resources of sorted bunch i sit between those of the bunches before and after it |
| ConfigMerge.ConcatOrdersAppend | caramel-config/src/main/java/com/lomcat/caramel/config/ConfigResourceLoader.java:72-76 | the order of two runs of bunches is the two orders joined |
| ConfigMerge.LoadKey | caramel-config/src/main/java/com/lomcat/caramel/config/ConfigResourceLoader.java:64-118 | a key loads exactly when every resource in load order parses, and otherwise fails naming the first that does not |
| ConfigMerge.LoadAll | caramel-config/src/main/java/com/lomcat/caramel/config/ConfigResourceLoader.java:64-126 | no failure exactly when every key loads; keys not in the map are untouched; nothing registered earlier is lost; a failure stops at the first key whose fold fails, naming its resource, and only the keys before it may have changed, so the failing key is never registered |
| ConfigMerge.LoadAllFailure | caramel-config/src/main/java/com/lomcat/caramel/config/ConfigResourceLoader.java:114-116 | a failure names the first unreadable resource of some key |
| ConfigMerge.LoadAllLeavesRestUntouched | caramel-config/src/main/java/com/lomcat/caramel/config/ConfigResourceLoader.java:113-119 | with distinct keys, a failed load leaves the failing key and every later one exactly as they were: a key is registered only once its fold completes |
| ConfigMerge.LoadAllRegistersEveryKey | caramel-config/src/main/java/com/lomcat/caramel/config/ConfigResourceLoader.java:120 | after a full load each key holds its own fold |
| ResourceLoader.Load | caramel-config/src/main/java/com/lomcat/caramel/config/ConfigResourceLoader.java:52-126 | `load` with the renaming fold when kebab/camel mapping is on: failure exactly when some key fails, naming the resource; other keys untouched; on a failure only the keys before the first failing one may have changed |
| ResourceLoader.RenamingFoldClassUnique | caramel-config/src/main/java/com/lomcat/caramel/config/ConfigResourceLoader.java:81-112 | the renaming fold keeps one property per class when each file does |
| ResourceLoader.LoadedKeyClassUnique | caramel-config/src/main/java/com/lomcat/caramel/config/ConfigResourceLoader.java:85-120 | a key loaded with renaming holds one property per kebab/camel class when each file does |
| ResourceLoader.LoadRegistersEveryKey | caramel-config/src/main/java/com/lomcat/caramel/config/ConfigResourceLoader.java:120 | after a full load each key is registered with the fold of its sorted bunches and resources |
| Registry.Collected | caramel-config/src/main/java/com/lomcat/caramel/config/ConfigRegistry.java:216-223 | a key the map does not hold contributes no bunches |
| Registry.Gather | caramel-config/src/main/java/com/lomcat/caramel/config/ConfigRegistry.java:217-222 | the key's bunches are appended to those cached (or put when none), every other key untouched |
| Registry.GatherLocated | caramel-config/src/main/java/com/lomcat/caramel/config/ConfigRegistry.java:213-224 | each key gets its earlier bunches followed by this locator's, in map order |
| Registry.GatherAll | caramel-config/src/main/java/com/lomcat/caramel/config/ConfigRegistry.java:211-225 | each key's bunches are the concatenation over the locators in order; a key is present exactly when some locator finds it |
| Registry.LoadResourceBunches | caramel-config/src/main/java/com/lomcat/caramel/config/ConfigRegistry.java:205-233 | distinct keys; a key is present exactly when some locator finds it; its bunches come in sorted locator order |
| Registry.GatherAllFromEmpty | caramel-config/src/main/java/com/lomcat/caramel/config/ConfigRegistry.java:209-225 | gathering a permutation of the locators finds the same keys |
| Registry.LoadResourceBunchesInOrder | caramel-config/src/main/java/com/lomcat/caramel/config/ConfigRegistry.java:209-225 | locators already strictly ascending are gathered in their own order |
| Registry.NewRegistry | caramel-config/src/main/java/com/lomcat/caramel/config/ConfigRegistry.java:71-74 | disabled, kebab/camel mapping on, no locators, nothing held |
| Registry.Destroy | caramel-config/src/main/java/com/lomcat/caramel/config/ConfigRegistry.java:235-237 | nothing is held afterwards; every setting stays |
| Registry.Init | caramel-config/src/main/java/com/lomcat/caramel/config/ConfigRegistry.java:95-225 | an enabled registry with locators comes back with its locator list sorted by priority, as the in-place `Collections.sort` leaves it, and a new holder; nothing else changes; disabled does nothing; null locators fail; no bunches leaves the holder as it was; a read failure stops at the first failing key, and only the keys before it may have changed |
| Registry.InitSettlesLocators | caramel-config/src/main/java/com/lomcat/caramel/config/ConfigRegistry.java:207-209 | a second init leaves the locator list as the first one sorted it |
| Registry.InitFailureNamesResource | caramel-config/src/main/java/com/lomcat/caramel/config/ConfigRegistry.java:177-179 | a read failure names the first unreadable resource of some key |
| Registry.InitKeepsUnlocatedKeys | caramel-config/src/main/java/com/lomcat/caramel/config/ConfigRegistry.java:125-184 | a key no locator finds keeps what it held |
| Registry.InitRegistersEveryKey | caramel-config/src/main/java/com/lomcat/caramel/config/ConfigRegistry.java:125-184 | after a successful init each located key holds the fold of its bunches, sorted by priority, resources in map order |
| Registry.Get | caramel-config/src/main/java/com/lomcat/caramel/config/ConfigRegistry.java:82-93 | a value exactly for a key in the read-only view of the holder, namely that key's tree |
| Registry.InitGetPresence | caramel-config/src/main/java/com/lomcat/caramel/config/ConfigRegistry.java:82-184 | after a successful init a key answers exactly when it answered before or some locator finds it |
| CaramelRegistry.NewRegistry | caramel-config/src/main/java/com/lomcat/caramel/config/CaramelConfigRegistry.java:49-51 | no properties and nothing held |
| CaramelRegistry.Init | caramel-config/src/main/java/com/lomcat/caramel/config/CaramelConfigRegistry.java:80-187 | the properties stay; null properties, disabled or nothing located do nothing; unset echo options fail; a read failure names the resource of the first failing key, and only the keys before it may have changed |
| CaramelRegistry.InitLastDefinitionWins | caramel-config/src/main/java/com/lomcat/caramel/config/CaramelConfigRegistry.java:118-161 | after a successful init every path of a key holds its last definition across the key's bunches |
| CaramelRegistry.Get | caramel-config/src/main/java/com/lomcat/caramel/config/CaramelConfigRegistry.java:59-61 | a value exactly for a held key, namely its tree |
| CaramelRegistry.InitGetPresence | caramel-config/src/main/java/com/lomcat/caramel/config/CaramelConfigRegistry.java:59-161 | after a successful init a key answers exactly when it answered before or something was located for it |
| CaramelRegistry.Destroy | caramel-config/src/main/java/com/lomcat/caramel/config/CaramelConfigRegistry.java:189-192 | nothing held and the properties cleared |
| CaramelRegistry.DestroyThenInitIsNoop | caramel-config/src/main/java/com/lomcat/caramel/config/CaramelConfigRegistry.java:80-84 | after destroy, init does nothing, since the properties are null |
| Locations.SplitExtension | caramel-config-local/src/main/java/com/lomcat/caramel/config/local/LocalConfigResourceLocator.java:125-131 | name and extension rejoin to the text; an extension starts at the last dot, never at the first character |
| Locations.SplitLocation | caramel-config-local/src/main/java/com/lomcat/caramel/config/local/LocalConfigResourceLocator.java:115-131 | the path is what precedes the last `/` (`/` itself when that is first), the rest rejoins to the file text, and no path exactly when there is no `/` |
| Locations.Dotted | caramel-config-local/src/main/java/com/lomcat/caramel/config/local/LocalConfigResourceLocator.java:238-243 | "" stays empty; otherwise the extension with exactly one leading dot added when missing |
| Locations.SplitCandidate | caramel-config-local/src/main/java/com/lomcat/caramel/config/local/LocalConfigResourceLocator.java:227-243 | a built candidate splits back into its name and extension |
| Locations.Candidates | caramel-config-local/src/main/java/com/lomcat/caramel/config/local/LocalConfigResourceLocator.java:227 | paths times extensions candidates |
| Locations.CandidatesAt | caramel-config-local/src/main/java/com/lomcat/caramel/config/local/LocalConfigResourceLocator.java:227-243 | candidate `i * |extensions| + j` is path i with extension j: the nested iteration order |
| Locations.Row | caramel-config-local/src/main/java/com/lomcat/caramel/config/local/LocalConfigResourceLocator.java:227-243 | one candidate per extension, in extension order, each under the given path and name |
| Locations.SearchPaths | caramel-config-local/src/main/java/com/lomcat/caramel/config/local/LocalConfigResourceLocator.java:192-198 | a non-blank path is searched alone; a missing or blank one means the conventional directories, in order |
| Locations.SearchExtensions | caramel-config-local/src/main/java/com/lomcat/caramel/config/local/LocalConfigResourceLocator.java:200-206 | a non-blank extension is searched alone; a missing or blank one means the conventional extensions, in order |
| LocationPickup.FirstIsLast | caramel-config-local/src/main/java/com/lomcat/caramel/config/local/LocalConfigResourceLocator.java:280-283 | first and last index agree exactly when the symbol does not occur twice |
| LocationPickup.CheckSetup | caramel-config-local/src/main/java/com/lomcat/caramel/config/local/LocalConfigResourceLocator.java:333-353 | as written: no segment exactly when both symbols are absent; a set-up segment has single symbols in order; errors are duplicate or reversed symbols |
| LocationPickup.CheckSetupFixed | caramel-config-local/src/main/java/com/lomcat/caramel/config/local/LocalConfigResourceLocator.java:333-353 | corrected: a set-up segment also has its opening symbol present |
| LocationPickup.SetupFixed | caramel-config-local/src/main/java/com/lomcat/caramel/config/local/LocalConfigResourceLocator.java:273-285 | corrected, over the text: accepted exactly when the symbols are both absent or appear once each in order; a duplicate error names a symbol that occurs twice |
| LocationPickup.KeyOf | caramel-config-local/src/main/java/com/lomcat/caramel/config/local/LocalConfigResourceLocator.java:304-307 | a key exactly when the text is not blank, and then the text itself |
| LocationPickup.PriorityOf | caramel-config-local/src/main/java/com/lomcat/caramel/config/local/LocalConfigResourceLocator.java:314-321 | blank is no priority; otherwise the parsed trimmed text, or a not-a-number error exactly when it does not parse |
| LocationPickup.Extract | caramel-config-local/src/main/java/com/lomcat/caramel/config/local/LocalConfigResourceLocator.java:287-330 | no segment leaves the location as it is; both segments fail as out of order exactly when they overlap; an index error needs a missing opening symbol |
| LocationPickup.AfterChecks | caramel-config-local/src/main/java/com/lomcat/caramel/config/local/LocalConfigResourceLocator.java:278-289 | a key check error wins, then a priority check error; two unset checks leave the location as it is |
| LocationPickup.Pickup | caramel-config-local/src/main/java/com/lomcat/caramel/config/local/LocalConfigResourceLocator.java:272-331 | as written: a location without segment symbols comes back as it is |
| LocationPickup.PickupFixed | caramel-config-local/src/main/java/com/lomcat/caramel/config/local/LocalConfigResourceLocator.java:272-331 | corrected: never an index error; success only with well-paired symbols; a duplicate error names a doubled symbol |
| LocationPickup.PickupFixedOrder | caramel-config-local/src/main/java/com/lomcat/caramel/config/local/LocalConfigResourceLocator.java:292-299 | with both segments well paired, out of order exactly when they overlap |
| LocationPickup.PickupRender | caramel-config-local/src/main/java/com/lomcat/caramel/config/local/LocalConfigResourceLocator.java:301-328 | a written-out `{key}(priority)rest` picks up into its trimmed rest, its non-blank key and its parsed priority |
| LocationPickup.PickupAgrees | caramel-config-local/src/main/java/com/lomcat/caramel/config/local/LocalConfigResourceLocator.java:272-353 | without doubled key symbols or a lone closing symbol, the code as written and the corrected version agree |
| LocationPickup.DoubledKeyPrefixAsWritten | caramel-config-local/src/main/java/com/lomcat/caramel/config/local/LocalConfigResourceLocator.java:273-276 | `{{k}rest` is accepted as key `k` as written, while the corrected version reports the duplicate `{` |
| LocationPickup.LoneClosingAsWritten | caramel-config-local/src/main/java/com/lomcat/caramel/config/local/LocalConfigResourceLocator.java:348-349 | a lone `)` passes the check and hits an index error as written, while the corrected version reports reversed symbols |
| LocalLocator.PositionOfParts | caramel-config-local/src/main/java/com/lomcat/caramel/config/local/LocalConfigResourceLocator.java:115-140 | fails exactly for a blank name; otherwise the parts, with the key defaulting to the name |
| LocalLocator.PositionFrom | caramel-config-local/src/main/java/com/lomcat/caramel/config/local/LocalConfigResourceLocator.java:112-140 | a picked-up location becomes a complete position keeping its priority, failing exactly when its name is blank |
| LocalLocator.PositionOf | caramel-config-local/src/main/java/com/lomcat/caramel/config/local/LocalConfigResourceLocator.java:100-142 | reads the trimmed descriptor with the pickup as written: its errors, an index error included, pass through; otherwise it fails exactly when the picked name is blank, and a position is complete, carries the picked priority and no refresh flag |
| LocalLocator.PositionOfFixed | caramel-config-local/src/main/java/com/lomcat/caramel/config/local/LocalConfigResourceLocator.java:100-142 | the same reading with the corrected pickup, which never raises an index error |
| LocalLocator.PositionOfAgrees | caramel-config-local/src/main/java/com/lomcat/caramel/config/local/LocalConfigResourceLocator.java:100-142 | on a descriptor without doubled key symbols or a lone closing symbol, the reading as written and the corrected one agree, with no index error |
| LocalLocator.PositionOfDoubledKey | caramel-config-local/src/main/java/com/lomcat/caramel/config/local/LocalConfigResourceLocator.java:273-276 | `{{k}rest` is read as written into the position of `rest` under key `k`, while the corrected reading reports the duplicate `{` |
| LocalLocator.PositionOfLoneClosing | caramel-config-local/src/main/java/com/lomcat/caramel/config/local/LocalConfigResourceLocator.java:348-349 | a descriptor with a lone `)` fails with an index error as written, while the corrected reading reports reversed symbols |
| LocalLocator.CompletePosition | caramel-config-local/src/main/java/com/lomcat/caramel/config/local/LocalConfigResourceLocator.java:148-158 | a declared position fails exactly when its name is blank; otherwise a blank key becomes the name and nothing else changes |
| LocalLocator.ResolveEach | caramel-config-local/src/main/java/com/lomcat/caramel/config/local/LocalConfigResourceLocator.java:100-143 | succeeds exactly when every element does, element by element; otherwise the first failure |
| LocalLocator.EachErrorIsFirst | caramel-config-local/src/main/java/com/lomcat/caramel/config/local/LocalConfigResourceLocator.java:100-143 | two resolutions that agree element by element give the same result, first failure included |
| LocalLocator.ResolveLocations | caramel-config-local/src/main/java/com/lomcat/caramel/config/local/LocalConfigResourceLocator.java:99-144 | the descriptors read as written, in order, all complete, or the error of the first that fails, which may be an index error |
| LocalLocator.ResolveLocationsAgree | caramel-config-local/src/main/java/com/lomcat/caramel/config/local/LocalConfigResourceLocator.java:99-144 | when no descriptor has doubled key symbols or a lone closing symbol, resolving as written equals resolving with the corrected reading, and no index error surfaces |
| LocalLocator.ResolveDeclared | caramel-config-local/src/main/java/com/lomcat/caramel/config/local/LocalConfigResourceLocator.java:147-160 | fails exactly when some declared name is blank; otherwise each declared position completed, in order |
| LocalLocator.ResolvePositions | caramel-config-local/src/main/java/com/lomcat/caramel/config/local/LocalConfigResourceLocator.java:95-163 | the descriptors' positions, read as written, followed by the declared ones; the descriptors' error comes first |
| LocalLocator.PutFiled | caramel-config-local/src/main/java/com/lomcat/caramel/config/local/LocalConfigResourceLocator.java:248 | putting a resource under its description keeps every resource filed under its own description |
| LocalLocator.Filed | caramel-config-local/src/main/java/com/lomcat/caramel/config/local/LocalConfigResourceLocator.java:248 | each resource paired with its own description, one entry per resource, in order |
| LocalLocator.Enumerate | caramel-config-local/src/main/java/com/lomcat/caramel/config/local/LocalConfigResourceLocator.java:226-253 | the resources map keeps every resource under its description and descriptions distinct |
| LocalLocator.Numbered | caramel-config-local/src/main/java/com/lomcat/caramel/config/local/LocalConfigResourceLocator.java:245-252 | the existing, hashable candidates, numbered strictly ascending within the counter's range |
| LocalLocator.EnumerateInOrder | caramel-config-local/src/main/java/com/lomcat/caramel/config/local/LocalConfigResourceLocator.java:226-253 | with no description found twice, the map is the numbered resources in enumeration order |
| LocalLocator.ResourcesOf | caramel-config-local/src/main/java/com/lomcat/caramel/config/local/LocalConfigResourceLocator.java:209 | a position's resources map: filed by description, descriptions distinct |
| LocalLocator.DefaultCandidates | caramel-config-local/src/main/java/com/lomcat/caramel/config/local/LocalConfigResourceLocator.java:191-204 | with a blank path and extension, the 16 candidates are every conventional directory with every conventional extension, directory-major |
| LocalLocator.OwnCandidate | caramel-config-local/src/main/java/com/lomcat/caramel/config/local/LocalConfigResourceLocator.java:191-204 | with a path and an extension given, the only candidate is that file |
| LocalLocator.BunchOf | caramel-config-local/src/main/java/com/lomcat/caramel/config/local/LocalConfigResourceLocator.java:209-214 | a bunch exactly when some file exists, carrying the position's key, name, priority and refresh flag |
| LocalLocator.ResourceOrderIsEnumeration | caramel-config-local/src/main/java/com/lomcat/caramel/config/local/LocalConfigResourceLocator.java:245-252 | the loader's sort of a bunch's resources is the locator's enumeration order |
| LocalLocator.BunchesFor | caramel-config-local/src/main/java/com/lomcat/caramel/config/local/LocalConfigResourceLocator.java:191-215 | every bunch listed for a key carries that key |
| LocalLocator.ResolveBunches | caramel-config-local/src/main/java/com/lomcat/caramel/config/local/LocalConfigResourceLocator.java:187-219 | each key's list gains the bunches of the positions with that key, in order; a key is present exactly when it has some |
| LocalLocator.Grouped | caramel-config-local/src/main/java/com/lomcat/caramel/config/local/LocalConfigResourceLocator.java:188-218 | the grouped map has distinct keys, each with a non-empty list of bunches of that key |
| LocalLocator.Locate | caramel-config-local/src/main/java/com/lomcat/caramel/config/local/LocalConfigResourceLocator.java:87-89 | fails exactly when resolution, with descriptors read as written, fails; otherwise each key maps to the non-empty bunches of its positions, in order |
| LegacyLocator.LegacyPositionOf | caramel-config/src/main/java/com/lomcat/caramel/config/CaramelConfigLocator.java:70-101 | fails exactly for a blank name; otherwise the split parts, the key being the name, no priority |
| LegacyLocator.LegacyAgreesOnPlain | caramel-config/src/main/java/com/lomcat/caramel/config/CaramelConfigLocator.java:70-101 | on a descriptor without segment symbols the two locators read the same position |
| LegacyLocator.LegacyResolveLocations | caramel-config/src/main/java/com/lomcat/caramel/config/CaramelConfigLocator.java:69-103 | the descriptors resolved in order, all complete, or the incomplete-location error |
| LegacyLocator.LegacyResolvePositions | caramel-config/src/main/java/com/lomcat/caramel/config/CaramelConfigLocator.java:60-121 | descriptors then declared positions, both completed |
| LegacyLocator.LegacyResolveAgreesOnPlain | caramel-config/src/main/java/com/lomcat/caramel/config/CaramelConfigLocator.java:60-121 | with plain descriptors both locators resolve the same positions |
| LegacyLocator.Found | caramel-config/src/main/java/com/lomcat/caramel/config/CaramelConfigLocator.java:164-193 | only existing resources, and every existing candidate among them |
| LegacyLocator.ResourcesIn | caramel-config/src/main/java/com/lomcat/caramel/config/CaramelConfigLocator.java:188 | the resources of a numbered enumeration, position by position |
| LegacyLocator.FoundIsNumbered | caramel-config/src/main/java/com/lomcat/caramel/config/CaramelConfigLocator.java:164-193 | when hashing never fails, the legacy list is the local enumeration's resources in the same order |
| LegacyLocator.LastFound | caramel-config/src/main/java/com/lomcat/caramel/config/CaramelConfigLocator.java:132-153 | reference: a list exactly when some position with the key found something |
| LegacyLocator.LastFoundIsLast | caramel-config/src/main/java/com/lomcat/caramel/config/CaramelConfigLocator.java:149-152 | the last position with the key that found something decides the list |
| LegacyLocator.LegacyResolveResources | caramel-config/src/main/java/com/lomcat/caramel/config/CaramelConfigLocator.java:128-157 | each key ends with the list of its last finding position, else what it held; keys stay distinct |
| LegacyLocator.LegacyLocate | caramel-config/src/main/java/com/lomcat/caramel/config/CaramelConfigLocator.java:51-53 | fails exactly when resolution fails; otherwise distinct keys, each with the non-empty list of its last finding position |
| ResourceUtils.Root | caramel-core/src/main/java/com/lomcat/caramel/core/io/ResourceUtils.java:388-403 | prefix and rest rejoin to the path; the prefix is the scheme up to `:` unless that holds a `/`, plus a leading `/` |
| ResourceUtils.SchemeEnd | caramel-core/src/main/java/com/lomcat/caramel/core/io/ResourceUtils.java:388-398 | the cut lies within the path and holds no `/` before it |
| ResourceUtils.Collapse | caramel-core/src/main/java/com/lomcat/caramel/core/io/ResourceUtils.java:405-428 | the backward scan keeps only named elements and never more than it read |
| ResourceUtils.CollapseIsResolve | caramel-core/src/main/java/com/lomcat/caramel/core/io/ResourceUtils.java:405-437 | the backward scan with its `..` counter equals forward stack resolution, the reference meaning |
| ResourceUtils.CollapseAppend | caramel-core/src/main/java/com/lomcat/caramel/core/io/ResourceUtils.java:411-428 | scanning a joined path combines the scans of its parts |
| ResourceUtils.CollapseKeepsAll | caramel-core/src/main/java/com/lomcat/caramel/core/io/ResourceUtils.java:431-433 | every element is kept exactly when none is `.` or `..`, and then the elements stay as they are |
| ResourceUtils.NormalizePath | caramel-core/src/main/java/com/lomcat/caramel/core/io/ResourceUtils.java:369-445 | null and "" unchanged; backslashes become slashes; without a dot or a dot element that is the result; otherwise the prefix plus the resolved elements |
| ResourceUtils.NormalizePlainPath | caramel-core/src/main/java/com/lomcat/caramel/core/io/ResourceUtils.java:431-433 | a path without `.` or `..` elements only has its separators normalised |
| ResourceUtils.NormalizeCancelsParent | caramel-core/src/main/java/com/lomcat/caramel/core/io/ResourceUtils.java:382-387 | after a `scheme:` prefix, `x/../rest` normalises to `rest` |
| ResourceUtils.ApplyRelativePath | caramel-core/src/main/java/com/lomcat/caramel/core/io/ResourceUtils.java:456-466 | without a `/` the relative path; otherwise the directory and one separator, then the relative path |
| ResourceUtils.ApplyRelativePathExample | caramel-core/src/main/java/com/lomcat/caramel/core/io/ResourceUtils.java:449 | `C:/path/to/file` with `file2` gives `C:/path/to/file2` |
| ResourceUtils.GetFilename | caramel-core/src/main/java/com/lomcat/caramel/core/io/ResourceUtils.java:474-480 | null for null; otherwise the `/`-free suffix after the last separator, or the whole path |
| ResourceUtils.ApplyRelativeSetsFilename | caramel-core/src/main/java/com/lomcat/caramel/core/io/ResourceUtils.java:456-480 | applying a plain file name and reading the file name back gives that name |
| ResourceUtils.GetFilenameExtension | caramel-core/src/main/java/com/lomcat/caramel/core/io/ResourceUtils.java:488-504 | null for null; an extension holds neither `.` nor `/` |
| ResourceUtils.StripFilenameExtension | caramel-core/src/main/java/com/lomcat/caramel/core/io/ResourceUtils.java:512-524 | a prefix of the path, cut only at a dot |
| ResourceUtils.ExtensionRoundTrip | caramel-core/src/main/java/com/lomcat/caramel/core/io/ResourceUtils.java:488-524 | there is an extension exactly when the file name holds a dot, and the stripped path, a dot and the extension rejoin to the path |
| ResourceUtils.NoExtensionInName | caramel-core/src/main/java/com/lomcat/caramel/core/io/ResourceUtils.java:498-501 | a last dot before the last separator means no extension, and stripping changes nothing |
| ConfigEcho.NewEcho | caramel-config/src/main/java/com/lomcat/caramel/config/CaramelConfigEcho.java:39-47 | a fresh echo has no waves and echoes nothing |
| ConfigEcho.EchoEnabledIffAnyLevel | caramel-config/src/main/java/com/lomcat/caramel/config/CaramelConfigEcho.java:49-63 | echo is on exactly when some level is; track implies summary |
| ConfigEcho.NamesIgnoresCaseAndBlanks | caramel-config/src/main/java/com/lomcat/caramel/config/CaramelConfigEcho.java:92-94 | a section names a wave exactly when their trimmed lower-case forms agree |
| ConfigEcho.ApplySections | caramel-config/src/main/java/com/lomcat/caramel/config/CaramelConfigEcho.java:91-95 | each flag ends on exactly when it was on or some section names its wave; nothing else changes |
| ConfigEcho.SetWaves | caramel-config/src/main/java/com/lomcat/caramel/config/CaramelConfigEcho.java:69-96 | stores the waves; blank waves change no flag; flags only switch on, each exactly when some comma-separated section names it |
| ConfigEcho.UnknownSectionIgnored | caramel-config/src/main/java/com/lomcat/caramel/config/CaramelConfigEcho.java:91-95 | a section naming no wave changes nothing |
| ConfigEcho.ApplySectionsIdempotent | caramel-config/src/main/java/com/lomcat/caramel/config/CaramelConfigEcho.java:91-95 | applying the same sections twice is applying them once |

## Left out

- File system, class path and Spring `Resource`: these are the `Env` parameter. `getResource`, `exists`, `getDescription` and the SHA-256 hash are uninterpreted, and a hash failure is `None`.
- HOCON parsing (`ConfigFactory.parseReader`) is the `parse` parameter. Typesafe `Config` is a flat tree of path/value entries in entry order, with no nesting, fallback or value types.
- `Double.parseDouble` is the `parseDouble` parameter. Its grammar, NaN, infinities and −0.0 are not modelled, and priorities are `real`.
- PriorityOrder.ListenerCompare: `order() - other.order()` is unbounded here, so the 32-bit overflow of widely separated orders is not modelled.
- Text, CaramelAide: characters are ASCII for case conversion and whitespace. Unicode case folding and supplementary characters are not modelled.
- Concurrency (`ConcurrentHashMap`, `AtomicReference`, `AtomicInteger`) is not modelled; every operation is a pure function of its inputs.
- Echo and log output are left out: the echo builders, `__echo_*` helpers and logger calls produce text only. Of `CaramelConfigEcho`, only the flag logic is modelled.
- `HashMap` iteration order is the insertion order of an association list. Where Java's order is unspecified, the model fixes one.
- ResourceUtils: only `normalizePath`, `applyRelativePath`, `getFilename`, `getFilenameExtension` and `stripFilenameExtension` are modelled. The URL/File/JAR helpers work on the platform's I/O.
- `LocalConfigResourceLocator` line 211 calls `ConfigResourceBunch.create` without a name, but `create` takes one. The model passes the position's name.
- `ConfigResourceLoader` line 120 and `ConfigRegistry` line 184 construct `CaramelConfig(key, config)`, but `CaramelConfig` only has a one-argument constructor. The model registers the folded tree under the key.
- `ConfigRegistry` line 137 iterates `getResources()`, which is a map, with a one-argument lambda. The model reads the map's values in map order, unsorted, as the code evidently means.
- `CaramelConfigRegistry` line 101 calls a static `ConfigLocator.locate`, and line 123 calls `bunch.resources()`. Neither exists in the shown sources, so the located bunches are an input of the properties.
- `LocalConfigResourceLocator` calls `StringAide.trim`, `isBlank` and `isNotBlank`, which `StringAide` does not define. The model uses the `CaramelAide` versions.
- Null array elements and other `NullPointerException`s outside the modelled error paths are not modelled. `CaramelConfigPosition` has no priority field, so legacy positions carry none.
- Exceptions become error values: `ConfigLocateException` (and the legacy `ConfigLoadException` for an incomplete location) is a `LocateError`, and a read or parse failure names its resource. Once an exception is thrown in a `forEach`, keys committed earlier stay committed, and the model returns them.
- The legacy locator's unused `$`, `#` and `:` constants are not modelled.
- CaramelAide: `split`, `equals`, `equalsAnyIgnoreCase`, `equalsAfterTrim`, `lowerCase`/`upperCase`, the `isTrue`/`isFalse` family and the array/collection/map emptiness helpers are used only through the modelled operations or not at all.
- LocationPickup.Pickup: its own contract states only the segment-free case. Its other behaviour is stated through `LocationPickup.PickupAgrees` and the two as-written lemmas.
- CaramelAide.EqualsIgnoreCase: its own contract states the null and length cases. The full meaning is `CaramelAide.EqualsIgnoreCaseIsLowerEquality`.
- ConfigEcho.ApplySections: `String.split(",")` drops trailing empty sections, which cannot name a wave, so this does not affect the flags.

## Findings

| source | as written | input that shows it | evidently intended | confidence | as-written member | corrected member |
|---|---|---|---|---|---|---|
| caramel-core/src/main/java/com/lomcat/caramel/core/assist/NamingConvention.java:287-291 | the loop runs to the length measured before the leading and trailing separators were stripped | `_id` (snake to lower camel): reads `charAt(2)` of `id` | strip, then camelise what is left, giving `id` | not executed | NamingConvention.Separator2Camel, NamingConvention.Separator2CamelLeadingSeparator | NamingConvention.Separator2CamelStripped |
| caramel-config-local/src/main/java/com/lomcat/caramel/config/local/LocalConfigResourceLocator.java:273-276 | the "last index" of each key symbol is computed with `indexOf`, so a doubled `{` or `}` is never reported | `{{redis}db` is accepted as key `redis`, location `db` | a malformed-location error for the duplicate `{`, as for `(` and `)` | not executed | LocationPickup.Pickup, LocationPickup.DoubledKeyPrefixAsWritten, LocalLocator.PositionOfDoubledKey | LocationPickup.PickupFixed, LocalLocator.PositionOfFixed |
| caramel-config-local/src/main/java/com/lomcat/caramel/config/local/LocalConfigResourceLocator.java:348-349 | the order check compares -1 (absent opening) with the closing index and passes | `abc)`: `substring(-1, 4)` throws an index error | a malformed-location error for the unpaired symbol | not executed | LocationPickup.CheckSetup, LocationPickup.LoneClosingAsWritten, LocalLocator.PositionOfLoneClosing | LocationPickup.CheckSetupFixed, LocationPickup.PickupFixed, LocalLocator.PositionOfFixed |
