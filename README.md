# Galaxy parser for MISP, modelled in Dafny

The galaxy parser resolves free-text labels, such as a malware family or a threat actor named in a report, to entries of
MISP galaxies. A galaxy is a named list of clusters. Each cluster has a canonical `value`, optional `synonyms`
in its `meta`, and a tag `misp-galaxy:<type>="<value>"`. This project models the parser's core and proves what it
promises:

- **Galaxy managers** (`Galaxy`, galaxy.py). A manager checks the requested galaxy names against the known
  galaxies. The local manager loads the galaxies it finds files for and gives every cluster its tag
  (`generate_galaxy`). The MISP manager loads what MISP holds and reshapes it (`parse_galaxy`). A manager
  answers `galaxy_names`, `get_galaxy` and `get_tag_prefix`. The manager is a class. Its loading loops are
  methods that keep the invariant tying the loaded galaxies to the two type/name maps.
- **Discernment engine** (`Discerners`, discerner.py):
  - the label normaliser;
  - the index a `BaseDiscerner` builds over one galaxy: canonical keys, then the synonym keys merged over them;
  - the exact and partial matcher `_discern`;
  - the hint selection among several candidates;
  - the resulting `Discernment` and its tag.

  The index build is imperative (methods with loop invariants). Each method is proved equal to a specification
  function, and the lemmas are stated about those functions.
- **Package entry points** (`GalaxyParser`, `__init__.py`):
  - one discerner per loaded galaxy;
  - the tags found for a label;
  - the map from MITRE ATT&CK technique ids to tags.
- **Stale-tag maintenance** (`ClusterTags`, bin/update_cluster_tags.py):
  - the suffix and synonym staleness tests;
  - the synonym table of a galaxy;
  - the galaxy names read off tag names;
  - the scan that decides which instance tag each galaxy tag replaces;
  - `search_and_replace_tag`, modelled as an update of an entity's tag set.

Supporting modules:
- `Strings` models the Python `str` operations the code relies on: `strip`, `lower`, `split()`, `split(sep)`,
  `join`, `startswith`, `endswith` and `sorted`.
- `Dicts` models Python's insertion-ordered `dict`. "The first item" and "the last assignment wins" both depend
  on that order.
- `Exceptions` gives the raised exceptions as error values.

Two places where the code does less than its names and comments suggest; the model follows the code:
- `PREFIX_PERCENTAGE = 90` (src/galaxy_parser/discerner.py:139) names 90 percent, but the prefix length at
  src/galaxy_parser/discerner.py:214-217 is truncated to an integer. The shared leading part can therefore be
  shorter than 90 percent of the label: 4 of 5 characters, for example.
- The docstring of `normalize` (src/galaxy_parser/discerner.py:56) speaks of removing spaces and lower-casing.
  Class words, however, are dropped per whitespace-separated token (line 60), before the other separators are
  removed (line 62). So `trojan-x` keeps the class word and normalises to `trojanx`, while `trojan x` normalises
  to `x`. Case alone never matters (`NormalizeCaseInsensitive`).

## Model

| member | source | states |
|---|---|---|
| `Strings.LowerIdempotent` | src/galaxy_parser/discerner.py:58 | lower-casing twice is lower-casing once |
| `Strings.StripLower` | src/galaxy_parser/discerner.py:58 | stripping and lower-casing commute, so the normaliser's order of the two does not matter |
| `Strings.SplitWsAppend` | src/galaxy_parser/discerner.py:60 | the whitespace split of `x`, a whitespace character and `y` is the split of `x` followed by the split of `y` |
| `Strings.SplitWsStrip` | src/galaxy_parser/discerner.py:60 | stripping a label does not change its whitespace tokens |
| `Strings.AlnumOnlyAppend` | src/galaxy_parser/discerner.py:62 | removing the non-alphanumeric characters distributes over concatenation |
| `Strings.AlnumOnlyLowerAlnum` | src/galaxy_parser/discerner.py:62 | on a string without upper-case letters, what is left is lowercase ASCII letters and digits only |
| `Strings.JoinSplitOn` | bin/update_cluster_tags.py:76 | joining the pieces of `split(sep)` with `sep` gives the string back |
| `Strings.SplitOnPiecesFree` | bin/update_cluster_tags.py:76 | no piece of `split(sep)` contains the separator |
| `Strings.SplitOnCharFirst` | bin/update_cluster_tags.py:76 | the first piece of a split on one character is the text before that character's first occurrence, or the whole string |
| `Strings.LastSegmentSuffix` | bin/update_cluster_tags.py:46 | `split(sep)[-1]` is a suffix of the string and free of the separator |
| `Strings.LastSegmentWhole` | bin/update_cluster_tags.py:46 | `split(sep)[-1]` is the whole string exactly when the separator does not occur |
| `Strings.LastSegmentAfter` | src/galaxy_parser/__init__.py:47 | for a one-character separator, the last segment of `a + sep + b` is `b` when `b` holds no separator, whatever `a` holds |
| `Strings.InsertSorted` | bin/update_cluster_tags.py:81 | inserting a new name into a strictly sorted list keeps it strictly sorted and adds exactly that name |
| `Strings.SortedUnique` | bin/update_cluster_tags.py:81 | two strictly sorted lists with the same elements are equal, so `sorted` of a set has one answer |
| `Dicts.ODict.Put` | src/galaxy_parser/discerner.py:165 | assigning a key updates the map; an existing key keeps its place and a new key goes last |
| `Dicts.ODict.Values` | src/galaxy_parser/discerner.py:174 | `values()` lists the value of each key, in key order |
| `Dicts.ODict.Update` | src/galaxy_parser/discerner.py:181 | the in-place merge gives the right-hand pairs precedence, keeps the left-hand keys, in order, as a prefix, and appends the right-hand keys that are new, in their order |
| `Tags.CreateClusterTagShape` | bin/update_cluster_tags.py:56-58 | a cluster tag is the prefix, `="`, the value and a closing `"` |
| `Tags.CreateClusterTagInjective` | bin/update_cluster_tags.py:56-58 | under one prefix, two values give the same tag exactly when they are equal |
| `Tags.GalaxyNameOfTagIff` | bin/update_cluster_tags.py:74-80 | a tag names galaxy `g` exactly when it starts with `misp-galaxy:<g>`, followed by `=` or nothing, and `g` holds neither `:` nor `=` |
| `Tags.ClusterTagGalaxyName` | bin/update_cluster_tags.py:56-81 | the tag of any cluster of galaxy `g` is read back as naming `g` |
| `Galaxy.ResolveGalaxyNames` | src/galaxy_parser/galaxy.py:93-96 | the first unknown requested name raises `NonExistingGalaxy`, and an error means some name is unknown; no names or an empty list stand for all known galaxies; otherwise the request is kept as given |
| `Galaxy.FirstUnknown` | src/galaxy_parser/galaxy.py:93-95 | finds the first name that is not a known galaxy, or shows that all are known |
| `Galaxy.GenerateGalaxy` | src/galaxy_parser/galaxy.py:170-174 | every cluster gets `tag_name = misp-galaxy:<type>="<value>"`; the type, the number and order of clusters and all other fields are unchanged |
| `Galaxy.ElementsMetaKeys` | src/galaxy_parser/galaxy.py:139-144 | the built `meta` has exactly the keys of the cluster's elements |
| `Galaxy.ElementsMetaExternalId` | src/galaxy_parser/galaxy.py:141-142 | `external_id` holds the scalar value of the last element with that key |
| `Galaxy.ElementsMetaItems` | src/galaxy_parser/galaxy.py:143-144 | every other key holds a set: exactly the values of the elements with that key, each once |
| `Galaxy.ParseCluster` | src/galaxy_parser/galaxy.py:139-148 | a parsed cluster keeps its value and tag and gains the built `meta`; `GalaxyElement`, `id`, `collection_uuid` and `galaxy_id` are gone and the other fields are kept |
| `Galaxy.ParseGalaxy` | src/galaxy_parser/galaxy.py:134-150 | it succeeds exactly when no cluster lacks a deleted key, giving one parsed value per cluster, in order; otherwise it raises `KeyError` for the first such cluster, the error `FirstParseError` gives |
| `Galaxy.FirstParseError` | src/galaxy_parser/galaxy.py:145-148 | the error of a galaxy's clusters is always a `KeyError` |
| `Galaxy.FirstParseErrorSpec` | src/galaxy_parser/galaxy.py:138-148 | none exactly when no cluster lacks a deleted key; otherwise the `KeyError` of the first cluster that lacks one |
| `Galaxy.FirstParseErrorAt` | src/galaxy_parser/galaxy.py:138-148 | a cluster lacking a key, with none before it lacking one, decides the error |
| `Galaxy.FirstLoadErrorNone` | src/galaxy_parser/galaxy.py:156-161 | loading fails exactly when a requested galaxy MISP holds fails to parse |
| `Galaxy.FirstLoadErrorFirst` | src/galaxy_parser/galaxy.py:156-161 | a failed load fails with the parse error of the first requested galaxy MISP holds that does not parse, which is a `KeyError` |
| `Galaxy.LoadOrder` | src/galaxy_parser/galaxy.py:185-193 | the loaded names are exactly the requested names that are present, each listed once |
| `Galaxy.LoadOrderFirstSeen` | src/galaxy_parser/galaxy.py:185-193 | the loaded names keep the order in which they are first requested |
| `Galaxy.FirstPos` | src/galaxy_parser/galaxy.py:156 | the position of a name's first occurrence among the requested names |
| `Galaxy.RegisterKeepsInvariant` | src/galaxy_parser/galaxy.py:161-163 | recording a loaded galaxy keeps the two type/name maps in agreement with the loaded galaxies' types |
| `Galaxy.GalaxyManager.constructor` | src/galaxy_parser/galaxy.py:96-99 | a new manager keeps the resolved names, has nothing loaded and satisfies the invariant |
| `Galaxy.GalaxyManager.GetTagPrefix` | src/galaxy_parser/galaxy.py:107-109 | `misp-galaxy:<type>` of a loaded galaxy; for any other name, `KeyError` |
| `Galaxy.GalaxyManager.GetGalaxy` | src/galaxy_parser/galaxy.py:111-116 | the loaded galaxy; for a name that was not loaded, `NonExistingGalaxy` |
| `Galaxy.GalaxyManager.Register` | src/galaxy_parser/galaxy.py:161-163 | stores the galaxy under its name, in loading order, and keeps the invariant |
| `Galaxy.GalaxyManager.LoadLocal` | src/galaxy_parser/galaxy.py:185-193 | loads, in request order, exactly the requested galaxies that have a file, each passed through `generate_galaxy`, and skips the rest |
| `Galaxy.GalaxyManager.LoadMisp` | src/galaxy_parser/galaxy.py:156-163 | loads, in request order, exactly the requested galaxies MISP holds, each passed through `parse_galaxy`. It fails exactly when one of them fails to parse, with the error of the first (`FirstLoadError`) |
| `Galaxy.NewGalaxyManagerLocal` | src/galaxy_parser/galaxy.py:176-193 | fails exactly as the name check fails; otherwise gives a valid manager loaded as `LoadLocal` states |
| `Galaxy.NewGalaxyManagerMisp` | src/galaxy_parser/galaxy.py:152-163 | fails with the name check's error when the names are bad. Otherwise it fails exactly when loading fails, with loading's first error, and else gives a valid manager loaded as `LoadMisp` states |
| `Discerners.ClassWordShape` | src/galaxy_parser/discerner.py:39-52 | every class word is one non-empty token of lowercase letters |
| `Discerners.DropClasses` | src/galaxy_parser/discerner.py:60 | keeps exactly the tokens that are not class words |
| `Discerners.DropClassesAppend` | src/galaxy_parser/discerner.py:60 | dropping class words distributes over concatenation of token lists |
| `Discerners.Kept` | src/galaxy_parser/discerner.py:58-60 | the kept tokens contain no upper-case letter |
| `Discerners.Normalize` | src/galaxy_parser/discerner.py:55-63 | the normal form is made of lowercase ASCII letters and digits only |
| `Discerners.NormalizeIgnoresCase` | src/galaxy_parser/discerner.py:58 | normalising the lower-cased label gives the same result |
| `Discerners.NormalizeCaseInsensitive` | src/galaxy_parser/discerner.py:58 | labels equal up to case normalise alike |
| `Discerners.NormalizeClassWord` | src/galaxy_parser/discerner.py:58-62 | a class word alone normalises to the empty label |
| `Discerners.KeptDropsClassWord` | src/galaxy_parser/discerner.py:60 | a whitespace token that is a class word leaves the kept tokens as without it |
| `Discerners.NormalizeDropsClassWord` | src/galaxy_parser/discerner.py:58-62 | a whitespace token that is a class word contributes nothing to the normal form |
| `Discerners.FindCloser` | src/galaxy_parser/discerner.py:170 | the lazy bracket match ends at the first `)` or `]`, and does not cross a newline |
| `Discerners.RemoveBracketedQualifier` | src/galaxy_parser/discerner.py:170 | a bracketed qualifier is cut out and the text before it is kept |
| `Discerners.StripQualifiersTrailing` | src/galaxy_parser/discerner.py:167-170 | "BlackMatter (Windows)" also adds "BlackMatter" to the known labels: the text before the trailing qualifier, stripped of blanks |
| `Discerners.UniqueLabels` | src/galaxy_parser/discerner.py:163-170 | the known labels are exactly every value and every value without its bracketed qualifiers |
| `Discerners.CanonicalIndexKeys` | src/galaxy_parser/discerner.py:164-165 | the canonical index has a key for each value's normal form, and no other |
| `Discerners.CanonicalIndexLast` | src/galaxy_parser/discerner.py:164-165 | under each key sits the last entry with that normal form |
| `Discerners.CanonicalIndexEntries` | src/galaxy_parser/discerner.py:164-165 | the canonical index holds only entries of the galaxy, each under its own normal form |
| `Discerners.CanonicalValuesIn` | src/galaxy_parser/discerner.py:174 | the entries the synonym loop visits are entries of the galaxy |
| `Discerners.AddSynonymsAt` | src/galaxy_parser/discerner.py:175-178 | the normal form of one of an entry's synonyms that is not a known label now leads to that entry; every other key is unchanged |
| `Discerners.SynonymIndexKeys` | src/galaxy_parser/discerner.py:173-178 | the synonym index has a key for each synonym, of an indexed entry, that is not a known label, and no other key: a synonym equal to a value or to a value without its qualifier adds nothing |
| `Discerners.SynonymIndexEntries` | src/galaxy_parser/discerner.py:173-178 | the synonym index only holds indexed entries, each under a key one of its new synonyms normalises to |
| `Discerners.SynonymIndexLast` | src/galaxy_parser/discerner.py:173-178 | under a synonym key sits the last indexed entry with such a synonym |
| `Discerners.IndexHasCanonicalKeys` | src/galaxy_parser/discerner.py:164-182 | after construction every value's normal form is a key of the index |
| `Discerners.IndexKeys` | src/galaxy_parser/discerner.py:161-182 | the index keys are exactly the values' normal forms and the normal forms of the indexed entries' new synonyms |
| `Discerners.IndexEntry` | src/galaxy_parser/discerner.py:173-181 | every key leads to an entry of the galaxy; a key with a new synonym leads to an entry with that synonym, overriding the canonical entry; any other key leads to its canonical entry |
| `Discerners.FirstArgMax` | src/galaxy_parser/discerner.py:85-90 | picks a highest score, with ties going to the earliest key |
| `Discerners.SelectUsingHint` | src/galaxy_parser/discerner.py:79-95 | the chosen name is a candidate with its own entry. If no candidate contains the casefolded hint, it is the first candidate; otherwise it is the earliest candidate whose normal form scores highest against the hint's |
| `Discerners.CreateClass` | src/galaxy_parser/discerner.py:141-154 | the class reads the given galaxy and reports the given source, or `custom` when none or an empty one is given |
| `Discerners.PrefixMatches` | src/galaxy_parser/discerner.py:213-217 | keeps exactly the close matches that start with the label's leading 90 percent |
| `Discerners.PrefixMatchesAppend` | src/galaxy_parser/discerner.py:215-217 | the prefix filter distributes over concatenation, so the kept matches stay in the close matches' order |
| `Discerners.PrefixMatchesFirst` | src/galaxy_parser/discerner.py:215-217 | the first kept match is the first close match that shares the prefix |
| `Discerners.EntriesByValue` | src/galaxy_parser/discerner.py:218-221 | each result is keyed by its entry's value and comes from a matched key, and every matched key's entry value is a key of the result; it is empty exactly when there are no matches |
| `Discerners.EntriesOf` | src/galaxy_parser/discerner.py:218-221 | the indexed entry of each matched label, in the labels' order |
| `Discerners.ValuesOf` | src/galaxy_parser/discerner.py:219 | the `value` of each entry, in order |
| `Discerners.ByValue` | src/galaxy_parser/discerner.py:218-221 | a dict comprehension keyed by the entries' values: every key's entry carries that value, and every entry's value is a key |
| `Discerners.ByValueFrom` | src/galaxy_parser/discerner.py:218-221 | every entry of the comprehension is one of the given entries |
| `Discerners.ByValueKeys` | src/galaxy_parser/discerner.py:218-221 | the keys are the entries' values, each once, in order of first appearance |
| `Discerners.ByValueOrder` | src/galaxy_parser/discerner.py:218-221 | the keys are exactly the entries' values, and any two keys are ordered as their values' first appearances |
| `Discerners.ByValueFirst` | src/galaxy_parser/discerner.py:218-221 | the first key is the first entry's value |
| `Discerners.ByValueLast` | src/galaxy_parser/discerner.py:218-221 | the entry under a value is the last entry with that value: later assignments overwrite |
| `Discerners.EntriesByValueOrder` | src/galaxy_parser/discerner.py:218-221 | the result's keys are the matched labels' entry values, ordered by where each first appears |
| `Discerners.EntriesByValueFirst` | src/galaxy_parser/discerner.py:218-221 | the first key is the entry value of the first matched label |
| `Discerners.EntriesByValueLast` | src/galaxy_parser/discerner.py:218-221 | the entry under a value comes from the last matched label with that value |
| `Discerners.MatchNormalized` | src/galaxy_parser/discerner.py:194-224 | a class word fails. An exact hit gives the singleton `{value: entry}` even when partial matching is on. A miss without partial matching fails. With partial matching it succeeds exactly when some close match shares the prefix. Every returned entry comes from such a key among the close matches, and every such key's entry value is returned. Every failure is `FailedDiscernment` |
| `Discerners.MatchNormalizedFirst` | src/galaxy_parser/discerner.py:208-224 | on the partial path the first candidate, the one `discern` takes without a hint (discerner.py:94, 116), is the entry value of the first close match sharing the label's leading 90 percent |
| `Discerners.Discernment.GetTag` | src/galaxy_parser/discerner.py:29-33 | with `resolve_local`, exactly `misp-galaxy:<galaxy>="<name>"`; otherwise the entry's `tag_name`, raising `KeyError` when it has none |
| `Discerners.LocalTagNamesGalaxy` | src/galaxy_parser/discerner.py:29-31 | the local tag of a discernment is read back as naming the discerner's galaxy |
| `Discerners.IndexValues` | src/galaxy_parser/discerner.py:162-170 | the first constructor loop computes the canonical index and the known labels |
| `Discerners.IndexEntrySynonyms` | src/galaxy_parser/discerner.py:175-178 | the inner synonym loop adds one entry's new synonyms |
| `Discerners.IndexSynonyms` | src/galaxy_parser/discerner.py:173-178 | the synonym loop computes the synonym index over the indexed entries |
| `Discerners.BaseDiscerner.constructor` | src/galaxy_parser/discerner.py:156-182 | the index is the canonical index merged with the synonym index, and the label set is exactly its key set |
| `Discerners.BaseDiscerner.Match` | src/galaxy_parser/discerner.py:194-224 | `_discern` is the matcher applied to the normalised label; a label normalising to a class word fails |
| `Discerners.BaseDiscerner.Discern` | src/galaxy_parser/discerner.py:97-129 | fails exactly when `_discern` fails. The result carries the input label, the discerner's source and galaxy, and a candidate with its entry. The hint is used only with several candidates and a non-empty hint; otherwise the first candidate is taken |
| `Discerners.NewDiscerner` | src/galaxy_parser/discerner.py:156-159 | a discerner over the manager's galaxy of the class, or `NonExistingGalaxy` when it was not loaded |
| `ClusterTags.SuffixSeparator` | bin/update_cluster_tags.py:44-45 | the given separator, or `" - "` when it is missing or empty |
| `ClusterTags.IsTagStaleBySuffix` | bin/update_cluster_tags.py:40-46 | false for equal tags; otherwise true exactly when the last segments after the separator are equal |
| `ClusterTags.SuffixStaleShape` | bin/update_cluster_tags.py:40-46 | tags that are stale by suffix share a separator-free ending, and at least one of them holds the separator |
| `ClusterTags.IsTagStaleBySynonym` | bin/update_cluster_tags.py:49-53 | false for equal tags; otherwise true exactly when the instance tag is among the tag's synonyms; a tag missing from the table raises `KeyError` |
| `ClusterTags.GalaxyTags` | bin/update_cluster_tags.py:164 | the tag of each value, in order |
| `ClusterTags.TagSynonymsKeys` | bin/update_cluster_tags.py:61-68 | the synonym table has one key per value's cluster tag, and no other |
| `ClusterTags.TagSynonymsLast` | bin/update_cluster_tags.py:61-68 | a value's tag maps to the set of its synonyms' tags, empty without `meta` or `synonyms`, unless a later value is the same |
| `ClusterTags.GetTagSynonyms` | bin/update_cluster_tags.py:61-68 | the loop builds the synonym table |
| `ClusterTags.TagGalaxyNames` | bin/update_cluster_tags.py:71-80 | the collected names are exactly the galaxy names of the well-formed galaxy tags; malformed tags add nothing |
| `ClusterTags.GetGalaxyNamesFromTagNames` | bin/update_cluster_tags.py:71-81 | returns the collected galaxy names strictly sorted, hence without duplicates |
| `ClusterTags.GalaxyNamesDetermined` | bin/update_cluster_tags.py:81 | only one sorted list answers for a given set of tag names |
| `ClusterTags.GalaxyTagsInTable` | bin/update_cluster_tags.py:164-165 | every galaxy tag is a key of the synonym table, so the synonym test never raises in the scan |
| `ClusterTags.LastReplacing` | bin/update_cluster_tags.py:175-181 | the last galaxy tag that replaces an instance tag, if any |
| `ClusterTags.ReplaceWithResult` | bin/update_cluster_tags.py:175-181 | the innermost loop sends the instance tag to the last replacing galaxy tag, changes nothing when none replaces it, and leaves other tags alone |
| `ClusterTags.ReplaceWithJustified` | bin/update_cluster_tags.py:167-181 | the innermost loop adds only a justified mapping of its instance tag |
| `ClusterTags.ScanInstanceTagsJustified` | bin/update_cluster_tags.py:167-181 | scanning one galaxy keeps earlier mappings or adds mappings that galaxy justifies |
| `ClusterTags.ScanJustified` | bin/update_cluster_tags.py:160-181 | every mapped instance tag starts with `misp-galaxy:<name>` of some loaded galaxy and is not one of its tags. Its target is one of that galaxy's tags that replaces it |
| `ClusterTags.ScanNeverIdentity` | bin/update_cluster_tags.py:160-181 | no tag is mapped to itself |
| `ClusterTags.GalaxyTargetSpec` | bin/update_cluster_tags.py:167-181 | a galaxy sends an instance tag somewhere exactly when the tag is eligible and some galaxy tag replaces it; the target then justifies the mapping and no later galaxy tag replaces the instance tag |
| `ClusterTags.ScanInstanceTagsAt` | bin/update_cluster_tags.py:167-181 | scanning one galaxy maps each listed instance tag to that galaxy's target for it, when there is one, and leaves every other entry alone |
| `ClusterTags.ScanComplete` | bin/update_cluster_tags.py:160-181 | a listed instance tag is mapped exactly when some loaded galaxy has a target for it, and then to the target of the last such galaxy |
| `ClusterTags.ScanGalaxies` | bin/update_cluster_tags.py:161-163 | one scanned galaxy per loaded galaxy, in loading order |
| `ClusterTags.TagIsStale` | bin/update_cluster_tags.py:176-178 | the synonym test, then the suffix test in a suffix-based galaxy |
| `ClusterTags.ReplaceStale` | bin/update_cluster_tags.py:175-181 | the innermost loop computes the replacing step |
| `ClusterTags.ScanGalaxyTags` | bin/update_cluster_tags.py:164-181 | the loop over instance tags computes the scan of one galaxy |
| `ClusterTags.ReadScanGalaxy` | bin/update_cluster_tags.py:162-163 | reads a loaded galaxy's values and tag prefix from the manager |
| `ClusterTags.ScanStaleTags` | bin/update_cluster_tags.py:160-181 | the whole scan loop computes the scan of all loaded galaxies |
| `ClusterTags.ReplaceTagMembers` | bin/update_cluster_tags.py:102-110 | without the old tag nothing changes; otherwise the result is the tags plus the new tag, minus the old tag |
| `ClusterTags.ReplaceTagIdempotent` | bin/update_cluster_tags.py:102-110 | replacing a second time changes nothing |
| `ClusterTags.TaggedEntity.SearchAndReplaceTag` | bin/update_cluster_tags.py:95-110 | the entity's tags become the replaced tag set |
| `GalaxyParser.SourceOrCustom` | src/galaxy_parser/__init__.py:20 | the given source when one is given and not empty, and `custom` otherwise; never empty |
| `GalaxyParser.GetDiscerners` | src/galaxy_parser/__init__.py:13-22 | exactly one discerner per loaded galaxy, in the manager's order. Each reads that galaxy's values and reports the source, `custom` when none is given |
| `GalaxyParser.LoadedDiscerner` | src/galaxy_parser/__init__.py:20-21 | the discerner of a loaded galaxy is created without failing |
| `GalaxyParser.Discernments` | src/galaxy_parser/__init__.py:35-37 | what each discerner says of the label, in discerner order |
| `GalaxyParser.LocalTag` | src/galaxy_parser/__init__.py:38 | the default `get_tag()` is the cluster tag of the discerned name under the galaxy's prefix |
| `GalaxyParser.SuccessfulTagsLength` | src/galaxy_parser/__init__.py:35-41 | at most one tag per discerner |
| `GalaxyParser.SuccessfulTagsMembers` | src/galaxy_parser/__init__.py:35-41 | a tag is collected exactly when some discerner succeeded with it |
| `GalaxyParser.SuccessfulTagsAll` | src/galaxy_parser/__init__.py:35-41 | one tag per discerner exactly when none fails |
| `GalaxyParser.GetDiscernedTags` | src/galaxy_parser/__init__.py:25-41 | nothing for an empty label; otherwise the local tags of the successful discernments, in discerner order, with failures skipped |
| `GalaxyParser.CollectTags` | src/galaxy_parser/__init__.py:35-41 | the loop collects the local tag of each success, in order |
| `GalaxyParser.DiscernedTagOrigin` | src/galaxy_parser/__init__.py:35-41 | every returned tag is the local tag of a name that one discerner matched for the label |
| `GalaxyParser.TechniqueIdAsWritten` | src/galaxy_parser/__init__.py:47 | the key as written raises `IndexError` exactly when the value holds no `-` |
| `GalaxyParser.TechniqueIdAsWrittenSecond` | src/galaxy_parser/__init__.py:47 | as written, a value with two dashes is keyed by the stripped text between them |
| `GalaxyParser.TechniqueIdAsWrittenDriveBy` | src/galaxy_parser/__init__.py:47 | as written, "Drive-by Compromise - T1189" is keyed "by Compromise" |
| `GalaxyParser.TechniqueIdOf` | src/galaxy_parser/__init__.py:44-49 | the technique id of `<name>-<id>` is the stripped id, whatever dashes the name holds |
| `GalaxyParser.TechniqueIdAgrees` | src/galaxy_parser/__init__.py:47 | where the name holds no `-`, the key as written equals the technique id |
| `GalaxyParser.TechniqueIdDriveBy` | src/galaxy_parser/__init__.py:47 | "Drive-by Compromise - T1189" is keyed "T1189" |
| `GalaxyParser.KeyedEntryError` | src/galaxy_parser/__init__.py:47 | a value the comprehension cannot get past raises its key's error if the key fails, and `KeyError` for the missing `tag_name` otherwise |
| `GalaxyParser.KeyedMappingOk` | src/galaxy_parser/__init__.py:46-49 | the comprehension succeeds exactly when every value's key succeeds and every value has a `tag_name` |
| `GalaxyParser.KeyedMappingError` | src/galaxy_parser/__init__.py:46-49 | a failing comprehension raises the error of the first value it cannot get past |
| `GalaxyParser.KeyedMappingKeys` | src/galaxy_parser/__init__.py:46-49 | the keys of the result are exactly the values' keys |
| `GalaxyParser.KeyedMappingLast` | src/galaxy_parser/__init__.py:46-49 | a key maps to the `tag_name` of the last value carrying it |
| `GalaxyParser.KeyedMappingAgree` | src/galaxy_parser/__init__.py:46-49 | two key computations that agree on every value give the same result |
| `GalaxyParser.MitreEntryError` | src/galaxy_parser/__init__.py:47 | a value without `-` raises `IndexError` before its `tag_name` is looked up; otherwise a missing `tag_name` raises `KeyError` |
| `GalaxyParser.MitreMappingAsWrittenOk` | src/galaxy_parser/__init__.py:44-49 | as written, the mapping fails exactly when some value lacks a `-` or a `tag_name` |
| `GalaxyParser.MitreMappingAsWrittenError` | src/galaxy_parser/__init__.py:44-49 | as written, a failing mapping raises the error of the first value lacking a `-` or a `tag_name`: `IndexError` when it lacks the `-`, even if it also lacks the `tag_name` |
| `GalaxyParser.MitreMappingAsWrittenKeys` | src/galaxy_parser/__init__.py:44-49 | as written, the keys are exactly the values' keys as written |
| `GalaxyParser.MitreMappingAsWrittenLast` | src/galaxy_parser/__init__.py:44-49 | as written, a key maps to the `tag_name` of the last value carrying it |
| `GalaxyParser.MitreMappingAgrees` | src/galaxy_parser/__init__.py:44-49 | where every value's key as written is its technique id, the mapping as written equals the corrected one |
| `GalaxyParser.MitreMappingDriveBy` | src/galaxy_parser/__init__.py:44-49 | the example technique alone is mapped under "by Compromise" as written and under "T1189" when corrected |
| `GalaxyParser.MitreMappingOk` | src/galaxy_parser/__init__.py:45 | corrected (technique ids as the docstring promises): the mapping fails exactly when a value lacks `tag_name`, and then with `KeyError` |
| `GalaxyParser.MitreMappingKeys` | src/galaxy_parser/__init__.py:45 | corrected: the keys are exactly the values' technique ids |
| `GalaxyParser.MitreMappingLast` | src/galaxy_parser/__init__.py:45 | corrected: a technique id maps to the `tag_name` of the last value carrying it |

## Left out

- Network and file I/O are left out:
  - `GalaxyManagerOnDemand` and its download;
  - the reading of the JSON galaxy files;
  - the MISP client calls: `galaxies`, `update_galaxies`, `get_galaxy`, `search_tags`, `tag` and `untag`.

  The files and MISP's galaxies are parameters (`files`, `available`). The tag and untag calls are updates of
  the entity's tag set.
- `get_or_create_tag_object` (bin/update_cluster_tags.py:84-92) is left out: only the tag's name matters to
  the set of tag names.
- The command-line scripts are left out: argument parsing, the event and attribute searches, and the
  replacement loop of `main`. The scan loop is lifted out as `ScanStaleTags` over the manager and the
  instance tag names.
- Logging and `print` are left out.
- `difflib` is not reimplemented:
  - `get_close_matches` is a parameter that returns only offered labels;
  - `SequenceMatcher.ratio` is any real-valued score.
- Dynamic class creation with `type(...)` becomes the `DiscernerClass` record of a galaxy and a source. The six
  predefined discerner classes are constants of it.
- Default arguments become explicit parameters: `include_partial_matches`, `hint`, `source` and `resolve_local`.
- `PrefixLen` computes `floor(len * 90 / 100)` exactly. The source multiplies in floating point, which can come
  out one lower for some lengths; a 70-character label gets 62 instead of 63.
- `Strings.Lower` lower-cases ASCII letters only. `lower()` and `casefold()` on other letters are not modelled.
- `frozenset` iteration order is not modelled:
  - `ALL_GALAXY_NAMES` is iterated in the order it is listed.
  - Python iterates it in hash order, which only changes the loading order.
- Dictionaries whose order reaches no modelled result become Dafny maps or sets:
  - the synonym table;
  - `old_tag_to_new_tag`, which is iterated in insertion order only by the replacement loops
    (bin/update_cluster_tags.py:185 and 201), and those loops are left out;
  - an entity's tags.
- The records assume well-formed galaxy JSON: every cluster has a `value` and every element a `key` and a
  `value`. The `KeyError` the source raises for a cluster without `value` (src/galaxy_parser/galaxy.py:173,
  src/galaxy_parser/discerner.py:165, bin/update_cluster_tags.py:65) or an element without `key` or `value`
  (src/galaxy_parser/galaxy.py:141-144) is not modelled.
- `parse_galaxy` collects each element's values into a set. The model keeps the values as a list without
  duplicates, in first-seen order, so that JSON lists and MISP sets share one representation.
- `BaseDiscerner`'s attributes are constants. The source only assigns them in `__init__`.
- `GalaxyParser.GetDiscerners` does not state that the discerners are newly allocated, to keep the proof
  small. `LoadedDiscerner` states it for each one.
- MISP's update failure (src/galaxy_parser/galaxy.py:126-129, a `ValueError` when MISP holds no galaxies and
  cannot update them) is left out with the MISP client: the galaxies MISP holds are a parameter.

## Findings

| source | as written | input that shows it | evidently intended | confidence | as-written member | corrected member |
|---|---|---|---|---|---|---|
| src/galaxy_parser/__init__.py:47 | the technique id is the second piece of the value split on `-`, stripped | a technique whose name holds a dash, "Drive-by Compromise - T1189", is keyed "by Compromise" (and a value without `-` raises `IndexError`) | the id after the last `-`, "T1189" | not executed | `GalaxyParser.TechniqueIdAsWrittenDriveBy` | `GalaxyParser.TechniqueIdDriveBy` |

`GalaxyParser.KeyedMapping` models the comprehension for any key computation, with the key evaluated before the
`tag_name` lookup. `GalaxyParser.MitreMappingAsWritten` is the comprehension as written, with `TechniqueIdAsWritten`
as its key, so `IndexError` is raised before `KeyError`. `GalaxyParser.MitreMapping` is the corrected comprehension
over `TechniqueId`. `TechniqueIdAgrees` shows that the two keys agree for every value whose technique name holds no
dash, and `MitreMappingAgrees` that the two mappings then agree. `MitreMappingDriveBy` shows them differing on
the example technique.
