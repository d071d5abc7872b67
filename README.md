# regexparser in Dafny

A model of the extraction pipeline of `parser.go`, the Go package that turns
semi-structured command output (network device CLI text) into labelled records
using a tree of regular expressions declared in configuration.

The pipeline has four stages, composed by `Parse`:

- `Compile` turns a tree of configurations into a tree of parsers of the same
  shape. Each configuration is a pattern, a level and sub-configurations. Each
  parser is a compiled expression, the level and child parsers.
- `ParseText` applies a parser forest to a text.
  - A parser whose level exceeds the cap is skipped with its whole sub-tree.
  - Every other parser recurses into its children on the whole text of each of
    its matches.
  - When its expression has capture groups and it matched, it adds one entry of
    its own: one tag-set per match, with one tag per named group.
  - The result is a list of entries. Each entry is a list of tag-sets.
- `Merge` regroups the entries by position. Group `i` joins the `i`-th tag-set
  of every entry long enough to have one. Groups are emitted highest position
  first, up to the first empty group.
- `Format` turns each merged tag-set into a record. The record has a label, a
  bucket and the tag-set as its properties. The label is the prefix parts
  joined with `_`, followed by the value of every tag whose name is one of the
  keys.

Modules, one per stage, leaf first:

- `Regexp` (`regexp.dfy`) is the part of Go's `regexp` package the parser
  observes.
  - An expression is described by its group names (`SubexpNames()`) and its
    matches on each text (`FindAllStringSubmatch(text, -1)`).
  - Only the facts the library documents are assumed. Name 0 is the unnamed
    whole match, and every match carries one string per name.
  - `regexp.MustCompile` is a parameter `compileRegex: string -> Option<Regex>`
    of `Compile`.
- `Types` (`types.dfy`) holds `Config`, `Parser`, `Tag` and `Node`. Levels are
  a 64-bit `Int64` newtype, as in the source.
- `Compiler` (`compile.dfy`), `Matcher` (`parse_text.dfy`), `Merger`
  (`merge.dfy`), `Formatter` (`format.dfy`) and `Pipeline` (`parse.dfy`) hold
  the stages.

Each Go function that loops and appends is a Dafny method with loop invariants.
Each method is proved equal to a specification function (`Compilation`,
`Entries`, `Merged`, `Label`, `Records`), and the lemmas state the source's
promises about those functions. The spec functions recurse on the prefix of a
sequence, so the loop invariants read `x == F(s[..n])`.

Behaviours of `parser.go` worth knowing:

- `Format` appends the value of every tag whose name equals a key, not only
  the first one (`parser.go:199-206`). See `Formatter.KeyValuesMembers` and
  `Formatter.EveryMatchingTagIsAppended`.
- The branch test `len(r.SubexpNames()) > 1` holds for any capture group,
  named or not (`parser.go:115`).
  - An expression whose groups are all unnamed therefore yields one empty
    tag-set per match.
  - They add no tag to any group, so they change neither `Merge`'s result nor
    the records; only `ParseText`'s output shows them. See
    `Matcher.UnnamedGroupsYieldEmptyTagSets`,
    `Merger.AllEmptyEntryChangesNoMerge` and
    `Pipeline.UnnamedOnlyLeafNoRecords`.
- `Merge` groups by position within each entry (`parser.go:171-176`): the key
  is the index of a tag-set inside `input[n]`, which within one parser's own
  entry is the match number. It is not a nesting depth.
- With an empty prefix, no `_` is added while the label is still empty
  (`parser.go:201-202`): leading empty key values vanish. See
  `Formatter.LabelWithoutPrefix`.

## Model

| member | source | states |
|---|---|---|
| Regexp.FindAllStringSubmatch | parser.go:117 | every match carries exactly one string per group name, the whole match first |
| Regexp.FindAllString | parser.go:142 | there is one whole-match text per match, the same matches as the submatch search |
| Compiler.Compile | parser.go:83-100 | the loop with its recursive calls returns exactly `Compilation`: the forest compiled in order, each pattern before its own sub-tree; an invalid pattern stops the compilation and is reported |
| Compiler.CompilationKeepsShape | parser.go:87-97 | a successful compilation has one parser per configuration, in order, with the same level, the compiled pattern and the compilation of the sub-configurations as children |
| Compiler.CompilationStopsAtFailure | parser.go:89 | once a prefix of the forest fails, the whole forest fails with the same pattern: there is no partial result |
| Compiler.FirstInvalid | parser.go:89 | the result is absent exactly when every pattern compiles; otherwise it is the first pattern that does not compile |
| Compiler.CompilationFailsOnFirstInvalid | parser.go:87-91 | compilation fails exactly when some pattern of the tree is invalid, and it reports the first invalid one in visiting order (each node before its sub-tree) |
| Matcher.CollectTags | parser.go:121-127 | the loop over group names builds exactly `TagSetOf`: one tag per named group, in order |
| Matcher.AppendNonEmpty | parser.go:131-136 | the output gains exactly the non-empty entries of the recursive result, in order |
| Matcher.NonEmptyOnly | parser.go:131-136 | every kept entry is non-empty and comes from the input, and every non-empty input entry is kept |
| Matcher.Entries | parser.go:103-167 | every entry `ParseText` returns is non-empty |
| Matcher.NodeEntries | parser.go:109-159 | every entry one parser contributes is non-empty |
| Matcher.MatchEntries | parser.go:129-136 | every entry the children contribute across the matches is non-empty |
| Matcher.ParseText | parser.go:103-167 | the method returns exactly `Entries`: each parser's contribution in forest order, gated parsers skipped |
| Matcher.ParseNode | parser.go:111-159 | for a parser that passes the gate, the method returns exactly `NodeEntries`: the children's entries match by match, then its own tag-sets when it has groups and matched |
| Matcher.ParseMatches | parser.go:142-153 | the no-groups branch returns exactly the children's non-empty entries for each match text in turn |
| Matcher.NamedIndices | parser.go:122-123 | the positions of the named groups, strictly increasing, each naming a group, and covering every named group |
| Matcher.TagSetOfNamedGroups | parser.go:120-128 | a match's tag-set has one tag per named group, in declaration order, whose value is that group's text |
| Matcher.UnnamedGroupsYieldEmptyTagSets | parser.go:115-127 | an expression whose groups are all unnamed yields an empty tag-set for each match |
| Matcher.NonEmptyOnlyKeepsAll | parser.go:131-136 | filtering a list that has no empty entries changes nothing |
| Matcher.MatchEntriesByMatch | parser.go:129-136 | the children's entries come match by match: all entries found in the first match's text, then all from the second, and so on |
| Matcher.NodeEntriesOrder | parser.go:115-159 | a passing parser contributes the children's entries match by match, then, if it has groups and matched, one entry holding one tag-set per match in match order |
| Matcher.Prune | parser.go:107-109 | the pruned forest has every parser, at every depth, within the level |
| Matcher.PruneKeepsPassingForest | parser.go:109 | a forest already within the level loses nothing to pruning |
| Matcher.EntriesIgnoreGatedParsers | parser.go:107-109 | a parser above the level contributes nothing and none of its descendants are consulted: the result equals that of the pruned forest |
| Matcher.MatchEntriesIgnoreGatedParsers | parser.go:129-130 | applying the children on each match text gives the same result as applying their pruned forest |
| Matcher.NoChildrenNoMatchEntries | parser.go:145-151 | a parser without children forwards nothing from its matches |
| Matcher.LeafWithoutGroupsContributesNothing | parser.go:140-155 | a leaf whose expression has no capture group never contributes, however often it matches |
| Matcher.NoTopLevelMatchNoEntries | parser.go:119 | when no top-level expression matches, `ParseText` returns no entries |
| Matcher.SingleMatchEntries | parser.go:115-159 | a parser with one named group that matches once yields its children's entries for the matched text, then one entry with the one tag |
| Merger.MaxDepth | parser.go:172-173 | the length of the longest entry: no entry is longer, and some entry reaches it |
| Merger.GatherGroup | parser.go:171-176 | the loop builds exactly group `index` |
| Merger.GroupMembers | parser.go:171-176 | a tag is in group `index` exactly when it is in the `index`-th tag-set of some entry long enough to have one |
| Merger.GroupAppend | parser.go:172-175 | grouping follows entry order: the group of two runs of entries is the first run's group followed by the second's |
| Merger.GroupPastDepth | parser.go:173 | from the longest entry's length on, every group is empty, which is why `Merge` terminates |
| Merger.Merge | parser.go:170-183 | the recursive method returns exactly `Merged` and terminates on the longest entry's length minus the index |
| Merger.FirstEmptyGroup | parser.go:178 | the first empty group at or after the index: it is empty, no group before it is, and it lies within the longest entry's length |
| Merger.MergedHighestFirst | parser.go:177-182 | `Merge(input, i, acc)` returns `acc` followed by the groups from just below the first empty one down to `i`, highest position first, the empty group not emitted |
| Merger.MergedFullDepth | parser.go:170-183 | with no empty tag-set, merging from 0 yields one group per position of the longest entry, highest position first |
| Merger.MergedSameGroups | parser.go:170-183 | entries whose groups agree at every position merge to the same result |
| Merger.AllEmptyEntryChangesNoMerge | parser.go:171-182 | inserting an entry whose tag-sets are all empty, anywhere among the entries, leaves `Merge`'s result unchanged |
| Merger.UnequalBranches | parser.go:170-183 | entries of one and three tag-sets merge into three groups, highest position first, position 0 joining both entries in entry order |
| Formatter.Format | parser.go:186-217 | one record per tag-set, in order, with the computed label, the given bucket and the tag-set unchanged as properties |
| Formatter.ExtendAllJoins | parser.go:198-207 | appending values to a non-empty label is joining them to it with `_` |
| Formatter.JoinAppend | parser.go:190-197 | joining a list extended by more parts equals joining its joined prefix with those parts |
| Formatter.LabelWithPrefix | parser.go:190-208 | with a non-empty prefix, the label is the prefix parts and the key values all joined with `_` |
| Formatter.DropLeadingEmpty | parser.go:201-202 | the key values without their leading empty ones: a suffix of the input that is empty or starts with a non-empty value |
| Formatter.ExtendEmptyJoins | parser.go:198-207 | appending values to an empty label leaves it empty through the leading empty values, then joins the rest with `_` |
| Formatter.LabelWithoutPrefix | parser.go:190-208 | with an empty prefix, the label is the key values joined with `_` once the leading empty values are dropped |
| Formatter.LabelWithoutPrefixNonEmptyValues | parser.go:190-208 | with an empty prefix and no empty key value, the label is the key values joined with `_` |
| Formatter.LeadingEmptyValueAddsNoSeparator | parser.go:199-206 | with no prefix and key values `""` then `x`, the label is `x`, not `_x` |
| Formatter.ValuesNamedMembers | parser.go:199-206 | a value is appended for a key exactly when some tag with that name carries it |
| Formatter.KeyValuesMembers | parser.go:198-208 | a value enters the label exactly when some tag carrying it is named by some key, not only the first such tag |
| Formatter.EveryMatchingTagIsAppended | parser.go:198-208 | two tags with the key's name both land in the label, in tag order |
| Pipeline.Parse | parser.go:220-225 | the method returns exactly `Records`: `ParseText`, then `Merge` from 0 with an empty accumulator, then `Format` |
| Pipeline.NoTopLevelMatchNoRecords | parser.go:220-225 | a text in which no top-level expression matches yields no records |
| Pipeline.UnnamedOnlyLeafNoRecords | parser.go:115-128 | a lone leaf whose groups are all unnamed yields no records, however often it matches: its empty tag-sets add nothing to any group |
| Pipeline.InterfaceEntries | parser.go:103-167 | an interface pattern at level 0 with a status pattern at level 1 yields the status entry first, then the interface entry |
| Pipeline.InterfaceMerged | parser.go:170-183 | two one-tag-set entries merge into one tag-set, the first entry's tags first |
| Pipeline.InterfaceKeyValues | parser.go:198-206 | the key `interface` picks the interface name out of the merged tag-set |
| Pipeline.InterfaceLabel | parser.go:190-208 | the label of the merged tag-set with prefix `gw1` is `gw1_GigabitEthernet0/0/0` |
| Pipeline.InterfaceStatusRecord | parser.go:220-225 | at level 1 the two-level interface configuration yields exactly one record, labelled `gw1_GigabitEthernet0/0/0` and holding `line_status` then `interface` |

## Left out

- `ReadConfig`, `ReadSchema`, `GetSchema` and the `Schema` struct (`parser.go:11-19`, `48-80`): file reading and JSON decoding are I/O.
- `log.Println` (`parser.go:133`): a logging side effect with no effect on results.
- Regular-expression matching itself: `Regexp.RegexValue` takes the match function as a value. Nothing is stated about leftmost non-overlapping search beyond the shape of its results.
- The panic of `regexp.MustCompile`: modelled as the result `InvalidPattern(pattern)`. The panic message and the unwinding are not modelled.
- Nil `Submatch` fields (`parser.go:90`, `129`, `145`): children are a plain sequence. The nil-dereference panic on a configuration without `submatch` is not modelled.
- Merger.Merge: the index is a `nat`. A negative starting index, and overflow of Go's `int` index, are not modelled. `Parse` always starts at 0, and the index never exceeds the longest entry's length.
- Matcher.ParseText: the loop body for one parser is a separate method, `ParseNode`, with the no-groups branch in `ParseMatches`. The inner loops are `CollectTags` and `AppendNonEmpty`. The order of appends is unchanged.
- Merger.Merge: its gathering loop is the separate method `GatherGroup`.
- `parser_test.go`: it reads an input file that is not part of this model and only checks for a non-empty result.
