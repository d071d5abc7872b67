/** `ParseText` (parser.go): applies a compiled forest to a text.

    Each parser whose level passes the gate contributes, in forest order, the
    entries found by applying its children to the text of each of its matches,
    then (when its expression has capture groups and matched at least once) one
    entry of its own holding one tag-set per match. */
module Matcher {
  import opened Regexp
  import opened Types

  /** The tags of one match `m` of an expression whose groups are `names`:
      one tag per named group, in declaration order. */
  function TagSetOf(names: seq<string>, m: seq<string>): TagSet
    requires |names| <= |m|
  {
    if names == [] then []
    else
      var j := |names| - 1;
      TagSetOf(names[..j], m) + (if names[j] != "" then [Tag(names[j], m[j])] else [])
  }

  /** The tag-sets of a node: one per match, in match order. */
  function TagSets(r: Regex, ms: seq<seq<string>>): (sets: seq<TagSet>)
    requires forall i :: 0 <= i < |ms| ==> |ms[i]| == |r.names|
  {
    seq(|ms|, i requires 0 <= i < |ms| => TagSetOf(r.names, ms[i]))
  }

  /** The entries of `results` that are not empty, in order. */
  function NonEmptyOnly(results: seq<Entry>): (r: seq<Entry>)
    ensures forall e :: e in r ==> e != [] && e in results
    ensures forall e :: e in results && e != [] ==> e in r
  {
    if results == [] then []
    else
      var last := results[|results| - 1];
      var r := NonEmptyOnly(results[..|results| - 1]) + (if last != [] then [last] else []);
      assert forall e :: e in results ==> e in results[..|results| - 1] || e == last;
      r
  }

  /** What `ParseText(text, parsers, level)` returns. Every entry it holds is
      non-empty. */
  function Entries(text: string, parsers: seq<Parser>, level: Int64): (r: seq<Entry>)
    ensures forall e :: e in r ==> e != []
    decreases parsers, 0
  {
    if parsers == [] then []
    else Entries(text, parsers[..|parsers| - 1], level) + NodeEntries(text, parsers[|parsers| - 1], level)
  }

  /** What one parser of the forest adds to the output. */
  function NodeEntries(text: string, p: Parser, level: Int64): (r: seq<Entry>)
    ensures forall e :: e in r ==> e != []
    decreases p.submatch, 2
  {
    if p.level > level then []
    else
      var ms := FindAllStringSubmatch(p.regex, text);
      MatchEntries(FindAllString(p.regex, text), p.submatch, level)
        + (if HasGroups(p.regex) && |ms| > 0 then [TagSets(p.regex, ms)] else [])
  }

  /** The entries the children add for each match text, match by match. */
  function MatchEntries(texts: seq<string>, children: seq<Parser>, level: Int64): (r: seq<Entry>)
    ensures forall e :: e in r ==> e != []
    decreases children, 1, |texts|
  {
    if texts == [] then []
    else
      MatchEntries(texts[..|texts| - 1], children, level)
        + NonEmptyOnly(Entries(texts[|texts| - 1], children, level))
  }

  /** The inner loop of `ParseText` over a match's group names. */
  method CollectTags(names: seq<string>, m: seq<string>) returns (tags: TagSet)
    requires |names| <= |m|
    ensures tags == TagSetOf(names, m)
  {
    tags := [];
    for j := 0 to |names|
      invariant tags == TagSetOf(names[..j], m)
    {
      assert names[..j + 1][..j] == names[..j];
      if names[j] != "" {
        tags := tags + [Tag(names[j], m[j])];
      }
    }
    assert names[..|names|] == names;
  }

  /** The inner loop of `ParseText` that copies a recursive result's non-empty
      entries to the output. */
  method AppendNonEmpty(output: seq<Entry>, result: seq<Entry>) returns (extended: seq<Entry>)
    ensures extended == output + NonEmptyOnly(result)
  {
    extended := output;
    for j := 0 to |result|
      invariant extended == output + NonEmptyOnly(result[..j])
    {
      assert result[..j + 1][..j] == result[..j];
      if |result[j]| > 0 {
        extended := extended + [result[j]];
      }
    }
    assert result[..|result|] == result;
  }

  lemma TagSetsStep(r: Regex, ms: seq<seq<string>>, i: nat)
    requires i < |ms|
    requires forall k :: 0 <= k < |ms| ==> |ms[k]| == |r.names|
    ensures TagSets(r, ms[..i + 1]) == TagSets(r, ms[..i]) + [TagSetOf(r.names, ms[i])]
  {
    assert TagSets(r, ms[..i + 1])[i] == TagSetOf(r.names, ms[i]);
  }

  lemma MatchEntriesStep(texts: seq<string>, children: seq<Parser>, level: Int64, i: nat)
    requires i < |texts|
    ensures MatchEntries(texts[..i + 1], children, level)
      == MatchEntries(texts[..i], children, level) + NonEmptyOnly(Entries(texts[i], children, level))
  {
    assert texts[..i + 1][..i] == texts[..i];
  }

  lemma EntriesStep(text: string, parsers: seq<Parser>, level: Int64, n: nat)
    requires n < |parsers|
    ensures Entries(text, parsers[..n + 1], level)
      == Entries(text, parsers[..n], level) + NodeEntries(text, parsers[n], level)
  {
    assert parsers[..n + 1][..n] == parsers[..n];
  }

  lemma NodeEntriesOfGated(text: string, p: Parser, level: Int64)
    requires p.level <= level
    ensures NodeEntries(text, p, level) ==
      MatchEntries(FindAllString(p.regex, text), p.submatch, level)
        + (if HasGroups(p.regex) && |FindAllStringSubmatch(p.regex, text)| > 0
           then [TagSets(p.regex, FindAllStringSubmatch(p.regex, text))] else [])
  {
  }

  /** `ParseText` over a forest: each parser's contribution in forest order. */
  method ParseText(text: string, parser: seq<Parser>, level: Int64) returns (output: seq<Entry>)
    ensures output == Entries(text, parser, level)
    decreases parser, 0
  {
    output := [];
    for n := 0 to |parser|
      invariant output == Entries(text, parser[..n], level)
    {
      if parser[n].level <= level {
        var entries := ParseNode(text, parser[n], level);
        output := output + entries;
      }
      EntriesStep(text, parser, level, n);
    }
    assert parser[..|parser|] == parser;
  }

  /** The branch of `ParseText` for an expression without capture groups: the
      children are applied to the text of each match in turn. */
  method ParseMatches(response: seq<string>, submatch: seq<Parser>, level: Int64) returns (output: seq<Entry>)
    ensures output == MatchEntries(response, submatch, level)
    decreases submatch, 1
  {
    output := [];
    for i := 0 to |response|
      invariant output == MatchEntries(response[..i], submatch, level)
    {
      var result := ParseText(response[i], submatch, level);
      MatchEntriesStep(response, submatch, level, i);
      output := AppendNonEmpty(output, result);
    }
    assert response[..|response|] == response;
  }

  /** The body of `ParseText`'s loop for one parser that passes the level
      gate. */
  method ParseNode(text: string, p: Parser, level: Int64) returns (output: seq<Entry>)
    requires p.level <= level
    ensures output == NodeEntries(text, p, level)
    decreases p.submatch, 2
  {
    output := [];
    ghost var texts := FindAllString(p.regex, text);
    var search: seq<TagSet> := [];
    var r := p.regex;
    if |r.names| > 1 {
      var response := FindAllStringSubmatch(r, text);
      if |response| > 0 {
        for i := 0 to |response|
          invariant search == TagSets(r, response[..i])
          invariant output == MatchEntries(texts[..i], p.submatch, level)
        {
          var tags := CollectTags(r.names, response[i]);
          TagSetsStep(r, response, i);
          search := search + [tags];
          var submatch := p.submatch;
          var result := ParseText(response[i][0], submatch, level);
          MatchEntriesStep(texts, submatch, level, i);
          output := AppendNonEmpty(output, result);
        }
        assert response[..|response|] == response;
        assert texts[..|response|] == texts;
      }
      assert output == MatchEntries(texts, p.submatch, level);
      assert search == (if |response| > 0 then TagSets(r, response) else []);
    } else {
      var response := FindAllString(r, text);
      output := ParseMatches(response, p.submatch, level);
    }
    if |search| > 0 {
      output := output + [search];
    }
    NodeEntriesOfGated(text, p, level);
  }

  /** The positions of the named groups in `names`, in increasing order. */
  function NamedIndices(names: seq<string>): (r: seq<nat>)
    ensures forall k :: 0 <= k < |r| ==> r[k] < |names| && names[r[k]] != ""
    ensures forall k, l :: 0 <= k < l < |r| ==> r[k] < r[l]
    ensures forall j :: 0 <= j < |names| && names[j] != "" ==> j in r
  {
    if names == [] then []
    else
      var j := |names| - 1;
      var prefix := NamedIndices(names[..j]);
      assert forall k :: 0 <= k < |prefix| ==> names[prefix[k]] == names[..j][prefix[k]];
      prefix + (if names[j] != "" then [j] else [])
  }

  /** A match yields one tag per named group, in declaration order, carrying
      that group's text; unnamed groups yield nothing. */
  lemma {:induction false} TagSetOfNamedGroups(names: seq<string>, m: seq<string>)
    requires |names| <= |m|
    ensures var tags, idx := TagSetOf(names, m), NamedIndices(names);
      |tags| == |idx| && forall k :: 0 <= k < |tags| ==> tags[k] == Tag(names[idx[k]], m[idx[k]])
  {
    if names != [] {
      var j := |names| - 1;
      TagSetOfNamedGroups(names[..j], m);
      var idx := NamedIndices(names[..j]);
      assert forall k :: 0 <= k < |idx| ==> names[idx[k]] == names[..j][idx[k]];
    }
  }

  /** Dropping the empty entries changes nothing when there are none. */
  lemma {:induction false} NonEmptyOnlyKeepsAll(results: seq<Entry>)
    requires forall e :: e in results ==> e != []
    ensures NonEmptyOnly(results) == results
  {
    if results != [] {
      var prefix, last := results[..|results| - 1], results[|results| - 1];
      assert forall e :: e in prefix ==> e in results;
      NonEmptyOnlyKeepsAll(prefix);
      assert last in results;
      assert results == prefix + [last];
    }
  }

  /** The lists of `lists`, one after the other. */
  function Concat<T>(lists: seq<seq<T>>): seq<T> {
    if lists == [] then [] else Concat(lists[..|lists| - 1]) + lists[|lists| - 1]
  }

  /** What the children yield on each of `texts`, one list per text. */
  function PerMatch(texts: seq<string>, children: seq<Parser>, level: Int64): seq<seq<Entry>> {
    seq(|texts|, i requires 0 <= i < |texts| => Entries(texts[i], children, level))
  }

  /** The children's entries come match by match: those found in the first
      match's text, then those of the second, and so on. */
  lemma {:induction false} MatchEntriesByMatch(texts: seq<string>, children: seq<Parser>, level: Int64)
    ensures MatchEntries(texts, children, level) == Concat(PerMatch(texts, children, level))
  {
    if texts != [] {
      var prefix := texts[..|texts| - 1];
      MatchEntriesByMatch(prefix, children, level);
      NonEmptyOnlyKeepsAll(Entries(texts[|texts| - 1], children, level));
      assert PerMatch(texts, children, level)[..|prefix|] == PerMatch(prefix, children, level);
    }
  }

  /** The output order for one parser that passes the gate: first everything
      its children find in each match (match by match), then, if its
      expression has capture groups and matched, one entry with one tag-set per
      match in match order. */
  lemma NodeEntriesOrder(text: string, p: Parser, level: Int64)
    requires p.level <= level
    ensures var ms := FindAllStringSubmatch(p.regex, text);
      NodeEntries(text, p, level) ==
        Concat(PerMatch(FindAllString(p.regex, text), p.submatch, level))
          + (if HasGroups(p.regex) && |ms| > 0
             then [seq(|ms|, i requires 0 <= i < |ms| => TagSetOf(p.regex.names, ms[i]))]
             else [])
  {
    MatchEntriesByMatch(FindAllString(p.regex, text), p.submatch, level);
  }

  /** Every parser of a forest, at every depth, passes the level gate. */
  predicate WithinLevel(parsers: seq<Parser>, level: Int64)
    decreases parsers
  {
    forall i :: 0 <= i < |parsers| ==> parsers[i].level <= level && WithinLevel(parsers[i].submatch, level)
  }

  /** The forest without the parsers that fail the level gate, each removed
      with its whole sub-tree. */
  function Prune(parsers: seq<Parser>, level: Int64): (r: seq<Parser>)
    ensures WithinLevel(r, level)
    decreases parsers
  {
    if parsers == [] then []
    else
      var prefix, last := Prune(parsers[..|parsers| - 1], level), parsers[|parsers| - 1];
      if last.level <= level then
        var r := prefix + [Parser(last.regex, last.level, Prune(last.submatch, level))];
        assert forall i :: 0 <= i < |prefix| ==> r[i] == prefix[i];
        r
      else prefix
  }

  /** A forest whose parsers all pass the gate loses nothing to `Prune`. */
  lemma {:induction false} PruneKeepsPassingForest(parsers: seq<Parser>, level: Int64)
    requires WithinLevel(parsers, level)
    ensures Prune(parsers, level) == parsers
    decreases parsers
  {
    if parsers != [] {
      var prefix, last := parsers[..|parsers| - 1], parsers[|parsers| - 1];
      assert forall i :: 0 <= i < |prefix| ==> prefix[i] == parsers[i];
      assert WithinLevel(prefix, level);
      assert last.level <= level && WithinLevel(last.submatch, level);
      PruneKeepsPassingForest(prefix, level);
      PruneKeepsPassingForest(last.submatch, level);
      assert parsers == prefix + [Parser(last.regex, last.level, last.submatch)];
    }
  }

  /** A parser above the level contributes nothing and none of its descendants
      are consulted, whatever their levels: `ParseText` yields the same on the
      pruned forest. */
  lemma {:induction false} EntriesIgnoreGatedParsers(text: string, parsers: seq<Parser>, level: Int64)
    ensures Entries(text, parsers, level) == Entries(text, Prune(parsers, level), level)
    decreases parsers, 0
  {
    if parsers != [] {
      var prefix, last := parsers[..|parsers| - 1], parsers[|parsers| - 1];
      var pruned := Prune(prefix, level);
      EntriesIgnoreGatedParsers(text, prefix, level);
      if last.level <= level {
        var kept := Parser(last.regex, last.level, Prune(last.submatch, level));
        assert Prune(parsers, level) == pruned + [kept];
        assert (pruned + [kept])[..|pruned|] == pruned;
        MatchEntriesIgnoreGatedParsers(FindAllString(last.regex, text), last.submatch, level);
        assert NodeEntries(text, last, level) == NodeEntries(text, kept, level);
      }
    }
  }

  lemma {:induction false} MatchEntriesIgnoreGatedParsers(texts: seq<string>, children: seq<Parser>, level: Int64)
    ensures MatchEntries(texts, children, level) == MatchEntries(texts, Prune(children, level), level)
    decreases children, 1, |texts|
  {
    if texts != [] {
      MatchEntriesIgnoreGatedParsers(texts[..|texts| - 1], children, level);
      EntriesIgnoreGatedParsers(texts[|texts| - 1], children, level);
    }
  }

  lemma {:induction false} NoChildrenNoMatchEntries(texts: seq<string>, level: Int64)
    ensures MatchEntries(texts, [], level) == []
  {
    if texts != [] {
      NoChildrenNoMatchEntries(texts[..|texts| - 1], level);
    }
  }

  /** A leaf whose expression has no capture group never contributes, however
      often it matches. */
  lemma LeafWithoutGroupsContributesNothing(text: string, p: Parser, level: Int64)
    requires p.submatch == [] && !HasGroups(p.regex)
    ensures NodeEntries(text, p, level) == []
  {
    NoChildrenNoMatchEntries(FindAllString(p.regex, text), level);
  }

  /** A text in which no top-level expression matches yields no entries. */
  lemma {:induction false} NoTopLevelMatchNoEntries(text: string, parsers: seq<Parser>, level: Int64)
    requires forall i :: 0 <= i < |parsers| ==> FindAllStringSubmatch(parsers[i].regex, text) == []
    ensures Entries(text, parsers, level) == []
  {
    if parsers != [] {
      var prefix := parsers[..|parsers| - 1];
      assert forall i :: 0 <= i < |prefix| ==> prefix[i] == parsers[i];
      NoTopLevelMatchNoEntries(text, prefix, level);
      var last := parsers[|parsers| - 1];
      assert FindAllString(last.regex, text) == [];
      if last.level <= level {
        NodeEntriesOfGated(text, last, level);
        assert MatchEntries([], last.submatch, level) == [];
      }
      assert NodeEntries(text, last, level) == [];
    }
  }

  /** An expression whose groups are all unnamed still counts as having groups:
      each match yields an empty tag-set. */
  lemma {:induction false} UnnamedGroupsYieldEmptyTagSets(names: seq<string>, m: seq<string>)
    requires |names| <= |m|
    requires forall j :: 0 <= j < |names| ==> names[j] == ""
    ensures TagSetOf(names, m) == []
  {
    if names != [] {
      UnnamedGroupsYieldEmptyTagSets(names[..|names| - 1], m);
    }
  }

  /** A parser whose expression has one named group and matches once: the
      children's entries for the matched text, then one entry holding the one
      tag. */
  lemma SingleMatchEntries(text: string, p: Parser, level: Int64, name: string, whole: string, value: string)
    requires p.level <= level && name != ""
    requires p.regex.names == ["", name] && p.regex.find(text) == [[whole, value]]
    ensures Entries(text, [p], level) == Entries(whole, p.submatch, level) + [[[Tag(name, value)]]]
  {
    var m := [whole, value];
    assert p.regex.names[..1] == [""] && [""][..0] == [];
    assert TagSetOf([""], m) == TagSetOf([], m) == [];
    assert TagSetOf(p.regex.names, m) == [Tag(name, value)];
    assert TagSets(p.regex, [m]) == [[Tag(name, value)]];
    assert FindAllString(p.regex, text) == [whole];
    assert [whole][..0] == [];
    NonEmptyOnlyKeepsAll(Entries(whole, p.submatch, level));
    assert MatchEntries([whole], p.submatch, level) == Entries(whole, p.submatch, level);
    NodeEntriesOfGated(text, p, level);
    assert [p][..0] == [];
    assert Entries(text, [p], level) == Entries(text, [], level) + NodeEntries(text, p, level);
  }
}
