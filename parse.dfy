/** `Parse` (parser.go): `ParseText`, then `Merge` from position 0 with an
    empty accumulator, then `Format`. */
module Pipeline {
  import opened Regexp
  import opened Types
  import Matcher
  import Merger
  import Formatter

  /** The records `Parse` returns: one per merged tag-set, in merged order. */
  function Records(text: string, parser: seq<Parser>, level: Int64, node: string, labels: seq<string>, keys: seq<string>): seq<Node> {
    var merged := Merger.Merged(Matcher.Entries(text, parser, level), 0, []);
    seq(|merged|, n requires 0 <= n < |merged| => Node(Formatter.Label(labels, keys, merged[n]), node, merged[n]))
  }

  method Parse(text: string, parser: seq<Parser>, level: Int64, node: string, labels: seq<string>, keys: seq<string>)
    returns (nodes: seq<Node>)
    ensures nodes == Records(text, parser, level, node, labels, keys)
  {
    var input := Matcher.ParseText(text, parser, level);
    var output := Merger.Merge(input, 0, []);
    nodes := Formatter.Format(output, node, labels, keys);
  }

  /** A text in which no top-level expression matches yields no records. */
  lemma NoTopLevelMatchNoRecords(text: string, parser: seq<Parser>, level: Int64, node: string, labels: seq<string>, keys: seq<string>)
    requires forall i :: 0 <= i < |parser| ==> FindAllStringSubmatch(parser[i].regex, text) == []
    ensures Records(text, parser, level, node, labels, keys) == []
  {
    Matcher.NoTopLevelMatchNoEntries(text, parser, level);
    assert Merger.Group([], 0) == [];
  }

  /** A lone leaf whose groups are all unnamed yields no records, however often
      it matches: its one entry holds only empty tag-sets, which add no tag to
      any group, so there is nothing to merge. */
  lemma UnnamedOnlyLeafNoRecords(text: string, p: Parser, level: Int64, node: string, labels: seq<string>, keys: seq<string>)
    requires p.submatch == []
    requires forall j :: 0 <= j < |p.regex.names| ==> p.regex.names[j] == ""
    ensures Records(text, [p], level, node, labels, keys) == []
  {
    var entries := Matcher.Entries(text, [p], level);
    Matcher.EntriesStep(text, [p], level, 0);
    assert [p][..0] == [] && [p][..1] == [p];
    assert entries == Matcher.NodeEntries(text, p, level);
    if p.level <= level {
      var ms := FindAllStringSubmatch(p.regex, text);
      Matcher.NodeEntriesOfGated(text, p, level);
      Matcher.NoChildrenNoMatchEntries(FindAllString(p.regex, text), level);
      if HasGroups(p.regex) && |ms| > 0 {
        var own := Matcher.TagSets(p.regex, ms);
        Matcher.UnnamedGroupsYieldEmptyTagSets(p.regex.names, ms[0]);
        assert entries == [own];
        assert Merger.Group(entries, 0) == Merger.Group([], 0) + own[0] == [];
      }
    }
    assert Merger.Group(entries, 0) == [];
  }

  /** The observable behaviour of the two expressions of a two-level
      configuration: on the device output, the top expression matches one
      interface line and captures the interface name as `interface`; on that
      line, the nested expression captures the line protocol status as
      `line_status`. */
  predicate InterfaceScenario(top: Regex, status: Regex, output: string, line: string, statusText: string) {
    && top.names == ["", "interface"]
    && top.find(output) == [[line, "GigabitEthernet0/0/0"]]
    && status.names == ["", "line_status"]
    && status.find(line) == [[statusText, "down"]]
  }

  lemma InterfaceEntries(top: Regex, status: Regex, output: string, line: string, statusText: string)
    requires InterfaceScenario(top, status, output, line, statusText)
    ensures Matcher.Entries(output, [Parser(top, 0, [Parser(status, 1, [])])], 1)
      == [[[Tag("line_status", "down")]], [[Tag("interface", "GigabitEthernet0/0/0")]]]
  {
    var child := Parser(status, 1, []);
    Matcher.SingleMatchEntries(line, child, 1, "line_status", statusText, "down");
    assert Matcher.Entries(statusText, [], 1) == [];
    Matcher.SingleMatchEntries(output, Parser(top, 0, [child]), 1, "interface", line, "GigabitEthernet0/0/0");
  }

  lemma InterfaceMerged(statusTags: TagSet, interfaceTags: TagSet)
    requires statusTags != [] && interfaceTags != []
    ensures Merger.Merged([[statusTags], [interfaceTags]], 0, []) == [statusTags + interfaceTags]
  {
    var entries := [[statusTags], [interfaceTags]];
    Merger.GroupOfPair([statusTags], [interfaceTags], 0);
    Merger.GroupOfPair([statusTags], [interfaceTags], 1);
  }

  lemma InterfaceKeyValues()
    ensures Formatter.KeyValues(["interface"], [Tag("line_status", "down"), Tag("interface", "GigabitEthernet0/0/0")])
      == ["GigabitEthernet0/0/0"]
  {
    var tags := [Tag("line_status", "down"), Tag("interface", "GigabitEthernet0/0/0")];
    assert tags[..1] == [Tag("line_status", "down")] && tags[..1][..0] == [];
    assert Formatter.ValuesNamed("interface", tags[..1]) == [];
    assert ["interface"][..0] == [];
  }

  lemma InterfaceLabel()
    ensures Formatter.Label(["gw1"], ["interface"], [Tag("line_status", "down"), Tag("interface", "GigabitEthernet0/0/0")])
      == "gw1_GigabitEthernet0/0/0"
  {
    InterfaceKeyValues();
    assert Formatter.Join(["gw1"]) == "gw1";
    assert ["GigabitEthernet0/0/0"][..0] == [];
  }

  lemma SingleRecord(text: string, parser: seq<Parser>, level: Int64, node: string, labels: seq<string>, keys: seq<string>, tags: TagSet)
    requires Merger.Merged(Matcher.Entries(text, parser, level), 0, []) == [tags]
    ensures Records(text, parser, level, node, labels, keys) == [Node(Formatter.Label(labels, keys, tags), node, tags)]
  {
  }

  /** A level-0 interface pattern with a level-1 status pattern beneath it,
      applied at level 1 with prefix `gw1` and key `interface`: one record,
      labelled by the device and the interface, holding both tags (the nested
      one first). */
  lemma InterfaceStatusRecord(top: Regex, status: Regex, output: string, line: string, statusText: string, bucket: string)
    requires InterfaceScenario(top, status, output, line, statusText)
    ensures Records(output, [Parser(top, 0, [Parser(status, 1, [])])], 1, bucket, ["gw1"], ["interface"])
      == [Node("gw1_GigabitEthernet0/0/0", bucket,
               [Tag("line_status", "down"), Tag("interface", "GigabitEthernet0/0/0")])]
  {
    var parsers := [Parser(top, 0, [Parser(status, 1, [])])];
    var statusTags, interfaceTags := [Tag("line_status", "down")], [Tag("interface", "GigabitEthernet0/0/0")];
    InterfaceEntries(top, status, output, line, statusText);
    InterfaceMerged(statusTags, interfaceTags);
    assert statusTags + interfaceTags == [Tag("line_status", "down"), Tag("interface", "GigabitEthernet0/0/0")];
    SingleRecord(output, parsers, 1, bucket, ["gw1"], ["interface"], statusTags + interfaceTags);
    InterfaceLabel();
  }
}
