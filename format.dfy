/** `Format` (parser.go): turns each merged tag-set into an output record.

    The label starts as the label parts joined with "_"; then, key by key and
    tag by tag, the value of every tag whose name is the key is appended, after
    a "_" unless the label is still empty. */
module Formatter {
  import opened Types

  /** `parts` joined with "_". */
  function Join(parts: seq<string>): string {
    if parts == [] then ""
    else if |parts| == 1 then parts[0]
    else Join(parts[..|parts| - 1]) + "_" + parts[|parts| - 1]
  }

  /** One key value appended to a label under construction. */
  function Extend(current: string, value: string): string {
    if |current| == 0 then current + value else current + "_" + value
  }

  /** `values` appended to `current` one after the other. */
  function ExtendAll(current: string, values: seq<string>): string {
    if values == [] then current
    else Extend(ExtendAll(current, values[..|values| - 1]), values[|values| - 1])
  }

  /** The values of the tags named `key`, in tag order. */
  function ValuesNamed(key: string, tags: TagSet): seq<string> {
    if tags == [] then []
    else
      var last := tags[|tags| - 1];
      ValuesNamed(key, tags[..|tags| - 1]) + (if last.name == key then [last.value] else [])
  }

  /** The values appended to a label: for each key in turn, the values of the
      tags with that name. */
  function KeyValues(keys: seq<string>, tags: TagSet): seq<string> {
    if keys == [] then []
    else KeyValues(keys[..|keys| - 1], tags) + ValuesNamed(keys[|keys| - 1], tags)
  }

  /** The label `Format` builds for one tag-set. */
  function Label(labels: seq<string>, keys: seq<string>, tags: TagSet): string {
    ExtendAll(Join(labels), KeyValues(keys, tags))
  }

  method Format(input: seq<TagSet>, node: string, labels: seq<string>, keys: seq<string>) returns (nodes: seq<Node>)
    ensures |nodes| == |input|
    ensures forall n :: 0 <= n < |input| ==> nodes[n] == Node(Label(labels, keys, input[n]), node, input[n])
  {
    nodes := [];
    for n := 0 to |input|
      invariant |nodes| == n
      invariant forall k :: 0 <= k < n ==> nodes[k] == Node(Label(labels, keys, input[k]), node, input[k])
    {
      var current := "";
      for i := 0 to |labels|
        invariant current == Join(labels[..i])
      {
        assert labels[..i + 1][..i] == labels[..i];
        if i == 0 {
          current := current + labels[i];
        } else {
          current := current + "_" + labels[i];
        }
      }
      assert labels[..|labels|] == labels;
      for j := 0 to |keys|
        invariant current == ExtendAll(Join(labels), KeyValues(keys[..j], input[n]))
      {
        assert keys[..j + 1][..j] == keys[..j];
        ghost var done := KeyValues(keys[..j], input[n]);
        assert input[n][..0] == [] && done + [] == done;
        for m := 0 to |input[n]|
          invariant current == ExtendAll(Join(labels), done + ValuesNamed(keys[j], input[n][..m]))
        {
          ghost var before := done + ValuesNamed(keys[j], input[n][..m]);
          assert input[n][..m + 1][..m] == input[n][..m];
          if keys[j] == input[n][m].name {
            assert (before + [input[n][m].value])[..|before|] == before;
            assert done + ValuesNamed(keys[j], input[n][..m + 1]) == before + [input[n][m].value];
            if |current| == 0 {
              current := current + input[n][m].value;
            } else {
              current := current + "_" + input[n][m].value;
            }
          } else {
            assert done + ValuesNamed(keys[j], input[n][..m + 1]) == before;
          }
        }
        assert input[n][..|input[n]|] == input[n];
        assert done + ValuesNamed(keys[j], input[n]) == KeyValues(keys[..j + 1], input[n]);
      }
      assert keys[..|keys|] == keys;
      nodes := nodes + [Node(current, node, input[n])];
    }
  }

  lemma {:induction false} ExtendAllJoins(current: string, values: seq<string>)
    requires current != ""
    ensures ExtendAll(current, values) == Join([current] + values)
    decreases values
  {
    if values != [] {
      var prefix := values[..|values| - 1];
      ExtendAllJoins(current, prefix);
      assert ([current] + values)[..|values|] == [current] + prefix;
    }
  }

  lemma {:induction false} JoinAppend(parts: seq<string>, values: seq<string>)
    requires parts != []
    ensures Join(parts + values) == Join([Join(parts)] + values)
    decreases values
  {
    if values == [] {
      assert parts + values == parts;
    } else {
      var prefix := values[..|values| - 1];
      JoinAppend(parts, prefix);
      assert (parts + values)[..|parts + values| - 1] == parts + prefix;
      assert ([Join(parts)] + values)[..|values|] == [Join(parts)] + prefix;
    }
  }

  /** With a non-empty prefix, the label is the prefix parts and the key values
      all joined with "_". */
  lemma LabelWithPrefix(labels: seq<string>, keys: seq<string>, tags: TagSet)
    requires Join(labels) != ""
    ensures Label(labels, keys, tags) == Join(labels + KeyValues(keys, tags))
  {
    ExtendAllJoins(Join(labels), KeyValues(keys, tags));
    JoinAppend(labels, KeyValues(keys, tags));
  }

  /** `values` without its leading empty strings. */
  function DropLeadingEmpty(values: seq<string>): (r: seq<string>)
    ensures r == [] || r[0] != ""
    ensures |r| <= |values| && r == values[|values| - |r|..]
  {
    if values == [] then []
    else if values[0] == "" then DropLeadingEmpty(values[1..])
    else values
  }

  lemma {:induction false} DropLeadingEmptyAppend(values: seq<string>, v: string)
    ensures DropLeadingEmpty(values + [v]) ==
      if DropLeadingEmpty(values) == [] then (if v == "" then [] else [v])
      else DropLeadingEmpty(values) + [v]
    decreases values
  {
    if values == [] {
      assert values + [v] == [v] && [v][1..] == [];
    } else {
      assert (values + [v])[0] == values[0];
      assert (values + [v])[1..] == values[1..] + [v];
      DropLeadingEmptyAppend(values[1..], v);
    }
  }

  /** Key values appended to an empty label: the leading empty values leave it
      empty, and from the first non-empty one on they are joined with "_". */
  lemma {:induction false} ExtendEmptyJoins(values: seq<string>)
    ensures ExtendAll("", values) == Join(DropLeadingEmpty(values))
    decreases values
  {
    if values != [] {
      var prefix, last := values[..|values| - 1], values[|values| - 1];
      ExtendEmptyJoins(prefix);
      assert prefix + [last] == values;
      DropLeadingEmptyAppend(prefix, last);
      var kept := DropLeadingEmpty(prefix);
      if kept != [] {
        assert Join(kept) != "" by {
          if |kept| == 1 { assert Join(kept) == kept[0]; }
        }
        assert (kept + [last])[..|kept|] == kept;
      }
    }
  }

  /** With an empty prefix, the label is the key values joined with "_", once
      the leading empty values are dropped: while the label is still empty,
      `Format` adds no separator. */
  lemma LabelWithoutPrefix(labels: seq<string>, keys: seq<string>, tags: TagSet)
    requires Join(labels) == ""
    ensures Label(labels, keys, tags) == Join(DropLeadingEmpty(KeyValues(keys, tags)))
  {
    ExtendEmptyJoins(KeyValues(keys, tags));
  }

  /** With an empty prefix and no empty key value, the label is the key values
      joined with "_". */
  lemma LabelWithoutPrefixNonEmptyValues(labels: seq<string>, keys: seq<string>, tags: TagSet)
    requires Join(labels) == ""
    requires forall i :: 0 <= i < |KeyValues(keys, tags)| ==> KeyValues(keys, tags)[i] != ""
    ensures Label(labels, keys, tags) == Join(KeyValues(keys, tags))
  {
    LabelWithoutPrefix(labels, keys, tags);
    var values := KeyValues(keys, tags);
    assert DropLeadingEmpty(values) == values by {
      if values != [] { assert values[0] != ""; }
    }
  }

  /** No prefix, and the first tag named by the key has an empty value: the
      label starts at the second value, without a leading "_". */
  lemma LeadingEmptyValueAddsNoSeparator()
    ensures Label([], ["k"], [Tag("k", ""), Tag("k", "x")]) == "x"
  {
    var tags := [Tag("k", ""), Tag("k", "x")];
    assert tags[..1] == [Tag("k", "")] && tags[..1][..0] == [];
    assert ValuesNamed("k", tags) == ["", "x"];
    assert ["k"][..0] == [];
    assert KeyValues(["k"], tags) == ["", "x"];
    LabelWithoutPrefix([], ["k"], tags);
    assert ["", "x"][1..] == ["x"];
    assert DropLeadingEmpty(["", "x"]) == ["x"];
  }

  lemma {:induction false} ValuesNamedMembers(key: string, tags: TagSet, v: string)
    ensures v in ValuesNamed(key, tags) <==> exists t :: t in tags && t.name == key && t.value == v
    decreases tags
  {
    if tags != [] {
      var prefix := tags[..|tags| - 1];
      ValuesNamedMembers(key, prefix, v);
      assert forall t :: t in tags <==> t in prefix || t == tags[|tags| - 1];
    }
  }

  /** A value goes into the label exactly when some tag carrying it is named by
      some key: every such tag counts, not only the first one per key. */
  lemma {:induction false} KeyValuesMembers(keys: seq<string>, tags: TagSet, v: string)
    ensures v in KeyValues(keys, tags) <==> exists t :: t in tags && t.name in keys && t.value == v
    decreases keys
  {
    if keys != [] {
      var prefix, key := keys[..|keys| - 1], keys[|keys| - 1];
      KeyValuesMembers(prefix, tags, v);
      ValuesNamedMembers(key, tags, v);
      assert forall k :: k in keys <==> k in prefix || k == key;
    }
  }

  /** Two tags share a key's name: both values are appended, in tag order. */
  lemma EveryMatchingTagIsAppended()
    ensures Label(["gw1"], ["interface"], [Tag("interface", "Gi0/0"), Tag("interface", "Gi0/1")])
      == "gw1_Gi0/0_Gi0/1"
  {
    var tags := [Tag("interface", "Gi0/0"), Tag("interface", "Gi0/1")];
    assert tags[..1] == [Tag("interface", "Gi0/0")];
    assert ValuesNamed("interface", tags) == ["Gi0/0", "Gi0/1"];
    assert ["interface"][..0] == [];
    assert KeyValues(["interface"], tags) == ["Gi0/0", "Gi0/1"];
    LabelWithPrefix(["gw1"], ["interface"], tags);
    var parts := ["gw1", "Gi0/0", "Gi0/1"];
    assert ["gw1"] + ["Gi0/0", "Gi0/1"] == parts;
    assert parts[..2] == ["gw1", "Gi0/0"] && parts[..2][..1] == ["gw1"];
    assert Join(parts[..2]) == "gw1_Gi0/0";
  }
}
