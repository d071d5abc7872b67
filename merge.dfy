/** `Merge` (parser.go): regroups the entries of `ParseText` by position.

    Group `i` concatenates, in entry order, the `i`-th tag-set of every entry
    that has one. `Merge` emits the groups at higher positions before group `i` and stops at
    the first empty group. */
module Merger {
  import opened Types

  /** The length of the longest entry. */
  function MaxDepth(input: seq<Entry>): (d: nat)
    ensures forall n :: 0 <= n < |input| ==> |input[n]| <= d
    ensures input != [] ==> exists n :: 0 <= n < |input| && |input[n]| == d
    ensures input == [] ==> d == 0
  {
    if input == [] then 0
    else
      var prefix, last := input[..|input| - 1], input[|input| - 1];
      var d := MaxDepth(prefix);
      assert forall n :: 0 <= n < |prefix| ==> input[n] == prefix[n];
      if |last| > d then |last| else d
  }

  /** Group `index`: the `index`-th tag-sets of the entries long enough to have
      one, concatenated in entry order. */
  function Group(input: seq<Entry>, index: nat): TagSet {
    if input == [] then []
    else
      var prefix, last := input[..|input| - 1], input[|input| - 1];
      Group(prefix, index) + (if |last| > index then last[index] else [])
  }

  /** No entry reaches past `MaxDepth`, so the groups from there on are empty:
      this is what makes `Merge` stop. */
  lemma {:induction false} GroupPastDepth(input: seq<Entry>, index: nat)
    ensures index >= MaxDepth(input) ==> Group(input, index) == []
  {
    if input != [] {
      var prefix := input[..|input| - 1];
      GroupPastDepth(prefix, index);
      assert forall n :: 0 <= n < |prefix| ==> input[n] == prefix[n];
    }
  }

  /** What `Merge(input, index, output)` returns. */
  function Merged(input: seq<Entry>, index: nat, output: seq<TagSet>): seq<TagSet>
    decreases MaxDepth(input) - index
  {
    GroupPastDepth(input, index);
    var tag := Group(input, index);
    if |tag| > 0 then Merged(input, index + 1, output) + [tag] else output
  }

  method Merge(input: seq<Entry>, index: nat, output: seq<TagSet>) returns (merged: seq<TagSet>)
    ensures merged == Merged(input, index, output)
    decreases MaxDepth(input) - index
  {
    var tag := GatherGroup(input, index);
    GroupPastDepth(input, index);
    merged := output;
    if |tag| > 0 {
      merged := Merge(input, index + 1, merged);
      merged := merged + [tag];
    }
  }

  /** The loop of `Merge` that gathers group `index`. */
  method GatherGroup(input: seq<Entry>, index: nat) returns (tag: TagSet)
    ensures tag == Group(input, index)
  {
    tag := [];
    for n := 0 to |input|
      invariant tag == Group(input[..n], index)
    {
      assert input[..n + 1][..n] == input[..n];
      if |input[n]| > index {
        tag := tag + input[n][index];
      }
    }
    assert input[..|input|] == input;
  }

  /** A tag belongs to group `index` exactly when it belongs to the
      `index`-th tag-set of some entry. */
  lemma {:induction false} GroupMembers(input: seq<Entry>, index: nat, t: Tag)
    ensures t in Group(input, index) <==>
      exists n :: 0 <= n < |input| && index < |input[n]| && t in input[n][index]
  {
    if input != [] {
      var prefix := input[..|input| - 1];
      GroupMembers(prefix, index, t);
      assert forall n :: 0 <= n < |prefix| ==> input[n] == prefix[n];
    }
  }

  /** Grouping follows branch order: the group of two runs of entries is the
      first run's group followed by the second's. */
  lemma {:induction false} GroupAppend(a: seq<Entry>, b: seq<Entry>, index: nat)
    ensures Group(a + b, index) == Group(a, index) + Group(b, index)
    decreases b
  {
    if b != [] {
      var prefix := b[..|b| - 1];
      GroupAppend(a, prefix, index);
      assert (a + b)[..|a + b| - 1] == a + prefix;
      GroupLast(a + b, index);
      GroupLast(b, index);
    } else {
      assert a + b == a;
    }
  }

  lemma GroupLast(input: seq<Entry>, index: nat)
    requires input != []
    ensures var last := input[|input| - 1];
      Group(input, index) == Group(input[..|input| - 1], index) + (if |last| > index then last[index] else [])
  {
  }

  /** The first empty group at or after `index`: `Merge` stops there. */
  function FirstEmptyGroup(input: seq<Entry>, index: nat): (d: nat)
    ensures index <= d
    ensures d <= index || d <= MaxDepth(input)
    ensures Group(input, d) == []
    ensures forall j :: index <= j < d ==> Group(input, j) != []
    decreases MaxDepth(input) - index
  {
    GroupPastDepth(input, index);
    if Group(input, index) == [] then index else FirstEmptyGroup(input, index + 1)
  }

  /** `Merge` returns `output` followed by the groups from the first empty one
      back down to `index`: highest position first, the empty group left out. */
  lemma {:induction false} MergedHighestFirst(input: seq<Entry>, index: nat, output: seq<TagSet>)
    ensures var d := FirstEmptyGroup(input, index);
      Merged(input, index, output) == output + GroupsDownward(input, index, d)
    decreases MaxDepth(input) - index
  {
    var d := FirstEmptyGroup(input, index);
    if Group(input, index) != [] {
      MergedHighestFirst(input, index + 1, output);
      GroupsDownwardStep(input, index, d);
    }
  }

  /** The groups `d - 1` down to `index`, highest position first. */
  function GroupsDownward(input: seq<Entry>, index: nat, d: nat): seq<TagSet>
    requires index <= d
  {
    seq(d - index, k requires 0 <= k < d - index => Group(input, d - 1 - k))
  }

  lemma GroupsDownwardStep(input: seq<Entry>, index: nat, d: nat)
    requires index < d
    ensures GroupsDownward(input, index, d) == GroupsDownward(input, index + 1, d) + [Group(input, index)]
  {
    var all, deeper := GroupsDownward(input, index, d), GroupsDownward(input, index + 1, d);
    assert |all| == |deeper| + 1;
    forall k | 0 <= k < |all| ensures all[k] == (deeper + [Group(input, index)])[k] {
      if k < |deeper| {
        assert all[k] == deeper[k];
      }
    }
  }

  /** When no entry holds an empty tag-set, `Merge(input, 0, [])` yields one
      group per position of the longest entry, highest position first. */
  lemma {:induction false} MergedFullDepth(input: seq<Entry>)
    requires forall n, i :: 0 <= n < |input| && 0 <= i < |input[n]| ==> input[n][i] != []
    ensures var merged := Merged(input, 0, []);
      && |merged| == MaxDepth(input)
      && forall k :: 0 <= k < |merged| ==> merged[k] == Group(input, MaxDepth(input) - 1 - k)
  {
    var depth := MaxDepth(input);
    forall j | 0 <= j < depth ensures Group(input, j) != [] {
      var n :| 0 <= n < |input| && |input[n]| == depth;
      var t := input[n][j][0];
      GroupMembers(input, j, t);
    }
    GroupPastDepth(input, depth);
    FirstEmptyGroupIs(input, 0, depth);
    MergedHighestFirst(input, 0, []);
  }

  lemma {:induction false} FirstEmptyGroupIs(input: seq<Entry>, index: nat, d: nat)
    requires index <= d && Group(input, d) == []
    requires forall j :: index <= j < d ==> Group(input, j) != []
    ensures FirstEmptyGroup(input, index) == d
    decreases d - index
  {
    if index < d {
      FirstEmptyGroupIs(input, index + 1, d);
    }
  }

  /** The group of two entries. */
  lemma GroupOfPair(x: Entry, y: Entry, index: nat)
    ensures Group([x, y], index) == (if |x| > index then x[index] else []) + (if |y| > index then y[index] else [])
  {
    assert [x, y][..1] == [x] && [x][..0] == [];
    assert Group([x], index) == Group([], index) + (if |x| > index then x[index] else []);
    assert Group([x, y], index) == Group([x], index) + (if |y| > index then y[index] else []);
  }

  /** Entries whose groups agree at every position merge alike. */
  lemma {:induction false} MergedSameGroups(x: seq<Entry>, y: seq<Entry>, index: nat, output: seq<TagSet>)
    requires forall i: nat :: Group(x, i) == Group(y, i)
    ensures Merged(x, index, output) == Merged(y, index, output)
    decreases MaxDepth(x) - index
  {
    GroupPastDepth(x, index);
    if Group(x, index) != [] {
      MergedSameGroups(x, y, index + 1, output);
    }
  }

  /** An entry whose tag-sets are all empty adds no tag to any group, so
      `Merge` yields the same as without it: it cannot stop `Merge` early. */
  lemma AllEmptyEntryChangesNoMerge(a: seq<Entry>, e: Entry, b: seq<Entry>, index: nat, output: seq<TagSet>)
    requires forall k :: 0 <= k < |e| ==> e[k] == []
    ensures Merged(a + [e] + b, index, output) == Merged(a + b, index, output)
  {
    forall i: nat ensures Group(a + [e] + b, i) == Group(a + b, i) {
      GroupAppend(a + [e], b, i);
      GroupAppend(a, [e], i);
      GroupAppend(a, b, i);
      assert [e][..0] == [];
      assert Group([e], i) == Group([], i) + (if |e| > i then e[i] else []);
    }
    MergedSameGroups(a + [e] + b, a + b, index, output);
  }

  /** Two entries of unequal length, one and three tag-sets: three groups come
      out, the highest position first, and position 0 joins both entries in entry
      order. */
  lemma UnequalBranches(a0: TagSet, b0: TagSet, b1: TagSet, b2: TagSet)
    requires a0 != [] && b0 != [] && b1 != [] && b2 != []
    ensures Merged([[a0], [b0, b1, b2]], 0, []) == [b2, b1, a0 + b0]
  {
    var input := [[a0], [b0, b1, b2]];
    GroupOfPair([a0], [b0, b1, b2], 0);
    GroupOfPair([a0], [b0, b1, b2], 1);
    GroupOfPair([a0], [b0, b1, b2], 2);
    GroupOfPair([a0], [b0, b1, b2], 3);
    assert Group(input, 1) == b1 && Group(input, 2) == b2 && Group(input, 3) == [];
    assert Merged(input, 3, []) == [];
    assert Merged(input, 2, []) == [b2];
    assert Merged(input, 1, []) == [b2, b1];
  }
}
