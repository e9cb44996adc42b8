/** The `v_array` row formatter: renders the collected weights of every group,
    group by group, as the body of the `weights` object. */
module Encoder {
  import opened Decimal
  import opened Ordering
  import opened Weights
  import opened RowLayout

  /** The weights of one group: vertex index to weight. */
  type Group = map<nat, real>

  /** `outverts`: group name to the group's weights. */
  type WeightMap = map<string, Group>

  /** One rendered entry `[index, weight]`, the weight rounded to `k` units of 10^-prec. */
  function EntryText(num: nat, k: int, prec: nat): string {
    "[" + NatToString(num) + ", " + RenderWeight(prec, k) + "]"
  }

  ghost predicate Increasing(keys: seq<nat>) {
    forall a, b :: 0 <= a < b < |keys| ==> keys[a] < keys[b]
  }

  ghost predicate IndicesIncrease(ps: seq<(nat, int)>) {
    forall a, b :: 0 <= a < b < |ps| ==> ps[a].0 < ps[b].0
  }

  /** The (index, rounded weight) pairs that visiting `keys` in order emits:
      a pair for each vertex of `g` whose weight does not round to zero. */
  function Emitted(prec: nat, g: Group, keys: seq<nat>): (ps: seq<(nat, int)>)
    ensures |ps| <= |keys|
  {
    if keys == [] then []
    else
      var before := Emitted(prec, g, keys[..|keys| - 1]);
      var v := keys[|keys| - 1];
      if v !in g || Round(prec, g[v]) == 0 then before else before + [(v, Round(prec, g[v]))]
  }

  /** Each pair is one of `keys`, a vertex of `g`, with its weight's non-zero rounding. */
  ghost predicate PairsFrom(prec: nat, g: Group, keys: seq<nat>, ps: seq<(nat, int)>) {
    forall j :: 0 <= j < |ps| ==>
      ps[j].0 in keys && ps[j].0 in g && ps[j].1 == Round(prec, g[ps[j].0]) && ps[j].1 != 0
  }

  /** Every emitted pair is a visited vertex with its non-zero rounded weight. */
  lemma {:induction false} EmittedSound(prec: nat, g: Group, keys: seq<nat>)
    ensures PairsFrom(prec, g, keys, Emitted(prec, g, keys))
  {
    if keys != [] {
      var init := keys[..|keys| - 1];
      var v := keys[|keys| - 1];
      EmittedSound(prec, g, init);
      var before := Emitted(prec, g, init);
      var ps := Emitted(prec, g, keys);
      forall j | 0 <= j < |ps|
        ensures ps[j].0 in keys && ps[j].0 in g && ps[j].1 == Round(prec, g[ps[j].0]) && ps[j].1 != 0
      {
        if j < |before| {
          assert ps[j] == before[j];
          assert before[j].0 in init;
        } else {
          assert ps[j] == (v, Round(prec, g[v]));
        }
      }
    }
  }

  /** Every visited vertex whose weight does not round to zero is emitted. */
  lemma {:induction false} EmittedComplete(prec: nat, g: Group, keys: seq<nat>, v: nat)
    requires v in keys && v in g && Round(prec, g[v]) != 0
    ensures exists j :: 0 <= j < |Emitted(prec, g, keys)| && Emitted(prec, g, keys)[j].0 == v
  {
    var init := keys[..|keys| - 1];
    var ps := Emitted(prec, g, keys);
    if v == keys[|keys| - 1] {
      assert ps[|ps| - 1].0 == v;
    } else {
      assert v in init;
      EmittedComplete(prec, g, init, v);
      var before := Emitted(prec, g, init);
      var j :| 0 <= j < |before| && before[j].0 == v;
      assert ps[j] == before[j];
    }
  }

  /** Visiting indices in increasing order emits them in increasing order. */
  lemma {:induction false} EmittedIncreasing(prec: nat, g: Group, keys: seq<nat>)
    requires Increasing(keys)
    ensures IndicesIncrease(Emitted(prec, g, keys))
  {
    if keys != [] {
      var init := keys[..|keys| - 1];
      var v := keys[|keys| - 1];
      EmittedIncreasing(prec, g, init);
      EmittedSound(prec, g, init);
      var before := Emitted(prec, g, init);
      forall j | 0 <= j < |before| ensures before[j].0 < v {
        var u := before[j].0;
        assert u in init;
        var i :| 0 <= i < |init| && init[i] == u;
        assert keys[i] == u;
      }
    }
  }

  /** When nothing rounds to zero, every key is emitted, in order. */
  lemma {:induction false} EmittedEveryKey(prec: nat, g: Group, keys: seq<nat>)
    requires forall i :: 0 <= i < |keys| ==> keys[i] in g && Round(prec, g[keys[i]]) != 0
    ensures |Emitted(prec, g, keys)| == |keys|
    ensures forall j :: 0 <= j < |keys| ==> Emitted(prec, g, keys)[j].0 == keys[j]
  {
    if keys != [] {
      EmittedEveryKey(prec, g, keys[..|keys| - 1]);
    }
  }

  /** `sorted(verts[key])`: the group's vertex indices, ascending. */
  function SortedIndices(g: Group): (keys: seq<nat>)
    ensures |keys| == |g| && Increasing(keys)
    ensures forall v :: v in keys <==> v in g
  {
    NatLeIsTotalOrder();
    SortedSet(g.Keys, NatLe)
  }

  /** The pairs a group emits: ascending indices, exactly the vertices whose
      weight does not round to zero, each with its rounded weight. */
  function GroupPairs(prec: nat, g: Group): (ps: seq<(nat, int)>)
    ensures |ps| <= |g|
  {
    Emitted(prec, g, SortedIndices(g))
  }

  /** The pairs of a group have strictly ascending vertex indices, each is a
      vertex of the group with its non-zero rounded weight, and every vertex
      whose weight rounds to non-zero is among them. */
  lemma GroupPairsCorrect(prec: nat, g: Group)
    ensures IndicesIncrease(GroupPairs(prec, g))
    ensures PairsFrom(prec, g, SortedIndices(g), GroupPairs(prec, g))
    ensures forall v :: v in g && Round(prec, g[v]) != 0 ==>
      exists j :: 0 <= j < |GroupPairs(prec, g)| && GroupPairs(prec, g)[j].0 == v
  {
    var keys := SortedIndices(g);
    EmittedSound(prec, g, keys);
    EmittedIncreasing(prec, g, keys);
    forall v | v in g && Round(prec, g[v]) != 0
      ensures exists j :: 0 <= j < |Emitted(prec, g, keys)| && Emitted(prec, g, keys)[j].0 == v
    {
      EmittedComplete(prec, g, keys, v);
    }
  }

  /** The rendered entries of a list of pairs. */
  function Texts(prec: nat, ps: seq<(nat, int)>): (ts: seq<string>)
    ensures |ts| == |ps|
  {
    if ps == [] then []
    else Texts(prec, ps[..|ps| - 1]) + [EntryText(ps[|ps| - 1].0, ps[|ps| - 1].1, prec)]
  }

  /** The rendered entries of one group, in ascending index order. */
  function Entries(prec: nat, g: Group): seq<string> {
    Texts(prec, GroupPairs(prec, g))
  }

  /** The text of one group: its quoted name, then its entries laid out in rows. */
  function GroupText(key: string, g: Group, prec: nat, mcol: int): string {
    "\t\"" + key + "\": [\n" + Layout(Entries(prec, g), mcol) + "\n\t]"
  }

  /** The names among `names`, in the same order, whose group has at least one vertex. */
  function NonEmpty(verts: WeightMap, names: seq<string>): (r: seq<string>)
    ensures forall k :: k in r <==> k in names && k in verts && |verts[k]| > 0
  {
    if names == [] then []
    else
      var init := names[..|names| - 1];
      var k := names[|names| - 1];
      assert forall u :: u in names ==> u in init || u == k;
      var before := NonEmpty(verts, init);
      if k in verts && |verts[k]| > 0 then before + [k] else before
  }

  /** Filtering keeps the ascending order of the names. */
  lemma {:induction false} NonEmptyAscending(verts: WeightMap, names: seq<string>)
    requires Ascending(names, LexLe)
    ensures Ascending(NonEmpty(verts, names), LexLe)
  {
    if names != [] {
      var init := names[..|names| - 1];
      var k := names[|names| - 1];
      assert Ascending(init, LexLe);
      NonEmptyAscending(verts, init);
      var before := NonEmpty(verts, init);
      assert forall u :: u in init ==> LexLe(u, k) && u != k;
      assert forall u :: u in before ==> LexLe(u, k) && u != k;
    }
  }

  /** `sorted(d)` for a dictionary keyed by group name: its names, each once,
      in ascending order. */
  function SortedNames<V>(d: map<string, V>): (names: seq<string>)
    ensures Ascending(names, LexLe)
    ensures forall k :: k in names <==> k in d
    ensures |names| == |d|
  {
    LexLeIsTotalOrder();
    SortedSet(d.Keys, LexLe)
  }

  /** The groups that are written: non-empty ones, in ascending name order. */
  function WrittenNames(verts: WeightMap): (r: seq<string>)
    ensures Ascending(r, LexLe)
    ensures forall k :: k in r <==> k in verts && |verts[k]| > 0
  {
    var names := SortedNames(verts);
    NonEmptyAscending(verts, names);
    NonEmpty(verts, names)
  }

  /** The texts of the groups `names` that `verts` holds, in order. */
  function GroupTexts(verts: WeightMap, names: seq<string>, prec: nat, mcol: int): (ts: seq<string>)
    ensures |ts| <= |names|
    ensures forall i :: 0 <= i < |ts| ==> ts[i] != ""
  {
    if names == [] then []
    else
      var before := GroupTexts(verts, names[..|names| - 1], prec, mcol);
      var k := names[|names| - 1];
      if k in verts then before + [GroupText(k, verts[k], prec, mcol)] else before
  }

  /** Visiting one more name writes its group exactly when the group is not empty. */
  lemma WrittenStep(verts: WeightMap, names: seq<string>, j: nat, prec: nat, mcol: int)
    requires j < |names| && names[j] in verts
    ensures var done := GroupTexts(verts, NonEmpty(verts, names[..j]), prec, mcol);
      GroupTexts(verts, NonEmpty(verts, names[..j + 1]), prec, mcol) ==
        if |verts[names[j]]| > 0 then done + [GroupText(names[j], verts[names[j]], prec, mcol)]
        else done
  {
    assert names[..j + 1][..j] == names[..j];
    var before := NonEmpty(verts, names[..j]);
    if |verts[names[j]]| > 0 {
      assert (before + [names[j]])[..|before|] == before;
    }
  }

  /** One round of the loop over the sorted group names: an empty group adds
      nothing, a non-empty one adds its text after a ",\n" unless it is the first. */
  lemma AppWeightsStep(verts: WeightMap, names: seq<string>, j: nat, prec: nat, mcol: int, t: string)
    requires j < |names| && names[j] in verts
    requires t == Join(GroupTexts(verts, NonEmpty(verts, names[..j]), prec, mcol), ",\n")
    ensures |verts[names[j]]| == 0 ==>
      t == Join(GroupTexts(verts, NonEmpty(verts, names[..j + 1]), prec, mcol), ",\n")
    ensures |verts[names[j]]| > 0 ==>
      (if t != "" then t + ",\n" else t) + GroupText(names[j], verts[names[j]], prec, mcol) ==
      Join(GroupTexts(verts, NonEmpty(verts, names[..j + 1]), prec, mcol), ",\n")
  {
    WrittenStep(verts, names, j, prec, mcol);
    if |verts[names[j]]| > 0 {
      var done := GroupTexts(verts, NonEmpty(verts, names[..j]), prec, mcol);
      JoinExtend(done, GroupText(names[j], verts[names[j]], prec, mcol), ",\n");
    }
  }

  /** Visiting one more name keeps it exactly when its group is not empty. */
  lemma NonEmptyStep(verts: WeightMap, names: seq<string>, j: nat)
    requires j < |names| && names[j] in verts
    ensures NonEmpty(verts, names[..j + 1]) ==
      if |verts[names[j]]| > 0 then NonEmpty(verts, names[..j]) + [names[j]]
      else NonEmpty(verts, names[..j])
  {
    assert names[..j + 1][..j] == names[..j];
  }

  /** The number of entries the cursor has counted once the groups `written`
      are rendered: that of the last of them, or `start` when none is. */
  function LastGroupEmitted(verts: WeightMap, written: seq<string>, prec: nat, start: nat): (n: nat)
    requires forall k :: k in written ==> k in verts
    ensures written == [] ==> n == start
    ensures written != [] ==> n <= |verts[written[|written| - 1]]|
  {
    if written == [] then start
    else |GroupPairs(prec, verts[written[|written| - 1]])|
  }

  /** Visiting one more name leaves the count of an empty group's predecessor,
      and the count of its own entries for a non-empty group. */
  lemma LastGroupStep(verts: WeightMap, names: seq<string>, j: nat, prec: nat, start: nat)
    requires j < |names| && names[j] in verts
    ensures |verts[names[j]]| == 0 ==>
      LastGroupEmitted(verts, NonEmpty(verts, names[..j + 1]), prec, start) ==
      LastGroupEmitted(verts, NonEmpty(verts, names[..j]), prec, start)
    ensures |verts[names[j]]| > 0 ==>
      LastGroupEmitted(verts, NonEmpty(verts, names[..j + 1]), prec, start) ==
      |GroupPairs(prec, verts[names[j]])|
  {
    NonEmptyStep(verts, names, j);
  }

  /** The body of the `weights` object: the written groups joined by ",\n",
      then a final newline. */
  function WeightsText(verts: WeightMap, prec: nat, mcol: int): string {
    Join(GroupTexts(verts, WrittenNames(verts), prec, mcol), ",\n") + "\n"
  }

  /** Visiting one more key emits nothing when its weight rounds to zero, and
      otherwise one more pair. */
  lemma EmittedStep(prec: nat, g: Group, keys: seq<nat>, j: nat)
    requires j < |keys| && keys[j] in g
    ensures Emitted(prec, g, keys[..j + 1]) ==
      if Round(prec, g[keys[j]]) == 0 then Emitted(prec, g, keys[..j])
      else Emitted(prec, g, keys[..j]) + [(keys[j], Round(prec, g[keys[j]]))]
  {
    assert keys[..j + 1][..j] == keys[..j];
  }

  /** One more pair extends the text by its separator and its entry. */
  lemma TextStep(prec: nat, mcol: int, before: seq<(nat, int)>, v: nat, k: int,
                 head: string, t: string, piece: string)
    requires t == head + Layout(Texts(prec, before), mcol)
    requires piece == Sep(|before|, mcol) + EntryText(v, k, prec)
    ensures t + piece == head + Layout(Texts(prec, before + [(v, k)]), mcol)
  {
    var e := EntryText(v, k, prec);
    TextsAppend(prec, before, (v, k));
    LayoutAppend(Texts(prec, before), e, mcol);
    ConcatAssoc(head, Layout(Texts(prec, before), mcol), Sep(|before|, mcol), e);
  }

  /** One round of the loop over a group's sorted indices: the text and the
      number of emitted entries move from the prefix `keys[..j]` to `keys[..j + 1]`. */
  lemma AppGroupStep(prec: nat, mcol: int, g: Group, keys: seq<nat>, j: nat,
                     head: string, t: string, piece: string)
    requires j < |keys| && keys[j] in g
    requires t == head + Layout(Texts(prec, Emitted(prec, g, keys[..j])), mcol)
    requires Round(prec, g[keys[j]]) == 0 ==> piece == ""
    requires Round(prec, g[keys[j]]) != 0 ==>
      piece == Sep(|Emitted(prec, g, keys[..j])|, mcol) + EntryText(keys[j], Round(prec, g[keys[j]]), prec)
    ensures t + piece == head + Layout(Texts(prec, Emitted(prec, g, keys[..j + 1])), mcol)
    ensures |Emitted(prec, g, keys[..j + 1])| ==
      |Emitted(prec, g, keys[..j])| + if Round(prec, g[keys[j]]) == 0 then 0 else 1
  {
    EmittedStep(prec, g, keys, j);
    var k := Round(prec, g[keys[j]]);
    if k != 0 {
      TextStep(prec, mcol, Emitted(prec, g, keys[..j]), keys[j], k, head, t, piece);
    }
  }

  lemma TextsAppend(prec: nat, ps: seq<(nat, int)>, p: (nat, int))
    ensures Texts(prec, ps + [p]) == Texts(prec, ps) + [EntryText(p.0, p.1, prec)]
  {
    assert (ps + [p])[..|ps|] == ps;
  }

  lemma ConcatAssoc(a: string, b: string, c: string, d: string)
    ensures (a + b) + (c + d) == a + (b + c + d)
  {
  }

  /** The row formatter. `col` is the column cursor; the ghost `emitted` counts
      the entries of the current group written so far. */
  class VArray {
    const prec: nat
    const mcol: int
    var col: int
    ghost var emitted: nat

    ghost predicate Valid()
      reads this
    {
      col == Cursor(emitted, mcol)
    }

    constructor (prec: nat := 4, mcol: int := 4)
      ensures Valid() && emitted == 0
      ensures this.prec == prec && this.mcol == mcol
    {
      this.prec := prec;
      this.mcol := mcol;
      col := -1;
      emitted := 0;
    }

    /** Starts a new group. */
    method New()
      modifies this
      ensures Valid() && emitted == 0
    {
      col := -1;
      emitted := 0;
    }

    /** Renders one vertex: nothing when its weight rounds to zero, otherwise the
        separator its position calls for and the entry. */
    method AppVal(num: nat, val: real) returns (t: string)
      requires Valid()
      modifies this
      ensures Valid()
      ensures Round(prec, val) == 0 ==> t == "" && col == old(col) && emitted == old(emitted)
      ensures Round(prec, val) != 0 ==>
        t == Sep(old(emitted), mcol) + EntryText(num, Round(prec, val), prec) &&
        emitted == old(emitted) + 1
      ensures col == -1 <==> emitted == 0
      ensures mcol >= 1 && Round(prec, val) != 0 ==> 0 <= col < mcol
    {
      var x := Round(prec, val);
      if x == 0 {
        return "";
      }
      CursorStep(emitted, mcol);
      var sep;
      if col == 0 {
        sep := ",\n\t\t";
      } else if col < 0 {
        col := 0;
        sep := "\t\t";
      } else {
        sep := ", ";
      }
      t := sep + EntryText(num, x, prec);
      col := col + 1;
      if col == mcol {
        col := 0;
      }
      emitted := emitted + 1;
    }

    /** Renders the group `key`, whatever state the previous group left. */
    method AppGroup(verts: WeightMap, key: string) returns (t: string)
      requires key in verts
      modifies this
      ensures Valid()
      ensures t == GroupText(key, verts[key], prec, mcol)
      ensures emitted == |GroupPairs(prec, verts[key])|
    {
      New();
      var head := "\t\"" + key + "\": [\n";
      t := head;
      var g := verts[key];
      var keys := SortedIndices(g);
      for j := 0 to |keys|
        invariant Valid()
        invariant emitted == |Emitted(prec, g, keys[..j])|
        invariant t == head + Layout(Texts(prec, Emitted(prec, g, keys[..j])), mcol)
      {
        var v := keys[j];
        var piece := AppVal(v, g[v]);
        AppGroupStep(prec, mcol, g, keys, j, head, t, piece);
        t := t + piece;
      }
      assert keys[..|keys|] == keys;
      t := t + "\n\t]";
    }

    /** Renders every non-empty group in ascending name order, separated by ",\n",
        and a final newline. */
    method AppWeights(verts: WeightMap) returns (t: string)
      requires Valid()
      modifies this
      ensures Valid()
      ensures t == WeightsText(verts, prec, mcol)
      ensures WrittenNames(verts) == [] ==> emitted == old(emitted)
      ensures WrittenNames(verts) != [] ==>
        emitted == |GroupPairs(prec, verts[WrittenNames(verts)[|WrittenNames(verts)| - 1]])|
    {
      t := "";
      var names := SortedNames(verts);
      ghost var start := emitted;
      for j := 0 to |names|
        invariant Valid()
        invariant t == Join(GroupTexts(verts, NonEmpty(verts, names[..j]), prec, mcol), ",\n")
        invariant emitted == LastGroupEmitted(verts, NonEmpty(verts, names[..j]), prec, start)
      {
        var key := names[j];
        AppWeightsStep(verts, names, j, prec, mcol, t);
        LastGroupStep(verts, names, j, prec, start);
        if |verts[key]| > 0 {
          if t != "" {
            t := t + ",\n";
          }
          var text := AppGroup(verts, key);
          t := t + text;
        }
      }
      assert names[..|names|] == names;
      t := t + "\n";
    }
  }

  /** A group whose weights all lie above the export threshold loses no vertex:
      it renders one entry per vertex, in ascending index order. */
  lemma GroupAboveThresholdKeepsAll(prec: nat, g: Group)
    requires forall v :: v in g ==> g[v] > Smallest(prec)
    ensures |GroupPairs(prec, g)| == |g|
    ensures forall j :: 0 <= j < |g| ==> GroupPairs(prec, g)[j].0 == SortedIndices(g)[j]
  {
    var keys := SortedIndices(g);
    forall i | 0 <= i < |keys| ensures Round(prec, g[keys[i]]) != 0 {
      AboveThresholdRoundsNonZero(prec, g[keys[i]]);
    }
    EmittedEveryKey(prec, g, keys);
  }
}
