/** `export_weights`: collects the weights of every vertex group of the mesh,
    keeps those above 1/10^precision, aborts when there is nothing to write, and
    wraps the rendered groups in the file header. */
module Export {
  import opened Ordering
  import opened Weights
  import opened Encoder

  /** A vertex group: the index vertices refer to it by, and its weight lookup
      (`vgrp[grp].weight(vertex index)`). */
  datatype VertexGroup = VertexGroup(index: nat, weight: nat -> real)

  /** A mesh vertex: its index and the indices of the groups it belongs to. */
  datatype Vertex = Vertex(index: nat, groups: seq<nat>)

  /** The active object: its vertex groups by name, and its vertices. */
  datatype Mesh = Mesh(groups: map<string, VertexGroup>, vertices: seq<Vertex>)

  /** The export options. */
  datatype ExportProps = ExportProps(
    author: string, name: string, description: string, license: string,
    precision: nat, columns: int, version: string)

  /** Why an export writes nothing: "object has no vertex groups" and
      "No vertices assigned". */
  datatype ExportError = NoVertexGroups | NoVerticesAssigned

  datatype Result<T, E> = Success(value: T) | Failure(error: E)

  /** How often `x` occurs in `s`. */
  function Occurrences(x: nat, s: seq<nat>): (n: nat)
    ensures n > 0 <==> x in s
  {
    if s == [] then 0
    else Occurrences(x, s[..|s| - 1]) + (if s[|s| - 1] == x then 1 else 0)
  }

  /** The weights of group `grp` that the scan of `vs` stores: for each vertex
      that belongs to the group, its weight when that is above `smallest`. */
  function Stored(vs: seq<Vertex>, grp: VertexGroup, smallest: real): Group {
    if vs == [] then map[]
    else
      var before := Stored(vs[..|vs| - 1], grp, smallest);
      var v := vs[|vs| - 1];
      if grp.index in v.groups && grp.weight(v.index) > smallest
      then before[v.index := grp.weight(v.index)]
      else before
  }

  /** How many times the scan of `vs` increments `cnt` for group `grp`. */
  function Counted(vs: seq<Vertex>, grp: VertexGroup, smallest: real): nat {
    if vs == [] then 0
    else
      var v := vs[|vs| - 1];
      Counted(vs[..|vs| - 1], grp, smallest)
        + if grp.weight(v.index) > smallest then Occurrences(grp.index, v.groups) else 0
  }

  /** A vertex of the group whose weight passes the threshold. */
  ghost predicate Passes(vs: seq<Vertex>, grp: VertexGroup, smallest: real, i: nat) {
    exists j :: 0 <= j < |vs| && vs[j].index == i && grp.index in vs[j].groups && grp.weight(i) > smallest
  }

  /** A group's stored weights are exactly those of its member vertices that are
      strictly above the threshold, each under its vertex index. */
  lemma {:induction false} StoredIsMembersAboveThreshold(vs: seq<Vertex>, grp: VertexGroup, smallest: real, i: nat)
    ensures i in Stored(vs, grp, smallest) <==> Passes(vs, grp, smallest, i)
    ensures i in Stored(vs, grp, smallest) ==> Stored(vs, grp, smallest)[i] == grp.weight(i)
  {
    if vs != [] {
      var init := vs[..|vs| - 1];
      StoredIsMembersAboveThreshold(init, grp, smallest, i);
      if Passes(init, grp, smallest, i) {
        var j :| 0 <= j < |init| && init[j].index == i && grp.index in init[j].groups && grp.weight(i) > smallest;
        assert vs[j] == init[j];
      }
      if Passes(vs, grp, smallest, i) {
        var j :| 0 <= j < |vs| && vs[j].index == i && grp.index in vs[j].groups && grp.weight(i) > smallest;
        if j < |init| {
          assert init[j] == vs[j];
        }
      }
    }
  }

  /** Every stored weight lies above the threshold. */
  lemma StoredAboveThreshold(vs: seq<Vertex>, grp: VertexGroup, smallest: real)
    ensures forall i :: i in Stored(vs, grp, smallest) ==> Stored(vs, grp, smallest)[i] > smallest
  {
    forall i | i in Stored(vs, grp, smallest)
      ensures Stored(vs, grp, smallest)[i] > smallest
    {
      StoredIsMembersAboveThreshold(vs, grp, smallest, i);
    }
  }

  /** The counter stays at zero exactly when nothing is stored. */
  lemma {:induction false} CountedZeroIffNothingStored(vs: seq<Vertex>, grp: VertexGroup, smallest: real)
    ensures Counted(vs, grp, smallest) == 0 <==> Stored(vs, grp, smallest) == map[]
  {
    if vs != [] {
      var init := vs[..|vs| - 1];
      CountedZeroIffNothingStored(init, grp, smallest);
      var v := vs[|vs| - 1];
      if grp.index in v.groups && grp.weight(v.index) > smallest {
        assert v.index in Stored(vs, grp, smallest);
      }
    }
  }

  /** Vertex indices are distinct, and no vertex lists a group twice: what the
      host's meshes guarantee. */
  ghost predicate WellFormedVertices(vs: seq<Vertex>) {
    (forall a, b :: 0 <= a < b < |vs| ==> vs[a].index != vs[b].index) &&
    (forall a :: 0 <= a < |vs| ==> forall c, d :: 0 <= c < d < |vs[a].groups| ==> vs[a].groups[c] != vs[a].groups[d])
  }

  lemma {:induction false} OccurrencesInDistinct(x: nat, s: seq<nat>)
    requires forall c, d :: 0 <= c < d < |s| ==> s[c] != s[d]
    ensures Occurrences(x, s) <= 1
  {
    if s != [] {
      var init := s[..|s| - 1];
      OccurrencesInDistinct(x, init);
      if s[|s| - 1] == x {
        assert x !in init;
      }
    }
  }

  /** On a well-formed mesh the counter equals the number of stored pairs. */
  lemma {:induction false} CountedIsStoredSize(vs: seq<Vertex>, grp: VertexGroup, smallest: real)
    requires WellFormedVertices(vs)
    ensures Counted(vs, grp, smallest) == |Stored(vs, grp, smallest)|
  {
    if vs != [] {
      var init := vs[..|vs| - 1];
      var v := vs[|vs| - 1];
      assert WellFormedVertices(init);
      CountedIsStoredSize(init, grp, smallest);
      OccurrencesInDistinct(grp.index, v.groups);
      if grp.index in v.groups && grp.weight(v.index) > smallest {
        StoredIsMembersAboveThreshold(init, grp, smallest, v.index);
        assert v.index !in Stored(init, grp, smallest);
      }
    }
  }

  /** `outverts`: every vertex group under its name, with its stored weights. */
  function Collected(mesh: Mesh, prec: nat): (out: WeightMap)
    ensures out.Keys == mesh.groups.Keys
  {
    map k | k in mesh.groups :: Stored(mesh.vertices, mesh.groups[k], Smallest(prec))
  }

  /** `cnt` after the groups `names`. */
  function TotalCount(mesh: Mesh, names: seq<string>, smallest: real): nat {
    if names == [] then 0
    else
      var k := names[|names| - 1];
      TotalCount(mesh, names[..|names| - 1], smallest)
        + if k in mesh.groups then Counted(mesh.vertices, mesh.groups[k], smallest) else 0
  }

  lemma TotalCountStep(mesh: Mesh, names: seq<string>, a: nat, smallest: real)
    requires a < |names|
    ensures TotalCount(mesh, names[..a + 1], smallest) == TotalCount(mesh, names[..a], smallest)
      + if names[a] in mesh.groups then Counted(mesh.vertices, mesh.groups[names[a]], smallest) else 0
  {
    assert names[..a + 1][..a] == names[..a];
  }

  /** The number of pairs stored for the groups `names`. */
  function StoredTotal(mesh: Mesh, names: seq<string>, smallest: real): nat {
    if names == [] then 0
    else
      var k := names[|names| - 1];
      StoredTotal(mesh, names[..|names| - 1], smallest)
        + if k in mesh.groups then |Stored(mesh.vertices, mesh.groups[k], smallest)| else 0
  }

  /** On a well-formed mesh `cnt` is the total number of stored pairs. */
  lemma {:induction false} TotalCountIsStoredTotal(mesh: Mesh, names: seq<string>, smallest: real)
    requires WellFormedVertices(mesh.vertices)
    ensures TotalCount(mesh, names, smallest) == StoredTotal(mesh, names, smallest)
  {
    if names != [] {
      TotalCountIsStoredTotal(mesh, names[..|names| - 1], smallest);
      var k := names[|names| - 1];
      if k in mesh.groups {
        CountedIsStoredSize(mesh.vertices, mesh.groups[k], smallest);
      }
    }
  }

  /** No group stores anything. */
  ghost predicate NothingStored(mesh: Mesh, prec: nat) {
    forall k :: k in mesh.groups ==> Stored(mesh.vertices, mesh.groups[k], Smallest(prec)) == map[]
  }

  /** `cnt` is zero after the scan of `names` exactly when none of those groups
      stores anything. */
  lemma {:induction false} TotalZeroIffNothingStored(mesh: Mesh, names: seq<string>, smallest: real)
    ensures TotalCount(mesh, names, smallest) == 0 <==>
      forall k :: k in names && k in mesh.groups ==> Stored(mesh.vertices, mesh.groups[k], smallest) == map[]
  {
    if names != [] {
      var init := names[..|names| - 1];
      var k := names[|names| - 1];
      TotalZeroIffNothingStored(mesh, init, smallest);
      assert forall u :: u in names <==> u in init || u == k;
      if k in mesh.groups {
        CountedZeroIffNothingStored(mesh.vertices, mesh.groups[k], smallest);
      }
    }
  }

  /** Every entry of `outverts` is a group of the mesh holding its stored weights. */
  ghost predicate StoredByName(mesh: Mesh, smallest: real, outverts: WeightMap) {
    forall k :: k in outverts ==> k in mesh.groups && outverts[k] == Stored(mesh.vertices, mesh.groups[k], smallest)
  }

  /** The names among the first `a` of `names`. */
  ghost function Seen(names: seq<string>, a: nat): set<string>
    requires a <= |names|
  {
    set k | k in names[..a]
  }

  /** The collection loop's step: the next group enters `outverts`. */
  lemma CollectStep(mesh: Mesh, smallest: real, names: seq<string>, a: nat, outverts: WeightMap, stored: Group)
    requires a < |names| && names[a] in mesh.groups
    requires outverts.Keys == Seen(names, a)
    requires StoredByName(mesh, smallest, outverts)
    requires stored == Stored(mesh.vertices, mesh.groups[names[a]], smallest)
    ensures outverts[names[a] := stored].Keys == Seen(names, a + 1)
    ensures StoredByName(mesh, smallest, outverts[names[a] := stored])
  {
    assert names[..a + 1] == names[..a] + [names[a]];
  }

  lemma WholePrefix(names: seq<string>)
    ensures names[..|names|] == names
  {
  }

  lemma SeenAll(names: seq<string>, keys: set<string>)
    requires forall k :: k in names <==> k in keys
    ensures Seen(names, |names|) == keys
  {
    assert names[..|names|] == names;
  }

  /** A map holding every group's stored weights under its name is `Collected`. */
  lemma CollectedByName(mesh: Mesh, prec: nat, outverts: WeightMap)
    requires outverts.Keys == mesh.groups.Keys
    requires StoredByName(mesh, Smallest(prec), outverts)
    ensures outverts == Collected(mesh, prec)
  {
  }

  /** Scans the vertices for one group: stores each member vertex's weight when
      it is above `smallest`, and counts every store. */
  method CollectGroup(vs: seq<Vertex>, grp: VertexGroup, smallest: real) returns (stored: Group, count: nat)
    ensures stored == Stored(vs, grp, smallest)
    ensures count == Counted(vs, grp, smallest)
  {
    stored, count := map[], 0;
    for b := 0 to |vs|
      invariant stored == Stored(vs[..b], grp, smallest)
      invariant count == Counted(vs[..b], grp, smallest)
    {
      var v := vs[b];
      assert vs[..b + 1][..b] == vs[..b];
      ghost var before, counted := stored, count;
      for c := 0 to |v.groups|
        invariant stored == if grp.index in v.groups[..c] && grp.weight(v.index) > smallest
          then before[v.index := grp.weight(v.index)] else before
        invariant count == counted +
          if grp.weight(v.index) > smallest then Occurrences(grp.index, v.groups[..c]) else 0
      {
        assert v.groups[..c + 1][..c] == v.groups[..c];
        if v.groups[c] == grp.index {
          var weight := grp.weight(v.index);
          if weight > smallest {
            stored := stored[v.index := weight];
            count := count + 1;
          }
        }
      }
      assert v.groups[..|v.groups|] == v.groups;
    }
    assert vs[..|vs|] == vs;
  }

  /** The collection loop: every group, in ascending name order, gets an entry
      holding its stored weights (built up from empty by `CollectGroup`);
      `cnt` counts every store. */
  method Collect(mesh: Mesh, prec: nat) returns (outverts: WeightMap, cnt: nat)
    ensures outverts == Collected(mesh, prec)
    ensures cnt == TotalCount(mesh, SortedNames(mesh.groups), Smallest(prec))
    ensures cnt == 0 <==> NothingStored(mesh, prec)
    ensures WellFormedVertices(mesh.vertices) ==>
      cnt == StoredTotal(mesh, SortedNames(mesh.groups), Smallest(prec))
  {
    outverts, cnt := map[], 0;
    var smallest := Smallest(prec);
    var names := SortedNames(mesh.groups);
    for a := 0 to |names|
      invariant outverts.Keys == Seen(names, a)
      invariant StoredByName(mesh, smallest, outverts)
      invariant cnt == TotalCount(mesh, names[..a], smallest)
    {
      TotalCountStep(mesh, names, a, smallest);
      var grp := names[a];
      var group := mesh.groups[grp];
      var stored, count := CollectGroup(mesh.vertices, group, smallest);
      CollectStep(mesh, smallest, names, a, outverts, stored);
      outverts := outverts[grp := stored];
      cnt := cnt + count;
    }
    WholePrefix(names);
    SeenAll(names, mesh.groups.Keys);
    CollectedByName(mesh, prec, outverts);
    TotalZeroIffNothingStored(mesh, names, smallest);
    if WellFormedVertices(mesh.vertices) {
      TotalCountIsStoredTotal(mesh, names, smallest);
    }
  }

  /** The file text around the rendered `weights` body: the metadata fields in
      the order copyright, description, license, name, version, weights. */
  function Header(p: ExportProps, weights: string): string {
    HeaderBefore(p, 4) + p.version + ",\n\"weights\": {\n" + weights + "}\n}\n"
  }

  /** The header text that precedes field `f` (0 copyright, 1 description,
      2 license, 3 name, 4 version) and ends with that field's opening quote,
      or with the space before the unquoted version. */
  function HeaderBefore(p: ExportProps, f: nat): string
    requires f <= 4
  {
    if f == 0 then "{\n\"copyright\": \""
    else if f == 1 then HeaderBefore(p, 0) + p.author + "\",\n\"description\": \""
    else if f == 2 then HeaderBefore(p, 1) + p.description + "\",\n\"license\": \""
    else if f == 3 then HeaderBefore(p, 2) + p.license + "\",\n\"name\": \""
    else HeaderBefore(p, 3) + p.name + "\",\n\"version\": "
  }

  /** `x` occurs verbatim in `text` at position `at`, right after the character
      `open` and right before the character `close`. */
  ghost predicate Between(text: string, at: int, x: string, open: char, close: char) {
    1 <= at && at + |x| < |text| &&
    text[at..at + |x|] == x && text[at - 1] == open && text[at + |x|] == close
  }

  /** `x` sits verbatim in `text` right after `pre`, between `pre`'s last
      character and `post`'s first, whenever `pre + x + post` starts `text`. */
  lemma Splice(pre: string, x: string, post: string, text: string)
    requires |pre| > 0 && |post| > 0
    requires pre + x + post <= text
    ensures Between(text, |pre|, x, pre[|pre| - 1], post[0])
  {
    var whole := pre + x + post;
    assert text[..|whole|] == whole;
    assert whole[|pre|..|pre| + |x|] == x;
  }

  lemma {:induction false} HeaderBeforeGrows(p: ExportProps, f: nat)
    requires f <= 4
    ensures HeaderBefore(p, f) <= HeaderBefore(p, 4)
    decreases 4 - f
  {
    if f < 4 {
      HeaderBeforeGrows(p, f + 1);
    }
  }

  /** The string field that follows `HeaderBefore(p, f)`. */
  function QuotedField(p: ExportProps, f: nat): string
    requires f < 4
  {
    if f == 0 then p.author
    else if f == 1 then p.description
    else if f == 2 then p.license
    else p.name
  }

  /** The key text between string field `f` and the next field's value. */
  function FieldClose(f: nat): string
    requires f < 4
  {
    if f == 0 then "\",\n\"description\": \""
    else if f == 1 then "\",\n\"license\": \""
    else if f == 2 then "\",\n\"name\": \""
    else "\",\n\"version\": "
  }

  lemma HeaderBeforeStep(p: ExportProps, f: nat)
    requires f < 4
    ensures HeaderBefore(p, f + 1) == HeaderBefore(p, f) + QuotedField(p, f) + FieldClose(f)
    ensures |HeaderBefore(p, f)| > 0 && HeaderBefore(p, f)[|HeaderBefore(p, f)| - 1] == '"'
    ensures |FieldClose(f)| > 0 && FieldClose(f)[0] == '"'
  {
  }

  lemma HeaderStartsWithBefore(p: ExportProps, weights: string)
    ensures HeaderBefore(p, 4) <= Header(p, weights)
  {
    assert Header(p, weights) == HeaderBefore(p, 4) + (p.version + ",\n\"weights\": {\n" + weights + "}\n}\n");
  }

  lemma PrefixTransitive(a: string, b: string, c: string)
    requires a <= b && b <= c
    ensures a <= c
  {
    assert c[..|b|] == b;
    assert b[..|a|] == a;
    assert c[..|a|] == c[..|b|][..|a|];
  }

  /** The four string fields are each copied verbatim between a pair of quotes,
      without escaping. */
  lemma QuotedFieldSpliced(p: ExportProps, weights: string, f: nat)
    requires f < 4
    ensures Between(Header(p, weights), |HeaderBefore(p, f)|, QuotedField(p, f), '"', '"')
  {
    var text := Header(p, weights);
    HeaderStartsWithBefore(p, weights);
    HeaderBeforeGrows(p, f + 1);
    PrefixTransitive(HeaderBefore(p, f + 1), HeaderBefore(p, 4), text);
    HeaderBeforeStep(p, f);
    Splice(HeaderBefore(p, f), QuotedField(p, f), FieldClose(f), text);
  }

  /** The version is copied verbatim without quotes, after a space and before a
      comma, and the weights body is copied verbatim after it. */
  lemma VersionAndWeightsSpliced(p: ExportProps, weights: string)
    ensures Between(Header(p, weights), |HeaderBefore(p, 4)|, p.version, ' ', ',')
    ensures Between(Header(p, weights), |HeaderBefore(p, 4)| + |p.version| + 15, weights, '\n', '}')
    ensures |Header(p, weights)| == |HeaderBefore(p, 4)| + |p.version| + 15 + |weights| + 4
  {
    var text := Header(p, weights);
    var pre := HeaderBefore(p, 4) + p.version + ",\n\"weights\": {\n";
    assert text == pre + weights + "}\n}\n";
    Splice(pre, weights, "}\n}\n", text);
    Splice(HeaderBefore(p, 4), p.version, ",\n\"weights\": {\n", text);
  }

  /** Where each field starts: the fields come in the order copyright,
      description, license, name, version, with the fixed key text between them. */
  lemma HeaderOffsets(p: ExportProps)
    ensures |HeaderBefore(p, 0)| == 16
    ensures |HeaderBefore(p, 1)| == |HeaderBefore(p, 0)| + |p.author| + 19
    ensures |HeaderBefore(p, 2)| == |HeaderBefore(p, 1)| + |p.description| + 15
    ensures |HeaderBefore(p, 3)| == |HeaderBefore(p, 2)| + |p.license| + 12
    ensures |HeaderBefore(p, 4)| == |HeaderBefore(p, 3)| + |p.name| + 14
  {
  }

  /** The whole export: nothing when the object has no vertex groups or no
      weight passes the threshold, otherwise the text of the weight file. */
  method ExportWeights(mesh: Mesh, props: ExportProps) returns (r: Result<string, ExportError>)
    ensures |mesh.groups| == 0 ==> r == Failure(NoVertexGroups)
    ensures |mesh.groups| > 0 && NothingStored(mesh, props.precision) ==> r == Failure(NoVerticesAssigned)
    ensures |mesh.groups| > 0 && !NothingStored(mesh, props.precision) ==>
      r == Success(Header(props, WeightsText(Collected(mesh, props.precision), props.precision, props.columns)))
  {
    if |mesh.groups| == 0 {
      return Failure(NoVertexGroups);
    }
    var va := new VArray(props.precision, props.columns);
    var outverts, cnt := Collect(mesh, props.precision);
    if cnt == 0 {
      return Failure(NoVerticesAssigned);
    }
    var weights := va.AppWeights(outverts);
    return Success(Header(props, weights));
  }

  /** What is exported loses no stored vertex: every stored weight rounds to a
      non-zero value, so each written group has one entry per stored vertex. */
  lemma ExportedGroupsKeepEveryVertex(mesh: Mesh, prec: nat, k: string)
    requires k in mesh.groups
    ensures var g := Collected(mesh, prec)[k];
      |GroupPairs(prec, g)| == |g|
  {
    var grp := mesh.groups[k];
    StoredAboveThreshold(mesh.vertices, grp, Smallest(prec));
    GroupAboveThresholdKeepsAll(prec, Collected(mesh, prec)[k]);
  }
}
