# MakeHuman weight-file (`.mhw`) encoder

A Dafny model of the export side of the Blender add-on that writes MakeHuman
vertex-group weight files. The model covers the three parts of the encoder:

* `v_array`, the row formatter. It renders `[index, weight]` entries, drops
  weights that round to zero, wraps rows every `mcol` entries and writes groups
  in ascending name order. It is modelled as the class `Encoder.VArray`. Its
  fields are `prec`, `mcol` and the column cursor `col`. Its methods `New`,
  `AppVal`, `AppGroup` and `AppWeights` change `col` step by step and build
  their text with loops, as the original does.
* The collection step of `export_weights`. It scans the mesh's vertex groups,
  vertices and memberships, keeps weights strictly above `1/10^precision` and
  counts them. It aborts when there are no groups or nothing was stored. This
  is `Export.Collect` (with `Export.CollectGroup` for the two inner loops) and
  `Export.ExportWeights`.
* The header assembly around the weights body (`Export.Header`).

Every method is proved against a specification function. The encoder's text
is specified by these functions:
* `Encoder.WeightsText`, `Encoder.GroupText` and `RowLayout.Layout`, the
  latter defined entry by entry from the separator rule `RowLayout.Sep`;
* `Encoder.GroupPairs`, the pairs a group emits.

The collection is specified by `Export.Collected`, `Export.Stored` and
`Export.TotalCount`. Lemmas then state what the file promises:
* ascending order;
* rows of `mcol` entries;
* every non-zero weight written and only those;
* verbatim, ordered header fields;
* the threshold implying that no exported weight is dropped by rounding.

Modules:

| file | module | contents |
|---|---|---|
| `decimal.dfy` | `Decimal` | powers of ten, decimal digits of a natural number |
| `ordering.dfy` | `Ordering` | total orders, string order, `sorted` of a set |
| `weights.dfy` | `Weights` | rounding to `prec` places, the export threshold, `str` of a rounded weight |
| `layout.dfy` | `RowLayout` | separators, rows of `mcol` entries, the column cursor |
| `encoder.dfy` | `Encoder` | the `v_array` class and the text it specifies |
| `export.dfy` | `Export` | the mesh, collection, abort conditions and header |

Weights are exact `real` numbers. `Round(prec, w)` is the integer nearest to
`w * 10^prec`, with an exact half going to the even neighbour. A rounded
weight is kept as that integer count of `10^-prec` units, and
`RenderWeight(prec, k)` prints it the way `str` prints a float: the shortest
decimal, in scientific notation below `10^-4` or from `10^16` up.

Where a reader of the format might expect other behaviour, the model follows
the code:

* The export filter keeps only weights strictly above `1/10^precision`
  (line 142). So a weight such as 0.0008 at precision 3 is not written, even
  though it rounds to 0.001. It is not the case that only weights rounding to
  zero are left out (`Weights.ThresholdDropsSomeNonZeroRoundings`).
* `appweights` skips every group with no stored weight (line 97), so an empty
  group is never written as an empty list.
* The header splices the metadata strings in without escaping and the version
  without quotes, so the output need not be valid JSON.

## Model

| member | source | states |
|---|---|---|
| Encoder.VArray.constructor | blender2_8/io_mhw_import_export.py:57-61 | a new formatter keeps the given precision and column count and starts with the cursor before the first entry (`col == -1`) |
| Encoder.VArray.New | blender2_8/io_mhw_import_export.py:63-64 | resets the cursor to "before the first entry", whatever the previous group left |
| Encoder.VArray.AppVal | blender2_8/io_mhw_import_export.py:66-83 | a weight rounding to zero yields "" and leaves the cursor unchanged; otherwise the result is the separator `Sep` for the entry's position followed by `[index, weight]`, and the cursor advances. `col == -1` exactly before the first entry, and `0 <= col < mcol` after every emitted entry when `mcol >= 1` |
| Encoder.VArray.AppGroup | blender2_8/io_mhw_import_export.py:85-91 | the group's text is its quoted name, then the layout of its emitted entries in ascending index order, then the closing bracket; the cursor is reset first, so the result does not depend on earlier groups, and the group leaves the cursor having counted exactly its emitted entries (`col` is that count modulo `mcol`) |
| Encoder.VArray.AppWeights | blender2_8/io_mhw_import_export.py:93-102 | the result is the texts of the non-empty groups in ascending name order, joined by ",\n", plus a final "\n"; afterwards the cursor has counted the entries of the last written group, and is unchanged when no group is written |
| Encoder.AppGroupStep | blender2_8/io_mhw_import_export.py:88-89 | one round of `appgroup`'s loop extends the text by the next entry's layout exactly when the weight does not round to zero |
| Encoder.AppWeightsStep | blender2_8/io_mhw_import_export.py:95-101 | one round of `appweights`'s loop adds nothing for an empty group, and otherwise adds ",\n" (unless first) and the group's text |
| Encoder.LastGroupStep | blender2_8/io_mhw_import_export.py:96-100 | one round of `appweights`'s loop leaves the cursor where the last non-empty group left it: unchanged for an empty group, its own entry count for a non-empty one |
| Encoder.EntryText | blender2_8/io_mhw_import_export.py:79 | an entry is `[`, the vertex index, `, `, the rounded weight, `]` (definition; its parts are stated by `NatToString` and `RenderWeight`) |
| Encoder.GroupText | blender2_8/io_mhw_import_export.py:85-91 | a group's text is tab, the quoted name, `: [`, newline, the row layout of its entries, newline, tab, `]` (definition; `AppGroup` is proved equal to it) |
| Encoder.WeightsText | blender2_8/io_mhw_import_export.py:93-102 | the weights body is the texts of the written groups joined by ",\n", then "\n" (definition; `AppWeights` is proved equal to it, `WrittenNames` states which groups are written) |
| Encoder.GroupPairsCorrect | blender2_8/io_mhw_import_export.py:66-69 | a group emits pairs with strictly ascending indices; each is a vertex of the group with its non-zero rounded weight, and every vertex whose weight rounds to non-zero is emitted |
| Encoder.Emitted | blender2_8/io_mhw_import_export.py:66-89 | the pairs `appgroup`'s loop emits for a list of keys: each key with its rounded weight, skipping zero roundings (definition; `EmittedSound`, `EmittedComplete`, `EmittedIncreasing` and `EmittedEveryKey` state it) |
| Encoder.GroupPairs | blender2_8/io_mhw_import_export.py:88-89 | the pairs one group emits, visiting its indices in sorted order; never more than the group's vertices (definition; `GroupPairsCorrect` states it) |
| Encoder.EmittedSound | blender2_8/io_mhw_import_export.py:66-69 | every emitted pair comes from a visited key of the group and carries its non-zero rounded weight |
| Encoder.EmittedComplete | blender2_8/io_mhw_import_export.py:66-69 | every visited key whose weight rounds to non-zero is emitted |
| Encoder.EmittedIncreasing | blender2_8/io_mhw_import_export.py:88 | visiting the keys in increasing order emits strictly increasing indices |
| Encoder.EmittedEveryKey | blender2_8/io_mhw_import_export.py:88-89 | when no weight rounds to zero, the emitted indices are exactly the visited keys, in order |
| Encoder.SortedIndices | blender2_8/io_mhw_import_export.py:88 | `sorted(verts[key])`: the group's indices, each once, strictly increasing |
| Encoder.SortedNames | blender2_8/io_mhw_import_export.py:95 | `sorted(verts)`: the group names, each once, in ascending string order |
| Encoder.NonEmpty | blender2_8/io_mhw_import_export.py:96-97 | the names kept are exactly those whose group holds at least one vertex |
| Encoder.NonEmptyAscending | blender2_8/io_mhw_import_export.py:95-97 | skipping empty groups keeps the ascending name order |
| Encoder.WrittenNames | blender2_8/io_mhw_import_export.py:95-97 | the written groups are exactly the non-empty ones, in ascending order |
| Encoder.GroupAboveThresholdKeepsAll | blender2_8/io_mhw_import_export.py:67-68 | a group whose weights all exceed `1/10^prec` emits one entry per vertex, in ascending index order |
| RowLayout.Sep | blender2_8/io_mhw_import_export.py:70-77 | the separator before entry i: "\t\t" for the first, ",\n\t\t" at every multiple of `mcol` (when `mcol >= 1`), ", " otherwise (definition; `CursorStep` ties it to `col`) |
| RowLayout.Layout | blender2_8/io_mhw_import_export.py:88-89 | the layout of a list of entries is each entry preceded by its separator (definition; `LayoutRows` states its row shape) |
| RowLayout.Cursor | blender2_8/io_mhw_import_export.py:58-82 | the cursor is -1 exactly before the first entry, lies in `0..mcol-1` afterwards when `mcol >= 1`, and counts entries when `mcol <= 0` (rows never wrap) |
| RowLayout.CursorIsRemainder | blender2_8/io_mhw_import_export.py:80-82 | after n >= 1 entries the cursor is `n % mcol` |
| RowLayout.CursorStep | blender2_8/io_mhw_import_export.py:70-77 | the separator the cursor selects is the one the row rule `Sep` prescribes for that position |
| RowLayout.LayoutAppend | blender2_8/io_mhw_import_export.py:89 | appending an entry appends its separator and text to the layout |
| RowLayout.LayoutSingleRow | blender2_8/io_mhw_import_export.py:70-82 | up to `mcol` entries, or any number when `mcol <= 0`, sit on one line joined by ", " |
| RowLayout.LayoutSplit | blender2_8/io_mhw_import_export.py:70-72 | after a whole number of full rows the next entry starts a new line |
| RowLayout.Rows | blender2_8/io_mhw_import_export.py:70-82 | n entries fall into ceil(n/mcol) rows, all of `mcol` entries except possibly the last, which keeps the entries in order |
| RowLayout.LayoutRows | blender2_8/io_mhw_import_export.py:70-82 | the layout is the rows, each on its own line with entries joined by ", ", the lines joined by ",\n" |
| RowLayout.TenEntriesInFourColumns | blender2_8/io_mhw_import_export.py:70-82 | ten entries in four columns occupy rows of 4, 4 and 2 |
| RowLayout.JoinExtend | blender2_8/io_mhw_import_export.py:98-101 | adding a text after ",\n" unless the result so far is empty extends the ",\n"-joined list by that text |
| Ordering.LexLe | blender2_8/io_mhw_import_export.py:95 | Python's `<=` on `str`: code point by code point, a proper prefix first (definition; `LexLeIsTotalOrder` states it is a total order) |
| Ordering.SortedSet | blender2_8/io_mhw_import_export.py:88 | `sorted` of a set: every element exactly once, strictly ascending |
| Ordering.LexLeIsTotalOrder | blender2_8/io_mhw_import_export.py:95 | the string order `sorted` uses for names is a total order |
| Ordering.LexLeTransitive | blender2_8/io_mhw_import_export.py:95 | the string order is transitive |
| Ordering.LexLeAntisymmetric | blender2_8/io_mhw_import_export.py:95 | the string order is antisymmetric |
| Ordering.LexLeTotal | blender2_8/io_mhw_import_export.py:95 | any two strings are comparable |
| Decimal.NatToString | blender2_8/io_mhw_import_export.py:79 | `str(num)`: non-empty decimal digits, no leading zero, whose value is `num` |
| Decimal.NatToStringInjective | blender2_8/io_mhw_import_export.py:79 | distinct vertex indices print differently |
| Decimal.StripTrailingZeros | blender2_8/io_mhw_import_export.py:79 | splits a positive count into a mantissa not ending in 0 times a power of ten |
| Weights.Round | blender2_8/io_mhw_import_export.py:67 | `round(val, prec)` as a count of `10^-prec` units: half to even on the exact value (definition; `RoundIsNearest` states it) |
| Weights.RoundIsNearest | blender2_8/io_mhw_import_export.py:67 | `round(val, prec)` is within half a unit of `val * 10^prec`, and an exact half goes to the even neighbour |
| Weights.Smallest | blender2_8/io_mhw_import_export.py:122 | the threshold is positive, at most 1, and exactly one unit of `10^-prec` |
| Weights.AboveThresholdRoundsNonZero | blender2_8/io_mhw_import_export.py:67-68 | a weight above `1/10^prec` never rounds to zero, so `appval`'s zero test never fires on exported data |
| Weights.ThresholdDropsSomeNonZeroRoundings | blender2_8/io_mhw_import_export.py:142 | 0.0008 at precision 3 fails the export filter though it rounds to one unit |
| Weights.RenderWeight | blender2_8/io_mhw_import_export.py:79 | `str(x)` of a rounded weight is a non-empty string of digits, '.', signs and 'e' |
| Weights.RenderMagnitude | blender2_8/io_mhw_import_export.py:79 | `str` of a positive rounded weight: fixed notation when the leading digit sits at 10^-4 up to 10^15, scientific otherwise; a non-empty number text |
| Weights.FixedNotation | blender2_8/io_mhw_import_export.py:79 | the digits with the decimal point placed `places` from the right, at least one digit after it; a non-empty number text |
| Weights.Scientific | blender2_8/io_mhw_import_export.py:79 | the first digit, the rest after a point, then `e`, a sign and an exponent of at least two digits; a non-empty number text |
| Weights.RenderTrailingZeroExamples | blender2_8/io_mhw_import_export.py:79 | 0.5 and 1.0 print without trailing zeros, a whole number with ".0" |
| Weights.RenderFixedExamples | blender2_8/io_mhw_import_export.py:79 | 0.0001 and 0.125 print in fixed notation |
| Weights.RenderScientificExamples | blender2_8/io_mhw_import_export.py:79 | 1e-05 and 1.5e-05 print in scientific notation with a two-digit exponent |
| Export.Collect | blender2_8/io_mhw_import_export.py:121-144 | every group gets an entry holding exactly its stored weights; `cnt` is the number of stores; `cnt == 0` exactly when no group stored anything; on a well-formed mesh `cnt` is the total number of stored pairs |
| Export.CollectGroup | blender2_8/io_mhw_import_export.py:133-144 | the inner two loops store each member vertex's weight above the threshold and count every store |
| Export.Occurrences | blender2_8/io_mhw_import_export.py:136-140 | a group index occurs in a vertex's memberships exactly when it is listed there |
| Export.Stored | blender2_8/io_mhw_import_export.py:133-143 | the group's stored weights after scanning the vertices in order, a later vertex with the same index overwriting (definition; `StoredIsMembersAboveThreshold` states it) |
| Export.Counted | blender2_8/io_mhw_import_export.py:133-144 | the number of stores made while scanning the vertices (definition; `CountedZeroIffNothingStored` and `CountedIsStoredSize` state it) |
| Export.StoredIsMembersAboveThreshold | blender2_8/io_mhw_import_export.py:140-143 | a vertex index is stored exactly when the vertex belongs to the group and its weight is strictly above the threshold, and it is stored with that weight |
| Export.StoredAboveThreshold | blender2_8/io_mhw_import_export.py:142-143 | every stored weight exceeds the threshold |
| Export.CountedZeroIffNothingStored | blender2_8/io_mhw_import_export.py:143-144 | a group's count is zero exactly when it stores nothing |
| Export.CountedIsStoredSize | blender2_8/io_mhw_import_export.py:143-144 | with distinct vertex indices and no repeated membership, a group's count is its number of stored pairs |
| Export.TotalCountIsStoredTotal | blender2_8/io_mhw_import_export.py:143-144 | with distinct vertex indices and no repeated membership, `cnt` is the total number of stored pairs |
| Export.TotalCount | blender2_8/io_mhw_import_export.py:123-144 | `cnt` after scanning a list of groups: the sum of their `Counted` (definition; `TotalZeroIffNothingStored` and `TotalCountIsStoredTotal` state it) |
| Export.TotalZeroIffNothingStored | blender2_8/io_mhw_import_export.py:146-148 | `cnt` is zero exactly when none of the scanned groups stored anything |
| Export.Collected | blender2_8/io_mhw_import_export.py:127-130 | every vertex group, and only those, has an entry in `outverts` |
| Export.ExportWeights | blender2_8/io_mhw_import_export.py:111-155 | no vertex groups gives `NoVertexGroups`; nothing stored gives `NoVerticesAssigned`; otherwise the file text is the header around `WeightsText` of the collected weights |
| Export.ExportedGroupsKeepEveryVertex | blender2_8/io_mhw_import_export.py:142-143 | every written group has one entry per stored vertex: the row formatter never drops an exported weight |
| Export.Header | blender2_8/io_mhw_import_export.py:150-155 | the file text: the metadata fields, then the weights body, then the closing braces (definition; the three lemmas below state where each part sits) |
| Export.QuotedFieldSpliced | blender2_8/io_mhw_import_export.py:150-153 | copyright, description, license and name each appear verbatim between a pair of quotes, without escaping |
| Export.VersionAndWeightsSpliced | blender2_8/io_mhw_import_export.py:154-155 | the version appears verbatim and unquoted between a space and a comma; the weights body appears verbatim, followed by the closing braces |
| Export.HeaderOffsets | blender2_8/io_mhw_import_export.py:150-154 | the fields appear in the order copyright, description, license, name, version, at fixed distances set by the key text between them |

## Left out

- Blender plumbing: switching to object mode, message boxes, the operator classes and the menu registration. This is host UI; the two messages are the `ExportError` values.
- Writing the file (lines 157-159): plain I/O. `ExportWeights` returns the text instead.
- `import_weights` (lines 161-183). It parses with `json.load` and creates groups through Blender's `vertex_groups` API, neither of which is part of this model. The only logic of its own is that with `replace` set, a group of the same name is removed before the new one is created (lines 175-177).
- `vgrp == None` (line 117): the model's mesh always has a group map, so only the empty case is modelled.
- Export.ExportWeights: the mesh is an abstract value (group map, vertex list, weight lookup), and vertex weights are read through a total function. Blender's lookup errors for vertices outside a group cannot occur because the lookup happens only after a membership match.
- Export.CountedIsStoredSize, Export.TotalCountIsStoredTotal, Export.Collect: "`cnt` equals the number of stored pairs" is proved only for meshes with distinct vertex indices and no repeated group membership. Otherwise `cnt` counts every store, and the model's `Counted` does the same.
- Weights.Round: a weight is a `real` standing for the exact value of the binary float, and Python's `round(val, prec)` rounds that exact value half to even, as the model does. The model also accepts reals that are not doubles, and it does not capture the floating-point error in `1/10**precision`, which the threshold comparison uses.
- Weights.RenderWeight: prints the exact decimal `k/10^prec`. `str` of a float prints the shortest decimal that round-trips, and this agrees when `k` has at most 15 significant digits. The contract states only the character set; the exact text is shown by the three example lemmas.
- Precision is a natural number. A negative precision, which Python would accept, is not modelled.
- Export.CollectGroup: the original fills `outverts[grp]` in place after creating it empty. The model builds the group's dictionary from empty in `CollectGroup` and then stores it, which gives the same map.
