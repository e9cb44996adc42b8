/** The text layout of one group's entries: `mcol` entries per row, each row on
    its own tab-indented line, and the column cursor that produces it. */
module RowLayout {

  /** Euclidean division by a positive divisor is determined by any quotient and
      remainder that fit. */
  lemma DivModUnique(x: int, d: int, r: int, m: int)
    requires m >= 1 && 0 <= r < m && x == d * m + r
    ensures x / m == d && x % m == r
  {
    var q, s := x / m, x % m;
    assert x == q * m + s && 0 <= s < m;
    assert (q - d) * m == r - s by {
      assert (q - d) * m == q * m - d * m;
    }
    if q > d {
      MulAtLeast(q - d, m);
    } else if q < d {
      MulAtLeast(d - q, m);
    }
  }

  lemma MulAtLeast(e: int, m: int)
    requires e >= 1 && m >= 1
    ensures e * m >= m
  {
    assert e * m == (e - 1) * m + m;
  }

  lemma DivStep(x: nat, m: nat)
    requires m >= 1
    ensures (x + m) / m == x / m + 1
  {
    DivModUnique(x + m, x / m + 1, x % m, m);
  }

  lemma ModAfterMultiple(a: nat, j: nat, m: nat)
    requires m >= 1 && a % m == 0
    ensures (a + j) % m == j % m
  {
    DivModUnique(a + j, a / m + j / m, j % m, m);
  }

  /** The parts, `sep` between consecutive ones (Python's `sep.join(parts)`). */
  function Join(parts: seq<string>, sep: string): string {
    if |parts| == 0 then ""
    else if |parts| == 1 then parts[0]
    else Join(parts[..|parts| - 1], sep) + sep + parts[|parts| - 1]
  }

  lemma {:induction false} JoinCons(x: string, rest: seq<string>, sep: string)
    requires |rest| >= 1
    ensures Join([x] + rest, sep) == x + sep + Join(rest, sep)
    decreases |rest|
  {
    var s := [x] + rest;
    if |rest| > 1 {
      var init := rest[..|rest| - 1];
      assert s[..|s| - 1] == [x] + init;
      JoinCons(x, init, sep);
    } else {
      assert s[..|s| - 1] == [x];
    }
  }

  /** Appending to joined text: the separator goes in only when the text so far
      is not empty, which, for parts that are not empty, is when there were parts. */
  lemma JoinExtend(parts: seq<string>, x: string, sep: string)
    requires forall i :: 0 <= i < |parts| ==> parts[i] != ""
    ensures var t := Join(parts, sep);
      (if t != "" then t + sep else t) + x == Join(parts + [x], sep)
  {
    assert (parts + [x])[..|parts|] == parts;
    if parts != [] {
      var last := parts[|parts| - 1];
      var whole := Join(parts, sep);
      if |parts| > 1 {
        assert whole[|whole| - |last|..] == last;
      }
    }
  }

  /** What precedes the entry that has `i` entries of its group before it: the
      first entry opens the first line, an entry after a full row of `mcol`
      entries opens a new line, any other entry continues its row. */
  function Sep(i: nat, mcol: int): string {
    if i == 0 then "\t\t"
    else if mcol >= 1 && i % mcol == 0 then ",\n\t\t"
    else ", "
  }

  /** The body of a group whose rendered entries are `entries`. */
  function Layout(entries: seq<string>, mcol: int): string {
    if entries == [] then ""
    else Layout(entries[..|entries| - 1], mcol) + Sep(|entries| - 1, mcol) + entries[|entries| - 1]
  }

  /** One more entry extends the layout by its separator and its text. */
  lemma LayoutAppend(entries: seq<string>, e: string, mcol: int)
    ensures Layout(entries + [e], mcol) == Layout(entries, mcol) + Sep(|entries|, mcol) + e
  {
    assert (entries + [e])[..|entries|] == entries;
  }

  /** The column cursor after `n` entries of a group: -1 before the first one,
      then the number of entries on the current row, reset to 0 when a row
      reaches `mcol` entries. */
  function Cursor(n: nat, mcol: int): (c: int)
    ensures c == -1 <==> n == 0
    ensures mcol >= 1 && n >= 1 ==> 0 <= c < mcol
    ensures mcol <= 0 && n >= 1 ==> c == n
  {
    if n == 0 then -1
    else
      var prev := Cursor(n - 1, mcol);
      var c := if prev < 0 then 1 else prev + 1;
      if c == mcol then 0 else c
  }

  /** Counting up by one moves the remainder up by one, wrapping to 0 at `m`. */
  lemma ModStep(x: nat, m: int)
    requires m >= 1
    ensures (x + 1) % m == if x % m + 1 == m then 0 else x % m + 1
  {
    var q, r := x / m, x % m;
    if r + 1 == m {
      DivModUnique(x + 1, q + 1, 0, m);
    } else {
      DivModUnique(x + 1, q, r + 1, m);
    }
  }

  /** With positive `mcol` the cursor is the entry count modulo `mcol`. */
  lemma {:induction false} CursorIsRemainder(n: nat, mcol: int)
    requires mcol >= 1 && n >= 1
    ensures Cursor(n, mcol) == n % mcol
  {
    if n == 1 {
      DivModUnique(0, 0, 0, mcol);
      ModStep(0, mcol);
    } else {
      CursorIsRemainder(n - 1, mcol);
      ModStep(n - 1, mcol);
    }
  }

  /** The cursor state machine writes exactly the separators of `Sep`. */
  lemma CursorStep(n: nat, mcol: int)
    ensures Sep(n, mcol) ==
      if Cursor(n, mcol) == 0 then ",\n\t\t" else if Cursor(n, mcol) < 0 then "\t\t" else ", "
  {
    if mcol >= 1 && n >= 1 {
      CursorIsRemainder(n, mcol);
    }
  }

  /** A group of at most `mcol` entries, or any group when `mcol` is not
      positive and rows never fill, sits on one line. */
  lemma {:induction false} LayoutSingleRow(s: seq<string>, mcol: int)
    requires |s| >= 1 && (mcol <= 0 || |s| <= mcol)
    ensures Layout(s, mcol) == "\t\t" + Join(s, ", ")
    decreases |s|
  {
    if |s| > 1 {
      var init := s[..|s| - 1];
      LayoutSingleRow(init, mcol);
      if mcol >= 1 {
        DivModUnique(|s| - 1, 0, |s| - 1, mcol);
      }
    }
  }

  /** After a whole number of full rows, separators repeat those of a fresh group,
      except that the first entry opens a new line. */
  lemma SepAfterFullRows(a: nat, j: nat, m: nat)
    requires m >= 1 && a >= 1 && a % m == 0
    ensures Sep(a + j, m) == if j == 0 then ",\n\t\t" else Sep(j, m)
  {
    ModAfterMultiple(a, j, m);
  }

  /** After a whole number of full rows the layout starts a fresh line. */
  lemma {:induction false} LayoutSplit(a: seq<string>, b: seq<string>, m: nat)
    requires m >= 1 && |a| >= 1 && |a| % m == 0 && |b| >= 1
    ensures Layout(a + b, m) == Layout(a, m) + ",\n" + Layout(b, m)
    decreases |b|
  {
    var s := a + b;
    var last := |s| - 1;
    var init := b[..|b| - 1];
    assert s[..last] == a + init;
    assert Layout(s, m) == Layout(a + init, m) + Sep(last, m) + b[|b| - 1];
    SepAfterFullRows(|a|, |init|, m);
    if |b| == 1 {
      assert a + init == a;
      assert Layout(b, m) == "\t\t" + b[0];
    } else {
      LayoutSplit(a, init, m);
      assert Layout(b, m) == Layout(init, m) + Sep(|init|, m) + b[|b| - 1];
      ConcatRegroup(Layout(a, m), ",\n", Layout(init, m), Sep(|init|, m), b[|b| - 1]);
    }
  }

  lemma ConcatRegroup(x: string, y: string, z: string, u: string, w: string)
    ensures (x + y + z) + u + w == x + y + (z + u + w)
  {
  }

  function Flatten(rows: seq<seq<string>>): seq<string> {
    if rows == [] then [] else rows[0] + Flatten(rows[1..])
  }

  /** The entries cut into consecutive rows of `m`, the last row possibly shorter. */
  function Rows(s: seq<string>, m: nat): (rows: seq<seq<string>>)
    requires m >= 1
    ensures |rows| == (|s| + m - 1) / m
    ensures forall i :: 0 <= i < |rows| - 1 ==> |rows[i]| == m
    ensures |rows| > 0 ==> 1 <= |rows[|rows| - 1]| <= m
    ensures Flatten(rows) == s
    decreases |s|
  {
    if |s| == 0 then
      DivModUnique(m - 1, 0, m - 1, m);
      []
    else if |s| <= m then
      DivModUnique(|s| + m - 1, 1, |s| - 1, m);
      [s]
    else
      var rest := Rows(s[m..], m);
      DivStep(|s| - 1, m);
      assert s[..m] + s[m..] == s;
      [s[..m]] + rest
  }

  /** Each row as a line: two tabs, then its entries separated by ", ". */
  function RowLines(rows: seq<seq<string>>): (lines: seq<string>)
    ensures |lines| == |rows|
  {
    if rows == [] then [] else ["\t\t" + Join(rows[0], ", ")] + RowLines(rows[1..])
  }

  /** The layout is the group's rows, one per line, lines joined by ",\n":
      n entries take ceil(n / m) lines, each full but the last. */
  lemma {:induction false} LayoutRows(s: seq<string>, m: nat)
    requires m >= 1 && |s| >= 1
    ensures Layout(s, m) == Join(RowLines(Rows(s, m)), ",\n")
    decreases |s|
  {
    if |s| <= m {
      LayoutSingleRow(s, m);
    } else {
      var a, b := s[..m], s[m..];
      assert a + b == s;
      DivModUnique(m, 1, 0, m);
      LayoutSplit(a, b, m);
      LayoutSingleRow(a, m);
      LayoutRows(b, m);
      var tail := RowLines(Rows(b, m));
      JoinCons("\t\t" + Join(a, ", "), tail, ",\n");
    }
  }

  /** Ten entries at four columns make three lines of 4, 4 and 2 entries. */
  lemma TenEntriesInFourColumns(s: seq<string>)
    requires |s| == 10
    ensures var rows := Rows(s, 4);
      |rows| == 3 && |rows[0]| == 4 && |rows[1]| == 4 && |rows[2]| == 2
  {
    var rows := Rows(s, 4);
    assert rows[1..][1..] == rows[2..] && rows[2..][1..] == [];
    assert Flatten(rows[2..]) == rows[2];
    assert Flatten(rows[1..]) == rows[1] + rows[2];
  }
}
