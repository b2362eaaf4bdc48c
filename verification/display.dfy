/** The console table of main.go: `printHeader` and `printRow` as functions
    returning the text they would print, and the row the aggregator builds on
    every tick.

    Go's `%-14s` pads to a width counted in characters (runes), while the
    separator uses `len(key)`, a count of UTF-8 bytes. A Dafny `string` is a
    sequence of Unicode scalar values, so the model keeps both measures. */
module Display {

  /** The field width of `%-14s` and `%-14v`. */
  const Width := 14

  /** The column names, in order (main.go `metricKeys`). */
  const MetricKeys: seq<string> :=
    ["rps", "cli(mean)", "cli(90%)", "cli(99%)", "cli(99.9%)", "opa(mean)", "opa(90%)", "opa(99%)", "opa(99.9%)"]

  /** The histograms and summary statistics the tick reads, in loop order. */
  const ReportedHistograms: seq<string> := ["cli", "opa"]
  const Statistics: seq<string> := ["mean", "90%", "99%", "99.9%"]

  /** What `%v` prints for a missing map entry (a nil interface). */
  const NilText := "<nil>"

  /** `n` copies of the character `c`, as `strings.Repeat` builds them. */
  function Repeat(c: char, n: nat): (s: string)
    ensures |s| == n
    ensures forall i :: 0 <= i < n ==> s[i] == c
  {
    if n == 0 then "" else [c] + Repeat(c, n - 1)
  }

  /** `%-14s` on a string: the text, then spaces up to `Width` characters;
      a longer text is printed whole. */
  function Pad(s: string): (r: string)
    ensures |r| == if |s| < Width then Width else |s|
    ensures r[..|s|] == s
    ensures forall i :: |s| <= i < |r| ==> r[i] == ' '
  {
    if |s| < Width then s + Repeat(' ', Width - |s|) else s
  }

  /** One field as both printers emit it: padded text and one space. */
  function Field(s: string): (r: string)
    ensures |r| == (if |s| < Width then Width + 1 else |s| + 1)
    ensures r[..|s|] == s && r[|r| - 1] == ' '
    ensures forall i :: |s| <= i < |r| ==> r[i] == ' '
  {
    Pad(s) + " "
  }

  predicate FitsWidth(cells: seq<string>)
  {
    forall i :: 0 <= i < |cells| ==> |cells[i]| <= Width
  }

  predicate NoNewline(s: string)
  {
    forall i :: 0 <= i < |s| ==> s[i] != '\n'
  }

  /** Padding adds only spaces. */
  lemma FieldNoNewline(s: string)
    ensures NoNewline(s) ==> NoNewline(Field(s))
  {
    var f := Field(s);
    if NoNewline(s) {
      forall j | 0 <= j < |f|
        ensures f[j] != '\n'
      {
        if j < |s| {
          assert f[..|s|][j] == f[j];
        }
      }
    }
  }

  /** One line of fields, without its newline. */
  function Line(cells: seq<string>): (r: string)
    ensures (forall i :: 0 <= i < |cells| ==> NoNewline(cells[i])) ==> NoNewline(r)
    ensures FitsWidth(cells) ==> |r| == 15 * |cells|
  {
    if cells == [] then ""
    else
      var head, rest := Field(cells[0]), Line(cells[1..]);
      assert forall i :: 1 <= i < |cells| ==> cells[1..][i - 1] == cells[i];
      FieldNoNewline(cells[0]);
      head + rest
  }

  /** When every cell fits the width, field `i` occupies exactly the columns
      `15 * i` up to `15 * (i + 1)` (15 being `Width` plus the separating
      space): the columns line up. */
  lemma {:induction false} LineColumns(cells: seq<string>, i: nat)
    requires FitsWidth(cells) && i < |cells|
    ensures |Line(cells)| == 15 * |cells|
    ensures Line(cells)[15 * i..15 * (i + 1)] == Field(cells[i])
  {
    var head, rest := Field(cells[0]), Line(cells[1..]);
    LineFirst(cells);
    if i == 0 {
      SliceOfAppend(head, rest, 0, 15);
    } else {
      LineColumns(cells[1..], i - 1);
      SliceOfAppend(head, rest, 15 * i, 15 * (i + 1));
    }
  }

  /** A line of fitting cells is the first cell's 15-column field, then the
      line of the other cells, which fit as well. */
  lemma LineFirst(cells: seq<string>)
    requires FitsWidth(cells) && |cells| > 0
    ensures Line(cells) == Field(cells[0]) + Line(cells[1..])
    ensures |Field(cells[0])| == 15 && FitsWidth(cells[1..])
  {
    assert forall i :: 1 <= i < |cells| ==> cells[1..][i - 1] == cells[i];
  }

  /** Every column of a line of fitting cells, at once. */
  lemma LineAllColumns(cells: seq<string>)
    ensures FitsWidth(cells) ==> |Line(cells)| == 15 * |cells|
    ensures FitsWidth(cells) ==> forall i :: 0 <= i < |cells| ==> Line(cells)[15 * i..15 * (i + 1)] == Field(cells[i])
  {
    if FitsWidth(cells) {
      forall i | 0 <= i < |cells|
        ensures Line(cells)[15 * i..15 * (i + 1)] == Field(cells[i])
      {
        LineColumns(cells, i);
      }
    }
  }

  lemma SliceOfAppend(a: string, b: string, lo: nat, hi: nat)
    requires lo <= hi <= |a| + |b|
    requires hi <= |a| || |a| <= lo
    ensures hi <= |a| ==> (a + b)[lo..hi] == a[lo..hi]
    ensures |a| <= lo ==> (a + b)[lo..hi] == b[lo - |a|..hi - |a|]
  {
  }

  // ---------------------------------------------------------------------------
  // printHeader
  // ---------------------------------------------------------------------------

  /** The number of bytes of a character's UTF-8 encoding. */
  function Utf8Width(c: char): (n: nat)
    ensures 1 <= n <= 4
    ensures n == 1 <==> c as int < 0x80
  {
    if c as int < 0x80 then 1
    else if c as int < 0x800 then 2
    else if c as int < 0x10000 then 3
    else 4
  }

  /** Go's `len` on a string: its length in UTF-8 bytes. */
  function Utf8Length(s: string): (n: nat)
    ensures n >= |s|
    ensures n == |s| <==> IsAscii(s)
  {
    if s == "" then 0
    else
      assert IsAscii(s) <==> s[0] as int < 0x80 && IsAscii(s[1..]) by {
        assert forall i :: 1 <= i < |s| ==> s[1..][i - 1] == s[i];
      }
      Utf8Width(s[0]) + Utf8Length(s[1..])
  }

  predicate IsAscii(s: string)
  {
    forall i :: 0 <= i < |s| ==> s[i] as int < 0x80
  }

  /** The separator for a column: one dash per byte of the key's UTF-8
      encoding, since Go's `len` counts bytes. */
  function Rule(key: string): (r: string)
    ensures |r| == Utf8Length(key)
    ensures forall i :: 0 <= i < |r| ==> r[i] == '-'
  {
    Repeat('-', Utf8Length(key))
  }

  function Rules(keys: seq<string>): (rs: seq<string>)
    ensures |rs| == |keys|
    ensures forall i :: 0 <= i < |keys| ==> rs[i] == Rule(keys[i])
  {
    seq(|keys|, i requires 0 <= i < |keys| => Rule(keys[i]))
  }

  /** `r` ends in a newline and holds exactly one other, at `first`: two
      lines. */
  predicate TwoLinesSplitAt(r: string, first: int)
  {
    forall j :: 0 <= j < |r| ==> (r[j] == '\n' <==> j == first || j == |r| - 1)
  }

  /** `r` is two newline-terminated lines of 15-column fields: field `i` of
      the first line shows `top[i]`, field `i` of the second `bottom[i]`. */
  predicate TwoLinesInColumns(r: string, top: seq<string>, bottom: seq<string>)
  {
    && |top| == |bottom|
    && |r| == 30 * |top| + 2
    && forall i :: 0 <= i < |top| ==>
         && r[15 * i..15 * (i + 1)] == Field(top[i])
         && r[15 * |top| + 1 + 15 * i..15 * |top| + 1 + 15 * (i + 1)] == Field(bottom[i])
  }

  /** What `printHeader(keys)` prints: the names line and the separator line,
      each ending in a newline. With names free of newlines the text is
      exactly two lines; with names of at most `Width` bytes, name `i` fills
      columns `15 * i` to `15 * (i + 1)` of the first line and its dashes the
      same columns of the second. */
  function Header(keys: seq<string>): (r: string)
    ensures |r| == |Line(keys)| + |Line(Rules(keys))| + 2
    ensures r[..|Line(keys)|] == Line(keys) && r[|Line(keys)|] == '\n'
    ensures r[|Line(keys)| + 1..|r| - 1] == Line(Rules(keys)) && r[|r| - 1] == '\n'
    ensures (forall i :: 0 <= i < |keys| ==> NoNewline(keys[i])) ==> TwoLinesSplitAt(r, |Line(keys)|)
    ensures NamesFit(keys) ==> TwoLinesInColumns(r, keys, Rules(keys))
  {
    var r := Line(keys) + "\n" + Line(Rules(keys)) + "\n";
    TwoLinesText(Line(keys), Line(Rules(keys)), r);
    HeaderLines(keys, r);
    HeaderLayout(keys, r);
    r
  }

  /** Where the two lines and their newlines sit in `a`, newline, `b`,
      newline. */
  lemma TwoLinesText(a: string, b: string, r: string)
    requires r == a + "\n" + b + "\n"
    ensures |r| == |a| + |b| + 2
    ensures r[..|a|] == a && r[|a|] == '\n'
    ensures r[|a| + 1..|r| - 1] == b && r[|r| - 1] == '\n'
  {
  }

  /** Separators are dashes only, so they never hold a newline. */
  lemma RulesNoNewline(keys: seq<string>)
    ensures forall i :: 0 <= i < |keys| ==> NoNewline(Rules(keys)[i])
  {
  }

  lemma HeaderLines(keys: seq<string>, r: string)
    requires r == Line(keys) + "\n" + Line(Rules(keys)) + "\n"
    ensures (forall i :: 0 <= i < |keys| ==> NoNewline(keys[i])) ==> TwoLinesSplitAt(r, |Line(keys)|)
  {
    if forall i :: 0 <= i < |keys| ==> NoNewline(keys[i]) {
      RulesNoNewline(keys);
      TwoLines(Line(keys), Line(Rules(keys)), r);
    }
  }

  /** Two newline-free lines, each closed by a newline. */
  lemma TwoLines(a: string, b: string, r: string)
    requires NoNewline(a) && NoNewline(b) && r == a + "\n" + b + "\n"
    ensures TwoLinesSplitAt(r, |a|)
  {
    forall j | 0 <= j < |r|
      ensures r[j] == '\n' <==> j == |a| || j == |r| - 1
    {
      if j < |a| {
        assert r[j] == a[j];
      } else if |a| < j < |r| - 1 {
        assert r[j] == b[j - |a| - 1];
      }
    }
  }

  lemma HeaderLayout(keys: seq<string>, r: string)
    requires r == Line(keys) + "\n" + Line(Rules(keys)) + "\n"
    ensures NamesFit(keys) ==> TwoLinesInColumns(r, keys, Rules(keys))
  {
    if NamesFit(keys) {
      FittingHeaderLayout(keys, r);
    }
  }

  /** Every name is at most `Width` bytes long. */
  predicate NamesFit(keys: seq<string>)
  {
    forall i :: 0 <= i < |keys| ==> Utf8Length(keys[i]) <= Width
  }

  lemma FittingHeaderLayout(keys: seq<string>, r: string)
    requires NamesFit(keys)
    requires r == Line(keys) + "\n" + Line(Rules(keys)) + "\n"
    ensures TwoLinesInColumns(r, keys, Rules(keys))
  {
    FittingLines(keys);
    TwoLineColumns(Line(keys), Line(Rules(keys)), r, keys, Rules(keys));
  }

  /** `line` is the fields of `cells`, each 15 columns wide. */
  predicate InColumns(line: string, cells: seq<string>)
  {
    && |line| == 15 * |cells|
    && forall i :: 0 <= i < |cells| ==> line[15 * i..15 * (i + 1)] == Field(cells[i])
  }

  /** Names of at most `Width` bytes, and their separators, fill 15 columns
      each. */
  lemma FittingLines(keys: seq<string>)
    requires forall i :: 0 <= i < |keys| ==> Utf8Length(keys[i]) <= Width
    ensures InColumns(Line(keys), keys) && InColumns(Line(Rules(keys)), Rules(keys))
  {
    assert FitsWidth(keys) && FitsWidth(Rules(keys));
    LineAllColumns(keys);
    LineAllColumns(Rules(keys));
  }

  /** Two lines of fitting fields, each closed by a newline: field `i` of the
      second line starts `15 * |cs| + 1` characters further on. */
  lemma TwoLineColumns(a: string, b: string, r: string, cs: seq<string>, ds: seq<string>)
    requires |cs| == |ds| && InColumns(a, cs) && InColumns(b, ds)
    requires r == a + "\n" + b + "\n"
    ensures TwoLinesInColumns(r, cs, ds)
  {
    forall i | 0 <= i < |cs|
      ensures r[15 * i..15 * (i + 1)] == Field(cs[i])
      ensures r[15 * |cs| + 1 + 15 * i..15 * |cs| + 1 + 15 * (i + 1)] == Field(ds[i])
    {
      TwoLineColumn(a, b, r, |cs|, i);
    }
  }

  /** Column `i` of either line of two equally long lines of fields. */
  lemma TwoLineColumn(a: string, b: string, r: string, n: nat, i: nat)
    requires |a| == 15 * n && |b| == 15 * n && i < n
    requires r == a + "\n" + b + "\n"
    ensures r[15 * i..15 * (i + 1)] == a[15 * i..15 * (i + 1)]
    ensures r[15 * n + 1 + 15 * i..15 * n + 1 + 15 * (i + 1)] == b[15 * i..15 * (i + 1)]
  {
    assert r == a + ("\n" + b + "\n");
    SliceOfAppend(a, "\n" + b + "\n", 15 * i, 15 * (i + 1));
    assert r == (a + "\n") + (b + "\n");
    SliceOfAppend(a + "\n", b + "\n", 15 * n + 1 + 15 * i, 15 * n + 1 + 15 * (i + 1));
    SliceOfAppend(b, "\n", 15 * i, 15 * (i + 1));
  }

  /** A rule field is as wide as its key's field exactly when the key is
      ASCII or its byte length still fits the width. */
  lemma RuleFieldWidth(key: string)
    ensures |Field(Rule(key))| == |Field(key)| <==> IsAscii(key) || Utf8Length(key) <= Width
  {
    var n, u := |key|, Utf8Length(key);
    assert |Field(key)| == if n < Width then Width + 1 else n + 1;
    assert |Field(Rule(key))| == if u < Width then Width + 1 else u + 1;
    assert n <= u;
  }

  /** Two lines whose cells pair up with equal field widths have equal
      lengths. */
  lemma {:induction false} LineLengthsAgree(a: seq<string>, b: seq<string>)
    requires |a| == |b|
    requires forall i :: 0 <= i < |a| ==> |Field(a[i])| == |Field(b[i])|
    ensures |Line(a)| == |Line(b)|
  {
    if a != [] {
      LineLengthsAgree(a[1..], b[1..]);
    }
  }

  /** For ASCII column names the separator line is exactly as long as the
      names line. */
  lemma AsciiHeaderLinesAgree(keys: seq<string>)
    requires forall i :: 0 <= i < |keys| ==> IsAscii(keys[i])
    ensures |Line(keys)| == |Line(Rules(keys))|
  {
    forall i | 0 <= i < |keys|
      ensures |Field(keys[i])| == |Field(Rules(keys)[i])|
    {
      RuleFieldWidth(keys[i]);
    }
    LineLengthsAgree(keys, Rules(keys));
  }

  /** With names no longer than the width, name `i` and its dashes both start
      at column `15 * i`, and everything else on both lines is spaces. */
  lemma HeaderColumns(keys: seq<string>, i: nat)
    requires forall j :: 0 <= j < |keys| ==> Utf8Length(keys[j]) <= Width
    requires i < |keys|
    ensures |Line(keys)| == |Line(Rules(keys))| == 15 * |keys|
    ensures Line(keys)[15 * i..15 * (i + 1)] == Pad(keys[i]) + " "
    ensures Line(Rules(keys))[15 * i..15 * (i + 1)] == Pad(Repeat('-', Utf8Length(keys[i]))) + " "
  {
    assert FitsWidth(keys) && FitsWidth(Rules(keys));
    LineColumns(keys, i);
    LineColumns(Rules(keys), i);
  }

  // ---------------------------------------------------------------------------
  // printRow and the row a tick builds
  // ---------------------------------------------------------------------------

  /** `row[k]` rendered by `%v`: the value, or `<nil>` for a missing key. */
  function Cell(row: map<string, string>, key: string): (c: string)
    ensures key in row ==> c == row[key]
    ensures key !in row ==> c == NilText
    ensures (forall k :: k in row ==> NoNewline(row[k])) ==> NoNewline(c)
  {
    if key in row then row[key] else NilText
  }

  /** The cells of a row, in key order. */
  function Cells(keys: seq<string>, row: map<string, string>): (cs: seq<string>)
    ensures |cs| == |keys|
    ensures forall i :: 0 <= i < |keys| ==> cs[i] == Cell(row, keys[i])
  {
    seq(|keys|, i requires 0 <= i < |keys| => Cell(row, keys[i]))
  }

  /** What `printRow(keys, row)` prints: one field per key, in key order,
      then a newline. Values arrive already rendered. When every cell fits,
      key `i`'s value (or `<nil>`) fills columns `15 * i` to `15 * (i + 1)`;
      with values free of newlines the row is a single line. */
  function Row(keys: seq<string>, row: map<string, string>): (r: string)
    ensures |r| > 0 && r[|r| - 1] == '\n'
    ensures r[..|r| - 1] == Line(Cells(keys, row))
    ensures (forall i :: 0 <= i < |keys| ==> |Cell(row, keys[i])| <= Width) ==>
              && |r| == 15 * |keys| + 1
              && forall i :: 0 <= i < |keys| ==> r[15 * i..15 * (i + 1)] == Field(Cell(row, keys[i]))
    ensures (forall k :: k in row ==> NoNewline(row[k])) ==> NoNewline(r[..|r| - 1])
  {
    var cells := Cells(keys, row);
    var r := Line(cells) + "\n";
    LineAllColumns(cells);
    forall i | 0 <= i < |keys| && FitsWidth(cells)
      ensures r[15 * i..15 * (i + 1)] == Field(cells[i])
    {
      SliceOfAppend(Line(cells), "\n", 15 * i, 15 * (i + 1));
    }
    assert r[..|r| - 1] == Line(cells);
    r
  }

  /** `%v(%v)` of a histogram name and a statistic: the name, then the
      statistic in parentheses. */
  function StatisticKey(h: string, stat: string): (k: string)
    ensures |k| == |h| + |stat| + 2
  {
    h + "(" + stat + ")"
  }

  /** A statistic key reads back as its histogram name, an opening
      parenthesis, the statistic and a closing parenthesis. */
  lemma StatisticKeyParts(h: string, stat: string)
    ensures var k := StatisticKey(h, stat);
      && k[..|h|] == h && k[|h|] == '(' && k[|h| + 1..|k| - 1] == stat && k[|k| - 1] == ')'
  {
    var k := StatisticKey(h, stat);
    assert k == (h + "(" + stat) + ")";
    assert k[..|h| + 1 + |stat|] == h + "(" + stat;
  }

  /** Within one histogram, distinct statistics give distinct keys. */
  lemma StatisticKeyInjective(h: string, a: string, b: string)
    ensures StatisticKey(h, a) == StatisticKey(h, b) <==> a == b
  {
    StatisticKeyParts(h, a);
    StatisticKeyParts(h, b);
  }

  /** The inner loop of a tick: store each statistic of histogram `h`. The
      row then holds every statistic of `h` under its key and is unchanged
      elsewhere. */
  function PutStatistics(row: map<string, string>, h: string, stats: seq<string>,
                         value: (string, string) -> string): (r: map<string, string>)
    ensures r.Keys == row.Keys + (set stat | stat in stats :: StatisticKey(h, stat))
    ensures forall stat :: stat in stats ==> r[StatisticKey(h, stat)] == value(h, stat)
    ensures forall k :: k in row && k !in (set stat | stat in stats :: StatisticKey(h, stat)) ==> r[k] == row[k]
    decreases |stats|
  {
    if stats == [] then row
    else
      var next := row[StatisticKey(h, stats[0]) := value(h, stats[0])];
      var r := PutStatistics(next, h, stats[1..], value);
      PutStatisticsStep(row, h, stats, value, next, r);
      r
  }

  /** One iteration of the inner loop, composed with the rest of it. */
  lemma PutStatisticsStep(row: map<string, string>, h: string, stats: seq<string>, value: (string, string) -> string,
                          next: map<string, string>, r: map<string, string>)
    requires |stats| > 0
    requires next == row[StatisticKey(h, stats[0]) := value(h, stats[0])]
    requires r.Keys == next.Keys + (set stat | stat in stats[1..] :: StatisticKey(h, stat))
    requires forall stat :: stat in stats[1..] ==> r[StatisticKey(h, stat)] == value(h, stat)
    requires forall k :: k in next && k !in (set stat | stat in stats[1..] :: StatisticKey(h, stat)) ==> r[k] == next[k]
    ensures r.Keys == row.Keys + (set stat | stat in stats :: StatisticKey(h, stat))
    ensures forall stat :: stat in stats ==> r[StatisticKey(h, stat)] == value(h, stat)
    ensures forall k :: k in row && k !in (set stat | stat in stats :: StatisticKey(h, stat)) ==> r[k] == row[k]
  {
    var key := StatisticKey(h, stats[0]);
    assert forall stat :: stat in stats <==> stat == stats[0] || stat in stats[1..];
    forall stat | stat in stats
      ensures r[StatisticKey(h, stat)] == value(h, stat)
    {
      if stat !in stats[1..] {
        forall other | other in stats[1..]
          ensures key != StatisticKey(h, other)
        {
          StatisticKeyInjective(h, stats[0], other);
        }
      }
    }
  }

  /** The keys under which a tick stores the statistics of the histograms
      `hs`. */
  function StatisticKeysOfAll(hs: seq<string>): set<string>
    decreases |hs|
  {
    if hs == [] then {} else (set stat | stat in Statistics :: StatisticKey(hs[0], stat)) + StatisticKeysOfAll(hs[1..])
  }

  /** The outer loop of a tick: store the statistics of every histogram. The
      row then holds the key of every statistic of every histogram and is
      unchanged elsewhere. */
  function PutHistograms(row: map<string, string>, hs: seq<string>, value: (string, string) -> string): (r: map<string, string>)
    ensures r.Keys == row.Keys + StatisticKeysOfAll(hs)
    ensures forall k :: k in row && k !in StatisticKeysOfAll(hs) ==> r[k] == row[k]
    decreases |hs|
  {
    if hs == [] then row
    else
      var next := PutStatistics(row, hs[0], Statistics, value);
      var r := PutHistograms(next, hs[1..], value);
      PutHistogramsStep(row, hs, next, r);
      r
  }

  /** One iteration of the outer loop, composed with the rest of it. */
  lemma PutHistogramsStep(row: map<string, string>, hs: seq<string>, next: map<string, string>, r: map<string, string>)
    requires |hs| > 0
    requires next.Keys == row.Keys + (set stat | stat in Statistics :: StatisticKey(hs[0], stat))
    requires forall k :: k in row && k !in (set stat | stat in Statistics :: StatisticKey(hs[0], stat)) ==> next[k] == row[k]
    requires r.Keys == next.Keys + StatisticKeysOfAll(hs[1..])
    requires forall k :: k in next && k !in StatisticKeysOfAll(hs[1..]) ==> r[k] == next[k]
    ensures r.Keys == row.Keys + StatisticKeysOfAll(hs)
    ensures forall k :: k in row && k !in StatisticKeysOfAll(hs) ==> r[k] == row[k]
  {
  }

  /** Every statistic of every histogram the outer loop visits ends up
      stored under its key, whatever else the loop stores: a name visited
      twice stores the same values again, and keys of different histograms
      never collide. */
  lemma {:induction false} PutHistogramsValues(row: map<string, string>, hs: seq<string>, value: (string, string) -> string)
    ensures forall h, stat :: h in hs && stat in Statistics ==>
              var r := PutHistograms(row, hs, value);
              StatisticKey(h, stat) in r && r[StatisticKey(h, stat)] == value(h, stat)
    decreases |hs|
  {
    if hs != [] {
      var next := PutStatistics(row, hs[0], Statistics, value);
      PutHistogramsFirst(row, hs, value);
      PutHistogramsValues(next, hs[1..], value);
      forall h, stat | h in hs && stat in Statistics
        ensures var r := PutHistograms(row, hs, value);
                StatisticKey(h, stat) in r && r[StatisticKey(h, stat)] == value(h, stat)
      {
        if h !in hs[1..] {
          assert h == hs[0];
          KeyOfOtherHistogram(h, stat, hs[1..]);
        }
      }
    }
  }

  /** The statistic keys of histograms other than `h` do not include a key
      of `h`. */
  lemma {:induction false} KeyOfOtherHistogram(h: string, stat: string, hs: seq<string>)
    requires stat in Statistics && h !in hs
    ensures StatisticKey(h, stat) !in StatisticKeysOfAll(hs)
    decreases |hs|
  {
    if hs != [] {
      forall other | other in Statistics
        ensures StatisticKey(h, stat) != StatisticKey(hs[0], other)
      {
        StatisticKeyPairInjective(h, hs[0], stat, other);
      }
      assert h !in hs[1..];
      KeyOfOtherHistogram(h, stat, hs[1..]);
    }
  }

  /** Over the four statistics a tick reads, a key determines both the
      histogram and the statistic: the statistics differ in their last
      three characters. */
  lemma StatisticKeyPairInjective(h1: string, h2: string, a: string, b: string)
    requires a in Statistics && b in Statistics
    ensures StatisticKey(h1, a) == StatisticKey(h2, b) <==> h1 == h2 && a == b
  {
    if StatisticKey(h1, a) == StatisticKey(h2, b) {
      var k := StatisticKey(h1, a);
      StatisticKeyParts(h1, a);
      StatisticKeyParts(h2, b);
      SameEnding(k[..|k| - 1], a, b, |h1| + 1, |h2| + 1);
      StatisticEndings(a, b);
      assert k[..|h1|] == h1 && k[..|h2|] == h2;
    }
  }

  /** Two suffixes of one text, each at least three characters long, end in
      the same three characters. */
  lemma SameEnding(s: string, a: string, b: string, i: nat, j: nat)
    requires i <= |s| && j <= |s| && s[i..] == a && s[j..] == b && |a| >= 3 && |b| >= 3
    ensures a[|a| - 3..] == b[|b| - 3..]
  {
    assert a[|a| - 3..] == s[|s| - 3..];
    assert b[|b| - 3..] == s[|s| - 3..];
  }

  /** The four statistics differ in their last three characters. */
  lemma StatisticEndings(a: string, b: string)
    requires a in Statistics && b in Statistics
    ensures |a| >= 3 && |b| >= 3
    ensures a[|a| - 3..] == b[|b| - 3..] ==> a == b
  {
    assert a == "mean" || a == "90%" || a == "99%" || a == "99.9%";
    assert b == "mean" || b == "90%" || b == "99%" || b == "99.9%";
  }

  /** The row a tick fills (main.go:134-146): `rps`, then under
      `histogram(statistic)` the rendered value of each statistic of each
      reported histogram. The values come from the metrics library. */
  function TickRow(rps: string, value: (string, string) -> string): (row: map<string, string>)
    ensures row.Keys == {"rps"} + StatisticKeysOfAll(ReportedHistograms)
    ensures "rps" in row && row["rps"] == rps
  {
    var row := PutHistograms(map["rps" := rps], ReportedHistograms, value);
    RpsKept(rps, ReportedHistograms, row);
    row
  }

  /** The outer loop keeps `rps` and adds the statistic keys to it. */
  lemma RpsKept(rps: string, hs: seq<string>, row: map<string, string>)
    requires row.Keys == map["rps" := rps].Keys + StatisticKeysOfAll(hs)
    requires forall k :: k in map["rps" := rps] && k !in StatisticKeysOfAll(hs) ==> row[k] == map["rps" := rps][k]
    ensures row.Keys == {"rps"} + StatisticKeysOfAll(hs)
    ensures "rps" in row && row["rps"] == rps
  {
    RpsIsNoStatisticKey(hs);
  }

  /** A statistic key ends in a closing parenthesis, so `rps` is none. */
  lemma RpsIsNoStatisticKey(hs: seq<string>)
    ensures "rps" !in StatisticKeysOfAll(hs)
    decreases |hs|
  {
    if hs != [] {
      forall stat | stat in Statistics
        ensures StatisticKey(hs[0], stat) != "rps"
      {
        StatisticKeyParts(hs[0], stat);
      }
      RpsIsNoStatisticKey(hs[1..]);
    }
  }

  /** The keys a tick stores for one histogram. */
  lemma StatisticKeysOf(h: string)
    ensures (set stat | stat in Statistics :: StatisticKey(h, stat))
         == {StatisticKey(h, "mean"), StatisticKey(h, "90%"), StatisticKey(h, "99%"), StatisticKey(h, "99.9%")}
  {
    assert forall stat :: stat in Statistics <==> stat == "mean" || stat == "90%" || stat == "99%" || stat == "99.9%";
  }

  /** The keys a tick stores for one histogram, spelled out. */
  lemma StatisticKeysSpelled()
    ensures StatisticKey("cli", "mean") == "cli(mean)" && StatisticKey("cli", "90%") == "cli(90%)"
    ensures StatisticKey("cli", "99%") == "cli(99%)" && StatisticKey("cli", "99.9%") == "cli(99.9%)"
    ensures StatisticKey("opa", "mean") == "opa(mean)" && StatisticKey("opa", "90%") == "opa(90%)"
    ensures StatisticKey("opa", "99%") == "opa(99%)" && StatisticKey("opa", "99.9%") == "opa(99.9%)"
  {
  }

  /** One pass of the inner loop over `Statistics`, with the keys spelled out. */
  lemma PutFourStatistics(row: map<string, string>, h: string, value: (string, string) -> string)
    ensures var r := PutStatistics(row, h, Statistics, value);
      && r.Keys == row.Keys + {StatisticKey(h, "mean"), StatisticKey(h, "90%"), StatisticKey(h, "99%"), StatisticKey(h, "99.9%")}
      && r[StatisticKey(h, "mean")] == value(h, "mean") && r[StatisticKey(h, "90%")] == value(h, "90%")
      && r[StatisticKey(h, "99%")] == value(h, "99%") && r[StatisticKey(h, "99.9%")] == value(h, "99.9%")
      && (forall k :: k in row && k !in {StatisticKey(h, "mean"), StatisticKey(h, "90%"), StatisticKey(h, "99%"), StatisticKey(h, "99.9%")} ==> r[k] == row[k])
  {
    FourStatistics(row, h, value, PutStatistics(row, h, Statistics, value));
  }

  /** The contract of the inner loop over `Statistics`, with the keys spelled
      out. */
  lemma FourStatistics(row: map<string, string>, h: string, value: (string, string) -> string, r: map<string, string>)
    requires r.Keys == row.Keys + (set stat | stat in Statistics :: StatisticKey(h, stat))
    requires forall stat :: stat in Statistics ==> r[StatisticKey(h, stat)] == value(h, stat)
    requires forall k :: k in row && k !in (set stat | stat in Statistics :: StatisticKey(h, stat)) ==> r[k] == row[k]
    ensures r.Keys == row.Keys + {StatisticKey(h, "mean"), StatisticKey(h, "90%"), StatisticKey(h, "99%"), StatisticKey(h, "99.9%")}
    ensures r[StatisticKey(h, "mean")] == value(h, "mean") && r[StatisticKey(h, "90%")] == value(h, "90%")
    ensures r[StatisticKey(h, "99%")] == value(h, "99%") && r[StatisticKey(h, "99.9%")] == value(h, "99.9%")
    ensures forall k :: k in row && k !in {StatisticKey(h, "mean"), StatisticKey(h, "90%"), StatisticKey(h, "99%"), StatisticKey(h, "99.9%")} ==> r[k] == row[k]
  {
    StatisticKeysOf(h);
    assert "mean" in Statistics && "90%" in Statistics && "99%" in Statistics && "99.9%" in Statistics;
  }

  /** The row a tick fills is the inner loop run for `cli`, then for `opa`. */
  lemma TickRowUnfolds(rps: string, value: (string, string) -> string)
    ensures TickRow(rps, value)
         == PutStatistics(PutStatistics(map["rps" := rps], "cli", Statistics, value), "opa", Statistics, value)
  {
    var row0 := map["rps" := rps];
    var row1 := PutStatistics(row0, "cli", Statistics, value);
    var row2 := PutStatistics(row1, "opa", Statistics, value);
    PutHistogramsFirst(row0, ReportedHistograms, value);
    assert ReportedHistograms[1..] == ["opa"];
    PutHistogramsFirst(row1, ["opa"], value);
    assert ["opa"][1..] == [];
    PutHistogramsNone(row2, value);
  }

  /** One iteration of the outer loop. */
  lemma PutHistogramsFirst(row: map<string, string>, hs: seq<string>, value: (string, string) -> string)
    requires |hs| > 0
    ensures PutHistograms(row, hs, value) == PutHistograms(PutStatistics(row, hs[0], Statistics, value), hs[1..], value)
  {
  }

  /** The outer loop over no histograms changes nothing. */
  lemma PutHistogramsNone(row: map<string, string>, value: (string, string) -> string)
    ensures PutHistograms(row, [], value) == row
  {
  }

  /** The keys of the row a tick builds. */
  lemma TickRowKeys(rps: string, value: (string, string) -> string)
    ensures TickRow(rps, value).Keys
         == {"rps", "cli(mean)", "cli(90%)", "cli(99%)", "cli(99.9%)", "opa(mean)", "opa(90%)", "opa(99%)", "opa(99.9%)"}
  {
    ReportedKeys();
  }

  /** The statistic keys of the two reported histograms, spelled out. */
  lemma ReportedKeys()
    ensures StatisticKeysOfAll(ReportedHistograms)
         == {"cli(mean)", "cli(90%)", "cli(99%)", "cli(99.9%)", "opa(mean)", "opa(90%)", "opa(99%)", "opa(99.9%)"}
  {
    assert ReportedHistograms[1..] == ["opa"] && ["opa"][1..] == [];
    StatisticKeysOf("cli");
    StatisticKeysOf("opa");
    StatisticKeysSpelled();
  }

  /** The entries of the row a tick builds, key by key. */
  lemma TickRowEntries(rps: string, value: (string, string) -> string)
    ensures var row := TickRow(rps, value);
      && row.Keys == {"rps", "cli(mean)", "cli(90%)", "cli(99%)", "cli(99.9%)",
                      "opa(mean)", "opa(90%)", "opa(99%)", "opa(99.9%)"}
      && row["rps"] == rps
      && row["cli(mean)"] == value("cli", "mean") && row["cli(90%)"] == value("cli", "90%")
      && row["cli(99%)"] == value("cli", "99%") && row["cli(99.9%)"] == value("cli", "99.9%")
      && row["opa(mean)"] == value("opa", "mean") && row["opa(90%)"] == value("opa", "90%")
      && row["opa(99%)"] == value("opa", "99%") && row["opa(99.9%)"] == value("opa", "99.9%")
  {
    var row0 := map["rps" := rps];
    var row1 := PutStatistics(row0, "cli", Statistics, value);
    TickRowKeys(rps, value);
    TickRowUnfolds(rps, value);
    StatisticKeysSpelled();
    PutFourStatistics(row0, "cli", value);
    PutFourStatistics(row1, "opa", value);
  }

  /** A row is the line of its cells, then a newline. */
  lemma RowIsLine(keys: seq<string>, row: map<string, string>)
    ensures Row(keys, row) == Line(Cells(keys, row)) + "\n"
  {
    var r := Row(keys, row);
    assert r == r[..|r| - 1] + [r[|r| - 1]];
  }

  /** The header's keys are exactly the keys of the row a tick fills. */
  lemma TickRowKeysAreMetricKeys(rps: string, value: (string, string) -> string)
    ensures TickRow(rps, value).Keys == set k | k in MetricKeys
  {
    TickRowKeys(rps, value);
  }

  /** The cells a tick's row shows under the header, in header order. */
  lemma TickRowCells(rps: string, value: (string, string) -> string)
    ensures Cells(MetricKeys, TickRow(rps, value)) == TickValues(rps, value)
  {
    TickRowEntries(rps, value);
    CellsOfTickEntries(TickRow(rps, value), rps, value);
  }

  /** The nine values a tick shows, in header order. */
  function TickValues(rps: string, value: (string, string) -> string): (vs: seq<string>)
    ensures |vs| == |MetricKeys|
  {
    [rps,
     value("cli", "mean"), value("cli", "90%"), value("cli", "99%"), value("cli", "99.9%"),
     value("opa", "mean"), value("opa", "90%"), value("opa", "99%"), value("opa", "99.9%")]
  }

  /** Any row holding the entries of a tick shows the tick's values. */
  lemma CellsOfTickEntries(row: map<string, string>, rps: string, value: (string, string) -> string)
    requires row.Keys == {"rps", "cli(mean)", "cli(90%)", "cli(99%)", "cli(99.9%)",
                          "opa(mean)", "opa(90%)", "opa(99%)", "opa(99.9%)"}
    requires row["rps"] == rps
    requires row["cli(mean)"] == value("cli", "mean") && row["cli(90%)"] == value("cli", "90%")
    requires row["cli(99%)"] == value("cli", "99%") && row["cli(99.9%)"] == value("cli", "99.9%")
    requires row["opa(mean)"] == value("opa", "mean") && row["opa(90%)"] == value("opa", "90%")
    requires row["opa(99%)"] == value("opa", "99%") && row["opa(99.9%)"] == value("opa", "99.9%")
    ensures Cells(MetricKeys, row) == TickValues(rps, value)
  {
    CellsAre(MetricKeys, row, TickValues(rps, value));
  }

  /** The cells of a row that holds value `want[i]` under key `i`. */
  lemma CellsAre(keys: seq<string>, row: map<string, string>, want: seq<string>)
    requires |want| == |keys|
    requires forall i :: 0 <= i < |keys| ==> keys[i] in row && row[keys[i]] == want[i]
    ensures Cells(keys, row) == want
  {
  }

  /** The row a tick fills matches the header: it has exactly the header's
      keys, so the printed line shows the nine values in header order and
      never `<nil>`. */
  lemma TickRowMatchesHeader(rps: string, value: (string, string) -> string)
    ensures TickRow(rps, value).Keys == set k | k in MetricKeys
    ensures Row(MetricKeys, TickRow(rps, value))
         == Line([rps,
                  value("cli", "mean"), value("cli", "90%"), value("cli", "99%"), value("cli", "99.9%"),
                  value("opa", "mean"), value("opa", "90%"), value("opa", "99%"), value("opa", "99.9%")]) + "\n"
  {
    TickRowKeysAreMetricKeys(rps, value);
    TickRowCells(rps, value);
    assert TickValues(rps, value)
        == [rps,
            value("cli", "mean"), value("cli", "90%"), value("cli", "99%"), value("cli", "99.9%"),
            value("opa", "mean"), value("opa", "90%"), value("opa", "99%"), value("opa", "99.9%")];
    RowIsLine(MetricKeys, TickRow(rps, value));
  }
}
