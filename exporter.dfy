/** The text exporter (TerminalPaint.export): a row-major scan of the grid
    that writes one space per cell and a newline per row, and writes a colour
    marker before a cell only when the cell's colour key differs from the
    key of the cell before it. */
module Exporter {
  import opened Geometry

  /** The marker a transparent cell emits: the literal text `\x1b[0m`
      (backslash, x, 1, b, bracket, 0, m), not an escape character. */
  const Reset: string := "\\x1b[0m"

  /** The colour key of a transparent cell, and the key the scan starts with. */
  const TransparentKey: string := "transparent"

  /** The template of the export button: literal text `\x1b[48;2;rrr;ggg;bbbm`,
      written in pieces around its three placeholders. */
  const EscapeTemplate: string := EscapePrefix + "rrr" + ";" + "ggg" + ";" + "bbb" + "m"

  /** The part of the export button's template before the red channel:
      literal text `\x1b[48;2;`. */
  const EscapePrefix: string := "\\x1b[48;2;"

  // ---------------------------------------------------------------------------
  // Decimal text of a channel value (Number.prototype.toString)

  function DigitChar(d: int): char
    requires 0 <= d <= 9
  {
    "0123456789"[d]
  }

  predicate IsDigit(c: char)
  {
    '0' as int <= c as int <= '9' as int
  }

  /** Decimal text of `n`, most significant digit first, with no leading zero. */
  function Decimal(n: nat): (s: string)
    ensures |s| >= 1 && forall i :: 0 <= i < |s| ==> IsDigit(s[i])
    ensures s[0] == '0' ==> n == 0
  {
    if n < 10 then [DigitChar(n)] else Decimal(n / 10) + [DigitChar(n % 10)]
  }

  function DigitValue(c: char): nat
    requires IsDigit(c)
  {
    c as int - '0' as int
  }

  /** Reads decimal text back into its value. */
  function DecimalValue(s: string): nat
    requires forall i :: 0 <= i < |s| ==> IsDigit(s[i])
  {
    if s == [] then 0 else 10 * DecimalValue(s[..|s| - 1]) + DigitValue(s[|s| - 1])
  }

  lemma DigitRoundTrip(d: int)
    requires 0 <= d <= 9
    ensures IsDigit(DigitChar(d)) && DigitValue(DigitChar(d)) == d
  {
  }

  /** Reading the decimal text of `n` gives `n` back. */
  lemma {:induction false} DecimalRoundTrip(n: nat)
    ensures DecimalValue(Decimal(n)) == n
  {
    var s := Decimal(n);
    if n < 10 {
      assert DigitValue(s[0]) == n by { DigitRoundTrip(n); }
      assert s[..0] == [];
    } else {
      assert s[..|s| - 1] == Decimal(n / 10);
      DecimalRoundTrip(n / 10);
      DigitRoundTrip(n % 10);
    }
  }

  // ---------------------------------------------------------------------------
  // String.prototype.replace with a string pattern: first occurrence only

  /** `pat` occurs in `s` at index `k`. */
  predicate OccursAt(s: string, pat: string, k: int)
  {
    0 <= k && k + |pat| <= |s| && s[k..k + |pat|] == pat
  }

  /** The first index at or after `i` where `pat` occurs in `s`, or -1 when
      there is none (String.prototype.indexOf). */
  function IndexFrom(s: string, pat: string, i: nat): (k: int)
    ensures k == -1 || (i <= k && OccursAt(s, pat, k))
    ensures forall m :: i <= m && (k == -1 || m < k) ==> !OccursAt(s, pat, m)
    decreases |s| - i
  {
    if i + |pat| > |s| then -1
    else if s[i..i + |pat|] == pat then i
    else IndexFrom(s, pat, i + 1)
  }

  /** `s` with the first occurrence of `pat` replaced by `rep`; `s` itself
      when `pat` does not occur (String.prototype.replace with a string
      pattern). */
  function ReplaceFirst(s: string, pat: string, rep: string): (r: string)
    ensures (forall k :: 0 <= k ==> !OccursAt(s, pat, k)) ==> r == s
    ensures forall k :: OccursAt(s, pat, k) && (forall m :: 0 <= m < k ==> !OccursAt(s, pat, m)) ==>
              r == s[..k] + rep + s[k + |pat|..]
  {
    var k := IndexFrom(s, pat, 0);
    if k < 0 then s else s[..k] + rep + s[k + |pat|..]
  }

  /** `a` has no character `ch`. */
  predicate Lacks(a: string, ch: char)
  {
    forall i :: 0 <= i < |a| ==> a[i] != ch
  }

  /** No occurrence of `pat` starts inside `a` when `pat` follows `a`. */
  predicate NoneBefore(a: string, pat: string)
  {
    forall m :: 0 <= m < |a| ==> !OccursAt(a + pat, pat, m)
  }

  /** The first occurrence of `pat` in `a + pat + b` is the one after `a`
      when none starts inside `a`. */
  lemma ReplaceAfter(a: string, pat: string, b: string, rep: string)
    requires NoneBefore(a, pat)
    ensures ReplaceFirst(a + pat + b, pat, rep) == a + rep + b
  {
    var s := a + pat + b;
    assert OccursAt(s, pat, |a|) by { assert s[|a|..|a| + |pat|] == pat; }
    forall m | 0 <= m < |a| ensures !OccursAt(s, pat, m) {
      assert !OccursAt(a + pat, pat, m);
      assert s[m..m + |pat|] == (a + pat)[m..m + |pat|];
    }
    assert s[..|a|] == a;
    assert s[|a| + |pat|..] == b;
  }

  /** A text without the pattern's first character holds no start of it. */
  lemma NoneBeforeLacking(a: string, pat: string)
    requires |pat| >= 1 && Lacks(a, pat[0])
    ensures NoneBefore(a, pat)
  {
    forall m | 0 <= m < |a| ensures !OccursAt(a + pat, pat, m) {
      assert (a + pat)[m..m + |pat|][0] == a[m];
    }
  }

  /** Every `p0` of `a` is followed, still inside `a`, by a character other
      than `p1`. */
  predicate PairSafe(a: string, p0: char, p1: char)
  {
    forall i :: 0 <= i < |a| ==> a[i] != p0 || (i + 1 < |a| && a[i + 1] != p1)
  }

  lemma LacksAppend(x: string, y: string, ch: char)
    requires Lacks(x, ch) && Lacks(y, ch)
    ensures Lacks(x + y, ch)
  {
    forall i | 0 <= i < |x + y| ensures (x + y)[i] != ch {
      if i >= |x| { assert (x + y)[i] == y[i - |x|]; }
    }
  }

  lemma PairSafeAppend(x: string, y: string, p0: char, p1: char)
    requires PairSafe(x, p0, p1) && Lacks(y, p0)
    ensures PairSafe(x + y, p0, p1)
  {
    var s := x + y;
    forall i | 0 <= i < |s| ensures s[i] != p0 || (i + 1 < |s| && s[i + 1] != p1) {
      if i < |x| {
        assert s[i] == x[i];
        assert x[i] != p0 || (i + 1 < |x| && x[i + 1] != p1);
        if i + 1 < |x| { assert s[i + 1] == x[i + 1]; }
      } else {
        assert s[i] == y[i - |x|];
      }
    }
  }

  /** A text that is pair-safe for the pattern's first two characters holds
      no start of it. */
  lemma NoneBeforePairs(a: string, pat: string)
    requires |pat| >= 2 && PairSafe(a, pat[0], pat[1])
    ensures NoneBefore(a, pat)
  {
    forall m | 0 <= m < |a| ensures !OccursAt(a + pat, pat, m) {
      assert (a + pat)[m..m + |pat|][0] == a[m];
      assert a[m] != pat[0] || (m + 1 < |a| && a[m + 1] != pat[1]);
      if m + 1 < |a| {
        assert (a + pat)[m..m + |pat|][1] == a[m + 1];
      }
    }
  }

  /** Decimal text holds no letter. */
  lemma DecimalLacks(n: nat, ch: char)
    requires !IsDigit(ch)
    ensures Lacks(Decimal(n), ch)
  {
  }

  /** Every character of a replacement comes from `s` or from `rep`. */
  lemma ReplaceFirstChars(s: string, pat: string, rep: string, c: char)
    requires c !in s && c !in rep
    ensures c !in ReplaceFirst(s, pat, rep)
  {
    var k := IndexFrom(s, pat, 0);
    if k >= 0 {
      assert s == s[..k] + s[k..k + |pat|] + s[k + |pat|..];
      assert c !in s[..k] && c !in s[k + |pat|..];
    }
  }

  // ---------------------------------------------------------------------------
  // What one cell contributes

  /** The template with the first `rrr`, `ggg` and `bbb` replaced, in that
      order, by the decimal channel values of `c`. */
  function PixelColour(template: string, c: Colour): string
  {
    ReplaceFirst(ReplaceFirst(ReplaceFirst(template, "rrr", Decimal(c.r)), "ggg", Decimal(c.g)), "bbb", Decimal(c.b))
  }

  /** With the export button's template, a colour's text is the 24-bit
      background escape with the three channels in decimal. The template's own
      `b` (in `x1b`) is not taken for the blue placeholder. */
  lemma EscapeTemplateText(c: Colour)
    ensures PixelColour(EscapeTemplate, c) ==
            EscapePrefix + Decimal(c.r) + ";" + Decimal(c.g) + ";" + Decimal(c.b) + "m"
  {
    var P, R, G, B := EscapePrefix, Decimal(c.r), Decimal(c.g), Decimal(c.b);
    Regroup5(P, "rrr", ";", "ggg", ";", "bbb", "m");
    assert Lacks(P, 'r') && Lacks(P, 'g');
    NoneBeforeLacking(P, "rrr");
    ReplaceAfter(P, "rrr", ";" + "ggg" + ";" + "bbb" + "m", R);
    var a2 := P + R + ";";
    Regroup4(P + R, ";", "ggg", ";", "bbb", "m");
    DecimalLacks(c.r, 'g');
    LacksAppend(P, R, 'g');
    LacksAppend(P + R, ";", 'g');
    NoneBeforeLacking(a2, "ggg");
    ReplaceAfter(a2, "ggg", ";" + "bbb" + "m", G);
    var a3 := a2 + G + ";";
    Regroup(a2 + G, ";", "bbb", "m");
    DecimalLacks(c.r, 'b');
    DecimalLacks(c.g, 'b');
    LacksAppend(R, ";", 'b');
    LacksAppend(R + ";", G, 'b');
    LacksAppend(R + ";" + G, ";", 'b');
    PrefixPairSafe();
    PairSafeAppend(P, R + ";" + G + ";", 'b', 'b');
    Regroup3(P, R, ";", G, ";");
    NoneBeforePairs(a3, "bbb");
    ReplaceAfter(a3, "bbb", "m", B);
  }

  /** Every `b` of the escape prefix is followed by another character. */
  lemma PrefixPairSafe()
    ensures PairSafe(EscapePrefix, 'b', 'b')
  {
    var P := EscapePrefix;
    forall i | 0 <= i < |P| ensures P[i] != 'b' || (i + 1 < |P| && P[i + 1] != 'b') {
      if i == 3 {
        assert P[4] == '[';
      } else {
        assert P[i] != 'b';
      }
    }
  }

  /** The text compared between neighbouring cells. */
  function Key(c: Cell, template: string): string
  {
    match c
    case Transparent => TransparentKey
    case Opaque(colour) => PixelColour(template, colour)
  }

  /** The text written when the key changes. */
  function Marker(c: Cell, template: string): string
  {
    match c
    case Transparent => Reset
    case Opaque(colour) => PixelColour(template, colour)
  }

  /** The marker the scan writes before cell `c` when the key before it is
      `before`: the cell's marker when its key differs, nothing otherwise.
      It is also what a run of `c` starts with. */
  function RunMarker(c: Cell, template: string, before: string): string
  {
    if Key(c, template) != before then Marker(c, template) else ""
  }

  /** What the scan appends for cell `c` when the key before it is `before`. */
  function CellText(c: Cell, template: string, before: string): string
  {
    RunMarker(c, template, before) + " "
  }

  // ---------------------------------------------------------------------------
  // The whole text, in the order the two nested loops build it

  /** The key the scan holds after `cells`, starting from `before`: the key of
      the last cell, since the scan stores every key that differs. */
  function KeyAfter(cells: seq<Cell>, template: string, before: string): string
  {
    if cells == [] then before else Key(cells[|cells| - 1], template)
  }

  /** The text the inner loop appends for one row. */
  function RowText(row: seq<Cell>, template: string, before: string): string
    decreases |row|
  {
    if row == [] then ""
    else
      var init := row[..|row| - 1];
      RowText(init, template, before) + CellText(row[|row| - 1], template, KeyAfter(init, template, before))
  }

  /** The key the scan holds after `rows`; rows do not reset it. */
  function KeyAfterRows(rows: seq<seq<Cell>>, template: string): string
    decreases |rows|
  {
    if rows == [] then TransparentKey
    else KeyAfter(rows[|rows| - 1], template, KeyAfterRows(rows[..|rows| - 1], template))
  }

  /** The exported text of `rows`, top row first. */
  function GridText(rows: seq<seq<Cell>>, template: string): string
    decreases |rows|
  {
    if rows == [] then ""
    else
      var init := rows[..|rows| - 1];
      GridText(init, template) + RowText(rows[|rows| - 1], template, KeyAfterRows(init, template)) + "\n"
  }

  // ---------------------------------------------------------------------------
  // Properties

  /** `n` spaces. */
  function Spaces(n: nat): string
  {
    seq(n, _ => ' ')
  }

  /** The bare layout of an export: `h` lines of `w` spaces. */
  function Layout(w: nat, h: nat): string
  {
    if h == 0 then "" else Layout(w, h - 1) + Spaces(w) + "\n"
  }

  /** Every row holds `w` cells. */
  predicate Rectangular(rows: seq<seq<Cell>>, w: nat)
  {
    forall y :: 0 <= y < |rows| ==> |rows[y]| == w
  }

  /** The layout characters: only spaces and newlines survive stripping. */
  predicate IsLayoutChar(c: char)
  {
    c == ' ' || c == '\n'
  }

  /** `s` with every character other than a space or a newline removed. */
  function Strip(s: string): string
  {
    if s == [] then "" else Strip(s[..|s| - 1]) + (if IsLayoutChar(s[|s| - 1]) then [s[|s| - 1]] else [])
  }

  lemma {:induction false} StripAppend(a: string, b: string)
    ensures Strip(a + b) == Strip(a) + Strip(b)
    decreases |b|
  {
    if b == [] {
      assert a + b == a;
    } else {
      var b' := b[..|b| - 1];
      assert (a + b)[..|a + b| - 1] == a + b';
      StripAppend(a, b');
    }
  }

  lemma {:induction false} StripNoLayout(s: string)
    requires ' ' !in s && '\n' !in s
    ensures Strip(s) == ""
    decreases |s|
  {
    if s != [] {
      assert s[..|s| - 1] + [s[|s| - 1]] == s;
      StripNoLayout(s[..|s| - 1]);
    }
  }

  /** The template has no layout character, so neither has a marker. */
  predicate PlainTemplate(template: string)
  {
    ' ' !in template && '\n' !in template
  }

  lemma MarkerIsPlain(c: Cell, template: string)
    requires PlainTemplate(template)
    ensures ' ' !in Marker(c, template) && '\n' !in Marker(c, template)
  {
    if c.Opaque? {
      var col := c.colour;
      forall ch | ch == ' ' || ch == '\n'
        ensures ch !in PixelColour(template, col)
      {
        var d1, d2, d3 := Decimal(col.r), Decimal(col.g), Decimal(col.b);
        assert ch !in d1 && ch !in d2 && ch !in d3;
        ReplaceFirstChars(template, "rrr", d1, ch);
        ReplaceFirstChars(ReplaceFirst(template, "rrr", d1), "ggg", d2, ch);
        ReplaceFirstChars(ReplaceFirst(ReplaceFirst(template, "rrr", d1), "ggg", d2), "bbb", d3, ch);
      }
    }
  }

  /** Stripping what one cell writes leaves its single space. */
  lemma CellLayout(c: Cell, template: string, before: string)
    requires PlainTemplate(template)
    ensures Strip(CellText(c, template, before)) == " "
  {
    var marker := RunMarker(c, template, before);
    MarkerIsPlain(c, template);
    StripNoLayout(marker);
    StripAppend(marker, " ");
    assert Strip(" ") == Strip("") + " ";
  }

  lemma {:induction false} RowLayout(row: seq<Cell>, template: string, before: string)
    requires PlainTemplate(template)
    ensures Strip(RowText(row, template, before)) == Spaces(|row|)
    decreases |row|
  {
    if row != [] {
      var init := row[..|row| - 1];
      var cell := CellText(row[|row| - 1], template, KeyAfter(init, template, before));
      RowLayout(init, template, before);
      CellLayout(row[|row| - 1], template, KeyAfter(init, template, before));
      StripAppend(RowText(init, template, before), cell);
      assert Spaces(|init|) + " " == Spaces(|row|);
    }
  }

  /** With a template free of spaces and newlines, stripping every marker
      from an export leaves exactly one space per cell and one newline per
      row: `h` lines of `w` spaces. */
  lemma {:induction false} ExportLayout(rows: seq<seq<Cell>>, w: nat, template: string)
    requires Rectangular(rows, w) && PlainTemplate(template)
    ensures Strip(GridText(rows, template)) == Layout(w, |rows|)
    decreases |rows|
  {
    if rows != [] {
      var init := rows[..|rows| - 1];
      var row := RowText(rows[|rows| - 1], template, KeyAfterRows(init, template));
      ExportLayout(init, w, template);
      RowLayout(rows[|rows| - 1], template, KeyAfterRows(init, template));
      StripAppend(GridText(init, template), row);
      StripAppend(GridText(init, template) + row, "\n");
      assert Strip("\n") == Strip("") + "\n";
    }
  }

  /** Number of occurrences of `c` in `s`. */
  function Count(c: char, s: string): nat
  {
    if s == [] then 0 else Count(c, s[..|s| - 1]) + (if s[|s| - 1] == c then 1 else 0)
  }

  lemma {:induction false} CountAppend(c: char, a: string, b: string)
    ensures Count(c, a + b) == Count(c, a) + Count(c, b)
    decreases |b|
  {
    if b == [] {
      assert a + b == a;
    } else {
      assert (a + b)[..|a + b| - 1] == a + b[..|b| - 1];
      CountAppend(c, a, b[..|b| - 1]);
    }
  }

  lemma {:induction false} CountSpaces(c: char, n: nat)
    ensures Count(c, Spaces(n)) == if c == ' ' then n else 0
  {
    if n > 0 {
      assert Spaces(n)[..n - 1] == Spaces(n - 1);
      CountSpaces(c, n - 1);
    }
  }

  lemma {:induction false} CountLayout(w: nat, h: nat)
    ensures Count(' ', Layout(w, h)) == w * h
    ensures Count('\n', Layout(w, h)) == h
  {
    if h > 0 {
      CountLayout(w, h - 1);
      CountAppend(' ', Layout(w, h - 1), Spaces(w));
      CountAppend('\n', Layout(w, h - 1), Spaces(w));
      CountAppend(' ', Layout(w, h - 1) + Spaces(w), "\n");
      CountAppend('\n', Layout(w, h - 1) + Spaces(w), "\n");
      CountSpaces(' ', w);
      CountSpaces('\n', w);
      assert Count(' ', "\n") == Count(' ', "") + 0;
      assert w * h == w * (h - 1) + w;
    }
  }

  lemma {:induction false} CountStrip(c: char, s: string)
    requires IsLayoutChar(c)
    ensures Count(c, Strip(s)) == Count(c, s)
    decreases |s|
  {
    if s != [] {
      var init := s[..|s| - 1];
      var last := s[|s| - 1];
      CountStrip(c, init);
      CountAppend(c, Strip(init), if IsLayoutChar(last) then [last] else []);
    }
  }

  /** With a template free of spaces and newlines, an export of `h` rows of
      `w` cells holds exactly `w * h` spaces and `h` newlines. */
  lemma ExportCounts(rows: seq<seq<Cell>>, w: nat, template: string)
    requires Rectangular(rows, w) && PlainTemplate(template)
    ensures Count(' ', GridText(rows, template)) == w * |rows|
    ensures Count('\n', GridText(rows, template)) == |rows|
  {
    ExportLayout(rows, w, template);
    CountStrip(' ', GridText(rows, template));
    CountStrip('\n', GridText(rows, template));
    CountLayout(w, |rows|);
  }

  /** The cells of `rows` in row-major order. */
  function Flatten(rows: seq<seq<Cell>>): seq<Cell>
  {
    if rows == [] then [] else Flatten(rows[..|rows| - 1]) + rows[|rows| - 1]
  }

  /** `s` with every newline removed. */
  function Unlines(s: string): string
  {
    if s == [] then "" else Unlines(s[..|s| - 1]) + (if s[|s| - 1] == '\n' then "" else [s[|s| - 1]])
  }

  lemma {:induction false} UnlinesAppend(a: string, b: string)
    ensures Unlines(a + b) == Unlines(a) + Unlines(b)
    decreases |b|
  {
    if b == [] {
      assert a + b == a;
    } else {
      var b' := b[..|b| - 1];
      assert (a + b)[..|a + b| - 1] == a + b';
      UnlinesAppend(a, b');
    }
  }

  lemma {:induction false} UnlinesPlain(s: string)
    requires '\n' !in s
    ensures Unlines(s) == s
    decreases |s|
  {
    if s != [] {
      assert s[..|s| - 1] + [s[|s| - 1]] == s;
      UnlinesPlain(s[..|s| - 1]);
    }
  }

  /** The key after two pieces of a scan is the key after the second,
      started from the key after the first. */
  lemma KeyAfterAppend(a: seq<Cell>, b: seq<Cell>, template: string, before: string)
    ensures KeyAfter(a + b, template, before) == KeyAfter(b, template, KeyAfter(a, template, before))
  {
    if b == [] {
      assert a + b == a;
    } else {
      assert (a + b)[|a + b| - 1] == b[|b| - 1];
    }
  }

  /** Scanning two pieces of a row one after the other is scanning their
      concatenation. */
  lemma {:induction false} RowTextAppend(a: seq<Cell>, b: seq<Cell>, template: string, before: string)
    ensures RowText(a + b, template, before) ==
            RowText(a, template, before) + RowText(b, template, KeyAfter(a, template, before))
    decreases |b|
  {
    if b == [] {
      assert a + b == a;
    } else {
      var b' := b[..|b| - 1];
      var last := b[|b| - 1];
      var key := KeyAfter(a, template, before);
      assert RowText(a + b, template, before) ==
             RowText(a + b', template, before) + CellText(last, template, KeyAfter(b', template, key)) by {
        SplitLast(a, b);
        RowTextLast(a + b, a + b', last, template, before);
        KeyAfterAppend(a, b', template, before);
      }
      assert RowText(b, template, key) ==
             RowText(b', template, key) + CellText(last, template, KeyAfter(b', template, key)) by {
        SplitLast([], b);
        assert [] + b == b && [] + b' == b';
        RowTextLast(b, b', last, template, key);
      }
      RowTextAppend(a, b', template, before);
      Splice(RowText(a + b, template, before), RowText(a + b', template, before),
             CellText(last, template, KeyAfter(b', template, key)),
             RowText(a, template, before), RowText(b', template, key), RowText(b, template, key));
    }
  }

  /** With a plain template, a row's text holds no newline. */
  lemma {:induction false} RowTextPlain(row: seq<Cell>, template: string, before: string)
    requires PlainTemplate(template)
    ensures '\n' !in RowText(row, template, before)
    decreases |row|
  {
    if row != [] {
      var init := row[..|row| - 1];
      RowTextPlain(init, template, before);
      MarkerIsPlain(row[|row| - 1], template);
    }
  }

  /** The key after a run of rows is the key after their cells in row-major order. */
  lemma {:induction false} KeyAfterFlatten(rows: seq<seq<Cell>>, template: string)
    ensures KeyAfterRows(rows, template) == KeyAfter(Flatten(rows), template, TransparentKey)
    decreases |rows|
  {
    if rows != [] {
      var init := rows[..|rows| - 1];
      KeyAfterFlatten(init, template);
      KeyAfterAppend(Flatten(init), rows[|rows| - 1], template, TransparentKey);
    }
  }

  /** With a template free of spaces and newlines, the export with its
      newlines removed is one scan of all cells in row-major order, starting
      from the transparent key: a row end neither resets the key nor breaks
      a run. */
  lemma {:induction false} ExportScan(rows: seq<seq<Cell>>, template: string)
    requires PlainTemplate(template)
    ensures Unlines(GridText(rows, template)) == RowText(Flatten(rows), template, TransparentKey)
    decreases |rows|
  {
    if rows != [] {
      var init := rows[..|rows| - 1];
      var last := rows[|rows| - 1];
      var key := KeyAfterRows(init, template);
      var text := RowText(last, template, key);
      ExportScan(init, template);
      UnlinesAppend(GridText(init, template) + text, "\n");
      UnlinesAppend(GridText(init, template), text);
      RowTextPlain(last, template, key);
      UnlinesPlain(text);
      assert Unlines("\n") == Unlines("") + "";
      KeyAfterFlatten(init, template);
      RowTextAppend(Flatten(init), last, template, TransparentKey);
    }
  }

  /** A grid with no opaque cell exports as the bare layout, with no marker. */
  lemma TransparentExport(w: nat, h: nat, template: string)
    requires w >= 1 && h >= 1
    ensures GridText(Block(Transparent, w, h), template) == Layout(w, h)
  {
    BlockExport(Transparent, w, h, template);
    EmptyPrefix(Layout(w, h));
  }

  /** `n` copies of `c`: a run of one colour. */
  function Run(c: Cell, n: nat): seq<Cell>
  {
    seq(n, _ => c)
  }

  /** `h` rows of `w` copies of `c`. */
  function Block(c: Cell, w: nat, h: nat): seq<seq<Cell>>
  {
    seq(h, _ => Run(c, w))
  }

  /** A run of one colour writes its marker at most once, before its first
      cell, and then one space per cell. */
  lemma {:induction false} RunText(c: Cell, n: nat, template: string, before: string)
    requires n >= 1
    ensures RowText(Run(c, n), template, before) == RunMarker(c, template, before) + Spaces(n)
  {
    var init := Run(c, n - 1);
    assert RowText(Run(c, n), template, before) ==
           RowText(init, template, before) + CellText(c, template, KeyAfter(init, template, before)) by {
      RunLast(c, n);
      RowTextLast(Run(c, n), init, c, template, before);
    }
    if n == 1 {
      assert RowText(init, template, before) == "";
      EmptyPrefix(CellText(c, template, before));
      EmptyPrefix(" ");
    } else {
      assert CellText(c, template, KeyAfter(init, template, before)) == " " by {
        assert init[n - 2] == c;
        EmptyPrefix(" ");
      }
      assert RowText(init, template, before) == RunMarker(c, template, before) + Spaces(n - 1) by {
        RunText(c, n - 1, template, before);
      }
      SpacesLast(n);
      Splice(RowText(Run(c, n), template, before), RowText(init, template, before), " ",
             RunMarker(c, template, before), Spaces(n - 1), Spaces(n));
    }
  }

  lemma RunLast(c: Cell, n: nat)
    requires n >= 1
    ensures Run(c, n) == Run(c, n - 1) + [c]
  {
  }

  lemma SpacesLast(n: nat)
    requires n >= 1
    ensures Spaces(n - 1) + " " == Spaces(n)
  {
  }

  lemma SplitLast(a: seq<Cell>, b: seq<Cell>)
    requires b != []
    ensures a + b == (a + b[..|b| - 1]) + [b[|b| - 1]]
  {
  }

  /** RowText unfolded once, for a row given as its first cells and its last cell. */
  lemma RowTextLast(row: seq<Cell>, init: seq<Cell>, last: Cell, template: string, before: string)
    requires row == init + [last]
    ensures RowText(row, template, before) ==
            RowText(init, template, before) + CellText(last, template, KeyAfter(init, template, before))
  {
    assert row[..|row| - 1] == init;
  }

  /** A grid whose cells all hold one value exports as at most one marker
      followed by the bare layout: runs coalesce within a row and across row
      ends, and an all-transparent grid exports with no marker at all. */
  lemma {:induction false} BlockExport(c: Cell, w: nat, h: nat, template: string)
    requires w >= 1 && h >= 1
    ensures GridText(Block(c, w, h), template) == RunMarker(c, template, TransparentKey) + Layout(w, h)
  {
    var init := Block(c, w, h - 1);
    var marker := RunMarker(c, template, TransparentKey);
    var key := KeyAfterRows(init, template);
    var text := RowText(Run(c, w), template, key);
    assert GridText(Block(c, w, h), template) == GridText(init, template) + text + "\n" by {
      BlockLast(c, w, h);
      GridTextLast(Block(c, w, h), init, Run(c, w), template);
    }
    LayoutLast(w, h);
    if h == 1 {
      assert GridText(init, template) == "" && Layout(w, h - 1) == "";
      assert text == marker + Spaces(w) by {
        RunText(c, w, template, TransparentKey);
      }
      EmptyPrefix(text);
      EmptyPrefix(Spaces(w));
      Assoc(marker, Spaces(w), "\n");
    } else {
      assert GridText(init, template) == marker + Layout(w, h - 1) by {
        BlockExport(c, w, h - 1, template);
      }
      assert text == Spaces(w) by {
        assert key == Key(c, template) by {
          assert init[h - 2] == Run(c, w);
        }
        RunText(c, w, template, key);
        EmptyPrefix(Spaces(w));
      }
      Glue(GridText(Block(c, w, h), template), marker, Layout(w, h - 1), Spaces(w), Layout(w, h));
    }
  }

  lemma BlockLast(c: Cell, w: nat, h: nat)
    requires h >= 1
    ensures Block(c, w, h) == Block(c, w, h - 1) + [Run(c, w)]
  {
  }

  lemma LayoutLast(w: nat, h: nat)
    requires h >= 1
    ensures Layout(w, h) == Layout(w, h - 1) + Spaces(w) + "\n"
  {
  }

  /** GridText unfolded once, for a grid given as its first rows and its last row. */
  lemma GridTextLast(rows: seq<seq<Cell>>, init: seq<seq<Cell>>, last: seq<Cell>, template: string)
    requires rows == init + [last]
    ensures GridText(rows, template) == GridText(init, template) + RowText(last, template, KeyAfterRows(init, template)) + "\n"
  {
    assert rows[..|rows| - 1] == init;
  }

  // ---------------------------------------------------------------------------
  // String regrouping
  //
  // Each lemma below states one fact about `+` on strings that the solver
  // knows already. The proofs above call them rather than asserting the
  // regrouped equation inline, so that each proof step brings in only the
  // one regrouping it needs and the proofs of the long texts stay cheap.

  /** Moves a prefix out of a line-terminated text. */
  lemma Glue(whole: string, first: string, lines: string, line: string, layout: string)
    requires whole == first + lines + line + "\n" && layout == lines + line + "\n"
    ensures whole == first + layout
  {
  }

  /** Substitutes a split of the head into a split of the whole. */
  lemma Splice(whole: string, head: string, tail: string, first: string, middle: string, rest: string)
    requires whole == head + tail && head == first + middle && rest == middle + tail
    ensures whole == first + rest
  {
  }

  lemma Assoc(a: string, b: string, c: string)
    ensures a + b + c == a + (b + c)
  {
  }

  lemma Regroup(a: string, b: string, c: string, d: string)
    ensures a + (b + c + d) == a + b + c + d
  {
  }

  lemma Regroup3(a: string, b: string, c: string, d: string, e: string)
    ensures a + b + c + d + e == a + (b + c + d + e)
  {
  }

  lemma Regroup4(a: string, b: string, c: string, d: string, e: string, f: string)
    ensures a + (b + c + d + e + f) == a + b + c + (d + e + f)
  {
  }

  lemma Regroup5(a: string, b: string, c: string, d: string, e: string, f: string, g: string)
    ensures a + b + c + d + e + f + g == a + b + (c + d + e + f + g)
  {
  }

  lemma EmptyPrefix(a: string)
    ensures "" + a == a
  {
  }
}

module ExporterExamples {
  import opened Geometry
  import opened Exporter

  lemma DecimalExamples()
    ensures Decimal(0) == "0" && Decimal(255) == "255"
  {
    assert Decimal(2) == "2";
    assert Decimal(25) == Decimal(2) + "5";
    assert Decimal(255) == Decimal(25) + "5";
  }

  /** Pure red with the export button's template. */
  lemma EscapeTemplateRed()
    ensures PixelColour(EscapeTemplate, Colour(255, 0, 0)) == EscapePrefix + "255" + ";" + "0" + ";" + "0" + "m"
  {
    DecimalExamples();
    EscapeTemplateText(Colour(255, 0, 0));
  }
}
