/**
 * The rank-band parser of the overview tab and the table of rank bands the
 * TIMES and QS range charts are drawn from.  A rank cell such as "23-30"
 * (hyphen or en dash) becomes the band (low 23, high 30, mid 26); a single
 * rank "12" becomes (12, 12, 12); anything else has no band.
 */
module RankRange {
  import opened Basics
  import opened Numerals
  import opened Tables

  const EN_DASH: char := '\U{2013}'

  datatype RankBand = RankBand(low: int, high: int, mid: int)

  /** `s.replace(from, to)` for single characters. */
  function ReplaceChar(s: string, from: char, to: char): (r: string)
    ensures |r| == |s|
    ensures from != to ==> from !in r
    ensures from !in s ==> r == s
  {
    seq(|s|, i requires 0 <= i < |s| => if s[i] == from then to else s[i])
  }

  /** Python's `s.split(sep)` for a one-character separator: never empty. */
  function Split(s: string, sep: char): (parts: seq<string>)
    ensures |parts| >= 1
    ensures forall k :: 0 <= k < |parts| ==> sep !in parts[k]
    decreases |s|
  {
    if s == [] then [""]
    else
      var rest := Split(s[1..], sep);
      if s[0] == sep then [""] + rest
      else
        assert sep !in rest[0];
        [[s[0]] + rest[0]] + rest[1..]
  }

  /** `sep.join(parts)` */
  function Join(parts: seq<string>, sep: char): string
    requires |parts| >= 1
  {
    if |parts| == 1 then parts[0] else parts[0] + [sep] + Join(parts[1..], sep)
  }

  /** Splitting and joining again gives back the text. */
  lemma {:induction false} SplitJoin(s: string, sep: char)
    ensures Join(Split(s, sep), sep) == s
  {
    if s != [] {
      var rest := Split(s[1..], sep);
      SplitJoin(s[1..], sep);
      if s[0] != sep {
        var parts := Split(s, sep);
        assert parts[1..] == rest[1..];
        assert s == [s[0]] + s[1..];
      }
    }
  }

  lemma {:induction false} SplitWithoutSep(s: string, sep: char)
    requires sep !in s
    ensures Split(s, sep) == [s]
  {
    if s != [] {
      assert sep !in s[1..];
      SplitWithoutSep(s[1..], sep);
      assert s == [s[0]] + s[1..];
    }
  }

  lemma {:induction false} SplitAround(a: string, b: string, sep: char)
    requires sep !in a && sep !in b
    ensures Split(a + [sep] + b, sep) == [a, b]
  {
    if a == [] {
      assert a + [sep] + b == [sep] + b;
      assert ([sep] + b)[1..] == b;
      SplitWithoutSep(b, sep);
    } else {
      assert (a + [sep] + b)[1..] == a[1..] + [sep] + b;
      assert (a + [sep] + b)[0] == a[0];
      assert sep !in a[1..];
      SplitAround(a[1..], b, sep);
      assert a == [a[0]] + a[1..];
    }
  }

  /**
   * `parse_rank_range`: the text with en dashes turned into hyphens is split
   * at hyphens; two parts give (first, second, (first + second) // 2) in the
   * order written, otherwise the whole original text must be one integer.
   * Any `ValueError` becomes `None`.  (`//` by 2 is floor division, which is
   * Dafny's `/` for a positive divisor.)
   */
  function ParseRankRange(s: string): (r: Option<RankBand>)
    ensures r.Some? ==> r.value.mid == (r.value.low + r.value.high) / 2
  {
    var parts := Split(ReplaceChar(s, EN_DASH, '-'), '-');
    if |parts| == 2 then
      match (ParseInt(parts[0]), ParseInt(parts[1]))
      case (Some(a), Some(b)) => Some(RankBand(a, b, (a + b) / 2))
      case _ => None
    else
      match ParseInt(s)
      case Some(v) => Some(RankBand(v, v, v))
      case None => None
  }

  /** The mid of a band lies between its two ends, whichever is written first. */
  lemma RankMidBetween(s: string)
    requires ParseRankRange(s).Some?
    ensures var b := ParseRankRange(s).value;
            b.low <= b.mid <= b.high || b.high <= b.mid <= b.low
  {
  }

  predicate IsDash(c: char)
  {
    c == '-' || c == EN_DASH
  }

  /**
   * The rank texts that have a band, described independently of the
   * parser: one unsigned numeral, or two joined by a hyphen or en dash.
   */
  predicate IsRankText(s: string)
  {
    IsUnsignedNumeral(s) ||
    exists i :: 0 <= i < |s| && IsDash(s[i]) && IsUnsignedNumeral(s[..i]) && IsUnsignedNumeral(s[i + 1..])
  }

  lemma NumeralHasNoDash(s: string)
    requires IsUnsignedNumeral(s)
    ensures forall i :: 0 <= i < |s| ==> !IsDash(s[i])
  {
    forall i | 0 <= i < |s|
      ensures !IsDash(s[i])
    {
      if i > 0 || s[0] != '+' {
        if s[0] == '+' {
          assert s[i] == s[1..][i - 1];
        }
      }
    }
  }

  lemma ReplaceWithoutDash(s: string)
    requires forall i :: 0 <= i < |s| ==> !IsDash(s[i])
    ensures ReplaceChar(s, EN_DASH, '-') == s
    ensures '-' !in s
  {
  }

  /** A single rank: `parse_rank_range("12") == (12, 12, 12)`. */
  lemma RankOfSingle(s: string)
    requires IsUnsignedNumeral(s)
    ensures ParseRankRange(s) == Some(RankBand(NumeralValue(s), NumeralValue(s), NumeralValue(s)))
  {
    NumeralHasNoDash(s);
    ReplaceWithoutDash(s);
    SplitWithoutSep(s, '-');
    ParseIntUnsigned(s);
  }

  /**
   * A band: `parse_rank_range("a-b") == (a, b, (a + b) // 2)` with either
   * dash, in the order written; a band written high-first is not reordered.
   */
  lemma RankOfPair(a: string, dash: char, b: string)
    requires IsUnsignedNumeral(a) && IsUnsignedNumeral(b) && IsDash(dash)
    ensures ParseRankRange(a + [dash] + b) ==
      Some(RankBand(NumeralValue(a), NumeralValue(b), (NumeralValue(a) + NumeralValue(b)) / 2))
  {
    var s := a + [dash] + b;
    NumeralHasNoDash(a);
    NumeralHasNoDash(b);
    ReplaceWithoutDash(a);
    ReplaceWithoutDash(b);
    var t := ReplaceChar(s, EN_DASH, '-');
    assert t == a + ['-'] + b;
    SplitAround(a, b, '-');
    ParseIntUnsigned(a);
    ParseIntUnsigned(b);
  }

  /** Only rank texts parse: the parser accepts nothing else. */
  lemma ParsedIsRankText(s: string)
    requires ParseRankRange(s).Some?
    ensures IsRankText(s)
  {
    var t := ReplaceChar(s, EN_DASH, '-');
    var parts := Split(t, '-');
    SplitJoin(t, '-');
    if |parts| == 2 {
      var i := |parts[0]|;
      assert t == parts[0] + ['-'] + parts[1];
      assert Join(parts[1..], '-') == parts[1];
      ParseIntUnsigned(parts[0]);
      ParseIntUnsigned(parts[1]);
      assert t[i] == '-';
      assert IsDash(s[i]);
      assert s[..i] == parts[0] by {
        forall j | 0 <= j < i
          ensures s[j] == parts[0][j]
        {
          assert t[j] == parts[0][j];
        }
      }
      assert s[i + 1..] == parts[1] by {
        forall j | 0 <= j < |parts[1]|
          ensures s[i + 1 + j] == parts[1][j]
        {
          assert t[i + 1 + j] == parts[1][j];
        }
      }
    } else {
      MinusTextSplitsInTwo(s);
      ParseIntUnsigned(s);
    }
  }

  /** Text that `int` reads with a minus sign ("-5") always splits in two at that sign. */
  lemma MinusTextSplitsInTwo(s: string)
    requires ParseInt(s).Some?
    ensures '-' in s ==> |Split(ReplaceChar(s, EN_DASH, '-'), '-')| == 2
  {
    if '-' in s {
      var d := s[1..];
      assert s[0] == '-' && AllDigits(d);
      assert forall j :: 0 <= j < |d| ==> !IsDash(d[j]);
      ReplaceWithoutDash(d);
      assert ReplaceChar(s, EN_DASH, '-') == [] + ['-'] + d;
      SplitAround([], d, '-');
    }
  }

  /**
   * `parse_rank_range` yields a band exactly for rank texts, and every
   * number of a band is non-negative.
   */
  lemma ParseRankRangeCharacterised(s: string)
    ensures ParseRankRange(s).Some? <==> IsRankText(s)
    ensures ParseRankRange(s).Some? ==>
      var b := ParseRankRange(s).value; b.low >= 0 && b.high >= 0 && b.mid >= 0
  {
    if ParseRankRange(s).Some? {
      ParsedIsRankText(s);
    }
    if IsUnsignedNumeral(s) {
      RankOfSingle(s);
    } else if IsRankText(s) {
      var i :| 0 <= i < |s| && IsDash(s[i]) && IsUnsignedNumeral(s[..i]) && IsUnsignedNumeral(s[i + 1..]);
      assert s == s[..i] + [s[i]] + s[i + 1..];
      RankOfPair(s[..i], s[i], s[i + 1..]);
    }
  }

  /** Texts with two or more dashes ("1-2-3") have no band. */
  lemma RankRejectsTwoDashes(s: string, i: nat, j: nat)
    requires i < j < |s| && IsDash(s[i]) && IsDash(s[j])
    ensures ParseRankRange(s) == None
  {
    NoNumeralWithDash(s, i);
    forall k | 0 <= k < |s| && IsDash(s[k])
      ensures !(IsUnsignedNumeral(s[..k]) && IsUnsignedNumeral(s[k + 1..]))
    {
      if k <= i {
        if k < i {
          assert s[k + 1..][i - k - 1] == s[i];
          NoNumeralWithDash(s[k + 1..], i - k - 1);
        } else {
          assert s[k + 1..][j - k - 1] == s[j];
          NoNumeralWithDash(s[k + 1..], j - k - 1);
        }
      } else {
        assert s[..k][i] == s[i];
        NoNumeralWithDash(s[..k], i);
      }
    }
    ParseRankRangeCharacterised(s);
  }

  /** A leading minus ("-5") or leading en dash has no band. */
  lemma RankRejectsLeadingDash(s: string)
    requires |s| > 0 && IsDash(s[0])
    ensures ParseRankRange(s) == None
  {
    NoNumeralWithDash(s, 0);
    forall k | 0 <= k < |s| && IsDash(s[k])
      ensures !IsUnsignedNumeral(s[..k])
    {
      if k > 0 {
        assert s[..k][0] == s[0];
        NoNumeralWithDash(s[..k], 0);
      }
    }
    ParseRankRangeCharacterised(s);
  }

  /** Empty text, or text with any character other than digits, '+' and dashes, has no band. */
  lemma RankRejectsForeignText(s: string)
    requires s == [] || exists i :: 0 <= i < |s| && !IsDigit(s[i]) && s[i] != '+' && !IsDash(s[i])
    ensures ParseRankRange(s) == None
  {
    if s != [] {
      var i :| 0 <= i < |s| && !IsDigit(s[i]) && s[i] != '+' && !IsDash(s[i]);
      NoNumeralWithForeign(s, i);
      forall k | 0 <= k < |s| && IsDash(s[k])
        ensures !(IsUnsignedNumeral(s[..k]) && IsUnsignedNumeral(s[k + 1..]))
      {
        if i < k {
          assert s[..k][i] == s[i];
          NoNumeralWithForeign(s[..k], i);
        } else {
          assert s[k + 1..][i - k - 1] == s[i];
          NoNumeralWithForeign(s[k + 1..], i - k - 1);
        }
      }
    }
    ParseRankRangeCharacterised(s);
  }

  lemma NoNumeralWithDash(s: string, i: nat)
    requires i < |s| && IsDash(s[i])
    ensures !IsUnsignedNumeral(s)
  {
    if IsUnsignedNumeral(s) {
      NumeralHasNoDash(s);
    }
  }

  lemma NoNumeralWithForeign(s: string, i: nat)
    requires i < |s| && !IsDigit(s[i]) && s[i] != '+'
    ensures !IsUnsignedNumeral(s)
  {
    if |s| > 0 && s[0] == '+' && i > 0 {
      assert s[1..][i - 1] == s[i];
    }
  }

  /** The bands of the overview's rank charts. */
  lemma RankExamplesParsed()
    ensures ParseRankRange("23-30") == Some(RankBand(23, 30, 26))
    ensures ParseRankRange("23" + [EN_DASH] + "30") == Some(RankBand(23, 30, 26))
    ensures ParseRankRange("12") == Some(RankBand(12, 12, 12))
    ensures ParseRankRange("30-23") == Some(RankBand(30, 23, 26))
  {
    ExampleHyphen();
    ExampleEnDash();
    ExampleSingle();
    ExampleReversed();
  }

  lemma ExampleHyphen()
    ensures ParseRankRange("23-30") == Some(RankBand(23, 30, 26))
  {
    ExampleNumerals();
    RankOfPair("23", '-', "30");
    assert "23" + ['-'] + "30" == "23-30";
  }

  lemma ExampleEnDash()
    ensures ParseRankRange("23" + [EN_DASH] + "30") == Some(RankBand(23, 30, 26))
  {
    ExampleNumerals();
    RankOfPair("23", EN_DASH, "30");
  }

  lemma ExampleSingle()
    ensures ParseRankRange("12") == Some(RankBand(12, 12, 12))
  {
    ExampleNumerals();
    RankOfSingle("12");
  }

  lemma ExampleReversed()
    ensures ParseRankRange("30-23") == Some(RankBand(30, 23, 26))
  {
    ExampleNumerals();
    RankOfPair("30", '-', "23");
    assert "30" + ['-'] + "23" == "30-23";
  }

  lemma ExampleNumerals()
    ensures IsUnsignedNumeral("23") && NumeralValue("23") == 23
    ensures IsUnsignedNumeral("30") && NumeralValue("30") == 30
    ensures IsUnsignedNumeral("12") && NumeralValue("12") == 12
  {
    assert "23"[..1] == "2" && "2"[..0] == "";
    assert DigitsValue("23") == DigitsValue("2") * 10 + 3;
    assert "30"[..1] == "3" && "3"[..0] == "";
    assert DigitsValue("30") == DigitsValue("3") * 10 + 0;
    assert "12"[..1] == "1" && "1"[..0] == "";
    assert DigitsValue("12") == DigitsValue("1") * 10 + 2;
  }

  /** Texts without a band, as in the overview's rank charts. */
  lemma RankExamplesRejected()
    ensures ParseRankRange("abc") == None
    ensures ParseRankRange("") == None
    ensures ParseRankRange("1-2-3") == None
    ensures ParseRankRange("-5") == None
    ensures ParseRankRange("12.0") == None
  {
    assert !IsDigit("abc"[0]);
    RankRejectsForeignText("abc");
    RankRejectsForeignText("");
    RankRejectsTwoDashes("1-2-3", 1, 3);
    RankRejectsLeadingDash("-5");
    assert "12.0"[2] == '.';
    RankRejectsForeignText("12.0");
  }

  /** A row of `build_rank_range_df`'s result: the row with its `low`, `high`, `mid`. */
  datatype RankedRow = RankedRow(row: Record, band: RankBand)

  predicate HasColumn(t: Table, metric: string)
  {
    forall r :: r in t ==> metric in r.metrics
  }

  /** The text `str(cell)` of a non-missing cell. */
  function CellText(v: Value): string
    requires NotNa(v)
  {
    match v
    case Int(i) => IntToString(i)
    case Float(repr) => repr
    case Text(text) => text
  }

  /**
   * The band a row contributes: none for a missing cell, else the parse of
   * `str(cell)`; every number of a band is non-negative.
   */
  function RankCell(r: Record, metric: string): (b: Option<RankBand>)
    ensures b.Some? ==> metric in r.metrics && NotNa(r.metrics[metric])
    ensures b.Some? ==> b.value.low >= 0 && b.value.high >= 0 && b.value.mid >= 0
  {
    if metric in r.metrics && NotNa(r.metrics[metric]) then
      var text := CellText(r.metrics[metric]);
      ParseRankRangeCharacterised(text);
      ParseRankRange(text)
    else None
  }

  /**
   * The rows `build_rank_range_df` keeps, with their bands, in table order:
   * the rows whose non-missing cell parses.
   */
  function KeptRows(t: Table, metric: string): (rs: seq<RankedRow>)
    ensures |rs| <= |t|
    ensures forall k :: 0 <= k < |rs| ==> rs[k].row in t && RankCell(rs[k].row, metric) == Some(rs[k].band)
  {
    if t == [] then []
    else
      var rest := KeptRows(t[1..], metric);
      match RankCell(t[0], metric)
      case Some(b) =>
        var rs := [RankedRow(t[0], b)] + rest;
        assert forall k :: 0 < k < |rs| ==> rs[k] == rest[k - 1];
        rs
      case None => rest
  }

  /** Some row of the table has a non-missing cell in the rank column. */
  predicate HasRankCell(t: Table, metric: string)
  {
    exists r :: r in t && metric in r.metrics && NotNa(r.metrics[metric])
  }

  /**
   * `build_rank_range_df` as written.  When no cell of the column is
   * present, `Series.apply` returns an empty Series rather than a frame,
   * the assignment of the three columns raises `ValueError` ("Columns must
   * be same length as key"), and no caller catches it: `None`.  The column
   * must exist (pandas raises `KeyError` otherwise).
   */
  function BuildRankRange(t: Table, metric: string): (r: Option<seq<RankedRow>>)
    requires HasColumn(t, metric)
    ensures r.None? <==> forall row :: row in t ==> !NotNa(row.metrics[metric])
    ensures r.Some? ==> r.value == KeptRows(t, metric)
  {
    if HasRankCell(t, metric) then Some(KeptRows(t, metric)) else None
  }

  /**
   * As written, a chart whose filtered table is empty (no year selected,
   * or no compared university ranked in the selected years) raises instead
   * of drawing nothing; the rows it was evidently meant to keep are none.
   */
  lemma BuildRankRangeFailsWithoutCells(t: Table, metric: string)
    requires HasColumn(t, metric)
    requires forall row :: row in t ==> row.metrics[metric] == Nan
    ensures BuildRankRange(t, metric) == None
    ensures KeptRows(t, metric) == []
  {
    if t != [] {
      assert forall row :: row in t[1..] ==> row in t;
      BuildRankRangeFailsWithoutCells(t[1..], metric);
    }
  }

  function RowsOf(rs: seq<RankedRow>): (r: Table)
    ensures |r| == |rs| && forall i :: 0 <= i < |rs| ==> r[i] == rs[i].row
  {
    seq(|rs|, i requires 0 <= i < |rs| => rs[i].row)
  }

  /**
   * The kept rows are exactly the rows with a band, in their original
   * order, and each carries that band.
   */
  lemma {:induction false} KeptRowsAreParsedRows(t: Table, metric: string)
    ensures RowsOf(KeptRows(t, metric)) == Filter(t, (r: Record) => RankCell(r, metric).Some?)
  {
    if t != [] {
      var p := (r: Record) => RankCell(r, metric).Some?;
      KeptRowsAreParsedRows(t[1..], metric);
      var rest := KeptRows(t[1..], metric);
      assert RowsOf(rest) == Filter(t[1..], p);
      match RankCell(t[0], metric)
      case Some(b) =>
        var built := [RankedRow(t[0], b)] + rest;
        assert KeptRows(t, metric) == built;
        assert Filter(t, p) == [t[0]] + Filter(t[1..], p);
        assert RowsOf(built) == [t[0]] + RowsOf(rest);
      case None =>
        assert KeptRows(t, metric) == rest;
        assert Filter(t, p) == Filter(t[1..], p);
    }
  }

  /**
   * Whenever `build_rank_range_df` returns, its rows are exactly the rows
   * whose non-missing cell parses, in table order, each with its band.
   */
  lemma BuildRankRangeKeepsParsedRows(t: Table, metric: string)
    requires HasColumn(t, metric)
    requires HasRankCell(t, metric)
    ensures BuildRankRange(t, metric).Some?
    ensures RowsOf(BuildRankRange(t, metric).value) == Filter(t, (r: Record) => RankCell(r, metric).Some?)
  {
    KeptRowsAreParsedRows(t, metric);
  }

  /** An integer cell is kept exactly when it is non-negative, as the band (i, i, i). */
  lemma IntCellBand(r: Record, metric: string, i: int)
    requires metric in r.metrics && r.metrics[metric] == Int(i)
    ensures RankCell(r, metric) == if i >= 0 then Some(RankBand(i, i, i)) else None
  {
    if i >= 0 {
      var s := NatToString(i);
      assert IsUnsignedNumeral(s) by {
        assert IsDigit(s[0]);
      }
      RankOfSingle(s);
      NatToStringValue(i);
    } else {
      RankRejectsLeadingDash(IntToString(i));
    }
  }

  /**
   * Every float cell is dropped: Python prints a float with a '.' or an 'e'
   * ("12.0", "1e+16"), or as "inf"/"-inf", never as a bare rank.
   */
  lemma FloatCellDropped(r: Record, metric: string, repr: string)
    requires metric in r.metrics && r.metrics[metric] == Float(repr)
    requires FloatText(repr)
    ensures RankCell(r, metric) == None
  {
    if '.' in repr {
      var k :| 0 <= k < |repr| && repr[k] == '.';
    } else if 'e' in repr {
      var k :| 0 <= k < |repr| && repr[k] == 'e';
    } else if repr == "inf" {
      assert repr[0] == 'i';
    } else {
      assert repr[1] == 'i';
    }
    RankRejectsForeignText(repr);
  }
}
