/**
 * The in-memory part of the material-data export: the table of rows
 * (row name, search string, string-match mode, replacement material) built
 * from the scene's material names and an optional reference table.
 */
module MaterialTable {
  import opened Wrappers

  /** The errors reading the reference table can raise. */
  datatype TableError =
    | IndexError  // a reference row with fewer than four columns
    | KeyError    // no reference row carries the header key in column 1

  /** One exported row. */
  datatype Row = Row(rowName: string, searchString: string, stringMatch: string, replacement: Option<string>)

  /** The column-1 value of the reference table's header row. */
  const HeaderKey: string := "SearchString"

  // ---------------------------------------------------------------------
  // The character whitelist.

  /**
   * The characters the name filter keeps: CJK unified ideographs
   * U+4E00..U+9FA5, CJK compatibility ideographs U+F900..U+FA2D, ASCII
   * letters and the underscore. Digits and everything else are dropped.
   */
  predicate IsKept(c: char)
  {
    || ('\U{4E00}' <= c <= '\U{9FA5}')
    || ('\U{F900}' <= c <= '\U{FA2D}')
    || ('A' <= c <= 'Z')
    || ('a' <= c <= 'z')
    || c == '_'
  }

  /** The regular-expression substitution that deletes every other character. */
  function KeepChars(s: string): (r: string)
    ensures |r| <= |s|
    ensures forall k :: 0 <= k < |r| ==> IsKept(r[k])
    ensures forall c :: c in r <==> c in s && IsKept(c)
  {
    if s == [] then []
    else (if IsKept(s[0]) then [s[0]] else []) + KeepChars(s[1..])
  }

  /** Filtering a concatenation filters each part. */
  lemma {:induction false} KeepCharsAppend(a: string, b: string)
    ensures KeepChars(a + b) == KeepChars(a) + KeepChars(b)
  {
    if a == [] {
      assert a + b == b;
    } else {
      assert (a + b)[0] == a[0];
      assert (a + b)[1..] == a[1..] + b;
      KeepCharsAppend(a[1..], b);
    }
  }

  /** A name made only of whitelisted characters passes unchanged, and only such a name does. */
  lemma {:induction false} KeepCharsFixedPoints(s: string)
    ensures KeepChars(s) == s <==> forall k :: 0 <= k < |s| ==> IsKept(s[k])
  {
    if s != [] {
      KeepCharsFixedPoints(s[1..]);
      if !IsKept(s[0]) {
        assert |KeepChars(s)| < |s| by {
          assert KeepChars(s) == KeepChars(s[1..]);
        }
      }
    }
  }

  /** Filtering twice is filtering once. */
  lemma KeepCharsIdempotent(s: string)
    ensures KeepChars(KeepChars(s)) == KeepChars(s)
  {
    KeepCharsFixedPoints(KeepChars(s));
  }

  // ---------------------------------------------------------------------
  // Order-stable de-duplication.

  /** Position of the first occurrence of `x` (`list.index`). */
  function FirstIndex(xs: seq<string>, x: string): (k: nat)
    requires x in xs
    ensures k < |xs| && xs[k] == x
    ensures forall j :: 0 <= j < k ==> xs[j] != x
  {
    if xs[0] == x then 0 else 1 + FirstIndex(xs[1..], x)
  }

  /** No value occurs twice. */
  predicate Distinct(xs: seq<string>)
  {
    forall i, j :: 0 <= i < j < |xs| ==> xs[i] != xs[j]
  }

  /**
   * `sorted(set(xs), key=xs.index)`: `r` holds every value of `xs` exactly
   * once, ordered by where each value first occurs in `xs`.
   */
  predicate IsOrderedDedup(xs: seq<string>, r: seq<string>)
  {
    && Distinct(r)
    && (forall x :: x in r ==> x in xs)
    && (forall x :: x in xs ==> x in r)
    && (forall i, j :: 0 <= i < j < |r| ==> FirstIndex(xs, r[i]) < FirstIndex(xs, r[j]))
  }

  /** One step of the export loop on an already de-duplicated list. */
  function AppendNew(ys: seq<string>, x: string): seq<string>
  {
    if x in ys then ys else ys + [x]
  }

  /**
   * The list the loop leaves behind: it appends each value and
   * re-de-duplicates after every append.
   */
  function Dedup(xs: seq<string>): (r: seq<string>)
  {
    if xs == [] then [] else AppendNew(Dedup(xs[..|xs| - 1]), xs[|xs| - 1])
  }

  lemma FirstIndexExtend(xs: seq<string>, x: string, y: string)
    requires y in xs
    ensures y in xs + [x] && FirstIndex(xs + [x], y) == FirstIndex(xs, y)
  {
    var k := FirstIndex(xs, y);
    var k' := FirstIndex(xs + [x], y);
    assert (xs + [x])[k] == y;
    assert k' <= k;
    assert xs[k'] == y;
  }

  lemma FirstIndexOfNew(xs: seq<string>, x: string)
    requires x !in xs
    ensures x in xs + [x] && FirstIndex(xs + [x], x) == |xs|
  {
    assert (xs + [x])[|xs|] == x;
  }

  /** Re-de-duplicating after every append gives `sorted(set(xs), key=xs.index)`. */
  lemma {:induction false} DedupIsOrderedDedup(xs: seq<string>)
    ensures IsOrderedDedup(xs, Dedup(xs))
  {
    if xs != [] {
      var init, x := xs[..|xs| - 1], xs[|xs| - 1];
      assert xs == init + [x];
      var r := Dedup(init);
      DedupIsOrderedDedup(init);
      forall y | y in init ensures FirstIndex(xs, y) == FirstIndex(init, y) {
        FirstIndexExtend(init, x, y);
      }
      if x in r {
        assert Dedup(xs) == r;
      } else {
        FirstIndexOfNew(init, x);
        var r' := r + [x];
        assert Dedup(xs) == r';
        assert forall y :: y in r' <==> y in xs;
        forall i, j | 0 <= i < j < |r'|
          ensures FirstIndex(xs, r'[i]) < FirstIndex(xs, r'[j])
        {
          if j == |r| {
            assert r'[i] == r[i] && r[i] in init;
          } else {
            assert r'[i] == r[i] && r'[j] == r[j];
          }
        }
      }
    }
  }

  // ---------------------------------------------------------------------
  // The reference table.

  /**
   * `dict(zip(column1, column3))` over the reference rows, before the
   * header key is removed: a later row overrides an earlier one with the same
   * key. Fails with an index error on a row of fewer than four columns.
   */
  function ZipColumns(rows: seq<seq<string>>): (r: Result<map<string, string>, TableError>)
    ensures r.Success? <==> forall i :: 0 <= i < |rows| ==> |rows[i]| >= 4
    ensures r.Failure? ==> r.error == IndexError
  {
    if rows == [] then Success(map[])
    else
      var init := ZipColumns(rows[..|rows| - 1]);
      var last := rows[|rows| - 1];
      assert forall i :: 0 <= i < |rows| - 1 ==> rows[..|rows| - 1][i] == rows[i];
      if init.Failure? then init
      else if |last| < 4 then Failure(IndexError)
      else Success(init.value[last[1] := last[3]])
  }

  /** The replacement map: the zipped columns with the header key popped. */
  function ReplacementMap(rows: seq<seq<string>>): (r: Result<map<string, string>, TableError>)
    ensures r.Success? ==> HeaderKey !in r.value
  {
    match ZipColumns(rows)
    case Failure(e) => Failure(e)
    case Success(m) => if HeaderKey in m then Success(m - {HeaderKey}) else Failure(KeyError)
  }

  /** The zipped map has exactly the column-1 keys, each from its last row. */
  lemma {:induction false} ZipColumnsLast(rows: seq<seq<string>>, key: string)
    requires forall i :: 0 <= i < |rows| ==> |rows[i]| >= 4
    ensures var m := ZipColumns(rows).value;
      && (key in m <==> exists i :: 0 <= i < |rows| && rows[i][1] == key)
      && (forall i :: (0 <= i < |rows| && rows[i][1] == key && (forall j :: i < j < |rows| ==> rows[j][1] != key)) ==>
            key in m && m[key] == rows[i][3])
  {
    if rows != [] {
      var init := rows[..|rows| - 1];
      assert forall i :: 0 <= i < |init| ==> init[i] == rows[i];
      ZipColumnsLast(init, key);
    }
  }

  /**
   * Reading the reference table fails exactly when a row is too short or
   * no row names the header key; otherwise every other column-1 key maps to
   * column 3 of the last row carrying it.
   */
  lemma ReplacementMapCases(rows: seq<seq<string>>, key: string)
    ensures var r := ReplacementMap(rows);
      && (r.Success? <==> (forall i :: 0 <= i < |rows| ==> |rows[i]| >= 4) && exists i :: 0 <= i < |rows| && rows[i][1] == HeaderKey)
      && (r.Success? && key != HeaderKey ==> (key in r.value <==> exists i :: 0 <= i < |rows| && rows[i][1] == key))
      && (r.Success? ==> forall i ::
            (0 <= i < |rows| && rows[i][1] == key && key != HeaderKey && (forall j :: i < j < |rows| ==> rows[j][1] != key)) ==>
            key in r.value && r.value[key] == rows[i][3])
  {
    if forall i :: 0 <= i < |rows| ==> |rows[i]| >= 4 {
      ZipColumnsLast(rows, key);
      ZipColumnsLast(rows, HeaderKey);
    }
  }

  // ---------------------------------------------------------------------
  // The exported table.

  /** The match mode written for every row of the given mode. */
  function MatchLabel(mode: int): string
  {
    if mode == 0 then "Contains" else "Exact Match"
  }

  /** The search strings for a mode: filtered and de-duplicated names, the names as they are, or none. */
  function SearchStrings(names: seq<string>, mode: int): seq<string>
  {
    if mode == 0 then Dedup(seq(|names|, i requires 0 <= i < |names| => KeepChars(names[i])))
    else if mode == 1 then names
    else []
  }

  /**
   * The export's table. `reference` is None when no reference file is
   * chosen; otherwise it holds the reference file's rows, header first.
   * In both modes the row name equals the search string.
   */
  function BuildTable(names: seq<string>, mode: int, reference: Option<seq<seq<string>>>): (r: Result<seq<Row>, TableError>)
    ensures r.Success? ==> |r.value| == |SearchStrings(names, mode)|
    ensures r.Success? ==> forall i :: 0 <= i < |r.value| ==>
      && r.value[i].rowName == r.value[i].searchString == SearchStrings(names, mode)[i]
      && r.value[i].stringMatch == MatchLabel(mode)
  {
    var search := SearchStrings(names, mode);
    var dict := if reference.None? then Success(map[]) else ReplacementMap(reference.value);
    if dict.Failure? then Failure(dict.error)
    else
      Success(seq(|search|, i requires 0 <= i < |search| =>
        Row(search[i], search[i], MatchLabel(mode),
            if search[i] in dict.value then Some(dict.value[search[i]]) else None)))
  }

  /**
   * In mode 0 the search strings are the filtered names, each once, in
   * order of first appearance, and made only of whitelisted characters.
   */
  lemma ContainsModeSearchStrings(names: seq<string>)
    ensures var search := SearchStrings(names, 0);
      var filtered := seq(|names|, i requires 0 <= i < |names| => KeepChars(names[i]));
      && IsOrderedDedup(filtered, search)
      && (forall i :: 0 <= i < |search| ==> forall k :: 0 <= k < |search[i]| ==> IsKept(search[i][k]))
  {
    var filtered := seq(|names|, i requires 0 <= i < |names| => KeepChars(names[i]));
    DedupIsOrderedDedup(filtered);
    var search := SearchStrings(names, 0);
    forall i | 0 <= i < |search| ensures forall k :: 0 <= k < |search[i]| ==> IsKept(search[i][k]) {
      assert search[i] in filtered;
    }
  }

  /**
   * With a reference file, the export succeeds exactly when every reference
   * row has four cells and one row names the header; then row `i` gets the
   * fourth cell of the last reference row whose second cell is its search
   * string, and nothing when there is no such row or the search string is
   * the header key itself.
   */
  lemma BuildTableReplacementFromRows(names: seq<string>, mode: int, rows: seq<seq<string>>, i: nat)
    requires i < |SearchStrings(names, mode)|
    ensures var r := BuildTable(names, mode, Some(rows));
      var s := SearchStrings(names, mode)[i];
      && (r.Success? <==> (forall j :: 0 <= j < |rows| ==> |rows[j]| >= 4) && exists j :: 0 <= j < |rows| && rows[j][1] == HeaderKey)
      && (r.Success? ==> (r.value[i].replacement.Some? <==> s != HeaderKey && exists j :: 0 <= j < |rows| && rows[j][1] == s))
      && (r.Success? ==> forall j ::
            (0 <= j < |rows| && rows[j][1] == s && s != HeaderKey && (forall l :: j < l < |rows| ==> rows[l][1] != s)) ==>
            r.value[i].replacement == Some(rows[j][3]))
  {
    ReplacementMapCases(rows, SearchStrings(names, mode)[i]);
  }

  /** Without a reference table no row has a replacement. */
  lemma NoReferenceNoReplacement(names: seq<string>, mode: int, i: nat)
    requires i < |SearchStrings(names, mode)|
    ensures BuildTable(names, mode, None).Success?
    ensures BuildTable(names, mode, None).value[i].replacement.None?
  {
  }
}
