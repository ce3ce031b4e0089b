/**
 * The string helpers the renaming tools are built on: integer parsing and
 * printing, the last `_`-separated segment of a name, character-set
 * stripping, substring search and the base-name rule.
 */
module Naming {
  import opened Wrappers

  /** Above this a trailing number is taken for a date or hash, not a counter. */
  const MaxCounter: int := 10000000

  predicate IsDigit(c: char) { '0' <= c <= '9' }

  predicate IsDigits(s: string)
  {
    |s| > 0 && forall k :: 0 <= k < |s| ==> IsDigit(s[k])
  }

  function DigitChar(d: nat): (c: char)
    requires d < 10
    ensures IsDigit(c)
  {
    ('0' as int + d) as char
  }

  function DigitValue(c: char): (d: nat)
    requires IsDigit(c)
    ensures d < 10 && DigitChar(d) == c
  {
    (c as int - '0' as int) as nat
  }

  // ---------------------------------------------------------------------
  // str(int) and int(str)

  /** Decimal digits of `n` without leading zeros. */
  function NatToString(n: nat): (s: string)
  {
    if n < 10 then [DigitChar(n)] else NatToString(n / 10) + [DigitChar(n % 10)]
  }

  /** Python's `str` of an integer: a minus sign for negatives, then the digits. */
  function IntToString(i: int): (s: string)
  {
    if i < 0 then "-" + NatToString(-i) else NatToString(i)
  }

  /** The printed form is a non-empty run of digits without leading zeros. */
  lemma {:induction false} NatToStringDigits(n: nat)
    ensures IsDigits(NatToString(n))
    ensures NatToString(n)[0] == '0' ==> n == 0 && |NatToString(n)| == 1
  {
    if n >= 10 {
      NatToStringDigits(n / 10);
      var s := NatToString(n);
      assert s[..|s| - 1] == NatToString(n / 10);
      assert s[0] == NatToString(n / 10)[0];
    }
  }

  lemma IntToStringHasNoUnderscore(i: int)
    ensures |IntToString(i)| > 0 && '_' !in IntToString(i)
  {
    NatToStringDigits(if i < 0 then -i else i);
  }

  /** The value of a run of decimal digits, most significant first. */
  function DigitsValue(s: string): nat
    requires forall k :: 0 <= k < |s| ==> IsDigit(s[k])
    decreases |s|
  {
    if |s| == 0 then 0 else DigitsValue(s[..|s| - 1]) * 10 + DigitValue(s[|s| - 1])
  }

  /** Python's `int(s)` for an optional sign followed by ASCII digits; `None` stands for `ValueError`. */
  function ParseInt(s: string): Option<int>
  {
    if |s| > 0 && (s[0] == '-' || s[0] == '+') then
      if IsDigits(s[1..]) then
        var magnitude: int := DigitsValue(s[1..]);
        Some(if s[0] == '-' then -magnitude else magnitude)
      else None
    else if IsDigits(s) then Some(DigitsValue(s))
    else None
  }

  /**
   * `int` rejects a string holding a character that is neither a digit nor
   * a sign in first position: such a segment is a word, not a number.
   */
  lemma ParseIntRejectsNonNumeral(s: string, k: nat)
    requires k < |s| && !IsDigit(s[k]) && !(k == 0 && (s[k] == '-' || s[k] == '+'))
    ensures ParseInt(s).None?
  {
    if |s| > 0 && (s[0] == '-' || s[0] == '+') {
      assert k > 0 && !IsDigit(s[1..][k - 1]);
    }
  }

  lemma {:induction false} DigitsValueOfNatToString(n: nat)
    ensures IsDigits(NatToString(n))
    ensures DigitsValue(NatToString(n)) == n
  {
    var s := NatToString(n);
    NatToStringDigits(n);
    if n >= 10 {
      NatToStringDigits(n / 10);
      DigitsValueOfNatToString(n / 10);
      assert s[..|s| - 1] == NatToString(n / 10);
    }
  }

  /** Printing an integer and parsing it back gives the integer. */
  lemma IntToStringRoundTrip(i: int)
    ensures ParseInt(IntToString(i)) == Some(i)
  {
    var s := IntToString(i);
    NatToStringDigits(if i < 0 then -i else i);
    if i < 0 {
      DigitsValueOfNatToString(-i);
      assert s[1..] == NatToString(-i);
    } else {
      DigitsValueOfNatToString(i);
    }
  }

  lemma IntToStringInjective(a: int, b: int)
    requires IntToString(a) == IntToString(b)
    ensures a == b
  {
    IntToStringRoundTrip(a);
    IntToStringRoundTrip(b);
  }

  // ---------------------------------------------------------------------
  // name.split('_')[-1]

  /** The text after the last `_` of `s`, or all of `s` when it has none. */
  function LastSegment(s: string): string
    decreases |s|
  {
    if |s| == 0 || s[|s| - 1] == '_' then "" else LastSegment(s[..|s| - 1]) + [s[|s| - 1]]
  }

  /**
   * The last segment is a suffix of `s` free of `_`, and unless it is all
   * of `s` the character before it is `_`.
   */
  lemma {:induction false} LastSegmentIsSuffix(s: string)
    ensures var r := LastSegment(s);
      && |r| <= |s| && r == s[|s| - |r|..]
      && '_' !in r
      && (|r| < |s| ==> s[|s| - |r| - 1] == '_')
    decreases |s|
  {
    if |s| > 0 && s[|s| - 1] != '_' {
      var init := s[..|s| - 1];
      var last := s[|s| - 1];
      LastSegmentIsSuffix(init);
      var r0 := LastSegment(init);
      var r := LastSegment(s);
      assert r == r0 + [last];
      assert s == init + [last];
      var a := |init| - |r0|;
      assert s[a..] == init[a..] + [last];
      assert '_' !in r by {
        assert forall c :: c in r ==> c in r0 || c == last;
      }
      if |r| < |s| {
        assert s[a - 1] == init[a - 1];
      }
    }
  }

  // ---------------------------------------------------------------------
  // str.strip(chars): removes every leading and trailing character that
  // belongs to the set `chars`, not a prefix or suffix string.

  function StripLeft(s: string, cs: set<char>): string
    decreases |s|
  {
    if |s| > 0 && s[0] in cs then StripLeft(s[1..], cs) else s
  }

  function StripRight(s: string, cs: set<char>): string
    decreases |s|
  {
    if |s| > 0 && s[|s| - 1] in cs then StripRight(s[..|s| - 1], cs) else s
  }

  /** Stripping on the left keeps a suffix and removes only characters of the set, up to the first one outside it. */
  lemma {:induction false} StripLeftSpec(s: string, cs: set<char>)
    ensures var r := StripLeft(s, cs);
      && |r| <= |s| && r == s[|s| - |r|..]
      && (forall k :: 0 <= k < |s| - |r| ==> s[k] in cs)
      && (|r| > 0 ==> r[0] !in cs)
    decreases |s|
  {
    if |s| > 0 && s[0] in cs {
      StripLeftSpec(s[1..], cs);
      var r := StripLeft(s, cs);
      forall k | 0 < k < |s| - |r| ensures s[k] in cs {
        assert s[k] == s[1..][k - 1];
      }
      assert s[1..][|s| - 1 - |r|..] == s[|s| - |r|..];
    }
  }

  /** Stripping on the right keeps a prefix and removes only characters of the set, back to the last one outside it. */
  lemma {:induction false} StripRightSpec(s: string, cs: set<char>)
    ensures var r := StripRight(s, cs);
      && |r| <= |s| && r == s[..|r|]
      && (forall k :: |r| <= k < |s| ==> s[k] in cs)
      && (|r| > 0 ==> r[|r| - 1] !in cs)
    decreases |s|
  {
    if |s| > 0 && s[|s| - 1] in cs {
      var init := s[..|s| - 1];
      StripRightSpec(init, cs);
      var r := StripRight(s, cs);
      forall k | |r| <= k < |s| - 1 ensures s[k] in cs {
        assert s[k] == init[k];
      }
      assert init[..|r|] == s[..|r|];
    }
  }

  function Strip(s: string, cs: set<char>): string
  {
    StripRight(StripLeft(s, cs), cs)
  }

  /** The set of characters `str.strip` receives when given the string `s`. */
  function CharSet(s: string): set<char>
  {
    set c | c in s
  }

  lemma {:induction false} StripLeftIs(s: string, cs: set<char>, a: nat)
    requires a <= |s|
    requires forall k :: 0 <= k < a ==> s[k] in cs
    requires a == |s| || s[a] !in cs
    ensures StripLeft(s, cs) == s[a..]
    decreases |s|
  {
    if a > 0 {
      StripLeftIs(s[1..], cs, a - 1);
      assert s[1..][a - 1..] == s[a..];
    }
  }

  lemma {:induction false} StripRightIs(s: string, cs: set<char>, b: nat)
    requires b <= |s|
    requires forall k :: b <= k < |s| ==> s[k] in cs
    requires b == 0 || s[b - 1] !in cs
    ensures StripRight(s, cs) == s[..b]
    decreases |s|
  {
    if b < |s| {
      StripRightIs(s[..|s| - 1], cs, b);
      assert s[..|s| - 1][..b] == s[..b];
    }
  }

  /**
   * `Strip` keeps exactly the slice between the outermost characters that are
   * not in the set; everything outside it is in the set.
   */
  lemma StripIsSlice(s: string, cs: set<char>, a: nat, b: nat)
    requires a <= b <= |s|
    requires forall k :: 0 <= k < a ==> s[k] in cs
    requires forall k :: b <= k < |s| ==> s[k] in cs
    requires a < b ==> s[a] !in cs && s[b - 1] !in cs
    ensures Strip(s, cs) == s[a..b]
  {
    if a < b {
      StripLeftIs(s, cs, a);
      StripRightOfSuffix(s, cs, a, b);
    } else {
      StripLeftIs(s, cs, |s|);
      assert StripLeft(s, cs) == [];
    }
  }

  lemma StripRightOfSuffix(s: string, cs: set<char>, a: nat, b: nat)
    requires a < b <= |s|
    requires forall k :: b <= k < |s| ==> s[k] in cs
    requires s[b - 1] !in cs
    ensures StripRight(s[a..], cs) == s[a..b]
  {
    var t := s[a..];
    forall k | b - a <= k < |t| ensures t[k] in cs {
      assert t[k] == s[a + k];
    }
    StripRightIs(t, cs, b - a);
    assert t[..b - a] == s[a..b];
  }

  // ---------------------------------------------------------------------
  // Python's `sub in s`

  predicate Contains(s: string, sub: string)
    decreases |s|
  {
    (|sub| <= |s| && s[..|sub|] == sub) || (|s| > 0 && Contains(s[1..], sub))
  }

  predicate OccursAt(s: string, sub: string, k: nat)
  {
    k + |sub| <= |s| && s[k..k + |sub|] == sub
  }

  /** `Contains` holds exactly when `sub` occurs at some offset of `s`. */
  lemma {:induction false} ContainsIffOccurs(s: string, sub: string)
    ensures Contains(s, sub) <==> exists k: nat :: OccursAt(s, sub, k)
    decreases |s|
  {
    if |s| > 0 {
      ContainsIffOccurs(s[1..], sub);
      if exists k: nat :: OccursAt(s, sub, k) {
        var k: nat :| OccursAt(s, sub, k);
        if k > 0 {
          assert s[1..][k - 1..k - 1 + |sub|] == sub;
          assert OccursAt(s[1..], sub, k - 1);
        } else {
          assert s[..|sub|] == sub;
        }
      }
      if Contains(s[1..], sub) {
        var k: nat :| OccursAt(s[1..], sub, k);
        assert s[k + 1..k + 1 + |sub|] == sub;
        assert OccursAt(s, sub, k + 1);
      }
      if |sub| <= |s| && s[..|sub|] == sub {
        assert OccursAt(s, sub, 0);
      }
    } else if exists k: nat :: OccursAt(s, sub, k) {
      var k: nat :| OccursAt(s, sub, k);
      assert sub == [];
    } else if |sub| == 0 {
      assert OccursAt(s, sub, 0);
    }
  }

  // ---------------------------------------------------------------------
  // GetNodeBasename

  /**
   * The base name of a node: when the last `_` segment parses as an integer
   * no larger than `MaxCounter`, every character of `"_" + str(idx)` is
   * stripped from both ends of the name; otherwise the name is kept.
   */
  function Basename(name: string): string
  {
    match ParseInt(LastSegment(name))
    case None => name
    case Some(idx) =>
      if idx > MaxCounter then name
      else Strip(name, CharSet("_" + IntToString(idx)))
  }

  /** What `Strip` keeps is the slice between the outermost characters not in the set. */
  predicate StrippedSlice(s: string, cs: set<char>, r: string)
  {
    exists a: nat, b: nat ::
      && a <= b <= |s|
      && r == s[a..b]
      && (forall k :: 0 <= k < a ==> s[k] in cs)
      && (forall k :: b <= k < |s| ==> s[k] in cs)
      && (a < b ==> s[a] !in cs && s[b - 1] !in cs)
  }

  lemma StripIsStrippedSlice(s: string, cs: set<char>)
    ensures StrippedSlice(s, cs, Strip(s, cs))
  {
    var left := StripLeft(s, cs);
    StripLeftSpec(s, cs);
    var a := |s| - |left|;
    var right := StripRight(left, cs);
    StripRightSpec(left, cs);
    var b := a + |right|;
    assert right == left[..|right|];
    assert Strip(s, cs) == s[a..b];
    forall k | b <= k < |s| ensures s[k] in cs {
      assert s[k] == left[k - a];
    }
    if a < b {
      assert s[a] == right[0];
      assert s[b - 1] == right[|right| - 1];
    }
  }

  /**
   * The base name is the whole name unless the last segment is a counter
   * of at most `MaxCounter`; then it is the slice of the name left after
   * cutting, at both ends, every character of `"_" + str(idx)`.
   */
  lemma BasenameCases(name: string)
    ensures ParseInt(LastSegment(name)).None? ==> Basename(name) == name
    ensures ParseInt(LastSegment(name)).Some? && ParseInt(LastSegment(name)).value > MaxCounter ==>
              Basename(name) == name
    ensures ParseInt(LastSegment(name)).Some? && ParseInt(LastSegment(name)).value <= MaxCounter ==>
              StrippedSlice(name, CharSet("_" + IntToString(ParseInt(LastSegment(name)).value)), Basename(name))
  {
    var p := ParseInt(LastSegment(name));
    if p.Some? && p.value <= MaxCounter {
      StripIsStrippedSlice(name, CharSet("_" + IntToString(p.value)));
    }
  }

  lemma {:induction false} LastSegmentAfterUnderscore(stem: string, tail: string)
    requires '_' !in tail
    ensures LastSegment(stem + "_" + tail) == tail
    decreases |tail|
  {
    var s := stem + "_" + tail;
    if |tail| > 0 {
      assert s[..|s| - 1] == stem + "_" + tail[..|tail| - 1];
      LastSegmentAfterUnderscore(stem, tail[..|tail| - 1]);
      assert tail[..|tail| - 1] + [tail[|tail| - 1]] == tail;
    }
  }

  lemma LastSegmentWithoutUnderscore(s: string)
    requires '_' !in s
    ensures LastSegment(s) == s
  {
    LastSegmentIsSuffix(s);
  }

  lemma StripSliceExtends(s: string, t: string, cs: set<char>, a: nat, b: nat)
    requires a <= b <= |s|
    requires forall k :: 0 <= k < a ==> s[k] in cs
    requires forall k :: b <= k < |s| ==> s[k] in cs
    requires a < b ==> s[a] !in cs && s[b - 1] !in cs
    requires forall k :: 0 <= k < |t| ==> t[k] in cs
    ensures Strip(s + t, cs) == s[a..b]
  {
    var st := s + t;
    forall k | b <= k < |st| ensures st[k] in cs {
      if k >= |s| { assert st[k] == t[k - |s|]; }
    }
    assert st[a..b] == s[a..b];
    StripIsSlice(st, cs, a, b);
  }

  /** Characters that all belong to the set do not change what is stripped. */
  lemma StripIgnoresStrippableTail(s: string, t: string, cs: set<char>)
    requires forall k :: 0 <= k < |t| ==> t[k] in cs
    ensures Strip(s + t, cs) == Strip(s, cs)
  {
    StripIsStrippedSlice(s, cs);
    var a: nat, b: nat :|
      && a <= b <= |s|
      && Strip(s, cs) == s[a..b]
      && (forall k :: 0 <= k < a ==> s[k] in cs)
      && (forall k :: b <= k < |s| ==> s[k] in cs)
      && (a < b ==> s[a] !in cs && s[b - 1] !in cs);
    StripSliceExtends(s, t, cs, a, b);
  }

  /**
   * A name `stem_n` with `n` a counter: the base name is the stem with the
   * characters of `"_" + str(n)` cut from both of its ends.
   */
  lemma BasenameOfCounterName(stem: string, n: int)
    requires n <= MaxCounter
    ensures Basename(stem + "_" + IntToString(n)) == Strip(stem, CharSet("_" + IntToString(n)))
  {
    var digits := IntToString(n);
    var cs := CharSet("_" + digits);
    var name := stem + "_" + digits;
    assert ParseInt(LastSegment(name)) == Some(n) by {
      IntToStringHasNoUnderscore(n);
      LastSegmentAfterUnderscore(stem, digits);
      IntToStringRoundTrip(n);
    }
    assert Strip(name, cs) == Strip(stem, cs) by {
      assert name == stem + ("_" + digits);
      StripIgnoresStrippableTail(stem, "_" + digits, cs);
    }
  }

  /** When neither end of the stem is `_` or a digit of `n`, the counter is removed exactly. */
  lemma BasenameRemovesCounter(stem: string, n: int)
    requires n <= MaxCounter
    requires |stem| > 0
    requires stem[0] !in "_" + IntToString(n) && stem[|stem| - 1] !in "_" + IntToString(n)
    ensures Basename(stem + "_" + IntToString(n)) == stem
  {
    BasenameOfCounterName(stem, n);
    StripIsSlice(stem, CharSet("_" + IntToString(n)), 0, |stem|);
  }

  /** A name that is just a counter has an empty base name. */
  lemma BasenameOfNumber(n: nat)
    requires n <= MaxCounter
    ensures Basename(NatToString(n)) == ""
  {
    var s := NatToString(n);
    assert ParseInt(LastSegment(s)) == Some(n) by {
      assert IntToString(n) == s;
      IntToStringHasNoUnderscore(n);
      LastSegmentWithoutUnderscore(s);
      IntToStringRoundTrip(n);
    }
    assert IntToString(n) == s;
    StripIsSlice(s, CharSet("_" + s), |s|, |s|);
  }

  /** A name whose last `_`-segment is a word rather than a number is its own base name. */
  lemma BasenameKeepsWordSuffix(stem: string, tail: string, k: nat)
    requires '_' !in tail && k < |tail| && !IsDigit(tail[k]) && !(k == 0 && (tail[k] == '-' || tail[k] == '+'))
    ensures Basename(stem + "_" + tail) == stem + "_" + tail
  {
    LastSegmentAfterUnderscore(stem, tail);
    ParseIntRejectsNonNumeral(tail, k);
  }

  /** The counter written after the last `_` reads back through `int()`. */
  lemma CounterReadsBack(stem: string, n: int)
    ensures ParseInt(LastSegment(stem + "_" + IntToString(n))) == Some(n)
  {
    IntToStringHasNoUnderscore(n);
    LastSegmentAfterUnderscore(stem, IntToString(n));
    IntToStringRoundTrip(n);
  }

  /** A trailing number above `MaxCounter` is not taken for a counter, so the name stays whole. */
  lemma BasenameKeepsLargeNumber(stem: string, n: int)
    requires n > MaxCounter
    ensures Basename(stem + "_" + IntToString(n)) == stem + "_" + IntToString(n)
  {
    CounterReadsBack(stem, n);
  }

  /**
   * Because a character set is stripped, a stem ending in `_` or in a digit
   * of the counter loses that character too: `Box1_1` has the same base
   * name as `Box_1`.
   */
  lemma BasenameCutsCounterCharsFromStem(stem: string, c: char, n: int)
    requires n <= MaxCounter
    requires c in "_" + IntToString(n)
    ensures Basename(stem + [c] + "_" + IntToString(n)) == Basename(stem + "_" + IntToString(n))
  {
    var cs := CharSet("_" + IntToString(n));
    assert c in cs;
    assert forall k :: 0 <= k < |[c]| ==> [c][k] in cs;
    StripIgnoresStrippableTail(stem, [c], cs);
    BasenameOfCounterName(stem + [c], n);
    BasenameOfCounterName(stem, n);
  }
}
