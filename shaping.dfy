/**
 * The second half of the merge step: the join key derived from a static
 * station id (`stop_id2`), the transport code read back from it, the line-code
 * normalisation used before sorting (`change_type`), the passthrough of
 * aggregate `est_90` stations and the final column order.
 */
module Shaping {
  import opened Wrappers
  import opened PyStr

  // ---------------------------------------------------------------------------
  // stop_id2 and transport_code

  /**
   * `x.split('_')[1] + '_' + x.split('_')[2]`; `None` where Python would raise
   * IndexError. Splitting the key again at `_` gives back exactly the second
   * and third segments of the id.
   */
  function StopId2(stopId: string): (r: Option<string>)
    ensures r.Some? ==> |Split(stopId, "_")| >= 3 && Split(r.value, "_") == Split(stopId, "_")[1..3]
  {
    var parts := Split(stopId, "_");
    if |parts| >= 3 then
      SplitPartsFree(stopId, "_");
      ContainsChar(parts[1], '_');
      NoStraddleChar(parts[1], '_', parts[2]);
      SplitAt(parts[1], "_", parts[2]);
      assert Split(parts[2], "_") == [parts[2]];
      Some(parts[1] + "_" + parts[2])
    else None
  }

  /**
   * `x.split('_')[0]` applied to a `stop_id2`: its longest prefix without `_`,
   * followed by `_` unless it is the whole string.
   */
  function TransportCode(stopId2: string): (code: string)
    ensures StartsWith(stopId2, code) && '_' !in code
    ensures code == stopId2 || stopId2[|code|] == '_'
    ensures '_' !in stopId2 ==> code == stopId2
  {
    var code := Split(stopId2, "_")[0];
    SplitHead(stopId2, "_");
    ContainsChar(code, '_');
    ContainsChar(stopId2, '_');
    assert code != stopId2 ==> stopId2[|code|] == stopId2[|code|..|code| + 1][0];
    code
  }

  /** A string has one more `sep`-segment than it has occurrences of the one-character `sep`. */
  lemma {:induction false} SegmentCount(s: string, c: char)
    ensures |Split(s, [c])| == multiset(s)[c] + 1
    decreases |s|
  {
    match Find(s, [c], 0)
    case None =>
      ContainsChar(s, c);
    case Some(i) =>
      FindSpec(s, [c], 0);
      var rest := s[i + 1..];
      assert Split(s, [c]) == [s[..i]] + Split(rest, [c]);
      SegmentCount(rest, c);
      assert s[i..i + 1] == [c];
      assert s == s[..i] + [c] + rest;
      ContainsIff(s[..i], [c]);
      forall j | OccursAt(s[..i], [c], j) ensures false {
        OccursInPrefix(s, [c], i, j);
      }
      ContainsChar(s[..i], c);
      assert multiset(s) == multiset(s[..i]) + multiset([c]) + multiset(rest);
      assert multiset(s)[c] == multiset(rest)[c] + 1;
  }

  /** `stop_id2` is defined (Python raises no IndexError) exactly when the id holds at least two underscores. */
  lemma StopId2Defined(stopId: string)
    ensures StopId2(stopId).Some? <==> multiset(stopId)['_'] >= 2
  {
    SegmentCount(stopId, '_');
  }

  /**
   * For an id `mode_x_y` whose mode and `x` hold no underscore, `stop_id2` is
   * `x` joined to the first segment of `y`: `x_y` itself when `y` has none.
   */
  lemma StopId2Of(mode: string, x: string, y: string)
    requires '_' !in mode && '_' !in x
    ensures StopId2(mode + "_" + x + "_" + y) == Some(x + "_" + Split(y, "_")[0])
    ensures '_' !in y ==> StopId2(mode + "_" + x + "_" + y) == Some(x + "_" + y)
  {
    var id := mode + "_" + x + "_" + y;
    assert id == mode + "_" + (x + "_" + y);
    NoStraddleChar(mode, '_', x + "_" + y);
    SplitAt(mode, "_", x + "_" + y);
    NoStraddleChar(x, '_', y);
    SplitAt(x, "_", y);
    if '_' !in y {
      ContainsChar(y, '_');
      SplitHead(y, "_");
    }
  }

  /**
   * The transport code read from `stop_id2` is the second `_`-segment of the
   * original id.
   */
  lemma TransportCodeOfStopId2(stopId: string)
    requires StopId2(stopId).Some?
    ensures TransportCode(StopId2(stopId).value) == Split(stopId, "_")[1]
  {
    var parts := Split(stopId, "_");
    SplitPartsFree(stopId, "_");
    ContainsChar(parts[1], '_');
    NoStraddleChar(parts[1], '_', parts[2]);
    SplitAt(parts[1], "_", parts[2]);
  }

  /** The aggregate id `est_90_999` joins on `90_999`, whose transport code is `90`. */
  lemma StopId2Example()
    ensures StopId2("est_90_999") == Some("90_999")
    ensures TransportCode("90_999") == "90"
  {
    var id, key := "est" + "_" + "90" + "_" + "999", "90" + "_" + "999";
    assert id == "est_90_999" by {
      forall k | 0 <= k < 10 ensures id[k] == "est_90_999"[k] {}
    }
    assert key == "90_999" by {
      forall k | 0 <= k < 6 ensures key[k] == "90_999"[k] {}
    }
    StopId2Of("est", "90", "999");
    NoStraddleChar("90", '_', "999");
    SplitAt("90", "_", "999");
  }

  // ---------------------------------------------------------------------------
  // change_type

  /** A line code after `change_type`, the key the rows are sorted by: an `int` or the original string. */
  datatype SortKey = IntId(n: int) | StrId(s: string)

  predicate IsDigit(c: char)
  {
    '0' <= c <= '9'
  }

  /** A non-empty run of decimal digits. */
  predicate IsDigits(s: string)
  {
    |s| > 0 && forall i :: 0 <= i < |s| ==> IsDigit(s[i])
  }

  /** The strings `int()` accepts in this model: an optional sign and decimal digits. */
  predicate IsIntLiteral(s: string)
  {
    IsDigits(s) || (|s| > 1 && (s[0] == '+' || s[0] == '-') && IsDigits(s[1..]))
  }

  /** The value of a run of decimal digits. */
  function DigitsValue(s: string): nat
    requires forall i :: 0 <= i < |s| ==> IsDigit(s[i])
    decreases |s|
  {
    if s == [] then 0
    else
      assert IsDigit(s[|s| - 1]);
      10 * DigitsValue(s[..|s| - 1]) + (s[|s| - 1] as int - '0' as int)
  }

  /** `int(x)` on an integer literal. */
  function ParseInt(s: string): (n: int)
    requires IsIntLiteral(s)
    ensures s[0] == '-' ==> n <= 0
    ensures s[0] != '-' ==> n >= 0
    ensures (if n < 0 then -n else n) == DigitsValue(if IsDigits(s) then s else s[1..])
  {
    if IsDigits(s) then DigitsValue(s)
    else if s[0] == '-' then -(DigitsValue(s[1..]) as int)
    else DigitsValue(s[1..])
  }

  /**
   * `change_type(x)`: `int(x)` when that succeeds, else `str(x)`, which is `x`;
   * it never fails. A literal in Python's own rendering reads back as the
   * integer whose rendering it is, and a code with any character other than a
   * digit or a sign stays a string.
   */
  function ChangeType(x: string): (v: SortKey)
    ensures v.IntId? <==> IsIntLiteral(x)
    ensures v.StrId? ==> v.s == x
    ensures v.IntId? ==> v.n == ParseInt(x)
    ensures v.IntId? && IsCanonicalInt(x) ==> ShowInt(v.n) == x
    ensures (exists i :: 0 <= i < |x| && x[i] != '+' && x[i] != '-' && !IsDigit(x[i])) ==> v == StrId(x)
  {
    if IsIntLiteral(x) then
      ParseIntShow(x);
      IntId(ParseInt(x))
    else StrId(x)
  }

  /** Digits as `str` writes a natural number: no leading zero unless it is `0` itself. */
  predicate IsCanonicalDigits(s: string)
  {
    IsDigits(s) && (s[0] != '0' || |s| == 1)
  }

  /** An integer literal as `str` writes an integer: canonical digits, or `-` and non-zero canonical digits. */
  predicate IsCanonicalInt(s: string)
  {
    IsCanonicalDigits(s) || (|s| > 1 && s[0] == '-' && IsCanonicalDigits(s[1..]) && s[1] != '0')
  }

  /** Digits with a non-zero lead have a positive value, at least 10 when there are two or more. */
  lemma {:induction false} LeadingDigitValue(s: string)
    requires IsDigits(s) && s[0] != '0'
    ensures DigitsValue(s) >= 1 && (|s| >= 2 ==> DigitsValue(s) >= 10)
    decreases |s|
  {
    if |s| >= 2 {
      var p := s[..|s| - 1];
      assert p[0] == s[0];
      LeadingDigitValue(p);
    }
  }

  /** Canonical digits are the rendering of their own value. */
  lemma {:induction false} ShowDigitsValue(s: string)
    requires IsCanonicalDigits(s)
    ensures ShowNat(DigitsValue(s)) == s
    decreases |s|
  {
    var d := s[|s| - 1] as int - '0' as int;
    if |s| == 1 {
      assert s == [s[0]];
    } else {
      var p := s[..|s| - 1];
      assert p[0] == s[0];
      ShowDigitsValue(p);
      LeadingDigitValue(s);
      var v := DigitsValue(s);
      assert v == 10 * DigitsValue(p) + d;
      assert v / 10 == DigitsValue(p) && v % 10 == d;
      assert s == p + [s[|s| - 1]];
    }
  }

  /** `str(int(x)) == x` for a literal written as `str` writes integers. */
  lemma ParseIntShow(x: string)
    requires IsIntLiteral(x)
    ensures IsCanonicalInt(x) ==> ShowInt(ParseInt(x)) == x
  {
    if IsCanonicalDigits(x) {
      ShowDigitsValue(x);
    } else if IsCanonicalInt(x) {
      var d := x[1..];
      assert !IsDigit(x[0]);
      ShowDigitsValue(d);
      LeadingDigitValue(d);
      assert x == "-" + d;
    }
  }

  /** Python's `str(n)` for a natural number: decimal digits, no leading zero. */
  function ShowNat(n: nat): string
  {
    if n < 10 then [('0' as int + n) as char]
    else ShowNat(n / 10) + [('0' as int + n % 10) as char]
  }

  /** Python's `str(n)` for an integer. */
  function ShowInt(n: int): string
  {
    if n < 0 then "-" + ShowNat(-n) else ShowNat(n)
  }

  /** The decimal rendering of `n` is a run of digits whose value is `n`. */
  lemma {:induction false} ShowNatDigits(n: nat)
    ensures IsDigits(ShowNat(n)) && DigitsValue(ShowNat(n)) == n
  {
    if n >= 10 {
      ShowNatDigits(n / 10);
      var s := ShowNat(n);
      assert s[..|s| - 1] == ShowNat(n / 10);
    }
  }

  /** A line code written as an integer's decimal rendering is read back as that integer. */
  lemma ChangeTypeOfInteger(n: int)
    ensures ChangeType(ShowInt(n)) == IntId(n)
  {
    if n < 0 {
      ShowNatDigits(-n);
      var s := ShowInt(n);
      assert s[1..] == ShowNat(-n);
      assert !IsDigit(s[0]);
    } else {
      ShowNatDigits(n);
    }
  }

  // ---------------------------------------------------------------------------
  // The est_90 passthrough

  /** A row of a static station table: its `stop_id` and its other cells. */
  datatype StaticRow = StaticRow(stopId: string, cells: seq<string>)

  /** The id prefix of aggregate stations. */
  const ParentPrefix := "est_90"

  /** `metro_stops_[metro_stops_.stop_id.map(lambda x: x.startswith('est_90'))]`. */
  function ParentStations(rows: seq<StaticRow>): (kept: seq<StaticRow>)
    ensures |kept| <= |rows|
    ensures forall k :: 0 <= k < |kept| ==> StartsWith(kept[k].stopId, ParentPrefix)
    decreases |rows|
  {
    if rows == [] then []
    else (if StartsWith(rows[0].stopId, ParentPrefix) then [rows[0]] else []) + ParentStations(rows[1..])
  }

  /** Filtering two runs of rows one after the other: the filter keeps the original order. */
  lemma {:induction false} ParentStationsAppend(a: seq<StaticRow>, b: seq<StaticRow>)
    ensures ParentStations(a + b) == ParentStations(a) + ParentStations(b)
    decreases |a|
  {
    if a == [] {
      assert a + b == b;
    } else {
      var head := if StartsWith(a[0].stopId, ParentPrefix) then [a[0]] else [];
      ParentStationsAppend(a[1..], b);
      assert (a + b)[1..] == a[1..] + b;
      assert (a + b)[0] == a[0];
      assert ParentStations(a + b) == head + ParentStations(a[1..] + b);
      assert ParentStations(a) == head + ParentStations(a[1..]);
    }
  }

  /** A row is kept exactly when it is a row of the table whose id starts with `est_90`; rows are kept whole. */
  lemma {:induction false} ParentStationsMembers(rows: seq<StaticRow>, r: StaticRow)
    ensures r in ParentStations(rows) <==> r in rows && StartsWith(r.stopId, ParentPrefix)
    decreases |rows|
  {
    if rows != [] {
      ParentStationsMembers(rows[1..], r);
      assert rows == [rows[0]] + rows[1..];
    }
  }

  // ---------------------------------------------------------------------------
  // Column order

  /** Python's normalisation of a slice bound against a length `n`. */
  function SliceBound(i: int, n: nat): (b: nat)
    ensures b <= n
    ensures 0 <= i <= n ==> b == i
    ensures i > n ==> b == n
    ensures i < 0 && 0 <= i + n ==> b == i + n
    ensures i + n < 0 ==> b == 0
  {
    if i < 0 then (if i + n < 0 then 0 else i + n)
    else if i > n then n
    else i
  }

  /** Python's `s[lo:hi]` with negative and out-of-range bounds. */
  function PySlice(s: seq<string>, lo: int, hi: int): (r: seq<string>)
    ensures |r| <= |s| && SliceBound(lo, |s|) + |r| <= |s|
    ensures r == [] <==> SliceBound(hi, |s|) <= SliceBound(lo, |s|)
    ensures |r| == (if SliceBound(lo, |s|) < SliceBound(hi, |s|) then SliceBound(hi, |s|) - SliceBound(lo, |s|) else 0)
    ensures forall k :: 0 <= k < |r| ==> r[k] == s[SliceBound(lo, |s|) + k]
  {
    var a, b := SliceBound(lo, |s|), SliceBound(hi, |s|);
    if a <= b then s[a..b] else []
  }

  /**
   * Python slices agree with Dafny's for in-range bounds; a negative bound
   * counts from the end, and bounds past the ends are clamped.
   */
  lemma PySliceBounds(s: seq<string>, lo: int, hi: int, k: int)
    ensures 0 <= lo <= hi <= |s| ==> PySlice(s, lo, hi) == s[lo..hi]
    ensures 0 <= lo <= |s| <= hi ==> PySlice(s, lo, hi) == s[lo..]
    ensures 0 < k <= |s| ==> PySlice(s, -k, |s|) == s[|s| - k..]
    ensures 0 <= lo && 0 < k && lo + k <= |s| ==> PySlice(s, lo, -k) == s[lo..|s| - k]
    ensures 0 < k && |s| <= k ==> PySlice(s, -k, |s|) == s
    ensures 0 <= lo && 0 < k && |s| < lo + k ==> PySlice(s, lo, -k) == []
  {
    assert s[0..|s|] == s;
  }

  /**
   * `cols[4:-3] + cols[0:4] + cols[-3:]`: with at least seven columns, the
   * columns after the first four and before the last three, then the first
   * four, then the last three.
   */
  function Reorder(cols: seq<string>): (r: seq<string>)
    ensures |cols| >= 7 ==> r == cols[4..|cols| - 3] + cols[..4] + cols[|cols| - 3..]
  {
    PySliceBounds(cols, 4, 4, 3);
    PySliceBounds(cols, 0, 4, 3);
    PySlice(cols, 4, -3) + PySlice(cols, 0, 4) + PySlice(cols, -3, |cols|)
  }

  /** With at least seven columns the reorder is a permutation of the columns. */
  lemma ReorderPermutation(cols: seq<string>)
    requires |cols| >= 7
    ensures |Reorder(cols)| == |cols| && multiset(Reorder(cols)) == multiset(cols)
  {
    var n := |cols|;
    assert cols == cols[..4] + cols[4..n - 3] + cols[n - 3..];
  }

  /**
   * The reorder is a permutation exactly when there are no columns or at least
   * seven; with one to six columns it repeats some and is longer than its input.
   */
  lemma ReorderPermutationIff(cols: seq<string>)
    ensures multiset(Reorder(cols)) == multiset(cols) <==> |cols| == 0 || |cols| >= 7
    ensures 0 < |cols| < 7 ==> |Reorder(cols)| > |cols|
  {
    if |cols| >= 7 {
      ReorderPermutation(cols);
    } else if |cols| > 0 {
      var n := |cols|;
      var len := |Reorder(cols)|;
      assert len == (if n >= 4 then 4 else n) + (if n >= 3 then 3 else n);
      assert |multiset(Reorder(cols))| == len;
      assert |multiset(cols)| == n;
    }
  }
}
