/**
 * The first half of the merge step: the scraped items of both spiders,
 * concatenated, are split into line items (key holding `"_ "`), expanded to one
 * row per station with a 1-based stop order, and accessibility items, whose
 * sentence lists become five 0/1 flags plus a transport name.
 */
module Merger {
  import opened PyStr
  import opened Spiders

  /** The substring that marks a line item's key. */
  const LineDelimiter := "_ "

  /** `'_ ' in key`: the delimiter occurs somewhere in the key. */
  predicate IsLineKey(key: string)
    ensures IsLineKey(key) <==> exists i :: OccursAt(key, LineDelimiter, i)
  {
    ContainsIff(key, LineDelimiter);
    Contains(key, LineDelimiter)
  }

  /**
   * `key.split('_ ')[0]`: the line code, the longest prefix of the key without
   * `"_ "`; in a line key it is followed by the delimiter, and any other key is
   * its own code.
   */
  function LineCode(key: string): (code: string)
    ensures StartsWith(key, code) && !Contains(code, LineDelimiter)
    ensures IsLineKey(key) ==> OccursAt(key, LineDelimiter, |code|)
    ensures !IsLineKey(key) ==> code == key
  {
    SplitHead(key, LineDelimiter);
    Split(key, LineDelimiter)[0]
  }

  /**
   * `key.split('_ ')[1]`: the line name, the longest prefix without `"_ "` of
   * what follows the first delimiter (all of it, or up to the next delimiter);
   * the script only evaluates it for line keys.
   */
  function LineName(key: string): (name: string)
    requires IsLineKey(key)
    ensures |LineCode(key)| + |LineDelimiter| <= |key|
    ensures StartsWith(key[|LineCode(key)| + |LineDelimiter|..], name) && !Contains(name, LineDelimiter)
    ensures name == key[|LineCode(key)| + |LineDelimiter|..]
         || OccursAt(key[|LineCode(key)| + |LineDelimiter|..], LineDelimiter, |name|)
  {
    SplitSecond(key, LineDelimiter);
    SplitHead(key[|LineCode(key)| + |LineDelimiter|..], LineDelimiter);
    Split(key, LineDelimiter)[1]
  }

  /** One row of the `metro` table: `stop_id`, `order_id`, `line_name`, `line_id`. */
  datatype LineRow = LineRow(stopId: string, order: nat, lineName: string, lineId: string)

  /** The rows one item contributes to the line lists. */
  function LineRowsOf(item: Item): seq<LineRow>
  {
    if IsLineKey(item.key) then
      seq(|item.values|, j requires 0 <= j < |item.values| =>
        LineRow(item.values[j], j + 1, LineName(item.key), LineCode(item.key)))
    else []
  }

  /** What one item contributes to the accessibility lists. */
  function Routed(item: Item): seq<Item>
  {
    if IsLineKey(item.key) then [] else [item]
  }

  /** The contributions `f` gives to a run of items, appended in item order. */
  function FlatMap<T>(f: Item -> seq<T>, items: seq<Item>): seq<T>
    decreases |items|
  {
    if items == [] then []
    else FlatMap(f, items[..|items| - 1]) + f(items[|items| - 1])
  }

  /** The line rows of a run of items, in item order. */
  function ExpandLines(items: seq<Item>): seq<LineRow>
  {
    FlatMap(LineRowsOf, items)
  }

  /** The items routed to the accessibility lists, in item order. */
  function AccessItems(items: seq<Item>): seq<Item>
  {
    FlatMap(Routed, items)
  }

  /** The number of stations listed by the line items. */
  function LineStopCount(items: seq<Item>): nat
    decreases |items|
  {
    if items == [] then 0
    else (if IsLineKey(items[0].key) then |items[0].values| else 0) + LineStopCount(items[1..])
  }

  /** Four parallel lists hold exactly the fields of `rows`, row by row. */
  ghost predicate LineColumns(rows: seq<LineRow>, stations: seq<string>, orders: seq<nat>,
                              names: seq<string>, codes: seq<string>)
  {
    && |stations| == |rows| && |orders| == |rows| && |names| == |rows| && |codes| == |rows|
    && forall k :: 0 <= k < |rows| ==> rows[k] == LineRow(stations[k], orders[k], names[k], codes[k])
  }

  /** Two parallel lists hold exactly the keys and values of `acc`, item by item. */
  ghost predicate AccessColumns(acc: seq<Item>, stations: seq<string>, sentences: seq<seq<string>>)
  {
    && |stations| == |acc| && |sentences| == |acc|
    && forall k :: 0 <= k < |acc| ==> acc[k] == Item(stations[k], sentences[k])
  }

  /**
   * The loop over `result_total`: appends to `estaciones`, `orden`,
   * `nombre_lineas`, `codigo_lineas` (here `stations`, `orders`, `lineNames`,
   * `lineCodes`) for line items and to `estacion_acceso`, `accesibilidad`
   * (`accessStations`, `accessibility`) for the others.
   */
  method Expand(items: seq<Item>)
    returns (stations: seq<string>, orders: seq<nat>, lineNames: seq<string>, lineCodes: seq<string>,
             accessStations: seq<string>, accessibility: seq<seq<string>>)
    ensures LineColumns(ExpandLines(items), stations, orders, lineNames, lineCodes)
    ensures AccessColumns(AccessItems(items), accessStations, accessibility)
  {
    stations, orders, lineNames, lineCodes := [], [], [], [];
    accessStations, accessibility := [], [];
    var i := 0;
    while i < |items|
      invariant 0 <= i <= |items|
      invariant LineColumns(ExpandLines(items[..i]), stations, orders, lineNames, lineCodes)
      invariant AccessColumns(AccessItems(items[..i]), accessStations, accessibility)
    {
      var key, values := items[i].key, items[i].values;
      ExpandStep(items, i);
      if IsLineKey(key) {
        ghost var done := ExpandLines(items[..i]);
        ghost var block := LineRowsOf(items[i]);
        var j := 0;
        while j < |values|
          invariant 0 <= j <= |values| && |block| == |values|
          invariant LineColumns(done + block[..j], stations, orders, lineNames, lineCodes)
        {
          LineColumnsSnoc(done + block[..j], stations, orders, lineNames, lineCodes, block[j]);
          stations := stations + [values[j]];
          orders := orders + [j + 1];
          lineNames := lineNames + [LineName(key)];
          lineCodes := lineCodes + [LineCode(key)];
          PrefixStep(done, block, j);
          j := j + 1;
        }
        assert block[..j] == block;
        assert AccessItems(items[..i]) + Routed(items[i]) == AccessItems(items[..i]);
      } else {
        AccessColumnsSnoc(AccessItems(items[..i]), accessStations, accessibility, items[i]);
        accessStations := accessStations + [key];
        accessibility := accessibility + [values];
        assert ExpandLines(items[..i]) + LineRowsOf(items[i]) == ExpandLines(items[..i]);
      }
      i := i + 1;
    }
    assert items[..i] == items;
  }

  /** The runs `items[..i + 1]` and `items[..i]` differ by the contributions of `items[i]`. */
  lemma ExpandStep(items: seq<Item>, i: nat)
    requires i < |items|
    ensures ExpandLines(items[..i + 1]) == ExpandLines(items[..i]) + LineRowsOf(items[i])
    ensures AccessItems(items[..i + 1]) == AccessItems(items[..i]) + Routed(items[i])
  {
    assert items[..i + 1][..i] == items[..i];
  }

  /** Extending the prefix of `block` after `done` by one element. */
  lemma PrefixStep<T>(done: seq<T>, block: seq<T>, j: nat)
    requires j < |block|
    ensures done + block[..j + 1] == (done + block[..j]) + [block[j]]
  {
    assert block[..j + 1] == block[..j] + [block[j]];
  }

  /** Appending one row's fields to the four lists keeps them the columns of the rows. */
  lemma LineColumnsSnoc(rows: seq<LineRow>, stations: seq<string>, orders: seq<nat>,
                        names: seq<string>, codes: seq<string>, r: LineRow)
    requires LineColumns(rows, stations, orders, names, codes)
    ensures LineColumns(rows + [r], stations + [r.stopId], orders + [r.order],
                        names + [r.lineName], codes + [r.lineId])
  {
  }

  /** Appending one item's key and values keeps the two lists the columns of the items. */
  lemma AccessColumnsSnoc(acc: seq<Item>, stations: seq<string>, sentences: seq<seq<string>>, item: Item)
    requires AccessColumns(acc, stations, sentences)
    ensures AccessColumns(acc + [item], stations + [item.key], sentences + [item.values])
  {
  }

  /** The contributions of two runs of items, one after the other. */
  lemma {:induction false} FlatMapAppend<T>(f: Item -> seq<T>, a: seq<Item>, b: seq<Item>)
    ensures FlatMap(f, a + b) == FlatMap(f, a) + FlatMap(f, b)
    decreases |b|
  {
    if b == [] {
      assert a + b == a;
    } else {
      var b' := b[..|b| - 1];
      FlatMapAppend(f, a, b');
      assert (a + b)[..|a + b| - 1] == a + b';
      assert (a + b)[|a + b| - 1] == b[|b| - 1];
    }
  }

  /** The contributions of the run `before + [item] + after`. */
  lemma FlatMapSplit<T>(f: Item -> seq<T>, before: seq<Item>, item: Item, after: seq<Item>)
    ensures FlatMap(f, before + [item] + after) == FlatMap(f, before) + f(item) + FlatMap(f, after)
  {
    FlatMapAppend(f, before + [item], after);
    FlatMapAppend(f, before, [item]);
    assert [item][..0] == [];
  }

  /**
   * A line item adds its block of rows to the line lists and nothing to the
   * accessibility lists; any other item adds itself, unchanged, to the
   * accessibility lists and nothing to the line lists.
   */
  lemma ItemRouting(before: seq<Item>, item: Item, after: seq<Item>)
    ensures IsLineKey(item.key) ==>
      && ExpandLines(before + [item] + after) == ExpandLines(before) + LineRowsOf(item) + ExpandLines(after)
      && AccessItems(before + [item] + after) == AccessItems(before) + AccessItems(after)
    ensures !IsLineKey(item.key) ==>
      && ExpandLines(before + [item] + after) == ExpandLines(before) + ExpandLines(after)
      && AccessItems(before + [item] + after) == AccessItems(before) + [item] + AccessItems(after)
  {
    FlatMapSplit(LineRowsOf, before, item, after);
    FlatMapSplit(Routed, before, item, after);
    if IsLineKey(item.key) {
      assert Routed(item) == [];
      assert AccessItems(before) + [] == AccessItems(before);
    } else {
      assert LineRowsOf(item) == [];
      assert ExpandLines(before) + [] == ExpandLines(before);
    }
  }

  /**
   * The j-th station of the line item at index i becomes a row with that
   * station, stop order j + 1 and the line code and name split from the key;
   * these rows follow the rows of the items before it, consecutively.
   */
  lemma ExpandLinesAt(items: seq<Item>, i: nat, j: nat)
    requires i < |items| && IsLineKey(items[i].key) && j < |items[i].values|
    ensures var off := |ExpandLines(items[..i])|;
      && off + j < |ExpandLines(items)|
      && ExpandLines(items)[off + j]
         == LineRow(items[i].values[j], j + 1, LineName(items[i].key), LineCode(items[i].key))
  {
    assert items == items[..i] + [items[i]] + items[i + 1..];
    ItemRouting(items[..i], items[i], items[i + 1..]);
  }

  /** The line lists have one entry per station listed by a line item. */
  lemma {:induction false} ExpandLinesCount(items: seq<Item>)
    ensures |ExpandLines(items)| == LineStopCount(items)
    decreases |items|
  {
    if items != [] {
      ExpandLinesCount(items[1..]);
      assert items == [] + [items[0]] + items[1..];
      ItemRouting([], items[0], items[1..]);
    }
  }

  /** An item reaches the accessibility lists exactly when it occurs and is not a line item. */
  lemma {:induction false} AccessItemsMembers(items: seq<Item>, it: Item)
    ensures it in AccessItems(items) <==> it in items && !IsLineKey(it.key)
    decreases |items|
  {
    if items != [] {
      var init := items[..|items| - 1];
      AccessItemsMembers(init, it);
      assert items == init + [items[|items| - 1]];
    }
  }

  /** `row` is the entry for station number `row.order` of the line item `item`. */
  ghost predicate RowOfItem(row: LineRow, item: Item)
  {
    && IsLineKey(item.key)
    && 1 <= row.order <= |item.values|
    && row.stopId == item.values[row.order - 1]
    && row.lineId == LineCode(item.key)
    && row.lineName == LineName(item.key)
  }

  /** Every row of the line lists is the entry of some station of some line item. */
  lemma {:induction false} RowsComeFromLineItems(items: seq<Item>, k: nat)
    requires k < |ExpandLines(items)|
    ensures exists i :: 0 <= i < |items| && RowOfItem(ExpandLines(items)[k], items[i])
    decreases |items|
  {
    var init := items[..|items| - 1];
    var last := |items| - 1;
    var row := ExpandLines(items)[k];
    if k < |ExpandLines(init)| {
      RowsComeFromLineItems(init, k);
      var i :| 0 <= i < |init| && RowOfItem(ExpandLines(init)[k], init[i]);
      assert items[i] == init[i];
      assert RowOfItem(row, items[i]);
    } else {
      assert row == LineRowsOf(items[last])[k - |ExpandLines(init)|];
      assert RowOfItem(row, items[last]);
    }
  }

  /**
   * A line item built from a heading whose text starts with a space, and whose
   * number and name hold no `"_ "`, is recognised as a line item and split back
   * into exactly that number (the line code) and name (the line name).
   */
  lemma LineKeyRoundTrip(numberLine: string, name: string)
    requires !Contains(numberLine, LineDelimiter) && !Contains(name, LineDelimiter)
    ensures var key := BuildKey(numberLine, " " + name);
      IsLineKey(key) && LineCode(key) == numberLine && LineName(key) == name
  {
    var key := BuildKey(numberLine, " " + name);
    assert key == numberLine + LineDelimiter + name;
    NoEarlierDelimiter(numberLine, name);
    SplitAt(numberLine, LineDelimiter, name);
    SplitHead(name, LineDelimiter);
  }

  /**
   * For a number and a heading text without `"_ "`, the built key is read as a
   * line key exactly when the heading text starts with a space.
   */
  lemma LineKeyRecognition(numberLine: string, line: string)
    requires !Contains(numberLine, LineDelimiter) && !Contains(line, LineDelimiter)
    ensures IsLineKey(BuildKey(numberLine, line)) <==> (|line| > 0 && line[0] == ' ')
  {
    var key := BuildKey(numberLine, line);
    ContainsIff(key, LineDelimiter);
    if |line| > 0 && line[0] == ' ' {
      assert key == numberLine + LineDelimiter + line[1..];
      OccursDisplayed(numberLine, LineDelimiter, line[1..]);
    }
    if IsLineKey(key) {
      var i :| OccursAt(key, LineDelimiter, i);
      DelimiterInKey(numberLine, line, i);
    }
  }

  /** In a key built from parts without `"_ "`, a `"_ "` can only be the joining `_` and a leading space. */
  lemma DelimiterInKey(numberLine: string, line: string, i: int)
    requires !Contains(numberLine, LineDelimiter) && !Contains(line, LineDelimiter)
    requires OccursAt(BuildKey(numberLine, line), LineDelimiter, i)
    ensures i == |numberLine| && |line| > 0 && line[0] == ' '
  {
    var key := BuildKey(numberLine, line);
    var n := |numberLine|;
    assert key[i] == '_' && key[i + 1] == ' ' by {
      assert key[i..i + 2] == LineDelimiter;
    }
    if i + 2 <= n {
      OccursRestrictPrefix(key, LineDelimiter, n, i);
      assert key[..n] == numberLine;
      ContainsIff(numberLine, LineDelimiter);
    } else if i == n - 1 {
      assert false;
    } else if i > n {
      OccursRestrictSuffix(key, LineDelimiter, n + 1, i);
      ContainsIff(line, LineDelimiter);
      assert false;
    } else {
      assert line[0] == key[n + 1];
    }
  }

  /** With no `"_ "` in `a`, the first `"_ "` of `a + "_ " + b` is the displayed one. */
  lemma NoEarlierDelimiter(a: string, b: string)
    requires !Contains(a, LineDelimiter)
    ensures NoneBetween(a + LineDelimiter + b, LineDelimiter, 0, |a|)
  {
    var s := a + LineDelimiter + b;
    ContainsIff(a, LineDelimiter);
    forall i | 0 <= i < |a| ensures !OccursAt(s, LineDelimiter, i) {
      if i + 2 <= |a| {
        assert s[i..i + 2] == a[i..i + 2];
        assert !OccursAt(a, LineDelimiter, i);
      } else {
        assert s[i + 1] == '_';
        assert s[i..i + 2][1] == s[i + 1];
      }
    }
  }

  /**
   * A whole line page (number, heading text " name", hrefs) becomes one row per
   * href, in href order, with stop orders 1, 2, ... and the page's code and name;
   * it reaches no accessibility list.
   */
  lemma LinePageRows(numberLine: string, name: string, hrefs: seq<string>)
    requires !Contains(numberLine, LineDelimiter) && !Contains(name, LineDelimiter)
    ensures var rows := ExpandLines([LineItem(numberLine, " " + name, hrefs)]);
      && |rows| == |hrefs|
      && (forall j :: 0 <= j < |hrefs| ==>
            rows[j] == LineRow(StationCode(hrefs[j]), j + 1, name, numberLine))
      && AccessItems([LineItem(numberLine, " " + name, hrefs)]) == []
  {
    var item := LineItem(numberLine, " " + name, hrefs);
    LineKeyRoundTrip(numberLine, name);
    assert IsLineKey(item.key) && LineCode(item.key) == numberLine && LineName(item.key) == name;
    ItemRouting([], item, []);
    assert [] + [item] + [] == [item];
    var rows := LineRowsOf(item);
    assert ExpandLines([item]) == rows;
    forall j | 0 <= j < |hrefs| ensures rows[j] == LineRow(StationCode(hrefs[j]), j + 1, name, numberLine) {
      assert item.values[j] == StationCode(hrefs[j]);
    }
  }

  // ---------------------------------------------------------------------------
  // Accessibility flags and transport name (the `access` table)

  const StepFreeSentence := "Estación accesible"
  const MobileCoverageSentence := "Estación con cobertura móvil"
  const EscalatorsSentence := "Estación con escaleras mecánicas"
  const ElevatorSentence := "Estación con ascensor"
  const FreeWifiSentence := "Estación con Wifi gratuito"

  /** `search_word(x, palabra)`: 1 when `palabra` is one of the sentences of `x`, else 0. */
  function SearchWord(x: seq<string>, word: string): (a: int)
    ensures a == 0 || a == 1
    ensures x == [] ==> a == 0
    ensures a == 1 <==> exists i :: 0 <= i < |x| && x[i] == word
  {
    if x == [] then 0
    else if word in x then 1
    else 0
  }

  /** The five flag columns of one station. */
  datatype Flags = Flags(stepFree: int, mobileCoverage: int, escalators: int, elevators: int, freeWifi: int)

  /** The five `search_word` applications, each on the same sentence list. */
  function FlagsOf(sentences: seq<string>): (f: Flags)
    ensures sentences == [] ==> f == Flags(0, 0, 0, 0, 0)
    ensures f.stepFree == (if StepFreeSentence in sentences then 1 else 0)
    ensures f.mobileCoverage == (if MobileCoverageSentence in sentences then 1 else 0)
    ensures f.escalators == (if EscalatorsSentence in sentences then 1 else 0)
    ensures f.elevators == (if ElevatorSentence in sentences then 1 else 0)
    ensures f.freeWifi == (if FreeWifiSentence in sentences then 1 else 0)
  {
    Flags(SearchWord(sentences, StepFreeSentence),
          SearchWord(sentences, MobileCoverageSentence),
          SearchWord(sentences, EscalatorsSentence),
          SearchWord(sentences, ElevatorSentence),
          SearchWord(sentences, FreeWifiSentence))
  }

  /** `np.where('4_' in x, 'metro', 'metro_ligero')`. */
  function TransportName(stopId: string): (name: string)
    ensures name == "metro" || name == "metro_ligero"
    ensures name == "metro" <==> exists i :: OccursAt(stopId, "4_", i)
  {
    ContainsIff(stopId, "4_");
    if Contains(stopId, "4_") then "metro" else "metro_ligero"
  }

  /** One row of the `access` table. */
  datatype AccessRow = AccessRow(stopId: string, accessibility: seq<string>, flags: Flags, transportName: string)

  /**
   * `row` is the `access` row of a station with these sentences: the two
   * columns copied, each flag 1 when its sentence is listed and 0 otherwise, and the
   * transport name `metro` exactly when `4_` occurs in the station code.
   */
  ghost predicate RowDescribes(row: AccessRow, station: string, sentences: seq<string>)
  {
    && row.stopId == station && row.accessibility == sentences
    && row.flags.stepFree == (if StepFreeSentence in sentences then 1 else 0)
    && row.flags.mobileCoverage == (if MobileCoverageSentence in sentences then 1 else 0)
    && row.flags.escalators == (if EscalatorsSentence in sentences then 1 else 0)
    && row.flags.elevators == (if ElevatorSentence in sentences then 1 else 0)
    && row.flags.freeWifi == (if FreeWifiSentence in sentences then 1 else 0)
    && (row.transportName == "metro" <==> exists i :: OccursAt(station, "4_", i))
    && (row.transportName == "metro" || row.transportName == "metro_ligero")
  }

  /** The `access` table built from the two accessibility lists: one described row per station. */
  function AccessTable(stations: seq<string>, sentences: seq<seq<string>>): (rows: seq<AccessRow>)
    requires |stations| == |sentences|
    ensures |rows| == |stations|
    ensures forall k :: 0 <= k < |rows| ==> RowDescribes(rows[k], stations[k], sentences[k])
  {
    seq(|stations|, k requires 0 <= k < |stations| =>
      AccessRow(stations[k], sentences[k], FlagsOf(sentences[k]), TransportName(stations[k])))
  }

  /**
   * Built from the accessibility lists of the loop, every `access` row
   * describes some scraped item that is not a line item, and every such item
   * has its row.
   */
  lemma AccessTableOfItems(items: seq<Item>, stations: seq<string>, sentences: seq<seq<string>>)
    requires AccessColumns(AccessItems(items), stations, sentences)
    ensures forall k :: 0 <= k < |stations| ==>
      exists i :: 0 <= i < |items| && !IsLineKey(items[i].key) &&
        RowDescribes(AccessTable(stations, sentences)[k], items[i].key, items[i].values)
    ensures forall i :: 0 <= i < |items| && !IsLineKey(items[i].key) ==>
      exists k :: 0 <= k < |stations| && RowDescribes(AccessTable(stations, sentences)[k], items[i].key, items[i].values)
  {
    var acc := AccessItems(items);
    var table := AccessTable(stations, sentences);
    forall k | 0 <= k < |stations|
      ensures exists i ::
                0 <= i < |items| && !IsLineKey(items[i].key) && RowDescribes(table[k], items[i].key, items[i].values)
    {
      AccessItemsMembers(items, acc[k]);
      var i :| 0 <= i < |items| && items[i] == acc[k];
      assert RowDescribes(table[k], items[i].key, items[i].values);
    }
    forall i | 0 <= i < |items| && !IsLineKey(items[i].key)
      ensures exists k :: 0 <= k < |stations| && RowDescribes(table[k], items[i].key, items[i].values)
    {
      AccessItemsMembers(items, items[i]);
      var k :| 0 <= k < |acc| && acc[k] == items[i];
      assert RowDescribes(table[k], items[i].key, items[i].values);
    }
  }

  /**
   * The flag test is list membership, not substring search: a sentence that
   * merely contains the step-free sentence does not set the flag.
   */
  lemma SearchWordIsNotSubstring()
    ensures var longer := StepFreeSentence + " desde la calle";
      Contains(longer, StepFreeSentence) && SearchWord([longer], StepFreeSentence) == 0
  {
    var longer := StepFreeSentence + " desde la calle";
    assert longer[0..|StepFreeSentence|] == StepFreeSentence;
    assert OccursAt(longer, StepFreeSentence, 0);
    ContainsIff(longer, StepFreeSentence);
    assert [longer][0] != StepFreeSentence by {
      assert |longer| != |StepFreeSentence|;
    }
  }

  /** The key `"4_ L1"` is a line key with code "4" and name "L1". */
  lemma LineKeyExample()
    ensures IsLineKey("4_ L1") && LineCode("4_ L1") == "4" && LineName("4_ L1") == "L1"
  {
    FirstCharAbsent("4", LineDelimiter);
    FirstCharAbsent("L1", LineDelimiter);
    LineKeyRoundTrip("4", "L1");
    assert BuildKey("4", " " + "L1") == "4_ L1" by {
      forall k | 0 <= k < 5 ensures BuildKey("4", " " + "L1")[k] == "4_ L1"[k] {}
    }
  }

  /**
   * The two-item run of a line `"4_ L1"` through station `"001"` and that
   * station's single sentence gives one line row (order 1, name "L1", code "4")
   * and routes the station item, unchanged, to the accessibility lists.
   */
  lemma TwoItemExample()
    ensures var items := [Item("4_ L1", ["001"]), Item("001", [StepFreeSentence])];
      && ExpandLines(items) == [LineRow("001", 1, "L1", "4")]
      && AccessItems(items) == [Item("001", [StepFreeSentence])]
  {
    var line := Item("4_ L1", ["001"]);
    var station := Item("001", [StepFreeSentence]);
    LineKeyExample();
    FirstCharAbsent("001", LineDelimiter);
    assert LineRowsOf(line)[0] == LineRow("001", 1, "L1", "4");
    assert LineRowsOf(line) == [LineRow("001", 1, "L1", "4")];
    assert Routed(station) == [station];
    FlatMapSplit(LineRowsOf, [line], station, []);
    FlatMapSplit(Routed, [line], station, []);
    FlatMapSplit(LineRowsOf, [], line, []);
    FlatMapSplit(Routed, [], line, []);
    assert [line] + [station] + [] == [line, station];
    assert [] + [line] + [] == [line];
  }

  /**
   * A key written `"4_L 1"`, with no space after the underscore, holds no `"_ "`:
   * the loop routes such an item to the accessibility lists, not the line lists.
   */
  lemma UnspacedKeyExample()
    ensures !IsLineKey("4_L 1")
    ensures ExpandLines([Item("4_L 1", ["a", "b", "c"])]) == []
    ensures AccessItems([Item("4_L 1", ["a", "b", "c"])]) == [Item("4_L 1", ["a", "b", "c"])]
  {
    var key := "4_L 1";
    assert key[0..2] == "4_" && key[1..3] == "_L" && key[2..4] == "L " && key[3..5] == " 1";
    assert Find(key, LineDelimiter, 4).None?;
    assert !OccursAt(key, LineDelimiter, 3) && Find(key, LineDelimiter, 3).None?;
    assert !OccursAt(key, LineDelimiter, 2) && Find(key, LineDelimiter, 2).None?;
    assert !OccursAt(key, LineDelimiter, 1) && Find(key, LineDelimiter, 1).None?;
    assert !OccursAt(key, LineDelimiter, 0) && Find(key, LineDelimiter, 0).None?;
    var item := Item(key, ["a", "b", "c"]);
    ItemRouting([], item, []);
    assert [] + [item] + [] == [item];
  }

  /** That station's access row has the step-free flag alone set, and is light rail by its code. */
  lemma StationRowExample()
    ensures AccessTable(["001"], [[StepFreeSentence]])
         == [AccessRow("001", [StepFreeSentence], Flags(1, 0, 0, 0, 0), "metro_ligero")]
  {
    FirstCharAbsent("001", "4_");
    ContainsIff("001", "4_");
  }
}
