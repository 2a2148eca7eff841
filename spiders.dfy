/**
 * What the metro and light-rail spiders emit, given what their selectors
 * matched on a page: one line item per line page (key `number_line + "_" + line`,
 * value the ordered station codes) and one station item per station page
 * (key the station code, value the matched accessibility sentences). Both
 * spiders shape their items identically; only the URL patterns differ.
 */
module Spiders {
  import opened PyStr

  /** One scraped item, the single-key dict `{key: values}` a spider yields. */
  datatype Item = Item(key: string, values: seq<string>)

  /** `url.split('/')[-1]`: the tail of the URL after its last `/`, itself free of `/`. */
  function LastSegment(url: string): (seg: string)
    ensures '/' !in seg && TailAfterSep(url, "/", seg)
  {
    var parts := Split(url, "/");
    SplitLast(url, "/", parts);
    SplitPartsFree(url, "/");
    ContainsChar(parts[|parts| - 1], '/');
    parts[|parts| - 1]
  }

  /**
   * `(url.split('/')[-1]).split('.')[0]`: the station code named by a URL or
   * href, a prefix of the last segment holding neither `/` nor `.`.
   */
  function StationCode(url: string): (code: string)
    ensures StartsWith(LastSegment(url), code) && '/' !in code && '.' !in code
  {
    var seg := LastSegment(url);
    var code := Split(seg, ".")[0];
    SplitHead(seg, ".");
    ContainsChar(code, '.');
    StartsWithAbsent(seg, code, '/');
    code
  }

  /**
   * The station codes of a line page: one per matched href, in href order,
   * each free of `/` and `.`; no href gives no stations.
   */
  function StationCodes(hrefs: seq<string>): (codes: seq<string>)
    ensures |codes| == |hrefs| && (hrefs == [] ==> codes == [])
    ensures forall k :: 0 <= k < |codes| ==>
      codes[k] == StationCode(hrefs[k]) && '/' !in codes[k] && '.' !in codes[k]
  {
    seq(|hrefs|, k requires 0 <= k < |hrefs| => StationCode(hrefs[k]))
  }

  /** `number_line + "_" + line`: the number, one `_`, then the heading text. */
  function BuildKey(numberLine: string, line: string): (key: string)
    ensures |key| == |numberLine| + 1 + |line|
    ensures StartsWith(key, numberLine) && key[|numberLine|] == '_' && key[|numberLine| + 1..] == line
  {
    var key := numberLine + "_" + line;
    assert key[..|numberLine|] == numberLine;
    assert key[|numberLine| + 1..] == line;
    key
  }

  /** The item `{stops_: estaciones}` a line page yields: its key and one code per href. */
  function LineItem(numberLine: string, line: string, hrefs: seq<string>): (item: Item)
    ensures item.key == BuildKey(numberLine, line) && |item.values| == |hrefs|
    ensures forall k :: 0 <= k < |hrefs| ==> item.values[k] == StationCode(hrefs[k])
  {
    Item(BuildKey(numberLine, line), StationCodes(hrefs))
  }

  /** The item `{station_code: sentences}` a station page yields: a `/`- and `.`-free key, the sentences unchanged. */
  function StationItem(url: string, sentences: seq<string>): (item: Item)
    ensures item.key == StationCode(url) && item.values == sentences
    ensures '/' !in item.key && '.' !in item.key
    ensures StartsWith(LastSegment(url), item.key)
  {
    Item(StationCode(url), sentences)
  }

  /**
   * The station code is the last `/`-segment of the URL (a suffix with no `/`
   * that is the whole URL or follows a `/`), cut before its first `.`: so it
   * holds neither `/` nor `.`, and it is the whole segment when that has no `.`.
   */
  lemma StationCodeShape(url: string)
    ensures var seg := LastSegment(url); var code := StationCode(url);
      && '/' !in seg && TailAfterSep(url, "/", seg)
      && StartsWith(seg, code) && '/' !in code && '.' !in code
      && (code == seg || seg[|code|] == '.')
      && ('.' !in seg ==> code == seg)
  {
    var seg := LastSegment(url);
    var code := StationCode(url);
    SplitHead(seg, ".");
    ContainsChar(code, '.');
    ContainsChar(seg, '.');
    if code != seg {
      assert OccursAt(seg, ".", |code|);
      assert seg[|code|] == seg[|code|..|code| + 1][0];
    }
    assert seg[..|code|] == code;
  }
}
