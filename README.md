# Metro scraper record shaping, modelled in Dafny

`MetroSpider.py` crawls the Madrid transport authority's website with two
spiders, one for metro and one for light rail. It then merges what they scraped
with the static station tables into one CSV file. The crawling and the
dataframe plumbing are out of scope. This project models the sequential
record-shaping core between them and proves properties of it:

- **Station codes** (`Spiders`). A station page's code and a line page's
  station list are both taken from URLs: the last `/`-segment, cut before its
  first `.`.
- **Line keys** (`Spiders`, `Merger`). A line item's key is
  `number_line + "_" + line`. The key is later recognised by the substring
  `"_ "` and split there into a line code and a line name.
- **The expansion loop** (`Merger.Expand`). This loop walks the concatenated
  items. Each line item becomes one row per station, with stop orders
  1, 2, …; these rows go into four parallel lists. Every other item goes,
  unchanged, into two accessibility lists.
- **Accessibility flags and transport name** (`Merger`). `search_word` is
  applied with five fixed sentences. The transport name is `metro` when the
  code contains `4_`.
- **Final shaping** (`Shaping`). This covers:
  - the `stop_id2` join key and the transport code read back from it;
  - `change_type`;
  - the `est_90` passthrough filter;
  - the final column order.

`PyStr` models the Python string operations the script uses:
- `sub in s`, as a search for the leftmost occurrence (`PyStr.Find`), which
  `split` also relies on;
- `s.split(sep)`, at every occurrence and left to right;
- `startswith`.

`sep.join` is modelled only to state the round trip of `split`.

Python slices of the column list, including negative and clamped bounds, are
written out in `Shaping.PySlice`.

A scraped item is `Spiders.Item(key, values)`, the single-key dict a spider
yields. The expansion loop is a method over the item sequence. It returns the
six lists, which the script initialises empty at lines 199-205 and appends to
in place. Its contract ties them to two specification functions,
`Merger.ExpandLines` and `Merger.AccessItems`, and lemmas state the
properties of those functions.

## Model

| member | source | states |
|---|---|---|
| PyStr.Find | metro_spyder/metro_spyder/spiders/MetroSpider.py:223 | a found index is at or after the start and is an occurrence of the substring |
| PyStr.FindSpec | metro_spyder/metro_spyder/spiders/MetroSpider.py:223 | the found index is the leftmost occurrence, and `None` means no occurrence at all |
| PyStr.Contains | metro_spyder/metro_spyder/spiders/MetroSpider.py:223 | `sub in s` never holds for a `sub` longer than `s`, and always holds for the empty `sub` |
| PyStr.ContainsIff | metro_spyder/metro_spyder/spiders/MetroSpider.py:223 | `sub in s` holds exactly when `sub` occurs at some index of `s` |
| PyStr.StartsWithIff | metro_spyder/metro_spyder/spiders/MetroSpider.py:290 | `s.startswith(p)` holds exactly when `s` is `p` followed by some string |
| PyStr.Split | metro_spyder/metro_spyder/spiders/MetroSpider.py:85 | `split` gives at least one part, and at least two exactly when the separator occurs |
| PyStr.JoinSplit | metro_spyder/metro_spyder/spiders/MetroSpider.py:85 | joining the parts of a split with the same separator gives back the string |
| PyStr.SplitPartsFree | metro_spyder/metro_spyder/spiders/MetroSpider.py:85 | no part of a split contains the separator |
| PyStr.SplitHead | metro_spyder/metro_spyder/spiders/MetroSpider.py:85 | the first part is a prefix free of the separator; it is the whole string or is followed by the separator |
| PyStr.SplitLast | metro_spyder/metro_spyder/spiders/MetroSpider.py:85 | the last part is a suffix; it is the whole string or is preceded by the separator |
| Spiders.LastSegment | metro_spyder/metro_spyder/spiders/MetroSpider.py:85 | `url.split('/')[-1]` holds no `/` and is the tail of the URL after its last `/`, or the whole URL |
| Spiders.StationCode | metro_spyder/metro_spyder/spiders/MetroSpider.py:137 | the station code is a prefix of the last `/`-segment and holds neither `/` nor `.` |
| Spiders.StationCodeShape | metro_spyder/metro_spyder/spiders/MetroSpider.py:85 | the station code is a prefix of the last `/`-segment and ends at its first `.`; it holds neither `/` nor `.`, and it is the whole segment when the segment has no `.` |
| Spiders.StationCodes | metro_spyder/metro_spyder/spiders/MetroSpider.py:73-76 | a line page gives one code per matched href, in href order (code k is the code of href k), each free of `/` and `.`; no hrefs give no codes (the light-rail comprehension at lines 124-127 is identical) |
| Spiders.BuildKey | metro_spyder/metro_spyder/spiders/MetroSpider.py:68-70 | the key is the number, then one `_`, then the heading text: it starts with the number, has `_` right after it and ends with exactly the heading text |
| Spiders.LineItem | metro_spyder/metro_spyder/spiders/MetroSpider.py:70-78 | the line item's key is the built key and its values are one code per href, in href order |
| Spiders.StationItem | metro_spyder/metro_spyder/spiders/MetroSpider.py:85-88 | the station item's key is exactly the station code of the URL, free of `/` and `.` and a prefix of the URL's last segment; its values are the matched sentences unchanged |
| Merger.IsLineKey | metro_spyder/metro_spyder/spiders/MetroSpider.py:223 | `'_ ' in key` holds exactly when `"_ "` occurs at some index of the key |
| Merger.LineCode | metro_spyder/metro_spyder/spiders/MetroSpider.py:228 | `key.split('_ ')[0]` is a prefix of the key without `"_ "`; in a line key the delimiter follows it directly, and any other key is its own code |
| Merger.LineName | metro_spyder/metro_spyder/spiders/MetroSpider.py:227 | for a line key, `key.split('_ ')[1]` is a prefix without `"_ "` of what follows the first delimiter, and it is either all of that rest or followed there by the next `"_ "` |
| Merger.Expand | metro_spyder/metro_spyder/spiders/MetroSpider.py:221-231 | the four line lists hold, row by row, exactly the line rows of the items, and the two accessibility lists hold exactly the non-line items, in item order; all lists of a group have equal length |
| Merger.ItemRouting | metro_spyder/metro_spyder/spiders/MetroSpider.py:223-231 | wherever it sits in the run, a line item adds its block of rows to the line lists and nothing to the accessibility lists, and any other item adds itself to the accessibility lists and nothing to the line lists |
| Merger.ExpandLinesAt | metro_spyder/metro_spyder/spiders/MetroSpider.py:224-228 | station j of line item i becomes the row (station `values[j]`, order j+1, name `key.split('_ ')[1]`, code `key.split('_ ')[0]`), directly after the rows of the earlier items |
| Merger.ExpandLinesCount | metro_spyder/metro_spyder/spiders/MetroSpider.py:224-226 | there is one line row per station listed by a line item |
| Merger.AccessItemsMembers | metro_spyder/metro_spyder/spiders/MetroSpider.py:229-231 | an item reaches the accessibility lists exactly when it is in the input and is not a line item |
| Merger.RowsComeFromLineItems | metro_spyder/metro_spyder/spiders/MetroSpider.py:224-228 | every line row is the row of some station of some line item of the input |
| Merger.LineKeyRoundTrip | metro_spyder/metro_spyder/spiders/MetroSpider.py:227-228 | a key built at line 70 from a number and a heading " name", neither holding `"_ "`, is a line key and splits back into exactly that number and name |
| Merger.LineKeyRecognition | metro_spyder/metro_spyder/spiders/MetroSpider.py:223 | for parts without `"_ "`, the built key is a line key exactly when the heading text starts with a space |
| Merger.LinePageRows | metro_spyder/metro_spyder/spiders/MetroSpider.py:68-78 | a whole line page becomes one row per href, in href order, with orders 1, 2, … and the page's code and name; it adds nothing to the accessibility lists |
| Merger.SearchWord | metro_spyder/metro_spyder/spiders/MetroSpider.py:208-217 | `search_word` is 0 or 1; it is 0 for the empty list, and 1 exactly when the word is an element of the list |
| Merger.FlagsOf | metro_spyder/metro_spyder/spiders/MetroSpider.py:243-252 | each of the five flags is 1 when its own sentence is in the list and 0 when it is not, independently of the others; an empty list sets none |
| Merger.TransportName | metro_spyder/metro_spyder/spiders/MetroSpider.py:253-254 | the name is `metro` exactly when `4_` occurs in the code, and `metro_ligero` otherwise |
| Merger.AccessTable | metro_spyder/metro_spyder/spiders/MetroSpider.py:241-254 | the `access` table has one row per station; each row copies the station and its sentences, sets each of the five flags to 1 when its sentence is listed and to 0 otherwise, and names the transport `metro` exactly when `4_` occurs in the code, else `metro_ligero` |
| Merger.AccessTableOfItems | metro_spyder/metro_spyder/spiders/MetroSpider.py:229-254 | built from the loop's accessibility lists, every `access` row describes some scraped item that is not a line item, and every such item has a row |
| Merger.SearchWordIsNotSubstring | metro_spyder/metro_spyder/spiders/MetroSpider.py:213 | a sentence that only contains the step-free sentence as a substring does not set the flag |
| Merger.LineKeyExample | metro_spyder/metro_spyder/spiders/MetroSpider.py:227-228 | `"4_ L1"` is a line key with code `4` and name `L1` |
| Merger.TwoItemExample | metro_spyder/metro_spyder/spiders/MetroSpider.py:221-231 | the items `{"4_ L1": ["001"]}`, `{"001": ["Estación accesible"]}` give the single row ("001", 1, "L1", "4") and route the station item unchanged |
| Merger.UnspacedKeyExample | metro_spyder/metro_spyder/spiders/MetroSpider.py:223 | the key `"4_L 1"` holds no `"_ "`, so its item goes to the accessibility lists and gives no line rows |
| Merger.StationRowExample | metro_spyder/metro_spyder/spiders/MetroSpider.py:243-254 | station `001` with the step-free sentence alone has flags (1, 0, 0, 0, 0) and transport name `metro_ligero` |
| Shaping.StopId2 | metro_spyder/metro_spyder/spiders/MetroSpider.py:262-263 | when `stop_id2` is defined, the id has at least three `_`-segments, and splitting `stop_id2` at `_` gives back exactly the second and third |
| Shaping.TransportCode | metro_spyder/metro_spyder/spiders/MetroSpider.py:268-269 | `x.split('_')[0]` is a `_`-free prefix of `x`, followed by `_` unless it is all of `x`, and all of `x` when `x` has no `_` |
| Shaping.StopId2Defined | metro_spyder/metro_spyder/spiders/MetroSpider.py:262-263 | `stop_id2` is defined (Python raises no IndexError) exactly when the id holds at least two underscores |
| Shaping.StopId2Of | metro_spyder/metro_spyder/spiders/MetroSpider.py:262-263 | for `mode_x_y` with no `_` in mode or x, `stop_id2` is `x_` followed by the first segment of y, which is `x_y` when y has no `_` |
| Shaping.TransportCodeOfStopId2 | metro_spyder/metro_spyder/spiders/MetroSpider.py:268-269 | the transport code read from `stop_id2` is the id's second `_`-segment |
| Shaping.StopId2Example | metro_spyder/metro_spyder/spiders/MetroSpider.py:262-269 | `est_90_999` joins on `90_999`, whose transport code is `90` |
| Shaping.ChangeType | metro_spyder/metro_spyder/spiders/MetroSpider.py:273-278 | `change_type` never fails. It gives an integer exactly for integer literals; an integer result is `int(x)` as `Shaping.ParseInt` states it (sign and digit value), so a literal in `str`'s own rendering reads back as the integer it renders; otherwise, in particular for any code with a character other than a digit or sign, it returns the string unchanged |
| Shaping.ParseInt | metro_spyder/metro_spyder/spiders/MetroSpider.py:275 | `int(x)` of an integer literal is not positive after a leading `-` and not negative otherwise, and its magnitude is the value of the literal's digits |
| Shaping.ParseIntShow | metro_spyder/metro_spyder/spiders/MetroSpider.py:275 | `str(int(x)) == x` for every integer literal written as `str` writes integers |
| Shaping.ChangeTypeOfInteger | metro_spyder/metro_spyder/spiders/MetroSpider.py:273-278 | a line code written as an integer's decimal rendering becomes that integer |
| Shaping.ParentStations | metro_spyder/metro_spyder/spiders/MetroSpider.py:290 | the filter keeps no more rows than it is given, and every kept row's id starts with `est_90` |
| Shaping.ParentStationsAppend | metro_spyder/metro_spyder/spiders/MetroSpider.py:290 | filtering two runs of rows gives the results for each run, one after the other, so the original order is kept |
| Shaping.ParentStationsMembers | metro_spyder/metro_spyder/spiders/MetroSpider.py:290 | a row is kept, unmodified, exactly when it is a row of the table whose id starts with `est_90` |
| Shaping.SliceBound | metro_spyder/metro_spyder/spiders/MetroSpider.py:296 | a slice bound within `0..n` stays as it is, one past the end becomes `n`, a negative one counts back from `n`, and one before the start becomes 0 |
| Shaping.PySlice | metro_spyder/metro_spyder/spiders/MetroSpider.py:296 | `s[lo:hi]` is the run of consecutive elements of `s` from the clamped lower bound up to the clamped upper bound: its length is their difference when that is positive and 0 otherwise |
| Shaping.PySliceBounds | metro_spyder/metro_spyder/spiders/MetroSpider.py:296 | Python slices equal Dafny slices for bounds within the list; a negative bound counts from the end; bounds past either end are clamped, so an upper bound past the end reads to the end of the list |
| Shaping.Reorder | metro_spyder/metro_spyder/spiders/MetroSpider.py:296 | with at least seven columns, `cols[4:-3] + cols[0:4] + cols[-3:]` is the middle columns, then the first four, then the last three |
| Shaping.ReorderPermutation | metro_spyder/metro_spyder/spiders/MetroSpider.py:295-296 | with at least seven columns, the reorder keeps the number of columns and is a permutation of them |
| Shaping.ReorderPermutationIff | metro_spyder/metro_spyder/spiders/MetroSpider.py:296 | the reorder is a permutation exactly when there are no columns or at least seven; with one to six columns it repeats columns and gets longer |

## Left out

- Crawling is not modelled: `response.follow`, the CSS selectors, the `.re(...)` filters, the allowed domains and the start URLs. The model takes what the selectors matched (hrefs, heading texts, sentences) as parameters.
- `extract()[0]` on a page without the heading raises IndexError at lines 68-69 and 119-120. Here the heading texts are parameters of `Spiders.LineItem`, so that failure is not modelled.
- The Twisted reactor and the crawler runners (lines 155-169) are not modelled; they only sequence the two crawls.
- File I/O is not modelled: removing old files, `read_csv`, reading and parsing the JSON feeds, and `to_csv`.
- pandas `concat`, `merge`, `drop`, `sort_values` and `rename` are outside the model. These are library semantics. In particular:
  - the mixed int/str sort at line 282 would raise in Python 3;
  - `transport_code` on null `stop_id2` values from unmatched left-join rows would fail.
- `Merger.AccessTable` returns the `access` table as a sequence of rows rather than dataframe columns. `np.where` returns a zero-dimensional array, modelled here as the plain string.
- Dicts with several keys are not represented. The spiders only yield single-key dicts, so `Spiders.Item` holds one key and its values.
- StopId2: Python raises IndexError for an id with fewer than three `_`-segments. The model returns `None` there instead of aborting the script.
- ChangeType: uses an optional `+`/`-` sign followed by ASCII decimal digits as its approximation of what `int()` accepts. It does not accept surrounding whitespace, digit-group underscores or non-ASCII digits, which Python's `int()` does.
- Merger.Expand: models the six module-level lists as sequences returned by the method. It does not show them as globals mutated in place or aliased.

## Behaviour worth noting

- The five flags test exact list membership, not substring search (`Merger.SearchWordIsNotSubstring`).
- The transport name is `metro` exactly when the station code contains `4_`, and `metro_ligero` otherwise.
- The `est_90` filter reads only the first static table, `metro_stops_` (line 290), not the concatenation of both tables. `Shaping.ParentStations` is the filter over whichever table it is given.
- A key such as `"4_L 1"` holds no `"_ "`, so its item is routed as an accessibility item (`Merger.UnspacedKeyExample`).
