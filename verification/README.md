# Software co-mention pipeline, modelled in Dafny

The repository visualises which research software is mentioned together in
publications. A mention table has one row per (document, software name).
Six scripts turn it into figures:

- `sankey_cal.py` precomputes, for every publication year, the co-mention
  records `{Source, Target, Count}`. A pair's count is the number of that
  year's documents that mention both names.
- `sankey_quickdash.py` and `network_quickdash.py` sum the precomputed
  records over a year window. They keep the N heaviest pairs and draw them
  as a Sankey diagram or as a directed network. The network shows per-node
  total weight and degree, a degree colour bar and weight-encoded edge
  opacity and width. Its play button moves the window's upper end one year
  per tick.
- `sankey_dash.py` counts pairs directly over the rows of the selected
  window, then draws the N heaviest.
- `area_dash.py` and `area.py` pick the most mentioned names. They count
  their rows per (year, name), in absolute numbers or as percentages of each
  year's rows, and melt the table to long form for an area chart.

The model replaces pandas with sequences and maps, and Python dicts with
association lists that keep insertion order. Weights and percentages are
exact `real`s. Modules follow the pipeline:

| module | what it holds |
|---|---|
| Seqs, Order | distinct sequences, occurrence counts, `unique`, min/max; strict total orders on strings, ints and pairs; sort-and-deduplicate (the key order of `groupby`) |
| Years | the four-character year prefix of `pubdate` |
| Rows | the row filter, the year column, the year window, documents grouped by `doi` |
| Pairs, Tally, CoMention | sorted pairs, the insertion-ordered counter dict, per-document pair counting and the resulting records |
| Merge | summing per-year records over a window, grouped by (Source, Target) |
| TopN | `nlargest(n, 'Count')` with `keep='first'` |
| Sankey, Network, Encoding | node list and link indices, per-node weight and degree, colour domain, min-max normalisation, opacity and width |
| Trends | `value_counts().head(n)`, the (year, name) table in count or percentage mode, melt |
| SankeyCal, SankeyQuickdash, SankeyDash, NetworkQuickdash, AreaDash, Area | one module per script, for its entry points |

Three points where the model pins down what the code does:

- **Equal weights.** When every edge weight is equal, the code divides by 1
  instead of by the zero range. Every normalised weight is then 0, every
  edge gets the minimum opacity 0.1 and width 1, and the model follows this.
- **`sankey_dash.py` with no pair.** The script raises when the window has
  no co-mentioned pair, and `network_quickdash.py` raises when nothing is
  selected. Both are modelled as `None`.
- **Percentage mode.** In `area_dash.py` the division aligns on the union
  of the two year indexes. Every year of the window that has rows therefore
  appears, with zero cells when none of its rows names a top name.

## Model

| member | source | states |
|---|---|---|
| Years.ParseYear | sankey_cal.py:20 | a year exists exactly when the first four characters of `pubdate` are a non-empty string of digits, and it lies in 0..9999 |
| Years.YearRoundTrip | sankey_cal.py:20 | a date starting with a four-digit year parses back to that year, whatever follows |
| Years.YearParseShows | sankey_cal.py:20 | a parsed year printed with four digits gives back the date's first four characters |
| Rows.Clean | sankey_cal.py:19-21 | a cleaned mention comes from a row that is neither `not_disambiguated` nor `not_software` and whose year parses; every such row yields one; no name is `not_disambiguated` |
| Rows.InRange | sankey_dash.py:94 | the window keeps exactly the mentions with lo <= year <= hi |
| Rows.EmptyWindow | sankey_dash.py:94 | an inverted window keeps nothing |
| Rows.DocOrder | sankey_cal.py:33 | the groups are the documents with a mention, each once, in ascending `doi` order |
| Rows.GroupsOf | sankey_cal.py:33-34 | each document's group lists the distinct names it mentions, and exactly those |
| Order.SortDistinct | network_quickdash.py:186 | grouping keys come out strictly ascending and are exactly the input's keys |
| Pairs.Canon | sankey_cal.py:37 | a pair key holds the two names, smaller first, and never two equal names |
| Pairs.CanonSymmetric | sankey_cal.py:37 | (A, B) and (B, A) get the same key |
| Pairs.CanonOfCanonical | sankey_cal.py:37 | sorting an already sorted pair changes nothing |
| Pairs.PairLessStrictTotal | network_quickdash.py:186 | the (Source, Target) order of the grouped merge is a strict total order |
| CoMention.DocPairsLength | sankey_cal.py:35-36 | a document with k distinct names yields k(k-1)/2 pairs |
| CoMention.DocPairsOcc | sankey_cal.py:34-37 | a document yields each sorted pair of two of its distinct names exactly once, and no other pair |
| CoMention.DocumentIncrements | sankey_cal.py:35-41 | one document adds exactly k(k-1)/2 to the counters |
| Tally.Bump | sankey_cal.py:38-41 | counting a pair adds 1 to its counter and leaves every other counter alone |
| Tally.BumpKeys | sankey_cal.py:38-39 | a new pair is appended at the end of the dict; a known pair keeps its position |
| Tally.BumpCounts | sankey_cal.py:38-41 | no counter decreases, and a new pair's counter starts at 1 |
| Tally.BumpTotal | sankey_cal.py:38-41 | counting a pair raises the sum of all counters by 1 |
| Tally.BumpValid | sankey_cal.py:38-41 | the dict keeps distinct keys and counters of at least 1 |
| Tally.AddAllCounts | sankey_cal.py:35-41 | after a list of pairs, each counter has grown by the pair's occurrences and the total by the list's length |
| Tally.AddAllKeys | sankey_cal.py:38-39 | the dict's keys are the old keys and the counted pairs |
| Tally.GetValid | sankey_cal.py:43 | looking up a stored pair gives its stored counter |
| CoMention.ProcessCounts | sankey_cal.py:33-41 | after all documents, a sorted pair's counter is the number of documents whose names contain both; unsorted pairs are never counted |
| CoMention.ContainingCounts | sankey_cal.py:33-34 | the groups containing both names are as many as the documents mentioning both |
| CoMention.CoMentionCount | sankey_cal.py:33-41 | a pair's counter is the number of distinct documents that mention both names, and 0 for an unsorted pair |
| CoMention.CoMentionsShape | sankey_cal.py:37-41 | the counter dict has distinct, sorted keys and counts of at least 1 |
| CoMention.Records | sankey_cal.py:46-48 | each record carries its pair as Source and Target and its counter as Count, in dict order |
| CoMention.PairRecordsCounts | sankey_cal.py:38-48 | every record is sorted, counts the documents mentioning both names, and is at least 1 |
| CoMention.PairRecordsKeys | sankey_cal.py:43-48 | no pair appears in two records |
| CoMention.PairRecordsComplete | sankey_cal.py:33-48 | every sorted pair mentioned together in some document has a record |
| CoMention.PairRecordsSpec | sankey_cal.py:33-48 | the three statements above together |
| CoMention.PairRecordsCounted | sankey_cal.py:33-48 | the same, packaged as one predicate for the scripts that use the records |
| CoMention.PairRecordsEmpty | sankey_cal.py:45-50 | the record list is empty exactly when no document mentions two names |
| CoMention.NoMentionNoRecord | sankey_cal.py:45-50 | no mention gives no record |
| SankeyCal.Precompute | sankey_cal.py:23-28 | the table has one entry per year from the earliest to the latest cleaned year, covering every mention's year; there is none without cleaned rows |
| SankeyCal.YearTable | sankey_cal.py:28-50 | an entry for exactly the years lo..hi, each holding the records of that year's mentions |
| SankeyCal.YearsBetween | sankey_cal.py:23-24 | every mention's year lies between the minimum and maximum year |
| SankeyCal.YearEntry | sankey_cal.py:30-48 | a year's records are sorted, distinct, count that year's documents mentioning both names, and miss no co-mentioned pair of that year |
| SankeyCal.EntryOf | sankey_cal.py:30 | a year's entry depends only on the mentions of that year |
| SankeyCal.EmptyYear | sankey_cal.py:45-50 | a year without mentions gets an empty list |
| Merge.GroupSum | network_quickdash.py:186 | grouping yields ascending distinct keys, exactly the input's keys, each with the sum of its counts |
| Merge.SumForAppend | network_quickdash.py:184 | concatenating tables adds their counts pointwise |
| Merge.WindowSum | network_quickdash.py:180-184 | the concatenated window holds, per pair, the sum of the per-year counts |
| Merge.WindowKeys | network_quickdash.py:180-184 | a pair is in the concatenated window exactly when some year of the window lists it |
| Merge.YearSumSplit | network_quickdash.py:180 | per-year sums split at any year inside the window |
| Merge.AbsentYearAddsNothing | network_quickdash.py:182 | a year missing from the table contributes as an empty year |
| Merge.MergeRange | network_quickdash.py:180-186 | the merged table has ascending keys, exactly the pairs of the window's years, each with its summed count; an inverted window is empty |
| Merge.MergedCount | network_quickdash.py:180-186 | the merged count of any pair is the sum of its per-year counts over lo..hi |
| Merge.MergeSplit | network_quickdash.py:180-186 | merge[lo, hi] = merge[lo, mid] + merge[mid+1, hi] pointwise |
| Merge.MergeEmpty | network_quickdash.py:180-186 | the merged table is empty exactly when every listed year of the window is empty |
| Merge.LookupAscending | network_quickdash.py:186 | in a table with ascending keys a pair's lookup finds its own row |
| Network.DropNonNumeric | network_quickdash.py:21-24 | the rows kept are exactly those with a numeric Count |
| Network.DropAppend | network_quickdash.py:21-24 | dropping distributes over concatenation, so the kept rows keep their input order and multiplicity |
| Network.DropLift | network_quickdash.py:21-24 | records that are all numeric pass the filter unchanged |
| TopN.TopIndices | network_quickdash.py:26 | min(n, rows) distinct positions, in descending value, equal values in input order, and no left-out row heavier than or tied ahead of a chosen one |
| TopN.NLargest | network_quickdash.py:26 | min(n, rows) input rows in descending Count; no left-out row has a larger Count; for distinct rows, equal Counts in input order |
| TopN.TopExcluded | network_quickdash.py:26 | no left-out row outweighs a selected one |
| TopN.TopTies | network_quickdash.py:26 | selected rows with equal counts keep their input order |
| TopN.NLargestTiesAscending | network_quickdash.py:26 | after the grouped merge, selected rows with equal Count come in ascending (Source, Target) order |
| Sankey.NodeNames | sankey_quickdash.py:27 | the node list is exactly the endpoints of the selected rows, each once, in order of first appearance among Sources then Targets |
| Sankey.SourcesFirst | sankey_quickdash.py:27 | every Source node precedes every node that is only a Target |
| Sankey.EndsEndpoints | sankey_quickdash.py:27 | the concatenated Source and Target column holds exactly the endpoints |
| Sankey.Links | sankey_quickdash.py:30-34 | one link per row, whose indices name that row's Source and Target and whose value is its Count |
| Sankey.LinksRoundTrip | sankey_quickdash.py:30-34 | reading the rows back from nodes and links gives the selected rows |
| Sankey.Build | sankey_quickdash.py:27-34 | distinct nodes, valid links, one per row, at most twice as many nodes as links, and the rows recoverable |
| Sankey.NoIsolatedNode | network_quickdash.py:31-35 | every vertex is an endpoint of some edge |
| SankeyQuickdash.CreateSankey | sankey_quickdash.py:18-34 | the diagram draws exactly the top N numeric rows |
| SankeyQuickdash.DrawnAreNumeric | sankey_quickdash.py:20-23 | every drawn record is an input row with a numeric Count |
| SankeyQuickdash.UpdateGraph | sankey_quickdash.py:58-68 | the diagram draws the top N of the merged window |
| SankeyQuickdash.TopMerged | sankey_quickdash.py:58-68 | drawn pairs occur in the window with their summed counts, in descending order with ties by (Source, Target), and no other pair of the window has a larger sum |
| SankeyQuickdash.DrawnFromWindow | sankey_quickdash.py:61-67 | every drawn pair occurs in a year of the window, with its summed count |
| SankeyQuickdash.LeftOutAt | sankey_quickdash.py:25 | a pair of the window that is not drawn sums to no more than any drawn pair |
| SankeyDash.CreateSankey | sankey_dash.py:36-67 | no figure exactly when no pair is co-mentioned; otherwise min(N, pairs) links, distinct nodes, and the top N records recoverable |
| SankeyDash.TopPairs | sankey_dash.py:38-56 | drawn pairs are sorted, distinct, count their co-mentioning documents, descend in count with ties in dict order, and no undrawn pair is co-mentioned more often |
| SankeyDash.SelectedKeys | sankey_dash.py:56 | the selected pairs are distinct |
| SankeyDash.SelectedCounted | sankey_dash.py:56 | the selected records keep their document counts |
| SankeyDash.SelectedHeaviest | sankey_dash.py:56 | no unselected pair has more co-mentioning documents than a selected one |
| SankeyDash.HeaviestAt | sankey_dash.py:56 | the same statement for one pair and one selected row |
| SankeyDash.RecordOf | sankey_dash.py:51-53 | a co-mentioned pair has a record, with its document count |
| SankeyDash.CountedDistinct | sankey_dash.py:51-53 | counted records are pairwise distinct |
| SankeyDash.UpdateGraph | sankey_dash.py:92-95 | there is no figure exactly when no pair is co-mentioned inside the window, so none for an inverted window; otherwise it draws the top N pairs of the window's documents |
| Network.TotalWeightByName | network_quickdash.py:49-51 | a vertex's total weight is the summed Count of the records naming it as Source plus those naming it as Target |
| Network.WeightsByName | network_quickdash.py:49-51 | the out-weight and in-weight of a vertex are its Count sums as Source and as Target |
| Network.WeightHandshake | network_quickdash.py:49-51 | summed over all vertices, total weights equal twice the sum of the edge weights |
| Network.DegreeHandshake | network_quickdash.py:84 | summed over all vertices, degrees equal twice the number of edges |
| Network.DegreePositive | network_quickdash.py:84 | an endpoint of an edge has degree at least 1 |
| Network.ColourDomain | network_quickdash.py:87-88 | the bounds are degrees that occur and enclose every degree; none for an empty graph |
| Network.ColourDomainPositive | network_quickdash.py:84-88 | for selected records the bar exists and starts at 1 or more |
| Network.ColourBounds | network_quickdash.py:84-88 | for selected records 1 <= cmin <= cmax |
| NetworkQuickdash.NetOf | network_quickdash.py:29-115 | the figure's vertices, edges, weights, degrees, colour bar and edge styles are those of the selected records |
| NetworkQuickdash.NetworkRoundTrip | network_quickdash.py:31-35 | distinct vertices, valid edges, and the selected records read back from the edges |
| NetworkQuickdash.CreateNetwork | network_quickdash.py:19-35 | no graph exactly when N = 0 or no row is numeric; otherwise the graph holds the top N numeric rows |
| NetworkQuickdash.UpdateGraph | network_quickdash.py:177-187 | no graph exactly when N = 0 or the window holds no record; otherwise the top N of the merged window |
| NetworkQuickdash.NetworkWeights | network_quickdash.py:49-51 | each vertex's weight is its Source plus Target Count sum; weights and degrees sum to twice the edge weight and twice the edge count |
| NetworkQuickdash.NetworkColours | network_quickdash.py:84-88 | 1 <= cmin <= cmax, both are degrees, and every degree lies between them |
| NetworkQuickdash.NetworkStyleBounds | network_quickdash.py:104-115 | every edge has opacity in [0.1, 0.8] and width in [1, 10] |
| NetworkQuickdash.NetworkOpacityOrder | network_quickdash.py:114 | one edge is at most as opaque as another exactly when its weight is at most the other's |
| NetworkQuickdash.NetworkWidthOrder | network_quickdash.py:115 | one edge is at most as wide as another exactly when its weight is at most the other's |
| NetworkQuickdash.LinkValues | network_quickdash.py:100 | the weight array lists the edge weights in edge order |
| Encoding.NormOneProps | network_quickdash.py:102 | a weight between min and max normalises into [0, 1], the minimum to 0, the maximum to 1 when they differ, and it rescales back |
| Encoding.Rescale | network_quickdash.py:102 | min + normalised * range gives back the weight |
| Encoding.NormOneMonotone | network_quickdash.py:102 | normalisation preserves the order of weights in both directions |
| Encoding.NormAll | network_quickdash.py:102 | elementwise normalisation: in [0, 1], extremes at 0 and 1, order preserved both ways |
| Encoding.Normalise | network_quickdash.py:100-102 | every weight is normalised against the array's min and max, lies in [0, 1] and keeps its order; with all weights equal every result is 0; none for no edge |
| Encoding.NormaliseInverse | network_quickdash.py:100-102 | each normalised weight rescales back to the raw weight |
| Encoding.NormaliseEnds | network_quickdash.py:100-102 | with two different weights, both 0 and 1 occur |
| Encoding.Opacity | network_quickdash.py:104-105 | a normalised weight maps into [0.1, 0.8] and can be read back from the opacity |
| Encoding.Thickness | network_quickdash.py:115 | a normalised weight maps into [1, 10] and can be read back from the width |
| Encoding.EncodingMonotone | network_quickdash.py:114-115 | opacity and width are strictly increasing in the normalised weight |
| Encoding.StylesProps | network_quickdash.py:109-115 | one style per edge, in range, and ordered both ways as the weights are |
| Encoding.Styles | network_quickdash.py:109-115 | one style per edge; none for no edge |
| NetworkQuickdash.UpdateSlider | network_quickdash.py:211-216 | a tick keeps the lower end, moves the upper end up by one while below 2021, and sets it to 2021 when it is at or past 2021 |
| NetworkQuickdash.SliderSteps | network_quickdash.py:211-216 | after k ticks the upper end is min(hi + k, 2021) and the lower end is unchanged |
| NetworkQuickdash.SliderRests | network_quickdash.py:215-216 | 2021 is a fixed point |
| Trends.NameCol | area_dash.py:41 | the name column lists each row's name in row order |
| Trends.TopNames | area_dash.py:41-42 | min(n, distinct names) distinct names from the column, in descending row count, no left-out name more frequent, ties by first appearance |
| Trends.TopNamesLeftOut | area_dash.py:41-42 | no left-out name has more rows than a chosen one |
| Trends.TopNamesTieOrder | area_dash.py:41-42 | chosen names with equal counts come in order of first appearance |
| Trends.TopNamesDescending | area_dash.py:41-42 | chosen names come in descending row count |
| Trends.TopNamesDistinct | area_dash.py:41-42 | no name is chosen twice |
| Trends.TopNamesMembers | area_dash.py:41-42 | every chosen name occurs in the column |
| Trends.YearCol | area_dash.py:46 | the year column lists exactly the years that rows have |
| Trends.TrendRows | area_dash.py:44-45 | the rows reaching the table are exactly the dated rows of a top name |
| Trends.Columns | area_dash.py:44-46 | the columns are the top names with a dated row, sorted, each once |
| Trends.TrendYears | area_dash.py:46 | the table's years are the years of the rows of top names, sorted, each once |
| Trends.CountRow | area_dash.py:46 | one count per column: the rows of that year and name |
| Trends.Counts | area_dash.py:44-46 | a table with one sorted row per year with a top-name row, one sorted column per top name, each cell the row count of its (year, name), 0 when none |
| Trends.YearTotalPositive | area_dash.py:49 | a year that occurs has at least one row |
| Trends.PercentRow | area_dash.py:53 | one share per column: the cell's rows in percent of the year's rows |
| Trends.Percentages | area_dash.py:49-54 | every year with rows gets a row; each cell is 100 * count / year total, with a positive total |
| Trends.ShareRange | area_dash.py:53 | a part of a total is between 0 and 100 percent |
| Trends.ShareInverse | area_dash.py:53 | a share times the total over 100 is the count |
| Trends.CellSumBound | area_dash.py:49 | over distinct names a year's counts add up to at most its row total |
| Trends.CellSumStep | area_dash.py:49 | one row adds 1 to the year's column sum per column that names it |
| Trends.CountRowSum | area_dash.py:46 | the count row sums to the column count sum |
| Trends.PercentRowSum | area_dash.py:53 | the share row sums to the share of the column count sum |
| Trends.PercentCellRange | area_dash.py:53-54 | every percentage cell lies in [0, 100] |
| Trends.PercentRowAtMost100 | area_dash.py:53-54 | a year's percentage cells sum to at most 100 |
| Trends.CountRowAtMostTotal | area_dash.py:46-49 | a year's count cells sum to at most the year's row total |
| Trends.PercentInverse | area_dash.py:53 | each percentage cell scales back to its count |
| Trends.Melt | area_dash.py:56-57 | the long row at Offset(j) + i is year i, name j and their cell, names column by column |
| Trends.MeltLength | area_dash.py:57 | the long table has years * names rows |
| Trends.MeltIndex | area_dash.py:57 | every long row is one cell: its year, its name and its value |
| Trends.MeltRoundTrip | area_dash.py:56-57 | the wide table is rebuilt from the long one, so melting loses nothing |
| Trends.OffsetSplit | area_dash.py:57 | every long position splits into a name position and a year position |
| Trends.UnmeltRowAt | area_dash.py:57 | the rebuilt row of a year reads each name's value at its long position |
| Trends.CountsHas | area_dash.py:44-46 | every dated row of a top name has its (year, name, count) in the long count table |
| Trends.CountsRow | area_dash.py:44-46 | every long count row names a top name, in a year with a dated row of a top name |
| AreaDash.ObsOf | area_dash.py:29-31 | every cleaned mention enters the trend code with its year |
| AreaDash.CleanCounts | area_dash.py:26-31 | cleaning keeps exactly one mention per row that passes the filter and has a year: mentions of a (year, name) equal those rows, and so do mentions of a year |
| AreaDash.WindowCounts | area_dash.py:39-49 | inside the window, a cell counts all cleaned mentions of its year and name, and a year's total counts all its mentions |
| AreaDash.WindowDated | area_dash.py:39 | every row of the window is dated within it |
| AreaDash.FigureTable | area_dash.py:44-54 | the figure's table has one value per (year, name) |
| AreaDash.FigureRoundTrip | area_dash.py:56-57 | the figure holds years * names rows and the table is rebuilt from it |
| AreaDash.FigureWindow | area_dash.py:39-46 | every figure row lies in the window and names one of the N most mentioned names of the window |
| AreaDash.FigureCount | area_dash.py:44-46 | in absolute mode a row holds the count of cleaned mentions of its name in its year, which equals the number of filtered, dated rows of that year and name |
| AreaDash.FigurePercent | area_dash.py:49-54 | in percentage mode a row holds 100 * mentions of its name / mentions of its year, the year has mentions, and the value lies in [0, 100] |
| AreaDash.FigurePercentRows | area_dash.py:26-31 | in percentage mode a row holds 100 * filtered rows of its name and year / filtered rows of its year, and that year has such rows |
| AreaDash.FigureComplete | area_dash.py:44-46 | in absolute mode every top name mentioned in a window year has that count in the figure |
| AreaDash.FigureNames | area_dash.py:41-46 | the figure draws at most N names |
| AreaDash.MentionedRow | area_dash.py:39 | a mention inside the window is a dated row of the window |
| Area.Observe | area.py:13-18 | every row is kept: its year when the date gives one, and its mapped name or, when not disambiguated, its raw name |
| Area.ObserveCounts | area.py:13-26 | a cell counts exactly the rows of its year whose mapped name, or raw name when not disambiguated, is the cell's name |
| Area.TrendRowKeys | area.py:20-26 | every chart row names one of the 20 most frequent labels, in a year with a dated row of a top label |
| Area.TrendRowValue | area.py:24-39 | every chart row holds the number of rows of its label in its year |
| Area.TrendComplete | area.py:24-39 | every top label with rows in a year has that year's count in the chart |
| Area.TrendLabels | area.py:20-21 | the chart draws at most 20 labels |
| Area.RowsWithWitness | area.py:24-26 | a positive count has a row with that year and label |
| Seqs.DistinctSubset | area_dash.py:44-46 | distinct values drawn from a list are at most as many as the list |

## Left out

- Layout and drawing: igraph's `layout('auto')`, node coordinates, `np.sqrt` node sizes, the 75-label limit, hover text, and all Plotly and Dash figure, layout and callback code.
- `play_pause_animation`, the dropdown and slider defaults, and the initial figure: user interface only.
- File I/O: reading the TSV files, and loading and dumping `sankey_data.json`. The model works on the table itself. The JSON's string year keys are modelled as integer keys.
- Years.ParseYear: does not model what Python's `int()` also accepts in the four-character prefix: surrounding whitespace, a sign, underscores, non-ASCII decimal digits. The value is tied to a printed year only for four-character prefixes (YearRoundTrip, YearParseShows); a pubdate of one to three digits parses to its decimal value by definition, with no separate lemma.
- Rows.Clean: a row whose year prefix is not a number is dropped. In `sankey_cal.py`, `sankey_dash.py` and `area_dash.py`, one such row makes `astype(int, errors='ignore')` leave the whole year column as strings, and the following `.dropna().astype(int)` then raises, so the script stops; the model drops the row where the scripts would stop.
- Area.Observe: a row whose year prefix is not a number keeps no year, so it counts toward the top-20 ranking but toward no cell. In `area.py` the whole year column would then stay as strings, and that row would form its own string year group (such as `"abcd"`) with a cell of its own when its label is in the top 20; the model does not follow that.
- TopN.NLargest: the tie order is first position in the input. When n is at least the number of rows, pandas takes a sorting path whose tie order among equal counts is not guaranteed; the model keeps input order there too. This affects only the order of equal-count rows, and so the order of nodes and links.
- Trends.TopNames: pandas does not specify the order of equal counts in `value_counts`; the model ranks ties by first appearance.
- Floating point: weights, opacity, width and percentages are exact reals, so rounding is not modelled.
- SankeyDash.CreateSankey: the script raises when the window has no co-mentioned pair; the model returns `None` instead of modelling an exception.
- NetworkQuickdash.CreateNetwork: `min` of an empty degree array raises; the model returns `None`.
- SankeyCal.Precompute: with no usable row the year range is undefined and the script fails; the model returns `None`.
- NetworkQuickdash.NetOf: its own contract ties each part of the figure to the function computing it. The statements about those parts are in NetworkRoundTrip, NetworkWeights, NetworkColours and the style lemmas.
- AreaDash.FigureTable: its own contract states only the shape. The cell values are stated by FigureCount and FigurePercent.
- `sampling.py` and `reading_test.py`: file-size estimation, random sampling and printing. Not part of the pipeline's logic.
