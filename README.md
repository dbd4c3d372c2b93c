# lipidome_projector core in Dafny

This project models the decision logic of lipidome_projector and proves properties of it. lipidome_projector resolves lipid names that were measured in an experiment against a reference structural database (LIPID MAPS LMSD and SwissLipids). It stores lipidome abundances, features and pairwise abundance changes, and serves them to a browser front end that plots the lipidomes as scatter plots. The model covers these parts:

- the parsed-name record shape and the success/failure split (`parsing.dfy`, module `Parsing`);
- the three matching strategies, the FA/LCB constraint filter and the failure classification (`matching.dfy`, `Matching`), and the summary report built on top (`matching_summary.dfy`, `MatchingSummary`);
- the unified database tables and the LMSD/SwissLipids merge (`base_db.dfy`, `BaseDb`; `unified_lmsd_sl.dfy`, `UnifiedLmsdSl`);
- the dataframe wrapper validators, aggregations and member subsets (`base_df_wrapper.dfy`, `BaseDfWrapper`);
- lipidome features, abundance-change tables and their storage, and the dataset that ties them together (`lipidome_features.dfy`, `Features`; `lipidome_abundance_changes.dfy`, `AbundanceChanges`; `lipidome_dataset.dfy`, `Dataset`);
- DataFrame chunking (`iteration_util.dfy`, `Chunking`);
- the molecular descriptors and sentence generators of the vector space: covering random walks, atom-radius bit maps and the three sentence builders (`covering_random_walks.dfy`, `atom_radius_bit_map.dfy`, `base_sentences.dfy`, `atom_radius_bit_sentences.dfy`, `random_walk_sentences.dfy`);
- colours, symbols, scatter data, marker maps and the pure helpers of the single-trace scatter (`colors.dfy`, `symbols.dfy`, `scatter_data.dfy`, `marker_maps.dfy`, `single_trace_scatter.dfy`);
- the front end's record logic: the front-end data container, uploads, grid data, dataset processing, the data-operation callbacks and scatter processing (`lipidome_front_end_data.dfy`, `upload_processing.dfy`, `grid_data.dfy`, `dataset_processing.dfy`, `data_operations.dfy`, `scatter_processing.dfy`).

`wrappers.dfy`, `seqs.dfy`, `dicts.dfy`, `pystrings.dfy` and `records.dfy` are small libraries:

- `Option` and `Result` with the Python exception kinds;
- sequence helpers;
- insertion-ordered dictionaries as Python dicts behave;
- Python string operations (`join`, `split`, slicing, `str.replace` of one pattern);
- JSON-like records.

Pandas data frames are modelled as values: `BaseDfWrapper.Frame` holds the MultiIndex flag, level names, index entries, column labels and cells. An operation that raises in the source returns `Err` with the exception kind. Objects whose methods change their own fields are classes: `DfWrapper`, `LipidomeFeatures`, `ChangeTable`, `Storage` and `LipidomeDataset`. Their methods are specified by the functions that compute the new state.

## Model

| member | source | states |
|---|---|---|
| Chunking.ChunksSpec | src/lipid_data_processing/util/iteration_util.py:14-25 | splitting fails with ValueError exactly when the chunk count exceeds the rows or is not positive; otherwise there are exactly that many non-empty chunks, they join back to the rows in order, and their sizes differ by at most one with the longer ones first |
| Chunking.Chunk | src/lipid_data_processing/util/iteration_util.py:23-25 | chunk i is the rows between its start and the next chunk's start, of its chunk size |
| Chunking.Split | src/lipid_data_processing/util/iteration_util.py:23-25 | the split has one chunk per requested chunk, the i-th being chunk i |
| Chunking.StartClosed | src/lipid_data_processing/util/iteration_util.py:23 | chunk i starts at i times the base size plus one for each longer chunk before it, as array_split lays chunks out |
| Chunking.StartStep | src/lipid_data_processing/util/iteration_util.py:23 | consecutive chunk starts differ by the chunk size; the first starts at 0 and the end is the row count |
| Chunking.SplitPrefix | src/lipid_data_processing/util/iteration_util.py:23-25 | the chunks before chunk k, joined, are exactly the rows before its start |
| Chunking.RowInOneChunk | src/lipid_data_processing/util/iteration_util.py:23-25 | every row lies in exactly one chunk and appears there unchanged |
| Symbols.SymbolsFor | src/embedding_visualization/symbols.py:11-32 | each symbol list has eight entries |
| Symbols.SymbolListsSpec | src/embedding_visualization/symbols.py:11-32 | both lists hold eight different symbols, integer codes exactly for 2D and names otherwise |
| Symbols.GenSymbolMapSpec | src/embedding_visualization/symbols.py:35-44 | the map's keys are the distinct classes in first-appearance order; a class gets the symbol at its last position modulo eight (an integer code exactly in 2D), and any other class is missing |
| Symbols.SymbolsCycle | src/embedding_visualization/symbols.py:43-44 | with distinct classes, class i gets symbol i mod 8, so classes eight apart share a symbol and classes fewer than eight apart do not |
| Symbols.LaterPositionWins | src/embedding_visualization/symbols.py:44 | a class listed twice takes the symbol of its later position |
| AtomRadiusBits.Init | src/lipid_vector_space/descriptors/atom_radius_bit_map.py:75-77 | every atom of the molecule, and nothing else, starts with an empty radius-to-bit dict |
| AtomRadiusBits.Record | src/lipid_vector_space/descriptors/atom_radius_bit_map.py:80-81 | recording one bit for its (atom, radius) pairs never adds or removes an atom |
| AtomRadiusBits.RecordSpec | src/lipid_vector_space/descriptors/atom_radius_bit_map.py:80-81 | after recording a bit, each pair it lists maps to it and every other entry is as before |
| AtomRadiusBits.Fill | src/lipid_vector_space/descriptors/atom_radius_bit_map.py:79-81 | filling in all bits never adds or removes an atom |
| AtomRadiusBits.FillSpec | src/lipid_vector_space/descriptors/atom_radius_bit_map.py:75-83 | after the whole bit info, an atom's dict holds a radius exactly when some bit lists that pair, and then it holds the last bit listing it |
| AtomRadiusBits.LastBitListed | src/lipid_vector_space/descriptors/atom_radius_bit_map.py:79-81 | every pair the bit info lists has a last bit, and that bit lists the pair |
| AtomRadiusBits.GenAtomRadiusBitDict | src/lipid_vector_space/descriptors/atom_radius_bit_map.py:71-83 | the nested loop builds exactly the dict of empty entries filled bit by bit and pair by pair |
| AtomRadiusBits.FromBitInfo | src/lipid_vector_space/descriptors/atom_radius_bit_map.py:26-39 | the map has an entry for every atom, in atom order, mapping each radius to the last bit listing the atom at that radius |
| AtomRadiusBits.SerializeRoundTrip | src/lipid_vector_space/descriptors/atom_radius_bit_map.py:41-56 | deserialising a serialised map gives the same dict and the same atom list |
| AtomSentences.AtomWordsSpec | src/lipid_vector_space/bit2vec/atom_radius_bit_sentences.py:17-21 | an atom's sentence holds exactly the bits of the requested radii the atom has, is empty exactly when it has none of them, and is no longer than the radii list |
| AtomSentences.AtomList | src/lipid_vector_space/bit2vec/atom_radius_bit_sentences.py:16-23 | one sentence per atom, in atom order, empty sentences kept |
| AtomSentences.StructuredSentencesSpec | src/lipid_vector_space/bit2vec/atom_radius_bit_sentences.py:15-23 | there is one sentence per atom of the map, and sentence i is empty exactly when atom i has none of the radii |
| AtomSentences.Transposed | src/lipid_vector_space/bit2vec/atom_radius_bit_sentences.py:15-23 | atom-major and radius-major sentences hold the same words, each as often |
| AtomSentences.SameWordsAsRadiusMajor | src/lipid_vector_space/bit2vec/atom_radius_bit_sentences.py:15-23 | the structured sentences joined are a rearrangement of the flattened radius-major sentences of the base class |
| AtomSentences.LoadSentences | src/lipid_vector_space/bit2vec/atom_radius_bit_sentences.py:26-32 | the loader turns each loaded bit map into its sentences, one for one and in order |
| BaseSentences.Word | src/lipid_vector_space/bit2vec/base_sentences.py:31-33 | an atom contributes at most one word at a radius, and none exactly when it lacks that radius |
| BaseSentences.RadiusWordsSpec | src/lipid_vector_space/bit2vec/base_sentences.py:30-34 | a radius sentence holds exactly the bits of the atoms that have the radius, is empty exactly when none has it, and is no longer than the atom list |
| BaseSentences.RadiusWordsAppend | src/lipid_vector_space/bit2vec/base_sentences.py:30-34 | atom order is kept: the sentence of concatenated atom lists is the concatenation of their sentences |
| BaseSentences.Candidates | src/lipid_vector_space/bit2vec/base_sentences.py:29-36 | before filtering there is one candidate sentence per radius, in radii order |
| BaseSentences.DropEmpty | src/lipid_vector_space/bit2vec/base_sentences.py:38-40 | the filter keeps exactly the non-empty sentences in order, so joining the words is unchanged |
| BaseSentences.RadiusAtomSentencesSpec | src/lipid_vector_space/bit2vec/base_sentences.py:28-42 | every returned sentence is non-empty, there are at most as many as radii, and a sentence is returned exactly when it is the non-empty sentence of one of the radii |
| BaseSentences.NoRadiiNoSentences | src/lipid_vector_space/bit2vec/base_sentences.py:28-42 | asking for no radius gives no sentences |
| BaseSentences.FlattenedSentencesSpec | src/lipid_vector_space/bit2vec/base_sentences.py:44-51 | the flattened sentences are all radius sentences joined in radii order, with the empty ones contributing nothing |
| BaseSentences.Range | src/lipid_vector_space/bit2vec/base_sentences.py:113 | `range(n)` is 0 to n-1 in order |
| BaseSentences.GenShuffleIndex | src/lipid_vector_space/bit2vec/base_sentences.py:111-113 | whatever the random draws, the shuffle index is a permutation of 0 to n-1 |
| BaseSentences.PermutationEntries | src/lipid_vector_space/bit2vec/base_sentences.py:113 | a permutation of 0 to n-1 holds every number below n exactly once and nothing else |
| BaseSentences.ShuffledPaths | src/lipid_vector_space/bit2vec/base_sentences.py:105-109 | picking paths by index succeeds exactly when every index is within Python's range (negative indices counting from the end), raising IndexError otherwise, and then path i is the indexed one |
| BaseSentences.Pick | src/lipid_vector_space/bit2vec/base_sentences.py:109 | picking by in-range indices gives one path per index, the indexed one |
| BaseSentences.PickReordered | src/lipid_vector_space/bit2vec/base_sentences.py:109 | picking by two orderings of the same indices picks the same paths, each as often |
| BaseSentences.ShuffledPathsPermute | src/lipid_vector_space/bit2vec/base_sentences.py:105-113 | with a permutation as shuffle index, the shuffled paths succeed and are the same paths, each as often, with path idx[i] in place i |
| BaseSentences.BitMapPaths | src/lipid_vector_space/bit2vec/base_sentences.py:91-103 | without a shuffle index the bit-map files load in their original order; with one they are the shuffled paths |
| BaseSentences.LoadOrder | src/lipid_vector_space/bit2vec/base_sentences.py:62-82 | without shuffle there is no index and the files load in order; with shuffle the index is a permutation and the loaded files are the same files, each as often |
| WalkSentences.Blocks | src/lipid_vector_space/bit2vec/random_walk_sentences.py:37-45 | the generator yields, for walk i, that walk's candidate sentence for each radius |
| WalkSentences.WalkCandidatesSpec | src/lipid_vector_space/bit2vec/random_walk_sentences.py:37-45 | there is one candidate per walk and radius, and each candidate is the sentence of some walk at some radius |
| WalkSentences.WalkCandidatesAppend | src/lipid_vector_space/bit2vec/random_walk_sentences.py:43-44 | the candidates of two runs of walks are those of the first run followed by those of the second |
| WalkSentences.StructuredSentencesSpec | src/lipid_vector_space/bit2vec/random_walk_sentences.py:36-51 | the sentences fail with KeyError exactly when a walk visits an atom the bit map lacks and some radius is asked for; otherwise all are non-empty, at most one per walk and radius, and a sentence appears exactly when it is the non-empty sentence of some walk at some radius |
| WalkSentences.WalkMajor | src/lipid_vector_space/bit2vec/random_walk_sentences.py:43-49 | sentences are walk-major: those of two runs of walks are the first run's followed by the second's |
| WalkSentences.OneWalkIsRadiusMajor | src/lipid_vector_space/bit2vec/random_walk_sentences.py:36-51 | a single walk over the map's atoms in their own order gives exactly the base class's radius-major sentences |
| WalkSentences.Zip | src/lipid_vector_space/bit2vec/random_walk_sentences.py:85-93 | combining pairs the two file series by place, as long as the shorter one |
| WalkSentences.PairedInOrder | src/lipid_vector_space/bit2vec/random_walk_sentences.py:72-73 | without shuffling, bit map i is combined with random walks i |
| WalkSentences.PairedWhenShuffled | src/lipid_vector_space/bit2vec/random_walk_sentences.py:74-93 | with a shuffle index, the random-walk files are permuted like the bit maps, so the bit map from place idx[i] meets the walks from place idx[i]; with fewer walk files than bit maps the shuffle raises IndexError |
| RandomWalks.GenerateWalks | src/lipid_vector_space/descriptors/covering_random_walks.py:57-86 | a graph without atoms raises ValueError; otherwise, whatever atoms are drawn, the walks are covering: every walk holds 1 to max_len distinct atoms, starts at an unvisited atom, steps only to least-visited neighbours not yet in the walk, stops only at max_len or at a dead end, and together they visit every atom |
| RandomWalks.Walk | src/lipid_vector_space/descriptors/covering_random_walks.py:70-84 | the inner loop yields one valid walk from the start atom and leaves every atom's visit count equal to its occurrences in all walks so far |
| RandomWalks.SampleLeastVisited | src/lipid_vector_space/descriptors/covering_random_walks.py:88-96 | the chosen atom is one of the atoms with the fewest visits |
| RandomWalks.WalksAreNonEmptyAndBounded | src/lipid_vector_space/descriptors/covering_random_walks.py:66-84 | every walk holds between 1 and max_len atoms, and a graph with atoms gets at least one walk |
| RandomWalks.UnvisitedShrinks | src/lipid_vector_space/descriptors/covering_random_walks.py:66-73 | visit counts only grow, so the unvisited atoms shrink, strictly once a new atom is visited, which ends the outer loop |
| RandomWalks.WalkFinished | src/lipid_vector_space/descriptors/covering_random_walks.py:71-80 | a walk stopped at max_len atoms or where every neighbour is already in it is a valid walk |
| RandomWalks.Extend | src/lipid_vector_space/descriptors/covering_random_walks.py:72-83 | appending the start atom, or a least-visited new neighbour, keeps the walk valid so far |
| RandomWalks.LeastStep | src/lipid_vector_space/descriptors/covering_random_walks.py:74-83 | the sampled neighbour is new to the walk and no new neighbour has fewer visits |
| RandomWalks.CountSnoc | src/lipid_vector_space/descriptors/covering_random_walks.py:72-73 | visiting an atom adds one to its count and nothing to any other |
| RandomWalks.Serialize | src/lipid_vector_space/descriptors/covering_random_walks.py:45-46 | the serialised dict has exactly the keys "walks" and "atoms" |
| RandomWalks.SerializeRoundTrip | src/lipid_vector_space/descriptors/covering_random_walks.py:33-46 | deserialising a serialised descriptor gives it back, and a dict deserialises only when it holds both keys, other keys being dropped |
| RandomWalks.FromAdjacency | src/lipid_vector_space/descriptors/covering_random_walks.py:25-31 | the descriptor lists the graph's atoms in key order with covering walks over them, and raises ValueError exactly for a graph without atoms |
| Colors.Format02xByte | src/embedding_visualization/colors.py:31 | a component in 0..255 is written as exactly two lower-case hex digits, high digit first |
| Colors.RgbToHexSpec | src/embedding_visualization/colors.py:26-33 | a colour with components in 0..255 formats as "#" and two lower-case hex digits per component, seven characters |
| Colors.RgbToHexLowerCase | src/embedding_visualization/colors.py:26-33 | every character after the "#" is a lower-case hex digit |
| Colors.IsValidHexStringWeaker | src/embedding_visualization/colors.py:54-66 | every string of "#" and six hex digits passes the check; the converse fails |
| Colors.IsValidHexStringSpec | src/embedding_visualization/colors.py:54-66 | the check answers True exactly on a seven-character string of "#" and three pairs that int(pair, 16) reads as numbers in 0..255, answers False on any other string it can read, and raises only ValueError |
| Colors.UnicodeFormsAccepted | src/embedding_visualization/colors.py:54-80 | as int does, the program reads a Unicode no-break space as a blank and an Arabic-Indic digit as its ASCII digit: "#\u00a0f0000" is accepted and reads (15, 0, 0), "#\u0663\u06630000" reads (51, 0, 0) |
| Colors.SignedPairAccepted | src/embedding_visualization/colors.py:54-80 | the program accepts "#+f0000" and reads it as (15, 0, 0), which formats back differently, and raises ValueError on "#zz0000" instead of answering false |
| Colors.AsWrittenAgreesOnValid | src/embedding_visualization/colors.py:54-80 | on "#" and six hex digits the program's check and reading agree with the intended ones |
| Colors.HexToRgbInRange | src/embedding_visualization/colors.py:69-80 | hex_to_rgb succeeds exactly when the check accepts, that is on "#" and three pairs that int(pair, 16) reads in 0..255, signs and blanks (any Unicode whitespace) and Unicode decimal digits included; it then gives those three numbers, and raises ValueError otherwise; every "#" and six hex digits is read |
| Colors.HexToRgbIntendedSpec | src/embedding_visualization/colors.py:54-80 | the intended reading succeeds exactly on "#" and six hex digits, raising ValueError otherwise, and gives components in 0..255 |
| Colors.HexRoundTrip | src/embedding_visualization/colors.py:26-80 | hex_to_rgb(rgb_to_hex(c)) is c for every colour with components in 0..255, both in the program's reading and in the intended one |
| Colors.RgbRoundTrip | src/embedding_visualization/colors.py:26-80 | formatting a valid string's colour gives the string back with its digits in lower case |
| Colors.ParseInts | src/embedding_visualization/colors.py:42 | reading the pieces succeeds exactly when every piece is a decimal integer, and then gives one value per piece, in order |
| Colors.RgbStrRoundTrip | src/embedding_visualization/colors.py:36-43 | rgb_str_to_hex of Plotly's "rgb(r, g, b)" rendering of a colour with non-negative components is that colour in hex |
| Colors.TwoValuesRaise | src/embedding_visualization/colors.py:36-43 | a string with only two values raises IndexError, a format field being left unfilled |
| Colors.RgbStrToHexOf | src/embedding_visualization/colors.py:36-43 | a string whose pieces read as at least three integers formats the first three, the others being ignored |
| Colors.SplitPieces | src/embedding_visualization/colors.py:42 | pieces without commas, joined by commas, split back into the same pieces |
| Colors.DiscreteHexColormapSpec | src/embedding_visualization/colors.py:83-99 | any style but T10 raises ValueError; otherwise the keys are the distinct classes in first-appearance order, a class gets the T10 colour of its last position modulo ten, and distinct classes get T10[i mod 10] |
| Colors.HexToRgbAll | src/embedding_visualization/colors.py:139-141 | reading all colours succeeds exactly when hex_to_rgb reads each, raising ValueError otherwise, and gives each colour's triple in order |
| Colors.ChannelSumBounds | src/embedding_visualization/colors.py:143-147 | a channel of n colours in 0..255 sums to between 0 and 255n |
| Colors.AverageHexColorSpec | src/embedding_visualization/colors.py:134-151 | the average raises ValueError on a colour hex_to_rgb cannot read and ZeroDivisionError on an empty list, and otherwise is a valid hex colour |
| Colors.AverageOfCopies | src/embedding_visualization/colors.py:134-151 | averaging copies of one colour hex_to_rgb reads gives that colour as rgb_to_hex writes it |
| Scatter.FilteredSeriesSpec | src/embedding_visualization/scatter_data.py:128-155 | filtering raises ValueError exactly when filter values are given and the filtered name already is a value; otherwise labels stay and a row is renamed to the filtered name exactly when its value is not among the filter values or its label is not in the index filter, keeping its value otherwise |
| Scatter.RefilterRaises | src/embedding_visualization/scatter_data.py:137-147 | filtering a filtered series again with filter values raises exactly when the first filtering renamed some row |
| Scatter.GetFilteredSeries | src/embedding_visualization/scatter_data.py:128-155 | the copy-and-rename loops give exactly the filtered series, raising ValueError where it does |
| Scatter.NewScatterData | src/embedding_visualization/scatter_data.py:36-126 | construction raises ValueError exactly when a named column is missing, the vector columns are not two or three, or a filtered column already holds the filtered name; otherwise the dimensionality is the vector column count, the colour and symbol columns are present exactly when named and are the filtered columns, and the size column is the unfiltered column |
| MarkerMaps.OverlayGet | src/embedding_visualization/marker_maps.py:95-102 | after the caller's dict and the filtered name are written over a map, the filtered name reads its fixed value, else a key reads the caller's entry, else the generated one |
| MarkerMaps.OverlayKeys | src/embedding_visualization/marker_maps.py:95-102 | the overlay keeps the keys distinct |
| MarkerMaps.CycledOverDistinct | src/embedding_visualization/marker_maps.py:92-94 | a map cycled over the distinct column values gives each value the entry of its place and has distinct keys |
| MarkerMaps.GetMarkerColormap | src/embedding_visualization/marker_maps.py:106-127 | every key reads light grey if it is the filtered name, else the caller's colour, else the T10 colour of its place among the colour column's distinct values, and the keys are distinct |
| MarkerMaps.GetSymbolMap | src/embedding_visualization/marker_maps.py:82-104 | every key reads a circle if it is the filtered name, else the caller's symbol, else the symbol of its place among the symbol column's distinct values |
| MarkerMaps.DarkenedEntries | src/embedding_visualization/marker_maps.py:134-137 | the border entries are the colormap's entries in order with each colour darkened |
| MarkerMaps.BorderColormapSpec | src/embedding_visualization/marker_maps.py:129-141 | the border colormap raises ValueError exactly when hex_to_rgb cannot read some colour; otherwise it has the colormap's keys in order and each class's border colour is its colour darkened |
| MarkerMaps.DarkenHexColorSpec | src/embedding_visualization/colors.py:102-131 | darkening succeeds exactly on a colour hex_to_rgb reads, raising ValueError otherwise, and gives the shaded colour in hex |
| MarkerMaps.BorderOfMarkerColormap | src/embedding_visualization/marker_maps.py:106-141 | the border colormap of a marker colormap raises ValueError exactly when a colour the caller gave for a key other than the filtered name cannot be read, and otherwise has the same keys |
| MarkerMaps.PaletteValid | src/embedding_visualization/marker_maps.py:113-125 | every T10 colour and the light grey of the filtered name are hex colours |
| MarkerMaps.BadColorSpec | src/embedding_visualization/marker_maps.py:106-141 | some key of the colormap holds a colour hex_to_rgb cannot read exactly when the caller gave one for a key other than the filtered name |
| MarkerMaps.FromParameters | src/embedding_visualization/marker_maps.py:29-80 | the colormap exists exactly for discrete colour and the border colormap exactly beside it, with the same keys; the symbol map and colour scale are as specified; it fails with ValueError when a caller's colour cannot be darkened and otherwise with KeyError exactly on an unknown scale name |
| MarkerMaps.AllValidHexByKey | src/embedding_visualization/marker_maps.py:134-137 | with distinct keys, hex_to_rgb reads every colour of a map exactly when it reads the colour of every key |
| TraceHelpers.TraceName | src/embedding_visualization/single_trace_scatter_generation.py:379-391 | no name for two absent classes, the present class alone when one is absent, and "colour, symbol" for two present classes |
| TraceHelpers.TruncateAsWritten | src/embedding_visualization/single_trace_scatter_generation.py:415-423 | every name is shortened as the source writes it, one for one |
| TraceHelpers.TruncateAsWrittenGrows | src/embedding_visualization/single_trace_scatter_generation.py:415-423 | as written, a name one character longer than the threshold loses nothing and gains "...", so the legend entry grows |
| TraceHelpers.Truncate | src/embedding_visualization/single_trace_scatter_generation.py:415-423 | every name is shortened as intended, one for one |
| TraceHelpers.TruncateSpec | src/embedding_visualization/single_trace_scatter_generation.py:415-423 | truncation keeps the name count, leaves absent and short names alone, and turns a longer name into its first threshold characters followed by "...", dropping at least one character |
| TraceHelpers.LookupAll | src/embedding_visualization/single_trace_scatter_generation.py:405-408 | looking up the classes raises KeyError exactly when a present class is missing from the map; otherwise each present class gets its entry and each absent one None |
| TraceHelpers.Repeat | src/embedding_visualization/single_trace_scatter_generation.py:401-403 | `[x] * n` is n copies of x |
| TraceHelpers.ProductLength | src/embedding_visualization/single_trace_scatter_generation.py:310-312 | the product of the class lists has one pair per colour class and symbol class |
| TraceHelpers.ProductAt | src/embedding_visualization/single_trace_scatter_generation.py:310-312 | the product lists pairs colour-major: pair i·len(b)+j is (a[i], b[j]) |
| TraceHelpers.ProductMember | src/embedding_visualization/single_trace_scatter_generation.py:310-312 | a pair is in the product exactly when its colour class is in a and its symbol class in b |
| TraceHelpers.Zip4 | src/embedding_visualization/single_trace_scatter_generation.py:357-366 | the legend entries are as many as the shortest of the four lists, entry k built from the k-th of each |
| TraceHelpers.TraceNames | src/embedding_visualization/single_trace_scatter_generation.py:333-336 | one name per class pair, in product order |
| TraceHelpers.FromParametersCovers | src/embedding_visualization/single_trace_scatter_generation.py:292-331 | marker maps built by MarkerMaps.from_parameters for the same columns have a colour, border colour and symbol for every class the legend looks up |
| TraceHelpers.DummyColorsSpec | src/embedding_visualization/single_trace_scatter_generation.py:394-412 | continuous colour gives black per symbol class, no colormap gives None per class, and discrete colour gives each present class its colour, raising KeyError for a class the colormap lacks |
| TraceHelpers.DummySymbolsSpec | src/embedding_visualization/single_trace_scatter_generation.py:426-442 | an empty map gives None per class; otherwise each present class gets its symbol and a class the map lacks raises KeyError |
| TraceHelpers.PairClasses | src/embedding_visualization/single_trace_scatter_generation.py:297-312 | every present class of a legend pair is a distinct value of its column, and a present colour class means discrete colour |
| TraceHelpers.ContinuousPairs | src/embedding_visualization/single_trace_scatter_generation.py:297-312 | with continuous colour there is one pair per symbol class |
| TraceHelpers.DummyTracesSpec | src/embedding_visualization/single_trace_scatter_generation.py:292-376 | with marker maps that cover the columns the legend never raises and has one entry per class pair, in product order, each with the pair's name, shortened by the program's _truncate when a threshold is given, its colour, border colour, symbol and the trace type of the dimensionality |
| TraceHelpers.DetermineColorbar | src/embedding_visualization/single_trace_scatter_generation.py:518-527 | a colour bar exists exactly for continuous colour, titled with the given title on top |
| TraceHelpers.HoverLines | src/embedding_visualization/single_trace_scatter_generation.py:625-632 | one hover line per column, line i naming column i and custom data i |
| TraceHelpers.HoverDictSpec | src/embedding_visualization/single_trace_scatter_generation.py:610-636 | disabled hover always skips; otherwise there is a template exactly when hover columns are given, and one more column appends "<br>" and its numbered line |
| ScatterProcessing.ChkScatterPossibleSpec | src/lipidome_projector/graph/scatter_processing.py:41-66 | a scatter is possible exactly when the four grids hold records and, in difference or log2fc mode, exactly one row of that mode's change grid is selected; in any other mode exactly when the grids are complete |
| ScatterProcessing.GenScalingSpec | src/lipidome_projector/graph/scatter_processing.py:183-206 | difference mode never scales; otherwise "min-max" gives the min_max method with the two min-max values, "linear" the linear method with factor and base, and any other method raises ValueError |
| ScatterProcessing.DifferenceIgnoresScaling | src/lipidome_projector/graph/scatter_processing.py:186-188 | in difference mode the scaling settings have no effect on the scaling used |
| ScatterProcessing.DetFromToLipidomesSpec | src/lipidome_projector/graph/scatter_processing.py:288-304 | only difference and log2fc are accepted (ValueError otherwise); an empty selection raises IndexError, a missing column KeyError; otherwise the from and to lipidomes are the first selected row's two values |
| ScatterProcessing.PossibleChangeScatterHasPair | src/lipidome_projector/graph/scatter_processing.py:54-64 | when a change-mode scatter was found possible, exactly one row is selected and reading the pair never raises IndexError; with both columns present it gives that row's values |
| ScatterProcessing.GenScatterPlanSpec | src/lipidome_projector/graph/scatter_processing.py:123-180 | overlay mode plans an overlay scatter, difference and log2fc a change scatter of that kind between the selected pair, each with the settings' scaling; any other mode raises ValueError, and a scatter found possible never fails on the selection |
| FrontEndData.ListFields | src/lipidome_projector/lipidome/lipidome_front_end_data.py:18-35 | the front-end data has exactly the source's number of record-list fields |
| FrontEndData.Construct | src/lipidome_projector/lipidome/lipidome_front_end_data.py:37-43 | after construction every field given as None, the name included, is an empty list and every other field keeps the value given |
| FrontEndData.GridsCompleteSpec | src/lipidome_projector/lipidome/lipidome_front_end_data.py:45-59 | the grids are complete exactly when none of the lipidome, lipid, visible lipidome and visible lipid record lists is empty |
| FrontEndData.GridsCompleteIgnoresOthers | src/lipidome_projector/lipidome/lipidome_front_end_data.py:45-59 | selections, column definitions and the change grids do not affect completeness |
| FrontEndData.EmptyIncomplete | src/lipidome_projector/lipidome/lipidome_front_end_data.py:37-59 | data built with every list missing is never complete |
| Upload.OutcomeTextSpec | src/lipidome_projector/lipidome/upload_processing.py:45-70 | exactly one outcome text is chosen: all failures exactly when no lipidome records were produced (even with an empty failure table), some failures when there are records and failures, success when there are records and no failures |
| Upload.FailurePredicatesSpec | src/lipidome_projector/lipidome/upload_processing.py:45-58 | "some failures" holds exactly when neither "all failures" nor "no failures" does |
| Upload.CallbackOutputSpec | src/lipidome_projector/lipidome/upload_processing.py:72-110 | with all failures exactly slots 0-5 and 9-11 are left unchanged and slots 6-8 show the failure records twice and their column definitions; otherwise each of the four grids gets its records twice and its column groups, followed by the outcome text, the failure column definitions and the failure records twice |
| Upload.FailureOutputSpec | src/lipidome_projector/lipidome/upload_processing.py:114-135 | a failed upload leaves all twelve grid slots unchanged, shows its message and gives three empty lists |
| Upload.ProcessLipidomeUploadSpec | src/lipidome_projector/lipidome/upload_processing.py:138-170 | whatever the processing raises, the upload shows the fixed error message and leaves every grid unchanged; a processing that succeeds shows its own outcome instead |
| Upload.FailureColumnDefsSpec | src/lipidome_projector/lipidome/upload_processing.py:346-362 | there is one column definition per failure column, naming it in order, and every one is filterable, sortable and shown only when its group is open |
| Upload.NoDatasetAllFailures | src/lipidome_projector/lipidome/upload_processing.py:200-212 | when matching produced no dataset the upload reports all failures with the all-failures text, leaves the six first grid slots unchanged and shows the failure records |
| GridData.Construct | src/lipidome_projector/lipidome/grid_data.py:41-44 | construction turns each field given as None into an empty list and keeps every other field as given |
| GridData.GetFilterSpec | src/lipidome_projector/lipidome/grid_data.py:46-56 | "virtual" reads the visible rows and "selected" the selected rows, any other source raises ValueError; the result is the key's value in every such row, in order, and a KeyError exactly when some row lacks the key |
| GridData.GridRoundTrip | src/lipidome_projector/lipidome/grid_data.py:37-59 | reading a serialised grid back with `from_dict` gives the same grid |
| GridData.UnknownKeyRefused | src/lipidome_projector/lipidome/grid_data.py:37-39 | a dict holding a key that is not a field name is refused with TypeError |
| GridData.FromDictDefaults | src/lipidome_projector/lipidome/grid_data.py:21-44 | fields that are missing or None come back as empty lists |
| GridData.CollectionRoundTrip | src/lipidome_projector/lipidome/grid_data.py:335-350 | reading a serialised collection back gives the same four grids |
| GridData.MissingGridRaises | src/lipidome_projector/lipidome/grid_data.py:335-342 | a collection dict without one of the four grid names raises KeyError |
| GridData.FromRecords | src/lipidome_projector/lipidome/grid_data.py:288-333 | the sixteen lists become the four grids, four lists per grid, in order |
| GridData.ColDefExtra | src/lipidome_projector/lipidome/grid_data.py:27-35 | in a column definition an extra entry overrides the common parameter |
| GridData.ColDefCommon | src/lipidome_projector/lipidome/grid_data.py:27-35 | every key the extras do not set keeps its common value |
| GridData.ColDefSortable | src/lipidome_projector/lipidome/grid_data.py:27-35 | a definition whose extras leave sorting and the floating filter alone is sortable and shows its column |
| GridData.OtherFeatures | src/lipidome_projector/lipidome/grid_data.py:133-138 | the plain feature columns are exactly the feature columns other than the lipidome and colour columns |
| GridData.FeatureColDefsSpec | src/lipidome_projector/lipidome/grid_data.py:111-140 | the feature definitions are the lipidome column with the selection checkboxes, then the colour column, then every other feature column in order, all but the first shown only when the group is open, and all sortable |
| GridData.AbundanceColDefsSpec | src/lipidome_projector/lipidome/grid_data.py:142-156 | there is one abundance definition per column, in order, each shown only when the group is open, sortable and formatted in exponent notation |
| GridData.LipidomeColGroupDefsSpec | src/lipidome_projector/lipidome/grid_data.py:87-109 | the lipidome grid has a feature group, open by default, holding the feature definitions, and an abundance group holding the abundance definitions |
| GridData.LipidomeFromSerialized | src/lipidome_projector/lipidome/grid_data.py:64-85 | a lipidome grid built from records keeps them, has no visible or selected rows yet and gets the generated column groups |
| GridData.LipidFeatures | src/lipidome_projector/lipidome/grid_data.py:194-203 | the lipid feature columns are exactly the columns that are neither the SMILES column nor a vector column |
| GridData.LipidFeatureDefsSpec | src/lipidome_projector/lipidome/grid_data.py:194-203 | the lipid group shows the name column first, then every lipid feature column in order, all sortable |
| GridData.VecColDefsSpec | src/lipidome_projector/lipidome/grid_data.py:205-218 | each vector definition shows its column with a number filter and is sortable; it has no group visibility exactly when it names the first vector column, and is otherwise shown only when the group is open |
| GridData.LipidColGroupDefs | src/lipidome_projector/lipidome/grid_data.py:184-225 | the lipid grid has two groups: the name and feature definitions, then the vector definitions |
| GridData.LipidFromSerialized | src/lipidome_projector/lipidome/grid_data.py:161-182 | a lipid grid built from records keeps them, has no visible or selected rows yet and gets the generated column groups |
| GridData.ChangeColDefsSpec | src/lipidome_projector/lipidome/grid_data.py:252-274 | the change group lists every index column, then every value column with a number filter, all in order, all sortable and shown only when the group is open |
| GridData.ChangeColGroupDefs | src/lipidome_projector/lipidome/grid_data.py:245-278 | a change grid has one group under the change header holding the index and value definitions |
| GridData.ChangeFromSerialized | src/lipidome_projector/lipidome/grid_data.py:230-243 | a change grid built from records keeps them, has no visible or selected rows yet and gets the generated column group |
| DatasetProcessing.OverwriteConcatColorsSpec | src/lipidome_projector/lipidome/dataset_processing.py:66-75 | sanitising raises TypeError exactly when some value is not a string; otherwise every value becomes a simple colour, is kept exactly when it already was one (seven characters starting with '#') and becomes black otherwise |
| DatasetProcessing.OverwriteConcatColorsIdempotent | src/lipidome_projector/lipidome/dataset_processing.py:66-71 | sanitising sanitised colours changes nothing |
| DatasetProcessing.ValidHexIsSimple | src/lipidome_projector/lipidome/dataset_processing.py:74-75 | every valid hex colour counts as simple, so sanitising keeps it |
| DatasetProcessing.SimpleNeedNotBeValid | src/lipidome_projector/lipidome/dataset_processing.py:74-75 | simplicity looks only at the length and the leading '#': "#zzzzzz" is kept although it is no hex colour |
| DatasetProcessing.RgbToHexIsSimple | src/lipidome_projector/lipidome/dataset_processing.py:74-75 | every colour written by `rgb_to_hex` counts as simple |
| DatasetProcessing.AddGrouping | src/lipidome_projector/lipidome/dataset_processing.py:24-63 | the grouping updates the abundance and lipidome feature tables exactly as the three steps (abundance aggregation, concat aggregation of the features, recolouring) specify, leaving a table as the earlier steps made it when a later step raises |
| DatasetProcessing.GroupingSteps | src/lipidome_projector/lipidome/dataset_processing.py:40-55 | a successful grouping is the three steps, each successful, one after the other |
| DatasetProcessing.GroupingRejectsOperation | src/lipid_data_processing/lipidomes/lipidome_dataset.py:337-356 | an aggregation other than mean or std raises ValueError before either table changes |
| DatasetProcessing.GroupingNameTaken | src/lipid_data_processing/lipidomes/lipidome_dataset.py:337-360 | a grouping name that already labels a lipidome is refused only by the feature table: the abundance table has already gained the aggregated row under that name, the feature table is unchanged and ValueError is raised |
| DatasetProcessing.ConcatGroupedSpec | src/lipid_data_processing/lipidomes/lipidome_dataset.py:358-360 | the feature table after the concat aggregation is the old rows followed by the group's concatenated row, with the same columns |
| DatasetProcessing.RecolorTableSpec | src/lipidome_projector/lipidome/dataset_processing.py:46-55 | recolouring keeps the index, the columns and every other column's values, and turns each colour into its sanitised self |
| DatasetProcessing.GroupingSuccess | src/lipidome_projector/lipidome/dataset_processing.py:24-63 | a successful grouping appends one row under the grouping name to each table and keeps the earlier rows; every feature column other than the colour keeps its values and the new row holds each column's concatenation over the selected lipidomes |
| DatasetProcessing.GroupingColors | src/lipidome_projector/lipidome/dataset_processing.py:46-55 | after a successful grouping every colour is simple: an old simple colour is kept, any other old value became black, and the new row gets its concatenated colours sanitised |
| DatasetProcessing.GroupingSharedColor | src/lipidome_projector/lipidome/dataset_processing.py:46-48 | when every selected lipidome has the same simple colour, the group gets that colour |
| DatasetProcessing.GroupingMixedColors | src/lipidome_projector/lipidome/dataset_processing.py:46-48 | when two selected lipidomes' colours differ and one is simple, the joined colours are too long to be simple and the group becomes black |
| DatasetProcessing.Loc | src/lipid_data_processing/lipidomes/lipidome_dataset.py:240-245 | taking the selected lipidomes' abundance rows raises KeyError exactly when one is absent, and otherwise gives their rows in the given order with the same columns |
| DatasetProcessing.PairwiseChangesErrors | src/lipidome_projector/lipidome/dataset_processing.py:78-94 | pairwise changes over the selection raise KeyError for an unknown lipidome and ValueError for fewer than two, and succeed for two or more known lipidomes and a concrete kind of change |
| DatasetProcessing.OverwriteOutcome | src/lipidome_projector/lipidome/dataset_processing.py:90-94 | an "overwrite" insertion over the same lipids succeeds for a concrete kind and two lipidomes or more, and raises ValueError for fewer |
| DatasetProcessing.PairwiseChangesLabels | src/lipidome_projector/lipidome/dataset_processing.py:78-94 | after successful pairwise changes the table keeps every pair it had, holds every ordered pair of two selected positions, holds no other pair and holds each pair once |
| DatasetProcessing.OverwriteLabels | src/lipidome_projector/lipidome/dataset_processing.py:90-94 | after an "overwrite" insertion the pairs are exactly the old table's and the new ones, each once |
| DatasetProcessing.AddPairwiseChanges | src/lipidome_projector/lipidome/dataset_processing.py:78-94 | the change store stays valid; an absent selected lipidome raises KeyError and an unknown change type ValueError, both changing nothing; otherwise the named table becomes exactly the pairwise changes over the selection, or stays as it was when they raise, and the other tables are unchanged |
| DataOperations.NameTaken | src/lipidome_projector/callbacks/data_operation_callback_definition.py:81-83 | the name check raises KeyError exactly when some lipidome record has no lipidome column, and otherwise finds the name exactly when some record carries it |
| DataOperations.GroupingCallbackSpec | src/lipidome_projector/callbacks/data_operation_callback_definition.py:60-113 | grouping is refused with the modal open and no grid changed exactly when fewer than two rows are selected, the name is missing or empty, or a lipidome already has the name; otherwise the grid shows the grouped dataset's records and the modal stays closed |
| DataOperations.GroupingCallbackKeyError | src/lipidome_projector/callbacks/data_operation_callback_definition.py:81-90 | once the first two guards pass, a lipidome record without the lipidome column makes the name check raise KeyError |
| DataOperations.PairwiseCallbackSpec | src/lipidome_projector/callbacks/data_operation_callback_definition.py:173-214 | fewer than two selected rows leave all six grid and tab outputs alone and open the modal; otherwise both change grids show the returned records and column definitions and the tab of the selected change kind opens |
| DataOperations.SetLipidomeColor | src/lipidome_projector/callbacks/data_operation_callback_definition.py:225-234 | with no selection nothing is updated; otherwise the update holds the selected rows in order, each with the picked colour and every other field unchanged |
| DataOperations.PaletteHexSpec | src/lipidome_projector/callbacks/data_operation_callback_definition.py:251-254 | the hex palette fails exactly when some colour does not read, with the first such colour's error; otherwise each colour is kept when it starts with '#' and converted from its rgb form otherwise |
| DataOperations.ChangeColorScale | src/lipidome_projector/callbacks/data_operation_callback_definition.py:243-259 | with no selection or no scale name nothing is updated; an unknown scale raises AttributeError; a colour that does not convert raises its error; otherwise selected row i gets palette colour i modulo the palette length, every other field unchanged |
| DataOperations.RenameGuardSpec | src/lipidome_projector/callbacks/data_operation_callback_definition.py:298-319 | the rename goes ahead exactly for one selected row and a non-empty new name that no lipidome has; a name already taken opens the modal with its message |
| DataOperations.RenameField | src/lipidome_projector/callbacks/data_operation_callback_definition.py:323-337 | renaming a field raises KeyError exactly when the record lacks the key; otherwise the field holds the new name where it held the current one and every other field is unchanged |
| DataOperations.RenameBothEnds | src/lipidome_projector/callbacks/data_operation_callback_definition.py:327-337 | renaming the from end and then the to end of a change record renames both ends and nothing else |
| DataOperations.RenameLipidomes | src/lipidome_projector/callbacks/data_operation_callback_definition.py:323-325 | the lipidome loop raises KeyError exactly when a record lacks the lipidome column, and otherwise renames every record that carried the current name and changes nothing else |
| DataOperations.RenameChanges | src/lipidome_projector/callbacks/data_operation_callback_definition.py:327-337 | the change-record loop raises KeyError exactly when a record lacks either end, and otherwise renames each end that carried the current name and changes nothing else |
| DataOperations.SetLipidomeName | src/lipidome_projector/callbacks/data_operation_callback_definition.py:275-345 | after the guards the selected row's current name is replaced by the new one in every lipidome record and in both ends of every difference and log2fc record, with no other field changed; a missing column raises KeyError |
| DataOperations.RenameRelabels | src/lipidome_projector/callbacks/data_operation_callback_definition.py:321-325 | when no record carried the new name (as the guard ensures), after a rename the new name labels exactly the lipidome records that carried the current name, and a current name other than the new one no longer labels any record |
| DataOperations.KeepLipidomes | src/lipidome_projector/callbacks/data_operation_callback_definition.py:391-395 | the kept lipidome records are exactly those whose name was not deleted, in order; a record without the lipidome column raises KeyError |
| DataOperations.KeepChanges | src/lipidome_projector/callbacks/data_operation_callback_definition.py:397-409 | the kept change records are exactly those neither of whose ends was deleted, in order; the to end is read only when the from end was not deleted, and a missing column that is read raises KeyError |
| DataOperations.DeletedStoreSpec | src/lipidome_projector/callbacks/data_operation_callback_definition.py:415 | the deleted-row store fails exactly when a selected row has no id; otherwise its keys are the distinct ids in order of first appearance, each mapped to the last selected row carrying it |
| DataOperations.DeletedStoreDistinct | src/lipidome_projector/callbacks/data_operation_callback_definition.py:415 | with distinct row ids each selected row is stored under its own id |
| DataOperations.DeleteSelectedSpec | src/lipidome_projector/callbacks/data_operation_callback_definition.py:376-419 | deletion is refused, changing nothing, exactly when no row is selected; otherwise a lipidome record stays exactly when its name was not deleted, a change record exactly when neither end was deleted, and the selected rows are stored for undo |
| DataOperations.DeletedRowsGone | src/lipidome_projector/callbacks/data_operation_callback_definition.py:387-395 | after a deletion no kept lipidome record carries the name of a selected row |
| DataOperations.DescendingKeysSpec | src/lipidome_projector/callbacks/data_operation_callback_definition.py:457 | the keys of a store with distinct keys, in strictly descending order, each once |
| DataOperations.UndoLastDelete | src/lipidome_projector/callbacks/data_operation_callback_definition.py:436-466 | with nothing stored the modal opens and nothing else changes; otherwise the old records are kept and the stored rows are appended in descending key order, the store is cleared and undo is disabled |
| DataOperations.UndoRestoresStore | src/lipidome_projector/callbacks/data_operation_callback_definition.py:457-458 | with a store of distinct keys undo appends exactly the stored rows, one per key, after the old records |
| BaseDfWrapper.CheckIndexNamesAsWritten | src/lipid_data_processing/lipidomes/base_df_wrapper.py:364-373 | as the check is written, it rejects only a MultiIndex with a missing or empty level name |
| BaseDfWrapper.CheckIndexNames | src/lipid_data_processing/lipidomes/base_df_wrapper.py:364-373 | the corrected index-name check accepts exactly the tables whose every index level carries a non-empty name |
| BaseDfWrapper.IndexNameChecksAgreeOnMultiIndex | src/lipid_data_processing/lipidomes/base_df_wrapper.py:366-370 | on a MultiIndex the check as written and the corrected check agree |
| BaseDfWrapper.UnnamedPlainIndexAccepted | src/lipid_data_processing/lipidomes/base_df_wrapper.py:371-373 | as written, a plain index without a name passes the check, which the corrected check rejects |
| BaseDfWrapper.ValidateDfSpec | src/lipid_data_processing/lipidomes/base_df_wrapper.py:298-373 | validation raises ValueError exactly when a label or column repeats, a column or index label is not a string, or a level of a MultiIndex is unnamed; a plain index may be unnamed, as the check is written |
| BaseDfWrapper.ValidateOperation | src/lipid_data_processing/lipidomes/base_df_wrapper.py:173-180 | the aggregation must be mean, std or concat; anything else raises ValueError |
| BaseDfWrapper.OperationRoundTrip | src/lipid_data_processing/lipidomes/base_df_wrapper.py:173-180 | every operation is accepted under its own name |
| BaseDfWrapper.ValidateGroupsSpec | src/lipid_data_processing/lipidomes/base_df_wrapper.py:182-203 | the groups pass exactly when there is at least one, each has two labels or more and every label is in the index |
| BaseDfWrapper.ValidateGroupNamesSpec | src/lipid_data_processing/lipidomes/base_df_wrapper.py:205-235 | the group names pass exactly when there is one per group, none repeats and, when adding in place, none is already an index label |
| BaseDfWrapper.GroupNames | src/lipid_data_processing/lipidomes/base_df_wrapper.py:278-282 | each default group name is the prefix, a bar separator and the group's labels joined by ", " |
| BaseDfWrapper.GroupNamesDistinct | src/lipid_data_processing/lipidomes/base_df_wrapper.py:278-282 | default names tell distinct groups apart as long as no label contains a comma |
| BaseDfWrapper.DistinctStrings | src/lipid_data_processing/lipidomes/base_df_wrapper.py:269-276 | the concat aggregation's parts are each printed value once, and nothing else |
| BaseDfWrapper.ConcatColumnUniform | src/lipid_data_processing/lipidomes/base_df_wrapper.py:269-276 | a group whose values all print alike aggregates to that one string |
| BaseDfWrapper.ConcatColumnParts | src/lipid_data_processing/lipidomes/base_df_wrapper.py:269-276 | a string is a part of the concat aggregation exactly when some value of the group prints as it |
| BaseDfWrapper.HandleNan | src/lipid_data_processing/lipidomes/base_df_wrapper.py:237-244 | NaN handling keeps the table when skipping, replaces NaN by the fill value otherwise, and fails without a fill value |
| BaseDfWrapper.AggregationFrameSpec | src/lipid_data_processing/lipidomes/base_df_wrapper.py:158-171 | with distinct names the aggregation table has one row per group, in group order, labelled by the group's name and holding its aggregated row |
| BaseDfWrapper.GenAggregationsValue | src/lipid_data_processing/lipidomes/base_df_wrapper.py:133-171 | a successful aggregation is the aggregation table of the NaN-handled table under the given or default names |
| BaseDfWrapper.AddAggregationsSpec | src/lipid_data_processing/lipidomes/base_df_wrapper.py:102-130 | adding aggregations keeps every existing row and appends one row per group after them, labelled by its name |
| BaseDfWrapper.DefaultNamesRepeat | src/lipid_data_processing/lipidomes/base_df_wrapper.py:112-130 | default group names are not checked against the index, so adding the same default-named aggregations twice succeeds and repeats labels |
| BaseDfWrapper.AddAggregationsDefaultOk | src/lipid_data_processing/lipidomes/base_df_wrapper.py:112-130 | with default names, skipping NaN and valid groups, only an unknown operation makes adding aggregations raise |
| BaseDfWrapper.DfWrapper.AddAggregationsInPlace | src/lipid_data_processing/lipidomes/base_df_wrapper.py:102-130 | the held table becomes the table with the aggregations added, or stays as it was when adding them raises |
| BaseDfWrapper.ConcatFramesSpec | src/lipid_data_processing/lipidomes/base_df_wrapper.py:73-100 | concatenating requires the same columns, index depth and no shared label; two tables that pass validation and meet that concatenate to the first table's rows followed by the second's, each value under its own column, and the result passes validation |
| BaseDfWrapper.DisjointIndexesValid | src/lipid_data_processing/lipidomes/base_df_wrapper.py:73-77 | two valid tables with the same columns and disjoint labels stack into a valid table |
| BaseDfWrapper.ValidateMultiIndex | src/lipid_data_processing/lipidomes/base_df_wrapper.py:436-441 | a grouped table must carry a MultiIndex, otherwise ValueError is raised |
| BaseDfWrapper.CheckIndexMembersExistSpec | src/lipid_data_processing/lipidomes/base_df_wrapper.py:417-426 | the member check raises exactly when some member occurs at no level of any index entry |
| BaseDfWrapper.GetSubsetDfRows | src/lipid_data_processing/lipidomes/base_df_wrapper.py:51-71 | selecting present labels with all columns gives those labels with their rows, in the requested order |
| BaseDfWrapper.IndexMemberSubsetSpec | src/lipid_data_processing/lipidomes/base_df_wrapper.py:400-434 | a member subset raises exactly when a member occurs nowhere in the index; otherwise it keeps, in index order, exactly the entries all of whose levels are members, each with its row |
| BaseDb.ParsedColumnsDistinct | src/lipid_data_processing/databases/base_db_classes.py:51-70 | the parsed columns are sixteen distinct columns, each at its own place |
| BaseDb.DbColumnsStartParsed | src/lipid_data_processing/databases/base_db_classes.py:19-49 | the database columns are the sixteen parsed columns, in order, followed by MASS and SMILES |
| BaseDb.ParsedColumnsSpec | src/lipid_data_processing/databases/base_db_classes.py:51-70 | the parsed columns are exactly the parser's feature columns other than STATUS and MESSAGE, and exactly these have a database column |
| BaseDb.MakeUnifiedDatabase | src/lipid_data_processing/databases/base_db_classes.py:154-170 | construction raises ValueError exactly when the index is not named INDEX or a required column is missing, and otherwise holds the table given |
| BaseDb.UnifiedRowColumns | src/lipid_data_processing/databases/base_db_classes.py:102-109 | a unified row carries exactly the required columns |
| BaseDb.UnifiedRowCells | src/lipid_data_processing/databases/base_db_classes.py:102-109 | with unnamed series, a unified row holds the parsed row's value in each parsed column, and the mass and SMILES of its label |
| BaseDb.ConcatIndexName | src/lipid_data_processing/databases/base_db_classes.py:102-109 | a column-wise concat keeps an index name only when every part's index carries that same name |
| BaseDb.ConcatIndexNameOfThree | src/lipid_data_processing/databases/base_db_classes.py:102-109 | the parsed columns and the two wrapped series keep a name exactly when all three carry it, and lose it otherwise |
| BaseDb.FromParsedDsSpec | src/lipid_data_processing/databases/base_db_classes.py:82-111 | with unnamed series, the table is built exactly when both series carry exactly the dataset's labels on an index named INDEX, and ValueError is raised otherwise (a series indexed under another name makes the concatenated index lose the name the constructor checks); it then is valid and has one row per parsed row, in order, holding its parsed columns, mass and SMILES |
| BaseDb.AsWrittenAgreesOnColumnNames | src/lipid_data_processing/databases/base_db_classes.py:102-109 | a series without a name, or named after its column, builds the same table as its values alone |
| BaseDb.NamedSeriesLoseValues | src/lipid_data_processing/databases/base_db_classes.py:102-109 | series on an index named INDEX but named other than MASS and SMILES make the program raise ValueError, because each wraps into an empty frame on an unnamed index and the concatenated index loses its name; the intended table is built from the same series with every mass and SMILES cell filled |
| BaseDb.DropDuplicatesValues | src/lipid_data_processing/databases/base_db_classes.py:128-131 | de-duplication keeps each value of the column once, in first-occurrence order |
| BaseDb.DropDuplicatesFirst | src/lipid_data_processing/databases/base_db_classes.py:128-131 | every row de-duplication keeps is an input row with no earlier row holding the same value |
| BaseDb.ConcatSpec | src/lipid_data_processing/databases/base_db_classes.py:113-133 | concatenating valid tables without de-duplication always succeeds, and with equal columns gives this table's rows followed by each other table's rows, in order |
| BaseDb.ConcatDropSpec | src/lipid_data_processing/databases/base_db_classes.py:113-133 | with de-duplication on a present column, the result holds each value of that column once, in first-occurrence order, each kept row being the first with its value |
| BaseDb.ConcatMissingColumn | src/lipid_data_processing/databases/base_db_classes.py:128-131 | de-duplicating on a column no table has raises KeyError |
| BaseDb.GetSubsetSpec | src/lipid_data_processing/databases/base_db_classes.py:135-143 | on a valid table a subset raises KeyError exactly when a label is absent; otherwise it keeps the columns and the INDEX name and holds exactly the rows carrying the given labels |
| UnifiedLmsdSl.OverlapNoDup | src/lipid_data_processing/databases/unified_lmsd_sl.py:59-63 | the overlap holds each LMSD id at most once |
| UnifiedLmsdSl.OverlapMember | src/lipid_data_processing/databases/unified_lmsd_sl.py:59-63 | an LMSD id is in the overlap exactly when it is an LMSD id that some SL row cross-references |
| UnifiedLmsdSl.OverlapFirst | src/lipid_data_processing/databases/unified_lmsd_sl.py:59-63 | each overlap entry comes from the first SL row that cross-references its LMSD id |
| UnifiedLmsdSl.IndexDifferenceSpec | src/lipid_data_processing/databases/unified_lmsd_sl.py:66-74 | the index difference holds exactly the labels not removed, sorted and each once |
| UnifiedLmsdSl.KeepBoth | src/lipid_data_processing/databases/unified_lmsd_sl.py:38-49 | keeping both sides removes nothing: the LMSD rows followed by the SL rows |
| UnifiedLmsdSl.KeepLmsd | src/lipid_data_processing/databases/unified_lmsd_sl.py:65-70 | keeping the overlap from LMSD leaves LMSD unchanged and keeps an SL row exactly when its id is not an overlap SL id |
| UnifiedLmsdSl.KeepSl | src/lipid_data_processing/databases/unified_lmsd_sl.py:71-76 | keeping the overlap from SL leaves SL unchanged and keeps an LMSD row exactly when no SL row cross-references its id |
| UnifiedLmsdSl.KeepOther | src/lipid_data_processing/databases/unified_lmsd_sl.py:77-78 | any other overlap source raises ValueError |
| UnifiedLmsdSl.SecondReferenceKept | src/lipid_data_processing/databases/unified_lmsd_sl.py:59-70 | only the first SL row per LMSD id enters the overlap, so with "lmsd" a second SL row referencing the same LMSD lipid stays in the table |
| AbundanceChanges.PairPositionsLength | src/lipid_data_processing/lipidomes/lipidome_abundance_changes.py:225-226 | the ordered pairs of n positions number n·(n−1) |
| AbundanceChanges.PairPositionsMember | src/lipid_data_processing/lipidomes/lipidome_abundance_changes.py:225-226 | a pair of positions is generated exactly when both are in range and they differ |
| AbundanceChanges.PairPositionsNoDup | src/lipid_data_processing/lipidomes/lipidome_abundance_changes.py:225-226 | no pair of positions is generated twice |
| AbundanceChanges.PairsLength | src/lipid_data_processing/lipidomes/lipidome_abundance_changes.py:225-226 | the lipidome pairs (the 2-permutations of the lipidomes) number n·(n−1) |
| AbundanceChanges.PairsMember | src/lipid_data_processing/lipidomes/lipidome_abundance_changes.py:225-226 | a (from, to) pair is generated exactly when both are lipidomes at different positions |
| AbundanceChanges.PairsDistinct | src/lipid_data_processing/lipidomes/lipidome_abundance_changes.py:225-226 | with distinct lipidomes, every generated pair is distinct and none pairs a lipidome with itself |
| AbundanceChanges.SubtractSpec | src/lipid_data_processing/lipidomes/lipidome_abundance_changes.py:229-236 | a difference is a number exactly when both abundances are numbers; adding the subtrahend back gives the minuend, and swapping the operands negates it |
| AbundanceChanges.PairwiseFrameSpec | src/lipid_data_processing/lipidomes/lipidome_abundance_changes.py:193-208 | the pairwise table is computed exactly for a concrete kind, at least two lipidomes and two level names; it then has a two-level index, the abundance table's lipid columns and n·(n−1) rows |
| AbundanceChanges.PairwiseFrameDistinct | src/lipid_data_processing/lipidomes/lipidome_abundance_changes.py:193-208 | with distinct lipidomes, the pairwise table's row labels are distinct |
| AbundanceChanges.PairwiseFrameRow | src/lipid_data_processing/lipidomes/lipidome_abundance_changes.py:193-208 | each row of the pairwise table is labelled by a pair and holds that pair's change, lipid by lipid |
| AbundanceChanges.KeepLastKeys | src/lipid_data_processing/lipidomes/lipidome_abundance_changes.py:116 | keeping the last row per label leaves exactly the same labels, each once |
| AbundanceChanges.KeepLastValue | src/lipid_data_processing/lipidomes/lipidome_abundance_changes.py:116 | the row kept for each label is the last row carrying it |
| AbundanceChanges.KeepLastFresh | src/lipid_data_processing/lipidomes/lipidome_abundance_changes.py:116 | rows whose labels are all distinct are kept as they are |
| AbundanceChanges.KeepLastAppend | src/lipid_data_processing/lipidomes/lipidome_abundance_changes.py:112-116 | appending rows with new distinct labels and keeping the last per label gives the old rows whose label is not new followed by all new rows |
| AbundanceChanges.WithoutLabelsMember | src/lipid_data_processing/lipidomes/lipidome_abundance_changes.py:112-116 | a row survives the removal of labels exactly when it was a row and its label is not removed |
| AbundanceChanges.OuterConcatSameColumns | src/lipid_data_processing/lipidomes/lipidome_abundance_changes.py:112-114 | concatenating two tables with the same distinct columns only appends the rows |
| AbundanceChanges.ConcatNonEmpty | src/lipid_data_processing/lipidomes/lipidome_abundance_changes.py:112-114 | concatenating the non-empty tables raises ValueError exactly when both are empty, and otherwise keeps the index depth |
| AbundanceChanges.ValidateChangeTableSpec | src/lipid_data_processing/lipidomes/lipidome_abundance_changes.py:23-31 | a change table is accepted exactly when it is a valid table with a two-level MultiIndex; otherwise ValueError |
| AbundanceChanges.EmptyFromLipids | src/lipid_data_processing/lipidomes/lipidome_abundance_changes.py:34-49 | the empty change table has no rows and two index levels |
| AbundanceChanges.EmptyFromLipidsValid | src/lipid_data_processing/lipidomes/lipidome_abundance_changes.py:34-49 | the empty table over some lipids is accepted exactly when the lipids are distinct strings |
| AbundanceChanges.AddPairwiseUniqueKeys | src/lipid_data_processing/lipidomes/lipidome_abundance_changes.py:81-116 | after a successful insertion in any mode each (from, to) label occurs once |
| AbundanceChanges.AddPairwiseInvalidMode | src/lipid_data_processing/lipidomes/lipidome_abundance_changes.py:87-89 | with validation an unknown handling mode raises ValueError |
| AbundanceChanges.AddPairwiseRaise | src/lipid_data_processing/lipidomes/lipidome_abundance_changes.py:101-110 | in "raise" mode the insertion succeeds only when none of the new pairs is already present, and a present computable pair raises ValueError |
| AbundanceChanges.AddPairwiseOverwrite | src/lipid_data_processing/lipidomes/lipidome_abundance_changes.py:81-116 | in "overwrite" mode the old rows whose pair is not recomputed stay in order, followed by every new pair's row |
| AbundanceChanges.AddPairwiseOverwriteValue | src/lipid_data_processing/lipidomes/lipidome_abundance_changes.py:112-116 | in "overwrite" mode two non-empty tables are concatenated and the last row per label kept |
| AbundanceChanges.AddChangeValidation | src/lipid_data_processing/lipidomes/lipidome_abundance_changes.py:118-149 | with validation a self pair, an existing pair or a lipidome missing from the abundances raises ValueError, and otherwise the call fails only when there is nothing to concatenate |
| AbundanceChanges.AddChangeAppends | src/lipid_data_processing/lipidomes/lipidome_abundance_changes.py:118-159 | a validated insertion into a non-empty table over the same lipids appends exactly one row labelled (from, to) holding the change from one lipidome's abundances to the other's, and the labels stay distinct |
| AbundanceChanges.AddChangeOnEmptyTable | src/lipid_data_processing/lipidomes/lipidome_abundance_changes.py:151-159 | on a table without rows the result is the new row alone, whose index levels carry no names |
| AbundanceChanges.ChangeTable.constructor | src/lipid_data_processing/lipidomes/lipidome_abundance_changes.py:23-31 | the new change table holds the given table and kind and satisfies the table invariant |
| AbundanceChanges.ChangeTable.AddPairwiseChanges | src/lipid_data_processing/lipidomes/lipidome_abundance_changes.py:81-116 | the held table becomes the insertion's result, or stays as it was when the insertion raises, and the invariant is kept |
| AbundanceChanges.ChangeTable.AddChangeInPlace | src/lipid_data_processing/lipidomes/lipidome_abundance_changes.py:118-159 | the held table becomes the table with the pair's row appended, or stays as it was when the call raises, and the invariant is kept |
| AbundanceChanges.ChangeTableSubsetSpec | src/lipid_data_processing/lipidomes/lipidome_abundance_changes.py:174-184 | a subset keeps exactly the pairs made of requested lipidomes, in table order, under exactly the requested lipids, and is a valid change table |
| AbundanceChanges.EmptyTableSubsetRaises | src/lipid_data_processing/lipidomes/lipidome_abundance_changes.py:174-184 | with validation, asking a table without rows for any lipidome raises ValueError |
| AbundanceChanges.SubsetWellFormed | src/lipid_data_processing/lipidomes/lipidome_abundance_changes.py:174-184 | a successful subset is a two-level table that validates as a change table |
| AbundanceChanges.CheckChangeFrameSpec | src/lipid_data_processing/lipidomes/lipidome_abundance_changes.py:460-473 | a change table passes the storage check exactly when every pair's lipidomes are storage lipidomes and every column is a storage lipid |
| AbundanceChanges.ValidateStorageInputSpec | src/lipid_data_processing/lipidomes/lipidome_abundance_changes.py:436-457 | the storage input is accepted exactly when every given table passes that check |
| AbundanceChanges.Storage.constructor | src/lipid_data_processing/lipidomes/lipidome_abundance_changes.py:262-306 | the storage keeps the lipidomes and lipids, each given table, and a fresh empty table over the lipids for each kind not given |
| AbundanceChanges.Storage.GetAbundanceChangesSpec | src/lipid_data_processing/lipidomes/lipidome_abundance_changes.py:388-400 | "difference", "fc" and "log2fc" select the table of their kind and every other name raises ValueError |
| AbundanceChanges.Storage.AddPairwiseChanges | src/lipid_data_processing/lipidomes/lipidome_abundance_changes.py:365-374 | the table named by the kind gets the pairwise insertion; an unknown name raises ValueError; the other tables are unchanged |
| AbundanceChanges.Storage.AddChange | src/lipid_data_processing/lipidomes/lipidome_abundance_changes.py:376-386 | the table named by the kind gets the single-pair insertion; an unknown name raises ValueError; the other tables are unchanged |
| AbundanceChanges.Storage.SubsetTable | src/lipid_data_processing/lipidomes/lipidome_abundance_changes.py:413-433 | one table's subset becomes a fresh valid table of the same kind, or its error is returned |
| AbundanceChanges.Storage.GetSubset | src/lipid_data_processing/lipidomes/lipidome_abundance_changes.py:413-433 | the new storage holds the requested lipidomes and lipids (by default the current ones) and the subset of each table; it fails exactly when a subset fails |
| Dataset.ValidateInputSpec | src/lipid_data_processing/lipidomes/lipidome_dataset.py:471-587 | the tables are accepted exactly when the lipidomes agree as sets and in index name, the lipids agree as sets, and a given change store has exactly the abundance lipidomes and lipids; every rejection is a ValueError |
| Dataset.LipidomeGroupNamesAreDefaults | src/lipid_data_processing/lipidomes/lipidome_dataset.py:433-442 | the lipidome group names are the names the aggregation would choose by default, and distinct groups of comma-free labels get distinct names |
| Dataset.FeatureGroupNamesSpec | src/lipid_data_processing/lipidomes/lipidome_dataset.py:444-469 | there is one feature group name per product entry, in entry order; the prefixed name is the operation, a bar separator, followed by the unprefixed name; a non-text tuple raises TypeError |
| Dataset.SubsetLipidomesAgree | src/lipid_data_processing/lipidomes/lipidome_dataset.py:262-292 | cutting the abundances and the lipidome features to the same lipidomes keeps their lipidomes in agreement |
| Dataset.SubsetLipidsAgree | src/lipid_data_processing/lipidomes/lipidome_dataset.py:262-292 | cutting the abundance columns and the lipid features to the same lipids keeps their lipids in agreement |
| Dataset.SubsetChangesAgree | src/lipid_data_processing/lipidomes/lipidome_dataset.py:262-292 | the change store cut to the requested lipidomes and lipids matches the cut abundance table |
| Dataset.LipidomeDataset.Create | src/lipid_data_processing/lipidomes/lipidome_dataset.py:27-56 | construction fails with ValueError exactly when the enabled validation rejects the tables or the default empty change tables are invalid; otherwise the dataset holds the given tables and the given store, or a fresh empty store over the abundance lipidomes and lipids, and a validated dataset is consistent |
| Dataset.LipidomeDataset.AddFeatureInPlace | src/lipid_data_processing/lipidomes/lipidome_dataset.py:219-231 | the lipidome feature table becomes the table with the feature assigned, or stays as it was when that raises, and a consistent dataset stays consistent |
| Dataset.LipidomeDataset.GetSubset | src/lipid_data_processing/lipidomes/lipidome_dataset.py:262-292 | the new dataset holds each table's subset, is named as given or as this one, and fails exactly when one of the subsets fails, with ValueError when validating and KeyError otherwise; a consistent dataset gives a consistent subset |
| Features.SubsetSpec | src/lipid_data_processing/lipidomes/lipidome_features.py:28-42 | a subset raises exactly when a requested lipidome or feature is absent; otherwise it holds the requested lipidomes and features in the requested order and keeps the index name |
| Features.SubsetChecked | src/lipid_data_processing/lipidomes/base_df_wrapper.py:49-71 | a checked subset fails exactly when a requested lipidome or feature is absent, with ValueError from validation or KeyError from the lookup, and otherwise is the subset |
| Features.GetSubsetDfSpec | src/lipid_data_processing/lipidomes/base_df_wrapper.py:51-71 | taking a subset raises exactly when a requested label or column is absent, and otherwise keeps exactly the requested ones |
| Features.AlignedInOrder | src/lipid_data_processing/lipidomes/lipidome_features.py:55-65 | values carrying the table's own duplicate-free index land in their rows unchanged |
| Features.AssignSpec | src/lipid_data_processing/lipidomes/lipidome_features.py:55-65 | the assignment keeps the index and every other column, and the named column, new or replaced, holds the values aligned to the rows |
| Features.AssignKeepsValid | src/lipid_data_processing/lipidomes/lipidome_features.py:55-65 | the assignment keeps a valid table valid |
| Features.WithFeatureSpec | src/lipid_data_processing/lipidomes/lipidome_features.py:132-143 | with validation, adding a feature raises ValueError exactly when the name is taken without overwrite or the values' index differs from the table's; on success the column holds exactly the given values in row order, every other cell and the index are untouched, and the table stays valid |
| Features.WithFeatureUnchecked | src/lipid_data_processing/lipidomes/lipidome_features.py:43-65 | without validation nothing is checked: a taken name is overwritten |
| Features.ProductLength | src/lipid_data_processing/lipidomes/lipidome_features.py:96-106 | the cartesian product has as many tuples as the product of the list sizes |
| Features.ProductMember | src/lipid_data_processing/lipidomes/lipidome_features.py:96-106 | a tuple is in the product exactly when it has one value per list, each taken from its list |
| Features.ProductNoDup | src/lipid_data_processing/lipidomes/lipidome_features.py:96-106 | lists without repeats give a product without repeated tuples |
| Features.FeatureProductErrors | src/lipid_data_processing/lipidomes/lipidome_features.py:96-100 | only unknown features make the product raise: ValueError when validating, KeyError otherwise |
| Features.FeatureProductEntries | src/lipid_data_processing/lipidomes/lipidome_features.py:96-122 | there is one entry per tuple of the product of each feature's distinct values; each tuple holds a value of each feature's column; no tuple repeats; and an entry holds exactly the lipidomes whose values equal its tuple |
| Features.FeatureProductPartition | src/lipid_data_processing/lipidomes/lipidome_features.py:108-122 | when no selected feature is NaN, every lipidome of a table with unique labels is in exactly one entry |
| Features.NaNLipidomeInNoEntry | src/lipid_data_processing/lipidomes/lipidome_features.py:108-122 | a lipidome with NaN in a selected feature is in no entry |
| Features.GroupRowParts | src/lipid_data_processing/lipidomes/lipidome_features.py:220-223 | a group's row holds, in each column, the bar-separated join of a duplicate-free list of exactly the texts the group's lipidomes hold there |
| Features.GroupsError | src/lipid_data_processing/lipidomes/lipidome_features.py:195-218 | the groups raise nothing exactly when every group's lipidomes are present and hold text; the error is KeyError or TypeError |
| Features.GroupKeyInjective | src/lipid_data_processing/lipidomes/lipidome_features.py:205-218 | different groups get different index entries |
| Features.FromLipidomeGroupsSpec | src/lipid_data_processing/lipidomes/lipidome_features.py:150-218 | with validation a group naming an absent lipidome raises ValueError and otherwise only non-text values raise; a success has one row per distinct group, keyed by the group, holding the group's joined distinct values under the original columns |
| Features.LipidomeFeatures.AddFeature | src/lipid_data_processing/lipidomes/lipidome_features.py:43-53 | the result is a new object holding the table with the feature added, or the check's error, and this object is unchanged |
| Features.LipidomeFeatures.AddFeatureInPlace | src/lipid_data_processing/lipidomes/lipidome_features.py:55-65 | the held table becomes the table with the feature added, or stays as it was when the check raises |
| Features.LipidomeFeatures.AddAggregationsByLipidomesInPlace | src/lipid_data_processing/lipidomes/lipidome_features.py:83-94 | the held table gains the concat aggregation of each lipidome group as one row, or stays as it was when the aggregation raises |
| Matching.ColumnLevel | src/lipid_data_processing/notation/matching.py:489-522 | a LEVEL value selects the classification column of that name, and a value naming no level selects none |
| Matching.LevelPairsSound | src/lipid_data_processing/notation/matching.py:489-522 | every pair of a LEVEL group comes from a to-match row of that level and a reference row whose column at that level equals its parsed name |
| Matching.LevelPairsComplete | src/lipid_data_processing/notation/matching.py:489-522 | every to-match row of the group's level and every reference row it matches give a pair of the group |
| Matching.MatchByParsedNameSpec | src/lipid_data_processing/notation/matching.py:489-522 | a pair is produced exactly when the reference column named by the to-match row's LEVEL equals the row's parsed name |
| Matching.ProcClassSynonymsSpec | src/lipid_data_processing/notation/matching.py:420-426 | a caller's entry for a class replaces the built-in one, the built-in classes keep their place at the front, and the keys are those classes followed by the caller's, each once |
| Matching.SynonymRunsMember | src/lipid_data_processing/notation/matching.py:524-564 | a class and a synonym are tried exactly when the class starts some parsed name and the synonym is listed for it |
| Matching.MatchByParsedNameWithSynonymsSpec | src/lipid_data_processing/notation/matching.py:524-590 | a pair comes from synonym matching exactly when, for some class starting a parsed name and one of its synonyms, it is a parsed-name match once the class is replaced by the synonym |
| Matching.SynonymPairSound | src/lipid_data_processing/notation/matching.py:524-590 | every synonym pair comes from renaming an existing class to one of its synonyms |
| Matching.SynonymPairComplete | src/lipid_data_processing/notation/matching.py:524-590 | renaming an existing class to one of its synonyms contributes all its parsed-name pairs |
| Matching.RenameClassUntouched | src/lipid_data_processing/notation/matching.py:566-590 | renaming a class leaves the parsed names that do not contain it as they are |
| Matching.RenameClassIds | src/lipid_data_processing/notation/matching.py:566-590 | renaming a class keeps the row labels |
| Matching.MatchByOriginalName | src/lipid_data_processing/notation/matching.py:453-487 | the original-name merge raises MergeError exactly when a to-match original name repeats |
| Matching.MatchByOriginalNameSpec | src/lipid_data_processing/notation/matching.py:453-487 | the original-name pairs are exactly the to-match rows paired with the reference rows of the same original name, parse failures included |
| Matching.CombineCaseMatches | src/lipid_data_processing/notation/matching.py:428-451 | combining raises ValueError exactly when all three strategies found nothing; otherwise the combined pairs are exactly those of the three strategies, each once |
| Matching.MatchCasesFrom | src/lipid_data_processing/notation/matching.py:274-313 | every candidate pair names a to-match row and a reference row, and no pair repeats |
| Matching.NoMatchPartition | src/lipid_data_processing/notation/matching.py:387-418 | every to-match row is paired, or unpaired with a parsed name, or unpaired without one, and exactly one of these; the three counts add up to the table's size |
| Matching.MakeConstraints | src/lipid_data_processing/notation/matching.py:225-233 | the constraints are accepted exactly when both whitelists are non-empty; otherwise ValueError |
| Matching.RemoveBondAlterationsAbsent | src/lipid_data_processing/notation/matching.py:887-893 | a name without "O-" or "P-" is left as it is |
| Matching.RemoveHydroxylationsAbsent | src/lipid_data_processing/notation/matching.py:883-885 | a name without a hydroxylation ";<digits>OH" is left as it is |
| Matching.SinglePassExample | src/lipid_data_processing/notation/matching.py:887-893 | the bond-alteration removal is a single left-to-right pass: "OO--" becomes "O-", and "O-16:0" becomes "16:0" |
| Matching.MissingNotExempt | src/lipid_data_processing/notation/matching.py:826-881 | the empty-slot sentinel passes a whitelist only when it is itself listed |
| Matching.EtherPrefixIgnored | src/lipid_data_processing/notation/matching.py:861-881 | an ether or plasmalogen prefix on a plain chain does not change whether it passes the FA whitelist |
| Matching.GenMatchesInfo | src/lipid_data_processing/notation/matching.py:340-385 | the matches table has one row per pair, in order, carrying the names of both sides, and raises ValueError exactly when a pair names a label absent from either table |
| Matching.ConstrainedMatchesInfoSpec | src/lipid_data_processing/notation/matching.py:631-650 | the constrained matches table is the matches table of exactly the pairs whose reference row passes the constraints, in pair order |
| Matching.FilteredIdsSpec | src/lipid_data_processing/notation/matching.py:652-738 | a lipid is filtered exactly when it has candidates and none of them passes; the filtered labels are strictly increasing |
| Matching.AcceptedOrFiltered | src/lipid_data_processing/notation/matching.py:592-738 | among lipids with candidates, a lipid keeps a constrained match exactly when it is not filtered |
| Matching.FaViolationsSound | src/lipid_data_processing/notation/matching.py:762-812 | each listed FA violation fails the whitelist and is a chain of a reference row among that lipid's candidates |
| Matching.LcbViolationsSound | src/lipid_data_processing/notation/matching.py:762-824 | each listed LCB violation fails the whitelist and is the LCB of a reference row among that lipid's candidates |
| Matching.LcbViolationOf | src/lipid_data_processing/notation/matching.py:814-844 | the LCB violation of one candidate is its reference row's LCB, which fails the whitelist |
| Matching.FilteredEntryNonEmpty | src/lipid_data_processing/notation/matching.py:762-800 | a filtered lipid always lists at least one violation |
| Matching.FailingRowViolates | src/lipid_data_processing/notation/matching.py:826-881 | a candidate whose reference row fails the constraints violates the FA whitelist or the LCB whitelist |
| Matching.FaViolationListed | src/lipid_data_processing/notation/matching.py:762-812 | an FA value that one candidate of the group violates is among the group's FA violations |
| Matching.LcbViolationListed | src/lipid_data_processing/notation/matching.py:762-824 | an LCB value that one candidate of the group violates is among the group's LCB violations |
| Matching.FourWayPartition | src/lipid_data_processing/notation/matching.py:235-272 | each to-match row is exactly one of: accepted, filtered, parsed but unmatched, or unparsed and unmatched |
| MatchingSummary.SetStatistics | src/lipid_data_processing/notation/matching_summary.py:59-94 | the statistics count the lipids, parsing failures and the three kinds of failure, the failures are their sum, and the proportion is failures over lipids; an empty dataset raises ZeroDivisionError |
| MatchingSummary.FailuresAtMostLipids | src/lipid_data_processing/notation/matching_summary.py:59-94 | over the results of matching a dataset, there are never more failures than lipids |
| MatchingSummary.FilteredAtMostPaired | src/lipid_data_processing/notation/matching_summary.py:59-94 | there are no more filtered lipids than paired rows |
| MatchingSummary.ProportionAtMostOne | src/lipid_data_processing/notation/matching_summary.py:59-94 | the failure proportion of a summary of matching results is at most one |
| MatchingSummary.SummaryDictKeys | src/lipid_data_processing/notation/matching_summary.py:96-109 | the summary dictionary has exactly the seven keys, in order, each once |
| MatchingSummary.SummaryDictSpec | src/lipid_data_processing/notation/matching_summary.py:96-109 | each summary key holds its statistic |
| MatchingSummary.PrintStringLines | src/lipid_data_processing/notation/matching_summary.py:136-142 | when no value holds a newline, splitting the printed text at newlines gives back one "label: value" line per entry |
| MatchingSummary.PrintedReport | src/lipid_data_processing/notation/matching_summary.py:111-142 | the printed report has nine lines, one per entry of the print dictionary, in order |
| MatchingSummary.CompileFailuresSpec | src/lipid_data_processing/notation/matching_summary.py:144-225 | the failures table lists the parsed-no-match lipids with their reason and parsed name, then the original-name-no-match lipids with theirs, then the filtered lipids without a reason, one row each |
| MatchingSummary.FailuresCount | src/lipid_data_processing/notation/matching_summary.py:144-181 | the failures table has exactly as many rows as the statistics count failures |
| MatchingSummary.MakeSummary | src/lipid_data_processing/notation/matching_summary.py:41-51 | the summary derives all its fields once: its failures table matches the failure count and its dictionary has the seven keys; an empty dataset raises ZeroDivisionError |
| Parsing.FeatureNamesComplete | src/lipid_data_processing/notation/parsing.py:58-91 | the feature names list holds every feature column and nothing else |
| Parsing.ParseName | src/lipid_data_processing/notation/parsing.py:466-520 | an empty name fails with "Missing name"; a name the parser rejects fails with "Name can not be parsed: " and the parser's text; otherwise the parse succeeds with the parsed lipid; the original name is kept and a lipid is present exactly on success |
| Parsing.ExpectedNumFa | src/lipid_data_processing/notation/parsing.py:672-682 | the expected number of FA chains is the total, less one for the LCB of a sphingolipid |
| Parsing.GetFaComponents | src/lipid_data_processing/notation/parsing.py:619-641 | the four FA slots are filled: the selected ones with the lipid's chain or MISSING, the rest with N/A |
| Parsing.GetLcbComponent | src/lipid_data_processing/notation/parsing.py:643-666 | the LCB slot holds the lipid's LCB or MISSING for a sphingolipid, and N/A otherwise |
| Parsing.LevelDict | src/lipid_data_processing/notation/parsing.py:570-591 | the level dictionary holds the LEVEL entry and one entry per defined level, and nothing else |
| Parsing.FormatInfoDictSpec | src/lipid_data_processing/notation/parsing.py:454-464 | every feature column of the formatted row holds the info entry of that name, or "" when there is none |
| Parsing.FailedRow | src/lipid_data_processing/notation/parsing.py:426-532 | a failed parse leaves every column empty except the original name, the failed status and the message |
| Parsing.FailureInfoRow | src/lipid_data_processing/notation/parsing.py:523-532 | the row of a failure keeps the name, status and message and leaves every other column empty |
| Parsing.SuccessInfoNames | src/lipid_data_processing/notation/parsing.py:534-568 | a success records the original and parsed names, with empty status and message |
| Parsing.SuccessInfoComponents | src/lipid_data_processing/notation/parsing.py:534-555 | a success records the four FA slots and the LCB slot as filled |
| Parsing.SuccessInfoLevels | src/lipid_data_processing/notation/parsing.py:534-555 | a success records the lipid's level and its name at each defined level |
| Parsing.ParsedRow | src/lipid_data_processing/notation/parsing.py:426-464 | a successful parse keeps the row id, leaves status and message empty and takes everything else from the parser |
| Parsing.LevelColumnsMonotone | src/lipid_data_processing/notation/parsing.py:570-591 | a level column finer than the lipid's own level holds UNDEFINED, and any other holds the lipid's name at that level |
| Parsing.SuccessFailurePartition | src/lipid_data_processing/notation/parsing.py:115-123 | the success and failure subsets are disjoint, cover the rows, and their sizes add up |
| Parsing.ValidateHeader | src/lipid_data_processing/notation/parsing.py:307-332 | the table is accepted exactly when its index is named INDEX and every feature column is present; otherwise ValueError |
| Parsing.GetSubsetSpec | src/lipid_data_processing/notation/parsing.py:258-271 | without intersection an absent id raises; otherwise the subset holds exactly the rows of the requested ids |
| Parsing.ComponentCompleteSpec | src/lipid_data_processing/notation/parsing.py:273-305 | a row survives exactly when no component is MISSING, a sphingolipid has an LCB, and the row is FA-exempt or has an FA |

## Left out

- RandomWalks.GenerateWalks: requires max_len of at least 1; with a smaller max_len the source appends empty walks forever, which has no result to model.
- Parsing: pygoslin (the parser, `get_lipid_string`, `LipidLevel`, the notation-to-parser table) is a foreign library; its output is the input datatype `Lipid` (names per level, level, category, FA total, components), and a parser exception is the `Raised` outcome.
- RDKit is a foreign library: the bond adjacency map of the random walks and the Morgan bit info of the atom-radius bit map are parameters.
- File, network and spreadsheet I/O are not modelled: `from_csv_input`, `from_constraint_csv_input`, `write_matching_summary_xls`, the database loaders, pickled sentence files and base64 upload decoding. The loaders are modelled over lists of paths and already-read values.
- Floating point is not modelled. The mean/std aggregation is the `stat` parameter, and the fold-change ratio and log2 are the `ratio` parameter of the change tables. The failure percentage text is a parameter of the print dictionary, and the proportion is an exact fraction. The float HLS step of `darken_hex_color` is the `shade` parameter.
- Randomness (`np.random.choice`, `random.choice`, `random.sample`) is a nondeterministic choice: the shuffle index is any permutation, and the sampled atom is any least-visited neighbour.
- Plotly palettes and colour scales are parameters. The T10 palette used as a default is a constant copied from Plotly. The palette lookup by name (`getattr(px.colors.qualitative, name)`) is an Option parameter, with None standing for AttributeError.
- Dash wiring (decorators, `no_update`, callback registration) is left out. Of the callbacks, only the record logic is modelled. The grouping and pairwise dataset steps are parameters of the callback outputs.
- translation.py and grid_processing.py are not part of this model: the front-end records they produce are inputs.
- Scatter data: cell values are strings, and `vector_col_names` is always a list.
- In-place mutation and aliasing of the front end's record dicts are modelled on values: each callback returns the new records.
- The JSON round trip of the deleted-row store, which turns integer keys into strings, is modelled as a store keyed by strings. The JSON encoding itself is not modelled.
- Duplicate row labels are not modelled: a lookup by label takes the first row. pandas would multiply rows in a merge or misalign masks.
- pandas `concat` along the columns of parsed frames is taken to follow the parsed column order. Database columns other than the eighteen unified ones are not modelled.
- Groupby and `Index.difference` order is lexicographic string order on row labels.
- `validate=False` construction paths of the wrapper classes are modelled only where a member takes a `validate` flag: `get_subset` then lets pandas raise KeyError for an absent label. Elsewhere the tables are the ones validation accepts.
- BaseDfWrapper.CheckIndexMembersExistSpec: members are looked up in the index entries, not in `index.levels`. pandas keeps level values that slicing removed from every entry, which the model's index does not carry, so after a slice the model raises ValueError for such a value where the program passes.
- BaseDfWrapper.IndexMemberSubsetSpec: the existence check is the one above, over index entries rather than `index.levels`.
- GridData.FromDict: a field value that is neither None nor a list of records raises TypeError in the model, where the dataclass stores it unchecked; the model's `Grid` holds only lists of records.
- RandomWalks.Deserialize: a field of the wrong kind raises KeyError in the model, where the constructor stores it unchecked; the model's `Descriptor` holds only walks and atoms of their declared types.
- `shuffle_each` of the iteration utilities, used by the base sentence builder, is a random permutation of each sentence; it is the shuffle-index choice described under randomness.
- Matching: the column-presence checks of `_ValidationMixin` are not modelled, because the model's tables always carry the fixed column set. The NaN check is modelled as the ValueError of `GenMatchesInfo`. Row multiplication by a merge on repeated keys is not modelled.
- AbundanceChanges.SubtractSpec: text cells subtract to NaN in the model, whereas pandas would raise TypeError. Abundances are numbers in every table the source builds.
- `LipidomeDataset.add_pairwise_changes_in_place` and `add_change_in_place` only forward to the change storage, which is modelled as `AbundanceChanges.Storage.AddPairwiseChanges` and `AbundanceChanges.Storage.AddChange`. The aggregation helpers `gen_aggregations_by_lipidomes`, `add_aggregations_by_lipidomes_in_place` and the by-features variants forward to the wrapper aggregation: see `BaseDfWrapper.AddAggregationsSpec` and `Features.LipidomeFeatures.AddAggregationsByLipidomesInPlace`. The by-features variants are not modelled separately.
- `ParsedDataset.concat_ds` and the column-name properties of `ParsedDataset` (`name_df`, `fas`, `lcb` and others) are column selections and are not modelled separately.
- The embedding training, dimensionality reduction and scaling code and the Plotly figure building are not part of this model.

## Findings

| source | as written | input that shows it | evidently intended | confidence | as-written member | corrected member |
|---|---|---|---|---|---|---|
| src/lipid_data_processing/lipidomes/base_df_wrapper.py:371-373 | for a plain index the check compares the list of names with None and "", which never holds, so an unnamed index passes | a plain index whose only name is None | a plain index without a name is rejected with ValueError | not executed | BaseDfWrapper.UnnamedPlainIndexAccepted | BaseDfWrapper.CheckIndexNames |
| src/embedding_visualization/colors.py:54-80 | each pair of characters goes through `int(pair, 16)`, which accepts a sign, surrounding blanks (any Unicode whitespace) and Unicode decimal digits, and raises on non-hex text | "#+f0000" is accepted and "#zz0000" raises ValueError instead of returning False | a valid hex colour is "#" followed by six hex digits, and anything else is rejected | not executed | Colors.SignedPairAccepted | Colors.HexToRgbIntendedSpec |
| src/embedding_visualization/single_trace_scatter_generation.py:415-423 | a long name keeps threshold + 1 characters before "...", so a name one character over the threshold loses nothing and grows | "abcd" with threshold 3 becomes "abcd..." | a name longer than the threshold keeps its first threshold characters, followed by "..." | not executed | TraceHelpers.TruncateAsWrittenGrows | TraceHelpers.TruncateSpec |
| src/lipid_data_processing/databases/base_db_classes.py:102-109 | the mass and SMILES series are wrapped by `pd.DataFrame(series, columns=[name])`, which selects the series by its own name, so a series named otherwise becomes an empty frame on an unnamed index, the concatenated index loses the name INDEX and the constructor raises ValueError | a mass series named "mass" instead of "MASS", on an index named INDEX | the series values fill the MASS and SMILES columns whatever the series is named | not executed | BaseDb.NamedSeriesLoseValues | BaseDb.FromParsedDsSpec |
