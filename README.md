# ca_chinook genotype converters, modelled in Dafny

This project models the core of the ca_chinook microhaplotype converters.

`colonyConverter` works in three steps:

1. It reads a table of genotypes: one row per individual, and two columns `<locus>_1` and `<locus>_2` per locus, each cell a haplotype string or missing.
2. It removes blacklisted loci and filters the table:
   - individuals with too much missing data;
   - allele columns with too much missing data;
   - optionally, monomorphic loci.
3. It writes the table in the formats whose flags are set: a Colony2 `.Dat` file, or a filtered csv.

`fileConverter` writes the same kind of table as a tab-separated CKMRsim file or a csv file. The CKMRsim file puts offspring first and parents second.

The modules follow the source files:

| module | file | content |
|---|---|---|
| `Text` | `text.dfy` | Python's `sep.join`, `s.split(c)`, `str(n)` for naturals, `s.replace` of one character, `s.casefold()` |
| `Genotype` | `genotype.dfy` | The table (`Matrix`: column labels and rows of `Cell`s), errors, and removing columns or rows by label as pandas `pop`/`drop` do |
| `LocusDict` | `locusdict.dfy` | `LocusDict.getUnique`: the per-locus dictionary from haplotype to code `"1"`, `"2"`, … |
| `Microhap` | `microhap.dfy` | Class `Microhap` with its `df` field: `parseFile`, `removeLoci`, `filterInds`, `filterLoci`, `filterMono`, `runFilters` |
| `Colony` | `colony.dfy` | Class `Colony`: the Colony2 file (`convert`, `getLocusNames`, `prepValues`) |
| `Delimited` | `delimited.dfy` | The header and sample lines shared by the CKMRsim and csv writers |
| `Ckmr` | `ckmrsim.dfy` | Class `CKMR`: `convert` and `parseInd` |
| `CsvFiltered` | `csvf.dfy` | Class `CSVfiltered`: `convert` |
| `SnpTables` | `snptables.dfy` | The per-position character tables of `MHconvert.convSNP` |
| `MHconvert` | `mhconvert.dfy` | Class `MHconvert`: `convert`, `convert_to`, `conv_csv`, `conv_colony`, `convSNP`, and the output name of `printOutput` |

The model stops at the following boundaries:

- Where the source exits with `SystemExit`, the model returns a `Fail` of the `Error` datatype. The same holds for a pandas `KeyError` and for a missing converter.
- Each writer returns its lines. `MHconvert.Convert` returns the (file name, lines) pairs that `printOutput` would write.
- The table as read by `read_csv` is a parameter. So are the blacklist as a list of names and the Colony random seed.

Each loop of the source is a method. Each method is proved against a specification function, and the properties of that function are proved as lemmas.

## Model

| member | source | states |
|---|---|---|
| Text.JoinSplit | colonyConverter/mhconvert.py:70-73 | Joining the pieces of `s.split(d)` with `d` gives `s` back |
| Text.SplitJoin | fileConverter/csvf.py:19 | Splitting a join of separator-free pieces on the separator gives the pieces back |
| Text.SplitConcat | colonyConverter/mhconvert.py:70 | `split` of `a + d + b` is `split(a)` followed by `split(b)` |
| Text.SplitAvoids | colonyConverter/mhconvert.py:69-70 | A character absent from a string is absent from every piece of its split |
| Text.JoinAvoids | colonyConverter/mhconvert.py:73 | A character absent from the separator and from every piece is absent from the join |
| Text.ReplaceChar | colonyConverter/mhconvert.py:69 | Same length; every `a` becomes `b` and every other character stays |
| Text.NatToString | colonyConverter/colony.py:25 | `str(n)` is at least one decimal digit, begins with `0` only for 0, and has two or more digits from 10 up |
| Text.ParseNatToString | colonyConverter/locusdict.py:29 | Reading the decimal digits of `str(n)` gives `n` back |
| Text.NatToStringInjective | colonyConverter/locusdict.py:29 | Distinct numbers are written as distinct strings |
| Text.CaseFoldAscii | fileConverter/ckmrsim.py:29 | On ASCII letters `casefold` keeps the length and lower-cases each letter |
| Genotype.LocusNames | colonyConverter/colony.py:111-119 | `[c[:-2] for c in cols][1::2]`: one name per column pair, taken from the odd-indexed column |
| Genotype.MissingCount | colonyConverter/microhap.py:124 | At most the number of cells; zero exactly when no cell is missing |
| Genotype.KeptIndices | colonyConverter/microhap.py:141 | Positions in increasing order; a position is listed exactly when its label is not dropped |
| Genotype.RemoveColumns | colonyConverter/microhap.py:141 | Dropping columns by label leaves a well-formed table with the same number of rows |
| Genotype.RemoveColumnsSpec | colonyConverter/microhap.py:141 | Dropping columns by label keeps the other columns in order, with their cells in every row |
| Genotype.RemoveColumnsMembers | colonyConverter/microhap.py:35 | A label survives exactly when it was present and is not dropped |
| Genotype.RemoveRowsSpec | colonyConverter/microhap.py:166 | Dropping rows by label keeps the other rows in order and leaves the columns alone |
| Genotype.RemoveRows | colonyConverter/microhap.py:166 | Dropping rows by label keeps the column labels and leaves a well-formed table from a well-formed one |
| Genotype.RemoveColumnsTwice | colonyConverter/microhap.py:66-74 | Dropping the columns of `S` and then those of `U` equals dropping those of `S + U` |
| Genotype.RemoveColumnsAbsent | colonyConverter/microhap.py:69-74 | Dropping labels that are not present changes nothing |
| Genotype.RemoveRowsAbsent | colonyConverter/microhap.py:166 | Dropping row labels that are not present changes nothing |
| LocusDict.NonMissing | colonyConverter/locusdict.py:23 | `dropna()`: a value is kept exactly when it occurs as a non-missing cell |
| LocusDict.NonMissingCell | colonyConverter/locusdict.py:23 | A missing cell contributes nothing; a present one contributes its value |
| LocusDict.NonMissingAppend | colonyConverter/locusdict.py:23 | `dropna()` keeps the cell order: the values of the `_1` column come before those of the `_2` column, each in row order |
| LocusDict.Unique | colonyConverter/locusdict.py:23 | `unique()`: no repeats, and exactly the values of the input |
| LocusDict.UniqueOrder | colonyConverter/locusdict.py:23 | `unique()` lists values in the order of their first appearance |
| LocusDict.UniqueCount | colonyConverter/locusdict.py:23 | `unique()` has one element per distinct value |
| LocusDict.ColumnByName | colonyConverter/locusdict.py:23 | `df[name]` fails with a missing-column error exactly when no column has that label; otherwise it has one cell per row |
| LocusDict.Codes | colonyConverter/locusdict.py:26-29 | The dictionary comprehension has a code for exactly the haplotypes listed |
| LocusDict.CodesKeys | colonyConverter/locusdict.py:26-29 | With distinct haplotypes, one code per haplotype, and the i-th haplotype gets `str(i + 1)` |
| LocusDict.CodesNoZero | colonyConverter/locusdict.py:29 | No haplotype gets code `"0"`, the Colony code for a missing allele |
| LocusDict.CodesInjective | colonyConverter/locusdict.py:29 | Distinct haplotypes of a locus get distinct codes |
| LocusDict.CodesDecode | colonyConverter/locusdict.py:26-29 | Decoding a haplotype's code gives the haplotype back |
| LocusDict.LocusCodesKeys | colonyConverter/locusdict.py:19-29 | A locus's entry is keyed by exactly the non-missing haplotypes of its two columns, one code per distinct haplotype |
| LocusDict.LocusAllelesOk | colonyConverter/locusdict.py:23 | A locus has haplotypes exactly when both of its columns exist; otherwise the error names the first missing column |
| LocusDict.BuildCodecOk | colonyConverter/locusdict.py:18-31 | The dictionary exists exactly when every listed locus has both columns |
| LocusDict.BuildCodecStop | colonyConverter/locusdict.py:23 | A locus with a missing column makes the whole dictionary fail with that column's error |
| LocusDict.BuildCodec | colonyConverter/locusdict.py:18-31 | When it exists, the dictionary has an entry for exactly the listed loci |
| LocusDict.BuildCodecEntries | colonyConverter/locusdict.py:26-31 | Each locus's entry holds the codes of that locus |
| LocusDict.LocusDict.GetUnique | colonyConverter/locusdict.py:12-34 | The loop over the odd-indexed locus names returns the dictionary `BuildCodec` specifies, or its first error |
| Microhap.FirstBadColumn | colonyConverter/microhap.py:49-54 | None exactly when every column ends in `_1` or `_2`; otherwise a column that does not, with every column before it ending in `_1` or `_2` |
| Microhap.CheckColumnsOk | colonyConverter/microhap.py:48-57 | The column check passes exactly when every column is an allele column |
| Microhap.ParseSpec | colonyConverter/microhap.py:25-57 | A successful read keeps only allele columns of the input that are not summary columns, one row per row read, and one role per row exactly when roles were asked for |
| Microhap.ParseWithoutRoles | colonyConverter/microhap.py:25-57 | Without Colony: reading succeeds exactly when every non-summary column is an allele column; the table is the input without the four summary columns |
| Microhap.ParseMissingRoles | colonyConverter/microhap.py:39-46 | With Colony and no `colony2` column, reading fails naming that column |
| Microhap.ParseWithRoles | colonyConverter/microhap.py:30-57 | With Colony: reading succeeds exactly when every column other than the summary and `colony2` columns is an allele column; the table drops exactly those columns; there is one role per row |
| Microhap.FilterIndsSpec | colonyConverter/microhap.py:143-166 | Fails exactly on an odd column count; otherwise keeps the columns and the table's shape |
| Microhap.FilterIndsSound | colonyConverter/microhap.py:155-166 | Every kept row passes the missing-share test; every failing row is gone |
| Microhap.FilterIndsExact | colonyConverter/microhap.py:155-166 | With distinct sample labels, a row is kept exactly when its missing share is not above the threshold |
| Microhap.FilterIndsIdempotent | colonyConverter/microhap.py:143-166 | Filtering individuals a second time changes nothing |
| Microhap.FilterLociSpec | colonyConverter/microhap.py:111-141 | Fails exactly on an odd column count; otherwise keeps the rows and their labels |
| Microhap.FilterLociSound | colonyConverter/microhap.py:122-141 | Every kept column passes the missing-share test over the rows; every failing column is gone |
| Microhap.FilterLociExact | colonyConverter/microhap.py:124-141 | With distinct column labels, a column is dropped exactly when its missing share is above the threshold |
| Microhap.FilterLociRepeat | colonyConverter/microhap.py:111-141 | While the kept columns are even in number, filtering loci again changes nothing |
| Microhap.FilterLociSplitsLocus | colonyConverter/microhap.py:131-141 | The filter drops single allele columns: an all-missing `_1` beside a complete `_2` leaves the `_2` alone, and a second pass stops on the odd count |
| Microhap.PairNamesMembers | colonyConverter/microhap.py:66-68 | The names built are exactly the `_1` and `_2` columns of the listed loci |
| Microhap.MonoLociSpec | colonyConverter/microhap.py:89-96 | A locus is monomorphic exactly when the columns name it and its two columns hold one distinct non-missing haplotype |
| Microhap.FilterMonoSpec | colonyConverter/microhap.py:87-107 | When the dictionary can be built, the filter leaves a well-formed table with the same samples |
| Microhap.FilterMonoExact | colonyConverter/microhap.py:87-107 | The monomorphic filter removes exactly the allele columns of the monomorphic loci |
| Microhap.RemoveLociSpec | colonyConverter/microhap.py:59-74 | Removing loci keeps every sample and only removes columns: no `_1` or `_2` column of a listed locus is left |
| Microhap.RemoveLociSpecExact | colonyConverter/microhap.py:59-74 | Removing blacklisted loci drops exactly their `_1` and `_2` columns; names with no columns change nothing |
| Microhap.RunFiltersSpec | colonyConverter/microhap.py:76-85 | Individuals, then loci, then (with `mono`) monomorphic loci; the result is a well-formed table |
| Microhap.RunFiltersOrder | colonyConverter/microhap.py:76-85 | Rows are judged on the full column count before any column goes; every failing row is gone, and no column is added |
| Microhap.RunFiltersPass | colonyConverter/microhap.py:76-141 | Every column left after the whole pass still passes the locus test on the rows that are left |
| Microhap.SingleAlleleLoci | colonyConverter/microhap.py:94-96 | Lists exactly the loci whose dictionary entry has one haplotype |
| Microhap.Microhap.PopColumns | colonyConverter/microhap.py:31-35 | `df` becomes `df` without the listed columns that were present |
| Microhap.Microhap.FindBadColumn | colonyConverter/microhap.py:49-54 | Returns `FirstBadColumn`: none exactly when every column ends in `_1` or `_2`, otherwise the first column that does not |
| Microhap.Microhap.ParseFile | colonyConverter/microhap.py:25-57 | `df` and the roles become what `ParseSpec` gives, or the method fails with its error |
| Microhap.Microhap.PopLoci | colonyConverter/microhap.py:66-74 | `df` loses the `_1` and `_2` columns of the listed loci |
| Microhap.Microhap.RemoveLoci | colonyConverter/microhap.py:59-74 | `df` becomes `RemoveLociSpec` of the old `df` |
| Microhap.Microhap.FilterInds | colonyConverter/microhap.py:143-166 | `df` becomes `FilterIndsSpec` of the old `df`, or the method fails and `df` is unchanged |
| Microhap.Microhap.FilterLoci | colonyConverter/microhap.py:111-141 | `df` becomes `FilterLociSpec` of the old `df`, or the method fails and `df` is unchanged |
| Microhap.Microhap.FindMonoLoci | colonyConverter/microhap.py:88-96 | A fresh `LocusDict` yields the dictionary built for `df`; returns exactly its monomorphic loci, all of them named by the columns, or the dictionary's error |
| Microhap.Microhap.FilterMono | colonyConverter/microhap.py:87-109 | `df` becomes `FilterMonoSpec` of the old `df`, or the method fails and `df` is unchanged |
| Microhap.Microhap.RunFilters | colonyConverter/microhap.py:76-85 | `df` becomes `RunFiltersSpec` of the old `df`, or the method fails with its error |
| Colony.PrepValues | colonyConverter/colony.py:121-124 | With no loci the line is empty; otherwise it has `nloci` values and `nloci - 1` spaces |
| Colony.PrepValuesFields | colonyConverter/colony.py:121-124 | With no loci the line is empty; otherwise splitting it on spaces gives `nloci` copies of the value |
| Colony.FieldsOk | colonyConverter/colony.py:74-81 | A row's fields exist exactly when every cell has one; each field is its own cell's |
| Colony.FieldsFirstFailure | colonyConverter/colony.py:74-81 | A failing row fails with the error of its first cell that has no code |
| Colony.LinesOk | colonyConverter/colony.py:70-85 | The genotype lines exist exactly when every row has its line; there is one line per row, in row order |
| Colony.SampleLineShape | colonyConverter/colony.py:82-84 | A line is the sample name, a space, and the space-joined fields; with no columns it ends in a space |
| Colony.SampleLineOk | colonyConverter/colony.py:74-85 | A row's line exists exactly when every cell of the row has a field |
| Colony.ColonyOk | colonyConverter/colony.py:15-109 | The file exists exactly when every non-missing haplotype has a code under its column's locus |
| Colony.ColonyOutput | colonyConverter/colony.py:15-109 | A written file has 47 + rows lines and starts with the 26 header lines |
| Colony.ColonyLines | colonyConverter/colony.py:15-109 | 47 + rows lines: 26 header lines, one line per individual in row order, then the 21 trailer lines |
| Colony.HeaderFields | colonyConverter/colony.py:19-67 | The header gives the individual count, the locus count (half the columns), the seed, the locus names, and one marker type and two error rates per locus |
| Colony.SeedDigits | colonyConverter/colony.py:18 | A seed from 1000 to 9999 is written with four digits |
| Colony.MissingFieldZero | colonyConverter/colony.py:75-81 | With the table's own dictionary, a cell of an allele column is written `"0"` exactly when it is missing |
| Colony.FieldDecodes | colonyConverter/colony.py:75-79 | With the dictionary built from the table, every haplotype in an allele column gets a code; the code is not `"0"` and decodes back to the haplotype |
| Colony.ColonyOwnCodec | colonyConverter/colony.py:70-85 | With the dictionary built from a table of allele columns only, the file is always written |
| Colony.Colony.RowLine | colonyConverter/colony.py:71-84 | The inner loop returns the row's line or the first missing-code error |
| Colony.Colony.Convert | colonyConverter/colony.py:15-109 | Returns exactly `ColonyOutput` for the table, the dictionary and the seed |
| Delimited.CellTexts | fileConverter/ckmrsim.py:46-50 | One text per cell, in column order |
| Delimited.RowLines | fileConverter/csvf.py:23-35 | One line per row, in row order |
| Delimited.HeaderFields | fileConverter/csvf.py:15-19 | Split on the separator, the header gives `indiv` and then the column labels |
| Delimited.SampleLineFields | fileConverter/ckmrsim.py:41-56 | Split on the separator, a sample line gives the name and then one text per cell: `NA` for a missing cell, the haplotype otherwise |
| Delimited.EmptyRowLine | fileConverter/ckmrsim.py:52-54 | A row without cells is written as its name followed by one separator |
| Ckmr.OffspringFolded | fileConverter/ckmrsim.py:29 | `"offspring".casefold()` is `"offspring"` |
| Ckmr.OffspringAnyCase | fileConverter/ckmrsim.py:29 | An ASCII role is an offspring exactly when it spells "offspring" in any mix of cases |
| Ckmr.KindsUpTo | fileConverter/ckmrsim.py:28-29 | One kind per row read so far |
| Ckmr.KindsSpec | fileConverter/ckmrsim.py:28-34 | The kinds exist exactly when every sample has a role; each kind says whether that role case-folds to `offspring` |
| Ckmr.KindsFailExtends | fileConverter/ckmrsim.py:29 | A sample without a role fails the conversion, naming the first such sample |
| Ckmr.PositionsSpec | fileConverter/ckmrsim.py:28-34 | The positions of a kind are increasing and are exactly the rows of that kind |
| Ckmr.SelectSpec | fileConverter/ckmrsim.py:28-34 | Each block holds the lines of the rows of its kind, in row order |
| Ckmr.SelectPartition | fileConverter/ckmrsim.py:28-37 | Every row position is among the offspring positions or among the others, never both; the two blocks together hold one line per row |
| Ckmr.CkmrOutput | fileConverter/ckmrsim.py:12-39 | A written file has rows + 2 lines and starts with the header |
| Ckmr.CkmrOk | fileConverter/ckmrsim.py:12-39 | The output exists exactly when every sample has a role |
| Ckmr.CkmrLayout | fileConverter/ckmrsim.py:12-39 | rows + 2 lines: header, offspring lines in row order, header again, parent lines in row order |
| Ckmr.RowPlacement | fileConverter/ckmrsim.py:29-34 | An offspring row's line is in the offspring block; any other row's line is in the parent block |
| Ckmr.ConvertStep | fileConverter/ckmrsim.py:28-34 | One loop pass: a sample without a role fails the conversion; otherwise its line joins the list of its kind |
| Ckmr.CKMR.ParseInd | fileConverter/ckmrsim.py:41-56 | Returns the sample's line, with `NA` for each missing cell |
| Ckmr.CKMR.Convert | fileConverter/ckmrsim.py:12-39 | Returns exactly `CkmrOutput`: the offspring/parent partition under two headers, or the missing-role error |
| CsvFiltered.CsvOutput | fileConverter/csvf.py:12-37 | rows + 1 lines |
| CsvFiltered.CsvReadBack | fileConverter/csvf.py:12-37 | Split on commas, the header gives `indiv` and the labels, and each row line gives the sample name and then each cell (`NA` if missing) |
| CsvFiltered.CsvNoColumns | fileConverter/csvf.py:32-34 | With no columns, each row line is the name followed by a comma |
| CsvFiltered.CSVfiltered.Convert | fileConverter/csvf.py:12-37 | The nested loops return exactly `CsvOutput` of the table |
| SnpTables.Bump | colonyConverter/mhconvert.py:98 | `table[p][c] += v` through default dictionaries: only that entry grows by `v`, and it exists afterwards |
| SnpTables.AddHapGet | colonyConverter/mhconvert.py:95-99 | Adding a haplotype adds its frequency at each (position, character) pair it spells, and nowhere else |
| SnpTables.AddHapHas | colonyConverter/mhconvert.py:95-99 | Adding a haplotype creates exactly the entries it spells |
| SnpTables.TableOf | colonyConverter/mhconvert.py:92-99 | Every entry, read with the defaults, is the summed frequency of the haplotypes with that character at that position |
| SnpTables.TableEntries | colonyConverter/mhconvert.py:92-99 | There is an entry exactly for the (position, character) pairs that some haplotype spells |
| SnpTables.PositionSum | colonyConverter/mhconvert.py:94-99 | Summed over all characters, the counts at a position equal the total frequency of the haplotypes long enough to reach it |
| SnpTables.TableRowSum | colonyConverter/mhconvert.py:92-104 | A row of the table, summed over its characters, equals the total frequency of the haplotypes reaching that position |
| SnpTables.SameLengthTotal | colonyConverter/mhconvert.py:94-99 | With equal-length haplotypes, every position inside them sums to the locus's total frequency |
| SnpTables.TablesUpTo | colonyConverter/mhconvert.py:85-104 | The tables exist exactly when every locus has frequencies; there is one table per locus, and it is that locus's `TableOf` |
| SnpTables.TablesFailExtends | colonyConverter/mhconvert.py:94 | A locus without frequencies fails the whole step, naming the first such locus |
| MHconvert.FormatOf | colonyConverter/mhconvert.py:51-61 | A converter exists exactly for `colony` and `csv`; any other name fails, naming the format |
| MHconvert.PathJoin | colonyConverter/mhconvert.py:66-74 | `os.path.join` always ends with the name; an absolute name replaces the directory, a relative one follows it |
| MHconvert.BaseName | colonyConverter/mhconvert.py:69-73 | The new file name ends with the format's suffix |
| MHconvert.OutputName | colonyConverter/mhconvert.py:63-74 | The Colony output ends in `Colony2.Dat`; any other output ends with its suffix |
| MHconvert.BaseNameReplacesExtension | colonyConverter/mhconvert.py:69-73 | A name `stem.ext` becomes `stem.<suffix>`, with spaces made underscores |
| MHconvert.BaseNameWithoutDot | colonyConverter/mhconvert.py:70-73 | A name without a dot is replaced by the bare suffix |
| MHconvert.BaseNameNoSpace | colonyConverter/mhconvert.py:69 | The new name holds no space |
| MHconvert.ColonyAndCsvNamesDiffer | colonyConverter/mhconvert.py:63-74 | Whatever the input name and directory, the Colony file and the csv file get different names |
| MHconvert.AbsoluteInputEscapesDirectory | colonyConverter/mhconvert.py:69-74 | An absolute input name makes `os.path.join` drop the converted-files directory: the csv goes next to the input |
| MHconvert.AllConvertSnoc | colonyConverter/mhconvert.py:33-36 | One more tag converts together with the others exactly when it and the earlier ones convert |
| MHconvert.WrittenOk | colonyConverter/mhconvert.py:31-37 | The run succeeds exactly when every flagged format converts |
| MHconvert.WrittenFiles | colonyConverter/mhconvert.py:31-37 | A successful run writes one file per flagged format, in flag order, each under its name and holding that format's lines |
| MHconvert.UnknownFlagFails | colonyConverter/mhconvert.py:54-60 | A set flag without a converter stops the run, naming the format |
| MHconvert.WrittenFailExtends | colonyConverter/mhconvert.py:36 | Once a conversion fails, the run fails with that error |
| MHconvert.MHconvert.ConvCsv | colonyConverter/mhconvert.py:39-43 | Returns the csv lines of the table |
| MHconvert.MHconvert.ConvColony | colonyConverter/mhconvert.py:45-49 | Returns the Colony file of the table |
| MHconvert.MHconvert.ConvertTo | colonyConverter/mhconvert.py:51-61 | Returns the lines of the named format, or the error for an unknown name |
| MHconvert.MHconvert.Convert | colonyConverter/mhconvert.py:31-37 | The loop returns exactly `WrittenUpTo` over all flags |
| MHconvert.MHconvert.ConvSNP | colonyConverter/mhconvert.py:85-104 | The loops return exactly `TablesUpTo` for the loci named by the columns |
| MHconvert.MHconvert.LocusTable | colonyConverter/mhconvert.py:92-99 | The two inner loops return exactly the locus's `TableOf` |

## Left out

- Input and output are not modelled:
  - reading the csv, the blacklist and the frequency file;
  - writing files;
  - every `print`, including the dump of the tables at mhconvert.py:115-118.
  - The table as read, the blacklist as a list of names, and the frequency items are parameters.
- `random.randint` in `Colony.convert` is not modelled. The seed is a parameter of `Colony.Colony.Convert` and is required to lie in 1000..9999.
- `LocusDict.countAlleles`, `Microhap.getDict`, SNP selection, `comline.py` and `colonyPrep.py` are not part of this model.
- mhconvert.py:47 calls `Colony` with ten arguments, but colony.py:9 declares two. The model calls the two-argument constructor that colony.py defines.
- The `MHconvert` constructor runs `convSNP` itself. In the model, `MHconvert.MHconvert.ConvSNP` is a separate method. The model also leaves out the fields the modelled operations never read: `cDat`, `derr`, `gerr`, `pmale`, `pfemale`, `runname`, `inbreed`, `runlen` and `snpdf`.
- `int(val)` in convSNP is taken as an integer frequency; non-numeric strings are not modelled.
- pandas labels:
  - Columns and rows are removed by label, as pandas does, so rows or columns that share a label go together.
  - The "exactly" lemmas assume distinct labels.
  - The colony data (`cDat`) is a map from sample to role, so duplicate sample labels in it are not modelled.
- Missing-data shares are exact rationals (`real`), not floating point. A zero denominator (no rows or no columns) counts as a NaN share and removes nothing.
- `casefold` is modelled for:
  - ASCII capitals;
  - the characters whose full case fold is pure ASCII: `ſ`, the Kelvin sign, `ß`, `ẞ`, and the ligatures U+FB00–U+FB06.

  Other characters fold to themselves.
- `os.path.join` is modelled with its POSIX behaviour only.
- `Microhap.Microhap.FilterMono` iterates over the loci in column order rather than dictionary order. The set of columns removed is the same.
- Two places where the code does not do what its own comments and messages say; the model follows the code:
  - The comment at microhap.py:124 counts missing genotypes "per column (locus)", but `filterLoci` (microhap.py:131-141) drops single allele columns, not whole loci. `Microhap.FilterLociSplitsLocus` shows the consequence: the next pass of the filter stops on an odd column count.
  - The error message at microhap.py:151 speaks of the column count after the locus filter, but `runFilters` (microhap.py:76-85) runs the individual filter first, on the full column count. Running the whole filter pass a second time is therefore not a no-op in general, because the locus filter changes the column count the individual filter divides by. The model proves idempotence separately: for `Microhap.FilterIndsIdempotent`, and for `Microhap.FilterLociRepeat` while the kept columns stay even in number.
