# Differential gene expression: a verified model of the core

This project models in Dafny the three computational pieces of a small
plant-gene-expression pipeline, and proves properties of them.

- **GFF3 → (Gene_ID, Function) records** (`gff3_to_csv`). The lines of a GFF3
  annotation file become one record per `gene` feature, and the first
  `subset_size` records are kept. The line loop and the attribute-dictionary
  loop are Dafny methods with loop invariants (`gff3.dfy`). The Python string
  operations they use (`str.strip()`, `str.split(sep)`, `str.split("=", 1)`)
  are modelled exactly in `text.dfy`.
- **Differential expression** (`compute_differential_expression`). The
  `Function` column is set aside. Then one result row is computed per gene of
  the frame's index: the log2 fold change of the two group means and Welch's
  p-value, each rounded. The stored Functions are merged back by Gene_ID
  (`analyzer.dfy`, over the frames of `tables.dfy`). The loop is a method that
  stops at the first gene whose computation raises, as Python does.
- **Plot data preparation** (`plot_volcano`, `plot_heatmap`). This covers:
  - the Significant / Not Significant labelling, written as "fill the column,
    then overwrite the masked cells";
  - the top-N Gene_IDs by p-value;
  - the `isin` selection of expression rows (`plotter.dfy`).

Modelling choices:

- **NaN.** A NaN is `None` in an `Option<real>`. A NaN compares false, so it is
  never significant. `sort_values` puts it last.
- **Floating point.** `np.log2` (NaN-valued outside its domain), Python's `round(x, d)` and the p-value of
  `scipy.stats.ttest_ind(..., equal_var=False)` are uninterpreted functions,
  the fields of a `Numerics` value. Properties that need something of them
  (for example that `round` is odd) take it as an explicit hypothesis.
- **Exceptions.** An exception is a `Result` error:
  - `KeyError` for labels missing from `.loc`;
  - `TypeError` for a non-numeric cell reaching `np.mean`;
  - `KeyError(["Gene_ID"])` for the merge of an empty result frame. A frame
    built from no rows has no `Gene_ID` column.
- **Frames are values.** `drop` yields a new value, so the caller's frame
  cannot change.
- **`head(n)`.** For a negative `n`, pandas keeps all rows but the last `|n|`.
  `Seqs.Head` models this.

What the code does at its edges, as modelled:

- **Tie order.** The top-N sort is pandas' default quicksort, which is not
  stable. The model proves nothing about the order of equal p-values.
- **Empty groups.** The code does not reject an empty control or stress list.
  The mean of no values is NaN, so the fold change is NaN.
- **Negative means.** A group mean below -1 makes `np.log2(mean + 1)` NaN, so
  the fold change is NaN and the gene is never significant. In the model,
  `log2` returns `None` for NaN.
- **Empty table.** The code does not reject an empty table. Without a
  `Function` column it gives an empty result; with one it raises `KeyError` at
  the merge.
- **Heatmap `Function` column.** The heatmap selection does not drop a
  `Function` column. The selection is modelled on whole rows.
- **Defaults.** `subset_size` defaults to 500 and `top_n` to 10
  (`Gff3.DefaultSubsetSize`, `Plotter.DefaultTopN`). The operations take
  both as parameters.

## Model

| member | source | states |
|---|---|---|
| Gff3.Gff3ToCsv | plant_gene_expression_analyzer/maize_annotations/gff3_to_csv.py:13-41 | the records are the first `subset_size` of the line-by-line gene records (pandas `head`, negative sizes included); never more records than lines |
| Gff3.ParseAttributes | plant_gene_expression_analyzer/maize_annotations/gff3_to_csv.py:26-30 | the loop builds the same dictionary as inserting the `;`-pieces in order |
| Gff3.GeneRecordsAppend | plant_gene_expression_analyzer/maize_annotations/gff3_to_csv.py:15-35 | records follow line order: the records of two concatenated chunks are those of the first followed by those of the second |
| Gff3.GeneRecordsLength | plant_gene_expression_analyzer/maize_annotations/gff3_to_csv.py:15-35 | never more records than input lines |
| Gff3.GeneRecordsMember | plant_gene_expression_analyzer/maize_annotations/gff3_to_csv.py:15-35 | a record is output iff some line yields it |
| Gff3.GeneRecordsFromGeneLines | plant_gene_expression_analyzer/maize_annotations/gff3_to_csv.py:16-35 | a record is output iff some line is not a comment, has at least 9 stripped tab fields with field 3 exactly `gene`, and its field 9 gives that record |
| Gff3.LineRecordOfGeneLine | plant_gene_expression_analyzer/maize_annotations/gff3_to_csv.py:16-35 | a single line yields a record iff it is a gene line, and the record is the one its attributes give |
| Gff3.CommentLineSkipped | plant_gene_expression_analyzer/maize_annotations/gff3_to_csv.py:16-17 | inserting a `#` line anywhere leaves the records unchanged |
| Gff3.ShortLineSkipped | plant_gene_expression_analyzer/maize_annotations/gff3_to_csv.py:18-20 | a line with fewer than 8 tabs after stripping has fewer than 9 fields, and inserting it anywhere leaves the records unchanged |
| Gff3.OtherFeatureSkipped | plant_gene_expression_analyzer/maize_annotations/gff3_to_csv.py:21-25 | a line whose type field is not exactly `gene` leaves the records unchanged |
| Gff3.GeneLineRecord | plant_gene_expression_analyzer/maize_annotations/gff3_to_csv.py:18-35 | nine or more tab-free fields with `gene` third, followed by any line terminator, yield exactly the record of field 9 |
| Gff3.StripTrailingSpace | plant_gene_expression_analyzer/maize_annotations/gff3_to_csv.py:18 | stripping a clean text followed by whitespace gives the text back |
| Gff3.AttrMapDomain | plant_gene_expression_analyzer/maize_annotations/gff3_to_csv.py:27-30 | a key is in the dictionary iff some piece has `=` and that key before its first `=` |
| Gff3.AttrMapLastWins | plant_gene_expression_analyzer/maize_annotations/gff3_to_csv.py:30 | a repeated key maps to its last occurrence's value |
| Gff3.AttrMapIgnoresBarePieces | plant_gene_expression_analyzer/maize_annotations/gff3_to_csv.py:28 | pieces without `=` can be removed without changing the dictionary |
| Gff3.LookupAbsent | plant_gene_expression_analyzer/maize_annotations/gff3_to_csv.py:32-33 | `get(key, "Unknown")` is `Unknown` when no piece carries the key |
| Gff3.LookupLast | plant_gene_expression_analyzer/maize_annotations/gff3_to_csv.py:27-33 | `get(key, "Unknown")` is the value of the last `key=value` piece, even when the value contains `=` |
| Gff3.GeneIdAbsent | plant_gene_expression_analyzer/maize_annotations/gff3_to_csv.py:32 | Gene_ID is `Unknown` without an `ID` piece |
| Gff3.GeneIdLastPiece | plant_gene_expression_analyzer/maize_annotations/gff3_to_csv.py:32 | Gene_ID is the value of the last `ID=` piece |
| Gff3.FunctionAbsent | plant_gene_expression_analyzer/maize_annotations/gff3_to_csv.py:33 | Function is `Unknown` without a `description` piece |
| Gff3.FunctionLastPiece | plant_gene_expression_analyzer/maize_annotations/gff3_to_csv.py:33 | Function is the value of the last `description=` piece |
| Seqs.Head | plant_gene_expression_analyzer/maize_annotations/gff3_to_csv.py:41 | `head(n)` is a prefix of length `min(n, rows)` for `n >= 0`, and all but the last `-n` rows for `n < 0` |
| Text.Strip | plant_gene_expression_analyzer/maize_annotations/gff3_to_csv.py:18 | `strip()` removes only whitespace, and only at the ends, and leaves no whitespace at either end |
| Text.StripClean | plant_gene_expression_analyzer/maize_annotations/gff3_to_csv.py:18 | a text with no whitespace at either end is unchanged by `strip()` |
| Text.Split | plant_gene_expression_analyzer/maize_annotations/gff3_to_csv.py:18 | `split(sep)` gives at least one piece, no piece contains `sep`, and joining the pieces with `sep` gives the input back |
| Text.SplitJoin | plant_gene_expression_analyzer/maize_annotations/gff3_to_csv.py:18 | splitting a join of separator-free pieces gives the pieces back |
| Text.SplitCount | plant_gene_expression_analyzer/maize_annotations/gff3_to_csv.py:18-19 | the number of pieces is the number of separators plus one |
| Text.SplitAtFirst | plant_gene_expression_analyzer/maize_annotations/gff3_to_csv.py:28-29 | no result iff `=` is absent; otherwise key and value around the first `=`, the key free of `=` |
| Text.SplitAtFirstInverse | plant_gene_expression_analyzer/maize_annotations/gff3_to_csv.py:29 | `key + "=" + value` with `=` not in the key splits back into key and value, whatever the value holds |
| Plotter.LabelSignificance | src/plotter.py:15-20 | one label per row; rows, their order and their other columns unchanged; `Significant` iff p < 0.05 and \|log2FoldChange\| >= 1, so never for NaN |
| Plotter.MaskBoundaries | src/plotter.py:15-20 | p = 0.05 is never significant; \|fc\| = 1 with p < 0.05 is; a NaN p-value or fold change never is |
| Plotter.Insert | src/plotter.py:53 | inserting into a p-value-sorted sequence keeps it sorted (NaN last) and adds exactly that row |
| Plotter.SortByP | src/plotter.py:53 | `sort_values("p_value")` gives a permutation sorted ascending with NaN last |
| Plotter.SortedSplit | src/plotter.py:53 | no row after a cut of a sorted sequence has a smaller p-value than one before it |
| Plotter.TopGenesSelection | src/plotter.py:53 | the top-N list has `min(top_n, rows)` Gene_IDs; chosen and unchosen rows together are exactly the input rows; no unchosen p-value is smaller than a chosen one |
| Plotter.NanChosenLast | src/plotter.py:53 | NaN p-values are chosen only after every numeric one, and every chosen number is at most every unchosen number |
| Plotter.FilterIsIn | src/plotter.py:56 | a row is selected iff it is an expression row whose Gene_ID is in the list; never more rows than the table |
| Plotter.FilterAppend | src/plotter.py:56 | the selection keeps the expression table's row order |
| Plotter.FilterIgnoresListOrder | src/plotter.py:53-56 | only which Gene_IDs are listed matters, not their p-value order |
| Plotter.FilterKeepsDistinct | src/plotter.py:56 | unique Gene_IDs stay unique after selection |
| Plotter.HeatmapAtMostTopN | src/plotter.py:53-56 | with unique Gene_IDs in the expression table, the heatmap has at most `top_n` rows |
| Analyzer.ComputeDifferentialExpression | src/analyzer.py:16-53 | succeeds iff every gene computes and not (Function present and no genes); one row per gene in index order with that gene's ID, its computed values and, when present, its own Function; otherwise the exception of the first failing gene, or `KeyError(Gene_ID)` |
| Analyzer.ComputeRows | src/analyzer.py:29-45 | the loop's outcome is the genes' computations collected in index order, stopping at the first exception |
| Analyzer.RowsSpec | src/analyzer.py:29-45 | the collected rows exist iff no gene raises; then one row per gene, each that gene's own; else the exception of the first gene that raises |
| Analyzer.Missing | src/analyzer.py:30-31 | the reported labels are exactly the requested labels that are not columns |
| Analyzer.Loc | src/analyzer.py:30-31 | `.loc[gene, cols]` succeeds iff every label is a column, giving the row's cells in request order; otherwise `KeyError` with the missing labels |
| Analyzer.Numbers | src/analyzer.py:34-35 | the cells' numbers iff every cell is numeric, otherwise a `TypeError` for the gene |
| Analyzer.Mean | src/analyzer.py:34-35 | NaN iff there are no values; otherwise mean × count = sum |
| Analyzer.GroupValuesSpec | src/analyzer.py:30-35 | the values exist iff every requested cell is a number; they are the row's numbers per group; otherwise control `KeyError`, then stress `KeyError`, then `TypeError` |
| Analyzer.GeneResultValues | src/analyzer.py:30-45 | a gene's row has its ID, the rounded fold change of the two group means (NaN when a mean or either logarithm is NaN), and the rounded p-value of the test called with (stress, control) |
| Analyzer.GeneResultErrors | src/analyzer.py:30-35 | a gene computes iff its requested cells are all numbers; otherwise which exception is raised |
| Analyzer.MeanConstant | src/analyzer.py:34-35 | the mean of replicates that all equal c is c |
| Analyzer.FoldChangeAlgebra | src/analyzer.py:36 | equal means give fold change 0 when their logarithm is defined; swapping the groups negates it; a NaN logarithm of one mean makes the fold change NaN either way round |
| Analyzer.SwapGroupsNegates | src/analyzer.py:36-43 | swapping the control and stress columns negates the stored fold change, given that `round` is odd |
| Analyzer.EqualReplicatesGiveZero | src/analyzer.py:34-43 | equal replicate values c in both groups store fold change 0, or NaN when `log2(c + 1)` is NaN |
| Analyzer.NegativeMeanGivesNaN | src/analyzer.py:34-43 | a group mean below -1 stores a NaN fold change, given that `log2` is NaN on negative numbers |
| Analyzer.FunctionNotComputed | src/analyzer.py:24-27 | the Function cells never affect the frame the loop runs over; requesting `Function` as a group column raises `KeyError` |
| Analyzer.WithoutFunction | src/analyzer.py:24-27 | the loop's frame is well formed, has the same index, and has no `Function` column |
| Analyzer.AttachFunctions | src/analyzer.py:49-51 | merging back keeps the row count and the order, and attaches each gene's own Function |
| Analyzer.MergeByIndex | src/analyzer.py:51 | an inner merge on a unique index attaches to each row its Gene_ID's value, keeping count and order |
| Tables.Drop | src/analyzer.py:27 | `drop(columns=[name])`: same index, exactly the other columns, each with unchanged contents |
| Tables.DropForgetsColumn | src/analyzer.py:24-27 | frames differing only in the dropped column are equal after the drop |

## Left out

- File I/O and output are not modelled: `open`, `read_csv`, `to_csv`, `print`, every matplotlib/seaborn call and `savefig`. The GFF3 reader takes a sequence of lines; the plot functions take in-memory rows.
- `load_expression_data` (src/analyzer.py:7-14) and the orchestration scripts (`main.py`, `plant_gene_expression_analyzer/main.py`) are not part of this model. They are fixed paths and I/O.
- `-np.log10(p_value)` (src/plotter.py:12) and the per-row z-score (src/plotter.py:59) are not modelled: floating-point arithmetic for rendering only.
- Floating point in general is not modelled. `log2`, `round` and the Welch p-value are uninterpreted, so no bound such as p in [0, 1] is stated.
- Analyzer.GeneResultValues: infinities are not represented. A group mean of exactly -1 gives `log2(0) = -inf` and an infinite fold change in the code; the model's `log2` gives a number or NaN there.
- Analyzer.NegativeMeanGivesNaN: assumes `log2` is NaN on negative numbers, as `np.log2` is; the uninterpreted function does not imply it.
- Analyzer.SwapGroupsNegates: assumes `round(-x, 3) == -round(x, 3)`, true of Python's round-half-to-even `round` but not derivable from an uninterpreted function.
- Analyzer.EqualReplicatesGiveZero: assumes `round(0.0, 3) == 0.0`, for the same reason.
- Analyzer.ComputeDifferentialExpression: requires unique Gene_IDs. With a repeated label, `.loc` returns a 2-D block and the merge multiplies rows; that behaviour is not modelled.
- Tables.WellFormed requires distinct column labels. pandas allows duplicates; then `.loc` and `drop` select several columns, which is not modelled.
- Missing (NaN) cells in the expression table are not modelled. A cell is a number or text; NaN appears only in results (means of no values, NaN p-values).
- The order of equal p-values after `sort_values` is not modelled. `Plotter.SortByP` is one possible outcome, and only order-independent facts about it are proved.
- Percent-escapes in GFF3 attributes are not decoded, and `##` directives get no special handling; the code does neither.
- The cross-dataset comparison aggregator has no code in any of the modelled files, so there is nothing to model.
