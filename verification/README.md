# PM2.5 backfill, modelled in Dafny

`scripts/backfill_pm25.py` completes a per-county PM2.5 table:

1. It reads the existing table. It normalises each county FIPS key with `strip()` and `zfill(5)`.
2. It groups the measured values three ways: by key (the last value wins), by state (the first two characters of the key) and into one national list.
3. It writes one row for every distinct county key of the places file, in ascending order. The blank key `00000` is skipped. The key `00059` always gets the national mean. A measured county keeps its own value. Any other county gets its state's mean, or the national mean when its state has no measurements.
4. Every value is written rounded half-up to three decimals. The output overwrites the input file.

The model is a pure function, `Backfill.Run`. It takes the rows of the PM2.5 file, the county cells of the places file and a decimal parser. It returns the output rows, or one of the two errors the script raises while loading. The further failures that non-finite `Decimal` values cause are not modelled (see "Left out").

Modules, in dependency order:

- `Wrappers`: `Option` and `Result`.
- `Fips`: Python's `str.strip()` (with the full set of characters `str.isspace()` accepts), `str.zfill`, the key normalisation and `fips[:2]`.
- `LexOrder`: code-point order on strings, and `sorted(set(...))`.
- `Stats`: sum, minimum, maximum and mean of exact reals.
- `FixedPoint`: half-up rounding to thousandths, the `f` formatting of the result, and a reader for plain fixed-point numerals. Reading the printed text back gives exactly the rounded value, so the reader inverts the printing on multiples of 0.001.
- `Loaders`:
  - `parse_decimal`, the loop of `load_existing_pm`, and `load_county_fips`.
  - A reference description of what the loader keeps: the readings in file order. The lemmas prove that the tables hold exactly these readings.
- `Backfill`:
  - The means, the selection rule and the output loop of `main`.
  - `Imputed`, a reference definition of each key's value in terms of the readings. The lemmas connect it to the script's output.
  - The stability of a second run on the script's own output.

Decimal values are exact reals. `Decimal(raw)` is the parameter `parse: string -> Option<real>`, where `None` means `Decimal` raised. The Decimal string grammar is not modelled. Reading the script's own output back uses `FixedPoint.ParseFixed`. It accepts an optional `+` or `-` followed by `digits`, `digits.`, `.digits` or `digits.digits`, a superset of what `format_decimal` prints.

## Model

| member | source | states |
|---|---|---|
| Fips.Strip | scripts/backfill_pm25.py:35 | `strip()` leaves no whitespace at either end and never lengthens the cell |
| Fips.TrimStartDrops | scripts/backfill_pm25.py:35 | stripping the front keeps a suffix of the cell and drops only whitespace |
| Fips.TrimEndDrops | scripts/backfill_pm25.py:35 | stripping the end keeps a prefix and drops only whitespace |
| Fips.StripRemovesOnlyMargins | scripts/backfill_pm25.py:35 | the stripped cell is an infix of the raw cell between two all-whitespace margins |
| Fips.ZFill | scripts/backfill_pm25.py:35 | `zfill(w)` yields exactly `max(len, w)` characters |
| Fips.ZFillShape | scripts/backfill_pm25.py:35 | a string of at least `w` characters is unchanged; otherwise zeros go in front, or right after a leading sign, and the rest of the string follows unchanged |
| Fips.NormalizeFips | scripts/backfill_pm25.py:35-37 | a key has at least five characters, so the `if not fips` guard never skips a row |
| Fips.StateOf | scripts/backfill_pm25.py:43 | `fips[:2]` is the prefix of length `min(len, 2)` |
| Fips.BlankCellIsZeroKey | scripts/backfill_pm25.py:35 | a missing, empty or all-whitespace cell becomes the key `00000` |
| Fips.NormalizeIdempotent | scripts/backfill_pm25.py:58 | normalising a key again gives the same key, so the script's own keys read back unchanged |
| Loaders.ParseDecimal | scripts/backfill_pm25.py:16-20 | succeeds exactly when `Decimal` parses the text; on failure it raises the invalid-value error that carries the raw text |
| Loaders.AddRow | scripts/backfill_pm25.py:35-45 | an absent or `''` value leaves all three tables unchanged; a value that does not parse raises instead of being skipped; a parsed value is recorded under the normalised key |
| Loaders.Record | scripts/backfill_pm25.py:42-45 | recording a value never creates an empty state bucket |
| Loaders.LoadRows | scripts/backfill_pm25.py:34-45 | every state bucket the loop creates holds at least one value |
| Loaders.LoadExistingPm | scripts/backfill_pm25.py:47-50 | on success the national list is non-empty and every state bucket is non-empty |
| Loaders.RecordTabulates | scripts/backfill_pm25.py:42-45 | recording a reading keeps the tables equal to the reference description of the readings so far |
| Loaders.LoadRowsTabulates | scripts/backfill_pm25.py:34-45 | when every value parses, the loop succeeds; the national list is all values in file order, a key's entry is its last value, and a state's bucket is its readings' values in order |
| Loaders.LoadRowsFailure | scripts/backfill_pm25.py:38-41 | the loop fails exactly when some filled-in value does not parse, and then with the error for the first such row |
| Loaders.LoadExistingPmOutcome | scripts/backfill_pm25.py:47-50 | success exactly when every value parses and at least one row has a value; an invalid value is reported before the emptiness check; no values gives the "No PM2.5 values" error; on success the tables hold exactly the readings |
| Loaders.LatestIsLastOccurrence | scripts/backfill_pm25.py:42 | the lookup for a repeated key holds the value of its last row |
| Loaders.LatestDefined | scripts/backfill_pm25.py:42 | a key is in the lookup exactly when some reading carries it |
| Loaders.InState | scripts/backfill_pm25.py:43-44 | a state's bucket holds only readings whose key has that state prefix |
| Loaders.InStateCounts | scripts/backfill_pm25.py:43-45 | each reading occurs in its own state's bucket as often as it was read, and in no other bucket |
| Loaders.InStateValuesAreValues | scripts/backfill_pm25.py:44-45 | every value in a state's bucket is also in the national list |
| Loaders.LoadCountyFips | scripts/backfill_pm25.py:53-62 | one normalised key per places row, in order; no row is skipped |
| LexOrder.BelowTransitive | scripts/backfill_pm25.py:67 | the code-point order on strings that `sorted` uses is transitive |
| LexOrder.BelowTotal | scripts/backfill_pm25.py:67 | of two distinct strings, one is below the other |
| LexOrder.Insert | scripts/backfill_pm25.py:67 | inserting into a strictly ascending list keeps it strictly ascending, and adds exactly the new element |
| LexOrder.SortedSet | scripts/backfill_pm25.py:67 | `sorted(set(xs))` is strictly ascending and holds exactly the elements of `xs` |
| LexOrder.AscendingUnique | scripts/backfill_pm25.py:67 | two strictly ascending lists with the same elements are equal, so `sorted(set(xs))` is determined by the set |
| Stats.Sum | scripts/backfill_pm25.py:69 | `sum(values, start=Decimal('0'))`, added left to right; its bounds are stated by `Stats.SumBounds` |
| Stats.SumBounds | scripts/backfill_pm25.py:69 | if every value lies in `[lo, hi]`, the sum lies between `n*lo` and `n*hi` |
| Stats.Mean | scripts/backfill_pm25.py:69 | `sum / len` lies between the smallest and the largest value |
| Stats.MeanWithin | scripts/backfill_pm25.py:72 | the mean respects every bound that all values respect |
| Stats.MeanOfConstant | scripts/backfill_pm25.py:69 | the mean of equal values is that value |
| Backfill.StateMeans | scripts/backfill_pm25.py:70-72 | one mean per state bucket, no other keys, each between the bucket's minimum and maximum |
| Backfill.Without | scripts/backfill_pm25.py:76-77 | skipping `00000` keeps every other key, in order, and keeps the list ascending |
| Backfill.EmitRows | scripts/backfill_pm25.py:74-85 | the written keys are the sorted keys minus `00000`; each row's value is the formatted choice for its key |
| Backfill.ChooseIsImputed | scripts/backfill_pm25.py:78-84 | given the loaded tables, the value chosen by priority equals the reference value: the national mean for `00059`, else the last measured value, else the state mean, else the national mean |
| Backfill.ImputedBounds | scripts/backfill_pm25.py:79-84 | every written value lies between the smallest and largest measured value; a state imputation lies within that state's values |
| Backfill.LatestIsAValue | scripts/backfill_pm25.py:80-81 | a measured county's value is one of the national values |
| Backfill.Run | scripts/backfill_pm25.py:65-85 | fails exactly when loading fails, with the loader's error; on success the written keys are strictly ascending and never `00000` (full description in `Backfill.RunOutcome` and `Backfill.RunRows`) |
| Backfill.Choose | scripts/backfill_pm25.py:78-84 | the chosen value is the national mean, a measured value or a state mean (the priority itself is stated by `Backfill.ChooseIsImputed`) |
| Backfill.RunOutcome | scripts/backfill_pm25.py:66 | the run fails exactly when loading fails: with the first invalid value, or with no values at all |
| Backfill.RunRows | scripts/backfill_pm25.py:65-85 | on success, the rows are the distinct normalised keys of the places file except `00000`, strictly ascending, and no other keys; each value is the reference value, rounded and formatted |
| Backfill.RunValuesClose | scripts/backfill_pm25.py:85 | every written value reads back within 0.0005 of the reference value |
| Backfill.ReadingsOfValuedRows | scripts/backfill_pm25.py:38-45 | when every row has a value, the readings are the rows' readings one for one |
| Backfill.OwnOutputReadings | scripts/backfill_pm25.py:85-90 | the written file, read back, gives one reading per row: the written key and the quantized reference value |
| Backfill.NonNegativeReadings | scripts/backfill_pm25.py:79-84 | non-negative measurements give non-negative written values |
| Backfill.RereadValue | scripts/backfill_pm25.py:80-81 | on the second run a county key is measured, with the value the first run wrote |
| Backfill.RerunKeepsCountyValues | scripts/backfill_pm25.py:11 | running again on the overwritten file writes the same keys and the same value for every key except `00059`; the second run fails only if the first wrote nothing |
| FixedPoint.RoundHalfUp | scripts/backfill_pm25.py:24 | ROUND_HALF_UP to thousandths: the nearest count of thousandths, a tie going away from zero, with the sign of the value |
| FixedPoint.Quantize | scripts/backfill_pm25.py:24 | the quantized value is within 0.0005 of the input |
| FixedPoint.RoundHalfUpExact | scripts/backfill_pm25.py:24 | a whole number of thousandths rounds to itself |
| FixedPoint.QuantizeIdempotent | scripts/backfill_pm25.py:24 | re-rounding a quantized value leaves it unchanged |
| FixedPoint.NatToDigits | scripts/backfill_pm25.py:24 | integer digits without a leading zero that denote the number |
| FixedPoint.Pad3 | scripts/backfill_pm25.py:24 | exactly three digits that denote the thousandths |
| FixedPoint.Format | scripts/backfill_pm25.py:23-24 | at least five characters ending in a point and three digits, with a leading `-` exactly for negative values |
| FixedPoint.FormatShape | scripts/backfill_pm25.py:23-24 | the whole printed text: an optional `-` (exactly for negative values), integer digits without a leading zero, a point and three digits, together denoting the rounded magnitude in thousandths |
| FixedPoint.ParseFixed | scripts/backfill_pm25.py:18 | `Decimal(...)` on plain signed fixed-point numerals; its properties are stated by `FixedPoint.ParseThousandths` and `FixedPoint.FormatThenParse` |
| FixedPoint.ParseThousandths | scripts/backfill_pm25.py:18 | the printed digits read back as the count of thousandths divided by 1000 |
| FixedPoint.FormatThenParse | scripts/backfill_pm25.py:23-24 | the formatted text reads back as exactly the quantized value |
| FixedPoint.FormatQuantized | scripts/backfill_pm25.py:24 | formatting the quantized value prints the same text, except for a negative value that rounds to zero |

## Left out

- CSV reading and writing, path resolution and the in-place overwrite (lines 8-11, 32-33, 55-56, 87-90). The model takes the files' rows as sequences and returns the rows to be written. A missing column is a `None` cell.
- The grammar of `Decimal(...)` (exponents, surrounding whitespace, underscores). Parsing is the parameter `parse`. `FixedPoint.ParseFixed` covers only plain signed fixed-point numerals. It is used for the re-run lemmas.
- Non-finite values. `parse` yields only finite values, but `Decimal(...)` also accepts `NaN`, `sNaN` and `Infinity`. In the script a quiet `NaN` passes through the sums, the means and `quantize`, and `NaN` is written. An infinite value makes `quantize` (line 24) raise `InvalidOperation` once it has to be written. An `sNaN` makes `sum` (line 69) raise `InvalidOperation`. None of these paths is modelled.
- Decimal's 28-significant-digit context. The sums and means are exact. When the quantized result would need more than 28 digits, `quantize` raises `InvalidOperation`; the model always rounds.
- Signed zero. For a parsed `-0` or an exact negative zero, Python prints `-0.000`; the model prints `0.000`. `Format` does print `-0.000` for a negative value that rounds to zero, as Decimal does.
- Backfill.RerunKeepsCountyValues: requires non-negative measurements, because the model has no signed zero. A negative value above -0.0005 is printed as `-0.000`; in the model it reads back as zero and is printed as `0.000` on the next run, while Python reads back `-0` and prints `-0.000` again.
- Backfill.RereadValue: requires non-negative readings, which the script does not need, for the same signed-zero reason.
- FixedPoint.FormatQuantized: excludes values in (-0.0005, 0). There Python prints `-0.000` both times, because Decimal's quantize keeps the sign, but the model's quantized value is the real zero, which prints as `0.000`.
- Backfill.RerunKeepsCountyValues: says nothing about the value of `00059`. On the second run the national mean is taken over the written rows, imputed ones included, so in general it changes.
- Python's `str.isspace` is modelled by the 29 code points it accepts: the ASCII whitespace and separators 0x1C-0x1F, U+0085, U+00A0, U+1680, U+2000-U+200A, U+2028, U+2029, U+202F, U+205F and U+3000.
- The `if __name__ == '__main__'` entry (lines 93-94).
