# chastibrowse — a verified model of the table layout and lock filtering

chastibrowse lists the public locks of chaster.app in a terminal table. This
project models its two pure parts in Dafny and proves properties of them.

- **The table layout engine** (`chastibrowse/format_table.py`):
  - `asciiify`, which drops every non-ASCII character;
  - `fixed_length`, which strips a cell, replaces each newline (`\n`) with a space, and then truncates it with `…` or pads it to an exact width (other line separators such as `\r` or U+2028 are kept);
  - `generate_border`, which builds the line of hyphens;
  - `split_spare_columns`, which divides the spare terminal columns among the table's columns in proportion to their weights, honouring per-column caps, and repeats a saturation loop until a fixed point;
  - `table`, which computes the column widths and renders the border, the rows and the border again.
- **The lock records** (`chastibrowse/chaster.py`):
  - the gender normalisation of `ChasterUser.from_json`, and `ChasterLock.from_json`;
  - `ChasterLock.invalid`, the multi-clause test that hides a lock;
  - `format_max_time`, which shows a time in days, hours or minutes;
  - `link`;
  - `to_list`, which projects a lock onto the configured columns.

The modules follow the program's structure:

- `SpareColumns`: `split_spare_columns`, as a recursive fixed point over the set of still-flexible columns. That set is a boolean mask over column positions, and the recursion decreases on its size.
- `FormatTable`: `asciiify`, `fixed_length`, `generate_border` and `table`.
- `Chaster`: the records and the methods of `ChasterUser` and `ChasterLock`.
- Supporting modules:
  - `Strings`: Python's `strip`, `replace`, `join`, `split`, `in`, `startswith` and `casefold` on `seq<char>`;
  - `Decimal`: `str(int)`, its inverse, and `round` to even;
  - `Sums`: sums of sequences;
  - `Wrappers`: `Option`.

Several things are parameters rather than computations:

- The terminal width, which the program reads from `os.get_terminal_size()`.
- The emoji remover `clean`, which wraps the `emoji` library. It is a function-valued parameter with no assumed properties.
- The seconds until a lock's limit date, which the program computes from the wall clock. It is an integer parameter of `LockFromJson`.

Dictionaries keyed by column name become sequences indexed by column position. A column is a `ColumnSpec`: its minimum width, its flexibility weight, and its cap on extra width, where 0 means no cap.

## Model

| member | source | states |
|---|---|---|
| `SpareColumns.Start` | chastibrowse/format_table.py:51-61 | The starting state: exactly the columns of non-zero weight are flexible; the denominator is the sum of all weights; the whole amount remains. |
| `SpareColumns.Step` | chastibrowse/format_table.py:66-78 | One pass of the loop. A column leaves the flexible set exactly when its floored share, computed with the pass's starting amount and denominator, reaches its non-zero cap. Each leaving column's cap is taken out of the remaining amount. A non-negative amount stays non-negative. An unchanged amount means nothing changed; otherwise the flexible set shrinks. |
| `SpareColumns.SaturatedWithinRemaining` | chastibrowse/format_table.py:66-78 | With a non-negative remaining amount, the caps of all columns saturating in one pass together fit within that amount. |
| `SpareColumns.Settle` | chastibrowse/format_table.py:64-78 | The loop terminates, and its final state is a fixed point: no flexible column saturates. Columns only ever leave the flexible set, and only columns with a real cap leave. The remaining amount is the starting amount less exactly the caps of the columns that left. Water filling (`RaisedTo`): while some column is still flexible at the end, the level (remaining amount per unit of flexible weight) never fell, and every column that left would still reach its cap with its floored share at the final level. |
| `SpareColumns.StepRaisesLevel` | chastibrowse/format_table.py:74-78 | A pass never lowers the level: taking out the saturated columns' caps and weights leaves at least as much per unit of weight for the columns that stay. |
| `SpareColumns.RaisedToStep` | chastibrowse/format_table.py:64-78 | Putting one more pass in front of a run of passes keeps the water-filling property. |
| `SpareColumns.SettleIdle` | chastibrowse/format_table.py:64-67 | A pass that leaves the amount unchanged leaves the state unchanged: no column saturates and none leaves. |
| `SpareColumns.SettleExtend` | chastibrowse/format_table.py:64-78 | One more loop pass in front keeps the loop's promises: columns only leave, the amount drops by exactly the caps of the columns that left, and the water level never falls. |
| `SpareColumns.SettleAtFixedPoint` | chastibrowse/format_table.py:64-67 | When no column saturates, the loop stops after one pass with nothing changed. |
| `SpareColumns.Settled` | chastibrowse/format_table.py:51-78 | The state the loop ends in for a call. No flexible column saturates. Every weighted column that left the distribution had a cap, and exactly those caps are deducted from the amount. While some column is still flexible, each column that left would still reach its cap at the final level. |
| `SpareColumns.Saturated` | chastibrowse/format_table.py:66-73 | `to_complete`: a column is in it exactly when it is flexible, has a non-zero cap, and its floored share at the pass's starting amount and denominator reaches the cap. |
| `SpareColumns.Extra` | chastibrowse/format_table.py:57-84 | One column's extra at the end. Where the column does not saturate, the extra never passes a cap, and a column still flexible stays strictly below any cap it has. |
| `SpareColumns.SplitSpare` | chastibrowse/format_table.py:40-85 | One extra width per column. A zero-weight column gets 0, and a column with a cap never gets more than that cap. |
| `SpareColumns.SplitSpareShares` | chastibrowse/format_table.py:64-85 | A column that left the distribution has a cap and gets exactly it. A column still flexible at the fixed point gets its floored share of what remains, strictly below any cap it has. |
| `SpareColumns.SplitSpareWaterFilling` | chastibrowse/format_table.py:64-85 | While some column is still flexible at the end, every weighted column gets the lesser of its cap and its floored share at the final level. A cap of zero counts as no cap. |
| `SpareColumns.SplitSpareWithinBudget` | chastibrowse/format_table.py:71-84 | For a non-negative amount, every extra is non-negative and all extras together never exceed the amount. The slack lost to flooring is left unassigned. |
| `SpareColumns.SplitSpareNegativeNotClamped` | chastibrowse/format_table.py:51-84 | A negative amount is not clamped. No column saturates, and every weighted column gets its negative floored share of the whole amount. |
| `SpareColumns.ExampleFirstPass` | chastibrowse/format_table.py:64-78 | 20 spare columns, weights 1, 1, 2 and the second column capped at 5: the first pass saturates exactly the capped column and leaves 15 over a denominator of 3. |
| `SpareColumns.SplitSpareExample` | chastibrowse/format_table.py:40-85 | For the same input the extras are 5, 5 and 10. |
| `SpareColumns.ExampleBelowCap` | chastibrowse/format_table.py:40-85 | 100 spare columns, weights 1 and 1, the first capped at 60: floor(100 / 2 · 1) = 50 stays below 60, so both columns get 50. |
| `FormatTable.Asciiify` | chastibrowse/format_table.py:11-13 | The result is pure ASCII and never longer than the input. An all-ASCII input comes back unchanged. |
| `FormatTable.AsciiifyAppend` | chastibrowse/format_table.py:11-13 | Sanitising a concatenation sanitises each part. Together with `AsciiifyOne`, this shows the ASCII characters are kept in their original order. |
| `FormatTable.AsciiifyOne` | chastibrowse/format_table.py:11-13 | A single character is kept exactly when it is ASCII. |
| `FormatTable.AsciiifyCounts` | chastibrowse/format_table.py:11-13 | Every ASCII character keeps its number of occurrences; every other character disappears. |
| `FormatTable.AsciiifyIdempotent` | chastibrowse/format_table.py:11-13 | Sanitising twice is sanitising once. |
| `FormatTable.Cleaned` | chastibrowse/format_table.py:23-24 | The text `fixed_length` measures holds no newline (`\n`) and has no whitespace at either end. |
| `FormatTable.SliceTo` | chastibrowse/format_table.py:28 | Python's `t[:k]` is a prefix of `t`: the first `k` characters, or all but the last `-k` for negative `k`, never more than there are. |
| `FormatTable.Truncated` | chastibrowse/format_table.py:27-28 | The cut-off cell ends in the ellipsis, which follows a prefix of the cleaned text. When the text is longer than a positive width, the cell has exactly that width. |
| `FormatTable.Padded` | chastibrowse/format_table.py:29 | A shorter text is left-aligned: the text, then spaces up to exactly the width. |
| `FormatTable.FixedLength` | chastibrowse/format_table.py:21-29 | The result never holds a newline (`\n`); other line separators in the cell are kept. For a width of at least one it has exactly that width. It starts with as much of the cleaned text as fits. A cell that fits is followed only by spaces; a longer one ends in the ellipsis. |
| `FormatTable.FixedLengthNonPositive` | chastibrowse/format_table.py:25-28 | At a width of zero or less a cell is not cut to the width. The negative slice keeps all but the last characters of the cleaned text, as its prefix, and the ellipsis follows. The result is longer than the width. The one exception is an empty cell at width zero, which matches the width and stays empty; at a negative width an empty cell becomes `…`. |
| `FormatTable.FixedLengthIdempotent` | chastibrowse/format_table.py:21-29 | Fitting a fitted cell again to the same width changes nothing. |
| `FormatTable.FixedLengthStripsBack` | chastibrowse/format_table.py:23-29 | Padding is undone by stripping: a cell that fits strips back to its cleaned text. |
| `FormatTable.FixedLengthChars` | chastibrowse/format_table.py:21-29 | A fitted cell holds only characters of the input, spaces and the ellipsis. |
| `FormatTable.CleanedChars` | chastibrowse/format_table.py:23-24 | Stripping and replacing newlines (`\n`) adds no character except the space. |
| `FormatTable.TruncatedChars` | chastibrowse/format_table.py:28 | A cut-off cell holds only characters of the cleaned text and the ellipsis. |
| `FormatTable.PaddedChars` | chastibrowse/format_table.py:29 | A padded cell holds only characters of the cleaned text and spaces. |
| `FormatTable.GenerateBorder` | chastibrowse/format_table.py:32-37 | The border holds only hyphens and spaces. For non-negative widths its length is the sum of the widths plus two per column. |
| `FormatTable.GenerateBorderAppend` | chastibrowse/format_table.py:32-37 | The border of concatenated width lists is the two borders side by side. |
| `FormatTable.GenerateBorderOne` | chastibrowse/format_table.py:35-36 | One column contributes its width in hyphens followed by two spaces. |
| `FormatTable.Sanitize` | chastibrowse/format_table.py:118-123 | ASCII enforcement wins: with it on, a cell is sanitised to pure ASCII whatever the emoji setting. With only emoji removal on, the cell is what the emoji remover returns. With both options off, cells are untouched. |
| `FormatTable.SanitizeRow` | chastibrowse/format_table.py:118-123 | A row keeps its number of cells, and each cell is sanitised on its own. |
| `FormatTable.SpareWidth` | chastibrowse/format_table.py:101-106 | `spare_cols` is non-negative exactly when the minimum widths, two columns per gap and the three-column buffer fit within the terminal. |
| `FormatTable.Widths` | chastibrowse/format_table.py:101-115 | One width per column. A locked column stays at its minimum. A capped column never exceeds its minimum plus its cap. |
| `FormatTable.AddExtras` | chastibrowse/format_table.py:112-115 | Each column's width exceeds its minimum by exactly its extra. |
| `FormatTable.WidthsFitTerminal` | chastibrowse/format_table.py:101-115 | When there is spare width, every column gets at least its minimum. The columns with their two-space gaps and the three-column buffer fit within the terminal. |
| `FormatTable.RenderRow` | chastibrowse/format_table.py:124-132 | A rendered row holds no newline (`\n`). |
| `FormatTable.RenderRowLength` | chastibrowse/format_table.py:124-132 | A full row with positive widths is exactly the sum of the widths plus two per gap. |
| `FormatTable.RenderRows` | chastibrowse/format_table.py:124-132 | One rendered line per data row, none holding a newline. |
| `FormatTable.BorderOneLine` | chastibrowse/format_table.py:117 | The border holds no newline. |
| `FormatTable.Framed` | chastibrowse/format_table.py:117-133 | The body lines sit between two copies of the border line. When none of them holds a newline, no framed line does. |
| `FormatTable.TableLines` | chastibrowse/format_table.py:117-133 | The lines are the border, one rendered line per row, and the identical border. None holds a newline. |
| `FormatTable.Table` | chastibrowse/format_table.py:88-134 | Split at its newlines, the output gives back exactly the border, one line per data row of fitted sanitised cells, and the same border. |
| `FormatTable.AsciiPreemptsEmojiRemoval` | chastibrowse/format_table.py:118-123 | With ASCII enforcement on, neither the emoji setting nor the emoji remover makes any difference to the table. |
| `FormatTable.AsciiRow` | chastibrowse/format_table.py:118-132 | With ASCII enforcement on, a rendered row holds only ASCII and the ellipsis. |
| `FormatTable.AsciiTableOutput` | chastibrowse/format_table.py:117-134 | With ASCII enforcement on, the whole table holds only ASCII and the ellipsis of cut-off cells. |
| `FormatTable.TableRowsFitTerminal` | chastibrowse/format_table.py:101-134 | With spare width and positive minimums, every full row line is exactly as wide as the columns and their gaps, at least three short of the terminal width. The border line is two characters wider. |
| `Strings.Strip` | chastibrowse/format_table.py:23 | Strip removes exactly the leading and trailing whitespace: the result is a contiguous slice with no whitespace at either end. |
| `Strings.StripPadded` | chastibrowse/format_table.py:29 | Stripping undoes padding with spaces. |
| `Strings.StripSurrounded` | chastibrowse/chaster.py:60 | `strip()` removes exactly the whitespace on both sides of a text that neither starts nor ends with whitespace, however much there is. |
| `Strings.ReplaceNewlines` | chastibrowse/format_table.py:24 | Same length; every newline (`\n`) becomes a space and every other character is kept, `\r` and other line separators included. |
| `Strings.ReplaceNewlinesNoop` | chastibrowse/format_table.py:24 | Text without a newline (`\n`) is unchanged. |
| `Strings.JoinLength` | chastibrowse/format_table.py:126-131 | A join is as long as its parts plus one separator per gap. |
| `Strings.SplitJoin` | chastibrowse/format_table.py:134 | Splitting a newline-joined list of lines that hold no newline gives the lines back. |
| `Strings.ContainsExists` | chastibrowse/chaster.py:138-141 | Python's `needle in hay` holds exactly when the needle occurs at some offset of the text. |
| `Strings.CaseFoldIdempotent` | chastibrowse/chaster.py:118 | Folding folded text changes nothing. |
| `Decimal.IntToDecimal` | chastibrowse/chaster.py:148 | `str(int)`: non-empty, digits only for non-negative numbers, and a minus sign then digits for negative ones. It has no leading zero: only zero itself starts with `0`, and a negative number's first digit is not `0`. |
| `Decimal.ParseIntToDecimal` | chastibrowse/chaster.py:165 | A printed integer parses back to itself. |
| `Decimal.CanonicalRoundTrip` | chastibrowse/chaster.py:148 | The other direction: every decimal text without leading zeros parses, and printing its value gives the same text back. With `ParseIntToDecimal`, printing is a bijection between integers and canonical texts. |
| `Decimal.DigitsOfDecimal` | chastibrowse/chaster.py:148 | A digit string without a leading zero is exactly what `str` prints for its value. |
| `Decimal.RoundHalfEven` | chastibrowse/chaster.py:148-151 | `round(n / d)`: the result is within half a unit of the quotient, and even on a tie. |
| `Decimal.NearestUnique` | chastibrowse/chaster.py:148-151 | Two counts that both round a quotient half-to-even are equal. |
| `Decimal.RoundHalfEvenUnique` | chastibrowse/chaster.py:148-151 | Any count within half a unit, and even on a tie, is the rounded one. |
| `Chaster.NormalizeGender` | chastibrowse/chaster.py:58-62 | The gender is either empty or the original value unchanged, surrounding whitespace included. A kept gender never strips to empty or to "Not specified". Every other gender is kept. |
| `Chaster.NormalizeGenderIdempotent` | chastibrowse/chaster.py:58-62 | Normalising a normalised gender changes nothing. |
| `Chaster.NormalizePaddedPlaceholder` | chastibrowse/chaster.py:60 | "Not specified" with any number of spaces before and after it still normalises to empty. |
| `Chaster.UserFromJson` | chastibrowse/chaster.py:56-70 | The user carries the JSON fields, with the gender normalised. |
| `Chaster.LockFromJson` | chastibrowse/chaster.py:176-197 | A non-zero duration limit wins; otherwise a non-empty limit date gives the measured seconds. There is no maximum time exactly when neither is present. |
| `Chaster.InFoldedExists` | chastibrowse/chaster.py:124-131 | Membership among case-folded entries holds exactly when some entry equals the value up to case. |
| `Chaster.AnyKeywordExists` | chastibrowse/chaster.py:138-141 | The `any` over the keyword blacklist holds exactly when some keyword matches. |
| `Chaster.FailsCriteria` | chastibrowse/chaster.py:105-136 | The disjunction of the eleven clauses of the first test of `invalid`. |
| `Chaster.KeywordMatches` | chastibrowse/chaster.py:139 | One keyword matches when it occurs in the name up to case, or in the description exactly as written. |
| `Chaster.Invalid` | chastibrowse/chaster.py:103-141 | A description shorter than the minimum hides the lock. With a positive limit, a missing maximum time or one over the limit hides it. A lock is hidden exactly when it fails a clause of the first test or some blacklisted keyword matches. |
| `Chaster.BlacklistedKeyholderInvalid` | chastibrowse/chaster.py:124-131 | A keyholder whose name or gender equals a blacklist entry up to case is hidden. |
| `Chaster.BlacklistedKeywordInvalid` | chastibrowse/chaster.py:138-141 | A matching blacklisted keyword hides the lock. |
| `Chaster.KeyholderCaseInsensitive` | chastibrowse/chaster.py:124-131 | Changing only the case of the keyholder's name or gender never changes the verdict. |
| `Chaster.MaxTimeIgnoredWithoutLimit` | chastibrowse/chaster.py:109-111 | Without a positive maximum-time limit, the lock's maximum time plays no part. |
| `Chaster.BlacklistMonotone` | chastibrowse/chaster.py:124-141 | Adding entries to the blacklists never shows a lock that was hidden. |
| `Chaster.PermissiveShowsAll` | chastibrowse/chaster.py:103-141 | With every filter off and empty blacklists, no lock is hidden. |
| `Chaster.KeywordNameCaseInsensitive` | chastibrowse/chaster.py:139 | Two lock names equal up to case match exactly the same keywords, and folding the name first changes nothing. |
| `Chaster.KeywordInDescriptionInvalid` | chastibrowse/chaster.py:138-141 | A blacklisted keyword written at any offset of the description hides the lock. |
| `Chaster.KeywordCaseAsymmetry` | chastibrowse/chaster.py:138-141 | Keywords match the name up to case but the description only as written: "spam" matches a name "SPAM" but not a description "SPAM". |
| `Chaster.TimeUnit` | chastibrowse/chaster.py:147-151 | Days from 86400 seconds on, hours from 3600, minutes below that. |
| `Chaster.FormatMaxTime` | chastibrowse/chaster.py:143-151 | "None" exactly when there is no maximum time or it is zero. Otherwise a number, written without leading zeros, then the unit letter. The number reads back as a count within half a unit of the true time, and is at least one once the time reaches the unit. |
| `Chaster.CountWithUnit` | chastibrowse/chaster.py:148-151 | A count followed by its unit letter; all but the last character are the count written without leading zeros, and parse back to it. |
| `Chaster.RoundedAtLeastOne` | chastibrowse/chaster.py:147-151 | A time of at least one unit rounds to at least one unit. |
| `Chaster.FormatMaxTimeNearest` | chastibrowse/chaster.py:143-151 | The shown count is the unique nearest one, with ties to even. |
| `Chaster.Link` | chastibrowse/chaster.py:153-155 | The link is the chaster.app explore prefix followed by the lock id. |
| `Chaster.LockIdFromLink` | chastibrowse/chaster.py:153-155 | The inverse of `link`: it recovers the id from exactly the URLs with the explore prefix. |
| `Chaster.LinkRoundTrip` | chastibrowse/chaster.py:153-155 | A lock's link leads back to its id. |
| `Chaster.DescriptionLinkInvalid` | chastibrowse/chaster.py:120-123 | A description that begins with a lock link is hidden when such descriptions are not to be shown. |
| `Chaster.Cell` | chastibrowse/chaster.py:160-171 | The password cell is "*" exactly when a password is needed, else a space. The description-length cell is the canonical decimal text of the description's length: no leading zeros, and it parses back to the length. The link cell leads back to the lock id. The name, description, lock id, keyholder name and keyholder gender cells are those fields as they are. The discord cell is the discord name when there is a non-empty one, and empty exactly when there is none. |
| `Chaster.ToList` | chastibrowse/chaster.py:157-174 | One cell per requested column, in the requested order. |
| `Chaster.ToListAppend` | chastibrowse/chaster.py:172-174 | Requesting two column lists in turn gives the two rows side by side. |
| `Chaster.ZeroMaxTimeShownAsNone` | chastibrowse/chaster.py:109-111 | A maximum time of zero passes the maximum-time filter, yet shows as "None" like a lock with no maximum. |

## Left out

- `fetch_locks` (chastibrowse/chaster.py:200-228): an HTTP request and JSON decoding; network I/O.
- The wall clock and date parsing in the limit-date branch of `ChasterLock.from_json`. The whole seconds until the date are a parameter, including the truncation of `int()`.
- `clean` and the `emoji` library: the emoji remover is a function-valued parameter of `Table`, with no assumed properties.
- `os.get_terminal_size()`: the terminal width is a parameter of `Table`.
- `chastibrowse/config_helper.py`, `chastibrowse/main.py` and `chastibrowse/datatypes.py`:
  - Configuration files, the interactive loop and type declarations are not part of this model.
  - The `min_widths`, `flexibility` and `max_widths` helpers are imported at chastibrowse/format_table.py:7; their definitions are not part of this model. `Table` takes the per-column minimum, weight and cap directly as a `ColumnSpec` sequence, one entry per displayed column in display order. This assumes each helper returns exactly one entry per column of `config["columns"]`, in that order. If a helper also covered columns that are not displayed, `sum(min_widths)` (chastibrowse/format_table.py:103) and the weight denominator (chastibrowse/format_table.py:54) would count them, and the model does not follow.
- Floating-point arithmetic: shares are computed on exact reals with `.Floor`, and `round` on exact rationals. Where a float quotient rounds differently from the exact one, the model does not follow.
- Unicode case folding: `CaseFold` lowers only ASCII capitals. Python's `casefold` also folds other scripts and expands characters such as "ß".
- `SpareColumns.SplitSpare`: the configuration field is named `max_width` (chastibrowse/datatypes.py:24), but the code compares the floored share against it and assigns it as the extra width, not as a maximum less the minimum. The model follows the code.
- `FormatTable.Table`: requires every row to have at most one cell per column. The code performs no row-length check: a longer row makes it fail with an index error, which is not modelled, and a shorter row renders only its cells.
- `FormatTable.Table`: columns are identified by position. The source keys `true_widths` by column name (chastibrowse/format_table.py:112-115), so a column name listed twice collapses to one width and the later widths shift. The model does not cover repeated column names.
- `SpareColumns.SplitSpare`: caps are `nat`, while the source takes any integer `max_width` (chastibrowse/datatypes.py:24). A negative cap saturates at once, is assigned as the extra, and grows `amount_remaining` (chastibrowse/format_table.py:71-76). A pass whose caps sum to zero ends the loop even though columns left. Negative caps are not modelled, and `Step`'s "an unchanged amount means nothing changed" relies on that.
- `FormatTable.Widths`: minimum widths are `nat`, while the source takes any integer `min_width` (chastibrowse/datatypes.py:22). Negative minimum widths are not modelled.
- `SpareColumns.SplitSpare`: requires non-negative weights. The source accepts any number as a flexibility, so negative weights could make the denominator zero or shares meaningless.
- `FormatTable.FixedLength`: states the exact length only for widths of at least one. At width zero or below, the behaviour of the source's negative slice is described by `FixedLengthNonPositive` instead.
