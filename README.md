# HigherLogics.Locale in Dafny

This project models the computational core of HigherLogics.Locale, a C#
library of locale reference data (countries, provinces, currencies and
continents) with a unit-tagged number and a multi-currency money type. It
proves properties of that model.

The model is split into modules:

- `FixedPoint` (`fixed.dfy`) covers `Fixed<T>`: a number tagged with its
  units, with equality, the units-then-value order, and arithmetic that keeps
  the left operand's units. `decimal` is an exact `real`. The units enum is
  its ordinal.
- `MoneyOps` (`money_ops.dfy`) covers the internal array operations of
  `Money`: `Insert`, `Missing`, `Add`, `Subtract`, `Multiply` and `Divide`.
  - Each one is a method over arrays. `Missing`, `Add`, `Subtract`,
    `Multiply` and `Divide` are loops with invariants; `Insert` copies with
    `forall` statements, as `Array.Copy` does.
  - Each method is proved to compute a function of the array contents:
    `InsertedAsWritten`, `MissingCount`, `MergeValues`, `ScaleAll` or
    `DivideAll`.
  - That function's behaviour is then stated by lemmas.
  - The model reproduces the source's defects as written:
    - `Insert` copies its tail from index 0.
    - `Missing` searches a window that is only valid from index 0.
    - The merge cursors read past the end of an input.
    - The merge's `switch` matches only the comparisons -1, 0 and 1. The
      default comparer of the byte-backed currency enum returns the
      difference of the ordinals, so two currencies two or more apart match
      no case: the slot keeps its default entry and no cursor moves. The
      model assumes .NET Core 3.0 or later, where the comparer behaves so;
      on .NET Framework it returns -1, 0 or 1.
    - `Subtract` copies right-only entries without negating them.
- `MoneyModel` (`money.dfy`) covers the public `Money` value:
  - construction, `Equals`, `CompareTo` (which throws when no pair of entries
    differs), and the operators;
  - a small expression language over them, used to show what sequences of
    public operations can build.
- `Text` (`text.dfy`) models the .NET string operations the generator relies
  on:
  - `Split` with and without `RemoveEmptyEntries`;
  - `Trim`;
  - OrdinalIgnoreCase comparison;
  - sorting and sorted sets under ordinal order.
- `LocaleData` (`generator.dfy`) covers the source generator:
  - `EnumName` and `Split`;
  - building the country, province, currency and continent tables from the
    text of the data files;
  - which entries of the currency tables are emitted.

  The file contents are parameters. `Countries`, `Provinces`, `Currencies` and
  `Continents` are methods with loops, each proved equal to a function. The
  properties are proved about those functions.
- `CurrencyJson` (`currency_json.dfy`) writes a JSON object of string
  values out as text, the shape of the currency file, and proves which
  tokens `Split` leaves of it. An empty value leaves no token.
- `Locales` (`locales.dfy`) covers the four lookups `States`, `State`,
  `Countries` and `Currency` over the generated static tables. It also covers
  how the province dictionaries and the currency tables are emitted, and it
  proves end-to-end properties that connect the lookups to the data files.
  HigherLogics.Locale/Locales.cs and HigherLogics.Locale/Postal.cs declare the
  same four members with the same bodies in the same partial class, so one
  model serves both.
- `Outcomes` (`outcomes.dfy`) defines the `Result` and `Option` types. A .NET
  exception is modelled as a `Failure` carrying the exception's kind.

## Model

| member | source | states |
|---|---|---|
| FixedPoint.Equals | HigherLogics.Locale/Fixed.cs:24-25 | equal exactly when both value and units are equal |
| FixedPoint.CompareValues | HigherLogics.Locale/Fixed.cs:30 | `decimal.CompareTo`: -1, 0 or 1, negative iff the first value is smaller, 0 iff they are equal |
| FixedPoint.CompareTo | HigherLogics.Locale/Fixed.cs:27-31 | 0 iff `Equals`; negative iff the left operand comes first with units compared first and the value breaking ties; with different units it is the difference of the ordinals, with equal units -1, 0 or 1 |
| FixedPoint.CompareToAntisymmetric | HigherLogics.Locale/Fixed.cs:27-31 | swapping the operands negates the comparison |
| FixedPoint.PrecedesTransitive | HigherLogics.Locale/Fixed.cs:27-31 | the order the comparison implements is transitive |
| FixedPoint.Divide | HigherLogics.Locale/Fixed.cs:51-52 | keeps the units; the result times the divisor is the original value |
| FixedPoint.Multiply | HigherLogics.Locale/Fixed.cs:54-55 | keeps the units; dividing by a non-zero constant restores the original |
| FixedPoint.MultiplyLeft | HigherLogics.Locale/Fixed.cs:57-58 | `constant * v` equals `v * constant` |
| FixedPoint.MultiplyFixed | HigherLogics.Locale/Fixed.cs:60-61 | the left operand scaled by the right one's value, with the left operand's units |
| FixedPoint.Plus | HigherLogics.Locale/Fixed.cs:63-64 | the left operand's units; subtracting the right value gives back the left value |
| FixedPoint.Minus | HigherLogics.Locale/Fixed.cs:66-67 | the left operand's units; adding the right operand back restores the left |
| FixedPoint.RightUnitsIgnored | HigherLogics.Locale/Fixed.cs:60-67 | `+`, `-` and `Fixed * Fixed` do not depend on the right operand's units |
| FixedPoint.PlusNotCommutativeAcrossUnits | HigherLogics.Locale/Fixed.cs:63-64 | with different units, `a + b` and `b + a` have the same value but differ |
| MoneyOps.BinarySearch | HigherLogics.Locale/Money.cs:127 | `Array.BinarySearch(array, index, length, value)`: throws ArgumentOutOfRange on a negative index or length, Argument when the window does not fit in the array, and otherwise runs the search |
| MoneyOps.SearchRange | HigherLogics.Locale/Money.cs:127 | the binary search returns an index holding the sought entry, or the complement of an insertion point with everything before it smaller and everything from it on larger |
| MoneyOps.SearchFindsMembers | HigherLogics.Locale/Money.cs:127 | on an ascending array, a search over the whole array succeeds and hits exactly when the entry is present |
| MoneyOps.Shorter | HigherLogics.Locale/Money.cs:121 | the array `Missing` walks is no longer than either operand |
| MoneyOps.Longer | HigherLogics.Locale/Money.cs:122 | the array it searches is no shorter than either operand |
| MoneyOps.ShorterLongerOperands | HigherLogics.Locale/Money.cs:121-122 | the two are the operands, one each |
| MoneyOps.MissingFrom | HigherLogics.Locale/Money.cs:124-133 | the loop adds at most one to the count per remaining entry |
| MoneyOps.MissingCount | HigherLogics.Locale/Money.cs:113-135 | when it returns, the count is at most the length of either array |
| MoneyOps.MissingFromCharacterized | HigherLogics.Locale/Money.cs:124-133 | the loop returns iff every search after the first starts at index 0, and it then counts the entries absent from the longer array |
| MoneyOps.MissingCharacterized | HigherLogics.Locale/Money.cs:113-135 | `Missing` returns iff no entry before the last one lies after the longer array's first entry, and then equals the number of shorter-array entries absent from the longer array |
| MoneyOps.MissingFailsOnThreeEntries | HigherLogics.Locale/Money.cs:127 | for a sorted value with three or more currencies, `Missing(a, a)` throws ArgumentException |
| MoneyOps.MergeFrom | HigherLogics.Locale/Money.cs:142-156 | a completed merge fills exactly the allotted slots and keeps what was written; the only failure is an index past the end |
| MoneyOps.Merge | HigherLogics.Locale/Money.cs:141-157 | a completed merge has the allotted length; the only failure is an index past the end |
| MoneyOps.MergeValues | HigherLogics.Locale/Money.cs:137-181 | a failure of `Missing` propagates, and otherwise the only failure is an index past the end; a result has length `Missing(lhs, rhs) + lhs.Length` |
| MoneyOps.UnmatchedComparisonFillsDefaults | HigherLogics.Locale/Money.cs:142-156 | two heads whose comparison is not -1, 0 or 1 match no case: the merge completes with every remaining slot holding the default entry |
| MoneyOps.MergeLeavesDefaultsPastInput | HigherLogics.Locale/Money.cs:142-156 | when more slots remain than the two inputs can fill, a completed merge leaves default entries in every slot past what the inputs could supply |
| MoneyOps.MergeRunsOutOfInput | HigherLogics.Locale/Money.cs:142-156 | when more slots remain than the two inputs can fill and every comparison the merge can meet is -1, 0 or 1, it throws IndexOutOfRange |
| MoneyOps.EntryBeforeRight | HigherLogics.Locale/Money.cs:146-147 | a one-entry left operand whose entry precedes the right head: the entry is copied, and the merge completes, as that entry alone, iff it has one slot |
| MoneyOps.EntryBeforeLeft | HigherLogics.Locale/Money.cs:152-153 | the mirror image for a one-entry right operand whose entry precedes the left head |
| MoneyOps.UnmatchedHeadsGiveDefaults | HigherLogics.Locale/Money.cs:143-155 | heads whose comparison matches no case: the merge completes with default entries only |
| MoneyOps.SingleEntryMerge | HigherLogics.Locale/Money.cs:137-181 | on one-entry operands, `Add` and `Subtract` give one combined entry iff the two entries are identical; two default entries when the currencies' ordinals are two or more apart; IndexOutOfRange otherwise |
| MoneyOps.CombineDefaults | HigherLogics.Locale/Money.cs:149-150 | a default plus, or minus, a default is the default |
| MoneyOps.RepeatedHeadsCombine | HigherLogics.Locale/Money.cs:149-150 | two heads equal to an entry that combines with itself into itself: one step writes that entry and moves both cursors |
| MoneyOps.MergeOfRepeats | HigherLogics.Locale/Money.cs:142-156 | merging two inputs that repeat one entry, which combines with itself into itself, gives nothing but that entry |
| MoneyOps.CopiesRightRepeats | HigherLogics.Locale/Money.cs:152-153 | against a left head that follows the repeated entry, the right input's copies of it are copied and the merge writes nothing else |
| MoneyOps.CopiesLeftRepeats | HigherLogics.Locale/Money.cs:146-147 | the mirror image: a left input repeating an entry that precedes the right head is copied |
| MoneyOps.EntryAgainstRepeats | HigherLogics.Locale/Money.cs:137-181 | one entry merged with a right operand that repeats an entry gives that one entry, the repeated entry only, or default entries only |
| MoneyOps.RepeatsAgainstEntry | HigherLogics.Locale/Money.cs:137-181 | the same with the operands swapped |
| MoneyOps.SingleEntriesKeepShape | HigherLogics.Locale/Money.cs:137-181 | two one-entry operands give one entry or two default entries |
| MoneyOps.RepeatsKeepShape | HigherLogics.Locale/Money.cs:142-156 | operands each holding one entry or repeating an entry, not both one entry, merge into one entry, that entry repeated, or defaults only |
| MoneyOps.MergeKeepsShape | HigherLogics.Locale/Money.cs:137-181 | if both operands hold one entry or only default entries, so does the result of `Add` or `Subtract` |
| MoneyOps.ScaleKeepsShape | HigherLogics.Locale/Money.cs:183-189 | scaling keeps that shape |
| MoneyOps.DivideKeepsShape | HigherLogics.Locale/Money.cs:191-197 | dividing keeps that shape |
| MoneyOps.SubtractKeepsRightOnlySign | HigherLogics.Locale/Money.cs:175-176 | an entry found only on the right is copied with its sign unchanged and the shared currency's right entry is lost: for adjacent currencies A < B and a non-zero a, [b of B] - [a of A, b of B] gives [+a of A], which is not the difference |
| MoneyOps.ScaleAll | HigherLogics.Locale/Money.cs:183-189 | same length; every entry keeps its units and has its value times the constant |
| MoneyOps.DivideAll | HigherLogics.Locale/Money.cs:191-197 | same length; scaling back by the divisor restores the entries |
| MoneyOps.ScaleAllKeepsOrder | HigherLogics.Locale/Money.cs:16-17 | scaling keeps a value sorted by currency |
| MoneyOps.InsertedAsWritten | HigherLogics.Locale/Money.cs:104-111 | one longer, the item at `i`, the entries before `i` kept |
| MoneyOps.InsertedAsWrittenIsInsertionIff | HigherLogics.Locale/Money.cs:104-111 | the result is a true insertion iff the first `Length - i` entries equal the last ones; it always is at index 0 |
| MoneyOps.InsertCopiesTailFromStart | HigherLogics.Locale/Money.cs:109 | inserting 99 at index 1 of [10, 20] gives [10, 99, 10] |
| MoneyOps.Insert | HigherLogics.Locale/Money.cs:104-111 | a negative index throws ArgumentOutOfRange, an index past the end throws Argument; otherwise a fresh array holding `InsertedAsWritten` |
| MoneyOps.Missing | HigherLogics.Locale/Money.cs:113-135 | computes `MissingCount` on the array contents |
| MoneyOps.CountMissing | HigherLogics.Locale/Money.cs:124-133 | the loop over the walked and the searched array computes `MissingFrom` from the first entry, failing exactly as the search does |
| MoneyOps.MergeInto | HigherLogics.Locale/Money.cs:142-156 | the merge loop of `Add` and `Subtract` leaves the array holding the merge of the two inputs into its length, or reports IndexOutOfRange exactly when that merge reads past an input |
| MoneyOps.Add | HigherLogics.Locale/Money.cs:137-158 | a fresh array holding the `Sum` merge of the contents, or that merge's failure |
| MoneyOps.Subtract | HigherLogics.Locale/Money.cs:160-181 | a fresh array holding the `Difference` merge of the contents, or that merge's failure |
| MoneyOps.Multiply | HigherLogics.Locale/Money.cs:183-189 | a fresh array holding `ScaleAll` of the contents |
| MoneyOps.Divide | HigherLogics.Locale/Money.cs:191-197 | a fresh array holding `DivideAll` of the contents |
| MoneyModel.Create | HigherLogics.Locale/Money.cs:25-32 | one entry with the given amount and currency, sorted by currency |
| MoneyModel.Equals | HigherLogics.Locale/Money.cs:39-40 | true iff the entry sequences are equal, lengths included |
| MoneyModel.CommonPrefix | HigherLogics.Locale/Money.cs:48 | the length of the longest common prefix of the zipped entries |
| MoneyModel.FirstNonZero | HigherLogics.Locale/Money.cs:48 | the comparison of the first differing pair, or InvalidOperation from `First` when none differs |
| MoneyModel.CompareTo | HigherLogics.Locale/Money.cs:47-48 | throws iff one entry list is a prefix of the other (so also on equal values); otherwise non-zero, the comparison of the first differing pair |
| MoneyModel.CommonPrefixAndPrefixes | HigherLogics.Locale/Money.cs:48 | the common prefix reaches the end of a list iff one list is a prefix of the other |
| MoneyModel.CompareToAntisymmetric | HigherLogics.Locale/Money.cs:47-48 | where it answers, swapping the operands flips the answer |
| MoneyModel.OneEntryOperands | HigherLogics.Locale/Money.cs:137-181 | on one-entry values the merge gives the combined entry if they are identical, two default entries if the currencies' ordinals are two or more apart, else IndexOutOfRange |
| MoneyModel.Add | HigherLogics.Locale/Money.cs:56-57 | on one-entry values: the sum if the two are identical, two default entries if the currencies' ordinals are two or more apart, else IndexOutOfRange |
| MoneyModel.Subtract | HigherLogics.Locale/Money.cs:65-66 | on one-entry values: a zero amount if the two are identical, two default entries if the currencies' ordinals are two or more apart, else IndexOutOfRange |
| MoneyModel.Multiply | HigherLogics.Locale/Money.cs:74-75 | every entry scaled, currencies unchanged |
| MoneyModel.MultiplyLeft | HigherLogics.Locale/Money.cs:83-84 | `constant * money` equals `money * constant` |
| MoneyModel.Divide | HigherLogics.Locale/Money.cs:92-93 | multiplying the quotient by the divisor gives the dividend back |
| MoneyModel.Negate | HigherLogics.Locale/Money.cs:100-101 | `-1 * money`: every amount negated, currencies unchanged |
| MoneyModel.EveryValueHasOneEntryOrDefaults | HigherLogics.Locale/Money.cs:25-101 | every value built from `new Money(amount, currency)` by the operators holds one entry, or two or more default entries and nothing else |
| MoneyModel.AddingTwoCurrencies | HigherLogics.Locale/Money.cs:56-57 | adding amounts of two different currencies throws IndexOutOfRange when their ordinals are adjacent, and gives two default entries otherwise |
| Text.SplitOn | LocaleGenerator/LocaleDataGenerator.cs:233 | `Split(..., RemoveEmptyEntries)`: non-empty pieces free of separators, which together are the input with the separators removed |
| Text.SplitOnJoin | LocaleGenerator/LocaleDataGenerator.cs:233 | splitting non-empty separator-free pieces joined by a separator gives the pieces back |
| Text.SplitKeepEmpty | LocaleGenerator/LocaleDataGenerator.cs:265 | `Split(',')`: at least one piece, none containing the separator, and joining them gives the line back |
| Text.SplitOnSkips | LocaleGenerator/LocaleDataGenerator.cs:233 | a leading run of separators leaves no piece: the split is that of the rest |
| Text.SplitOnPiece | LocaleGenerator/LocaleDataGenerator.cs:233 | a separator-free word followed by a separator or the end is the first piece, and the rest splits on its own |
| Text.SplitOnInterleave | LocaleGenerator/LocaleDataGenerator.cs:233 | non-empty separator-free pieces with runs of separators between them, and any run before and after, split back into exactly those pieces |
| Text.Trim | LocaleGenerator/LocaleDataGenerator.cs:244 | never longer than its input (`TrimmedPart` states which part it keeps) |
| Text.TrimmedPart | LocaleGenerator/LocaleDataGenerator.cs:244 | `Trim` is the part of the string between its leading and trailing white space, neither end being white space |
| Text.TrimIdempotent | LocaleGenerator/LocaleDataGenerator.cs:289 | trimming twice is trimming once |
| Text.Fold | LocaleGenerator/LocaleDataGenerator.cs:267 | same length, each letter upper-cased as OrdinalIgnoreCase compares it |
| Text.FoldIdempotent | LocaleGenerator/LocaleDataGenerator.cs:194 | folding a folded string changes nothing |
| Text.Below | LocaleGenerator/LocaleDataGenerator.cs:253 | the string order used for sorting: never relates a string to itself, and a proper prefix comes first |
| Text.BelowTotal | LocaleGenerator/LocaleDataGenerator.cs:253 | the string order used for sorting is total on distinct strings |
| Text.BelowTransitive | LocaleGenerator/LocaleDataGenerator.cs:253 | that order is transitive |
| Text.SortStrings | LocaleGenerator/LocaleDataGenerator.cs:253 | `names.Sort()`: sorted, and a permutation of its input |
| Text.SortedUnique | LocaleGenerator/LocaleDataGenerator.cs:253 | two sorted permutations of one list are equal, so the sorted list is determined |
| Text.AddSorted | LocaleGenerator/LocaleDataGenerator.cs:292 | `SortedSet.Add`: stays strictly sorted, and its elements are the old ones plus the new one |
| Text.StrictlySortedUnique | LocaleGenerator/LocaleDataGenerator.cs:292 | two strictly sorted lists with the same elements are equal |
| LocaleData.Split | LocaleGenerator/LocaleDataGenerator.cs:232-233 | only non-empty pieces free of `\r \n : " { }`, which together are the text with those characters removed |
| LocaleData.SplitRoundTrip | LocaleGenerator/LocaleDataGenerator.cs:232-233 | splitting `:`-joined clean tokens gives the tokens back |
| CurrencyJson.SplitField | LocaleGenerator/LocaleDataGenerator.cs:232-233 | a quoted key, a colon, white space and a quoted value split into the key, the white space and the value unless it is empty, whatever follows |
| CurrencyJson.SplitMember | LocaleGenerator/LocaleDataGenerator.cs:232-233 | one JSON member `"key": "value"` splits into the key, `" "` and the value unless it is empty |
| CurrencyJson.SplitComma | LocaleGenerator/LocaleDataGenerator.cs:232-233 | the `", "` between two members is a token of its own |
| CurrencyJson.MembersUnfold | LocaleGenerator/LocaleDataGenerator.cs:232-233 | the members of more than one record are the first member, a comma and the rest |
| CurrencyJson.SplitMembersStep | LocaleGenerator/LocaleDataGenerator.cs:232-233 | the split of several members is the first record's tokens, comma included, then the split of the rest |
| CurrencyJson.SplitMembers | LocaleGenerator/LocaleDataGenerator.cs:232-233 | members of clean records followed by a closing run of separators split into the records' tokens |
| CurrencyJson.JsonTokens | LocaleGenerator/LocaleDataGenerator.cs:232-233 | a JSON object of string values free of separators splits into key, `" "`, value unless empty, and `", "` between records |
| CurrencyJson.EmptyCurrencyFile | LocaleGenerator/LocaleDataGenerator.cs:284 | the currency file `{"AQ": "", "BD": "BDT", "BE": "EUR"}` splits into the tokens `EmptyCurrencyShiftsRecords` reads |
| LocaleData.ReplaceChar | LocaleGenerator/LocaleDataGenerator.cs:86 | same length; exactly the occurrences of the character replaced |
| LocaleData.DropCommaBeforeUnderscore | LocaleGenerator/LocaleDataGenerator.cs:86 | `Replace(",_", "_")`: shorter by the number of occurrences, the same apart from commas |
| LocaleData.EnumName | LocaleGenerator/LocaleDataGenerator.cs:84-87 | never longer than the name, free of space, hyphen and full stop, and apart from commas and underscores it keeps every other character of the name in order |
| LocaleData.Rows | LocaleGenerator/LocaleDataGenerator.cs:242-246 | the records as the loops read them, four tokens apart: key at offset 0, value at offset 2 |
| LocaleData.Names | LocaleGenerator/LocaleDataGenerator.cs:244 | one name per record, its trimmed value, in file order |
| LocaleData.Assign | LocaleGenerator/LocaleDataGenerator.cs:242-246 | the first loop's map has at most one code per record (`AssignedCodes` and `LastRecordWins` state which) |
| LocaleData.IsoFrom | LocaleGenerator/LocaleDataGenerator.cs:248-252 | the second loop's only failure is an index past the end of the tokens |
| LocaleData.CountriesOf | LocaleGenerator/LocaleDataGenerator.cs:235-255 | `Countries` can only throw IndexOutOfRange |
| LocaleData.MapCountryNames | LocaleGenerator/LocaleDataGenerator.cs:242-246 | the first loop maps each ISO-2 code to its trimmed name, later records overwriting earlier ones, and lists the names in file order; a token count of 1 or 2 modulo 4 leaves a last record without its name and throws IndexOutOfRange |
| LocaleData.MapIsoCodes | LocaleGenerator/LocaleDataGenerator.cs:247-252 | the second loop computes `IsoFrom`: each ISO-3 code whose ISO-2 code is mapped gets that name, or an index error on a mapped code missing its ISO-3 token |
| LocaleData.Countries | LocaleGenerator/LocaleDataGenerator.cs:235-255 | both loops and the sort compute `CountriesOf`: an index error on a record missing its value, or the code map and the sorted names |
| LocaleData.AssignedCodes | LocaleGenerator/LocaleDataGenerator.cs:242-246 | the first loop maps exactly the codes of the records |
| LocaleData.LastRecordWins | LocaleGenerator/LocaleDataGenerator.cs:245 | a code is mapped to the trimmed name of its last record |
| LocaleData.AssignedNamesListed | LocaleGenerator/LocaleDataGenerator.cs:244-245 | every name a code maps to is in the name list |
| LocaleData.IsoKeepsNames | LocaleGenerator/LocaleDataGenerator.cs:248-252 | the ISO-3 loop only adds codes and maps them to names already present |
| LocaleData.IsoAddsOnlyKnownCodes | LocaleGenerator/LocaleDataGenerator.cs:248-252 | a code the ISO-3 loop adds is the ISO-3 code of a record whose ISO-2 code is mapped |
| LocaleData.IsoMapsKnownCodes | LocaleGenerator/LocaleDataGenerator.cs:248-252 | every complete record whose ISO-2 code is mapped gets its ISO-3 code mapped |
| LocaleData.IsoKeepsValue | LocaleGenerator/LocaleDataGenerator.cs:248-252 | a mapped code that no later record names as its ISO-3 code keeps its name |
| LocaleData.IsoLastRecordWins | LocaleGenerator/LocaleDataGenerator.cs:248-252 | the ISO-3 code of the last record naming it maps to the name its ISO-2 code had when that record was read |
| LocaleData.CountriesTables | LocaleGenerator/LocaleDataGenerator.cs:235-255 | every ISO-2 code is mapped to a listed name; ISO-3 codes only come with their mapped ISO-2 code; the names are sorted and a permutation of the file's trimmed names |
| LocaleData.CountriesCodeNames | LocaleGenerator/LocaleDataGenerator.cs:235-255 | in the returned map, an ISO-2 code no ISO-3 token repeats maps to the trimmed name of its last record, and an ISO-3 code maps to its ISO-2 code's name at its last record |
| LocaleData.Fields | LocaleGenerator/LocaleDataGenerator.cs:265 | the fields of a province line, empty ones kept, joining back to the line |
| LocaleData.AddProvince | LocaleGenerator/LocaleDataGenerator.cs:270-277 | an unknown country code is KeyNotFound; the only failures are KeyNotFound, IndexOutOfRange and the duplicate-province exception; a line that is added maps its alias to its official name in its country's dictionary |
| LocaleData.ProvincesOf | LocaleGenerator/LocaleDataGenerator.cs:268-279 | the only exceptions the loop raises are KeyNotFound, IndexOutOfRange and the duplicate-province exception |
| LocaleData.Provinces | LocaleGenerator/LocaleDataGenerator.cs:257-280 | the loop computes `ProvincesOf`: the table, or the exception of the first line that throws |
| LocaleData.FirstFailureStands | LocaleGenerator/LocaleDataGenerator.cs:268-278 | once a line throws, later lines are not read |
| LocaleData.AddProvinceKeeps | LocaleGenerator/LocaleDataGenerator.cs:271-277 | a line only adds entries; nothing already present is overwritten |
| LocaleData.EveryLineRegistered | LocaleGenerator/LocaleDataGenerator.cs:268-278 | after the file is read, every line's alias maps to its official name and the official name is a key of its country |
| LocaleData.AliasesDistinct | LocaleGenerator/LocaleDataGenerator.cs:273-274 | no two lines of one country have the same alias, since the second throws |
| LocaleData.CountryNamesFromFile | LocaleGenerator/LocaleDataGenerator.cs:267-272 | each country is stored under its case-folded name, which is a country name of the code map |
| LocaleData.AddProvinceNew | LocaleGenerator/LocaleDataGenerator.cs:275-277 | an entry one line adds is that line's alias mapped to its official name, or its official name mapped to itself, in its country's dictionary |
| LocaleData.NothingInvented | LocaleGenerator/LocaleDataGenerator.cs:275-277 | every entry is a line's alias mapped to its official name, or a line's official name mapped to itself |
| LocaleData.OfficialNameMapsToItself | LocaleGenerator/LocaleDataGenerator.cs:276-277 | an official name that no line of its country uses as an alias maps to itself |
| LocaleData.Append | LocaleGenerator/LocaleDataGenerator.cs:293-298 | appending to a sorted dictionary of lists keeps its keys strictly sorted and equal to its entries |
| LocaleData.AddCurrency | LocaleGenerator/LocaleDataGenerator.cs:289-298 | one record keeps both tables well formed |
| LocaleData.CurrencyTablesOf | LocaleGenerator/LocaleDataGenerator.cs:287-299 | the loop keeps the currency set strictly sorted and the dictionary's keys strictly sorted and equal to its entries |
| LocaleData.CurrenciesOf | LocaleGenerator/LocaleDataGenerator.cs:282-300 | the same for the tables read from the file |
| LocaleData.Currencies | LocaleGenerator/LocaleDataGenerator.cs:282-301 | the loop computes `CurrenciesOf` and never reads past the tokens |
| LocaleData.EmptyCurrencyShiftsRecords | LocaleGenerator/LocaleDataGenerator.cs:287-290 | on the currency file `{"AQ": "", "BD": "BDT", "BE": "EUR"}` every record after the empty value starts one token earlier than the loop expects, so it reads (`" "`, `", "`) and skips it, and the currency set is empty; the realigned reader finds both records |
| LocaleData.RealignedReadsRecords | LocaleGenerator/LocaleDataGenerator.cs:287-290 | the realigned reader returns exactly the records whose value is not empty, in order |
| LocaleData.RealignedCurrencySet | LocaleGenerator/LocaleDataGenerator.cs:287-292 | read realigned, the currency set holds exactly the currencies of the records with a value |
| LocaleData.AppendContents | LocaleGenerator/LocaleDataGenerator.cs:293-298 | appending adds exactly one element to one list and nothing else |
| LocaleData.AddCurrencySet | LocaleGenerator/LocaleDataGenerator.cs:289-292 | a record adds its trimmed currency to the set unless it is empty or a lone comma |
| LocaleData.AddCurrencyLists | LocaleGenerator/LocaleDataGenerator.cs:289-298 | an accepted record adds the country to its currency's list and the currency to its country's list, and nothing else |
| LocaleData.CurrencySetFromFile | LocaleGenerator/LocaleDataGenerator.cs:287-292 | the currency set is exactly the currencies of the accepted records |
| LocaleData.RecordsListed | LocaleGenerator/LocaleDataGenerator.cs:287-299 | every accepted record is listed in both directions |
| LocaleData.ListsFromRecords | LocaleGenerator/LocaleDataGenerator.cs:287-299 | no list is empty, and every element comes from an accepted record |
| LocaleData.ThreeLetterKeys | LocaleGenerator/LocaleDataGenerator.cs:162 | exactly the keys of length three |
| LocaleData.ThreeLetterKeysSorted | LocaleGenerator/LocaleDataGenerator.cs:160-162 | the filter keeps the key order |
| LocaleData.Currency2Country | LocaleGenerator/LocaleDataGenerator.cs:157-174 | one row per three-letter key, in key order, holding that key's list |
| LocaleData.Country2Currency | LocaleGenerator/LocaleDataGenerator.cs:176-187 | succeeds iff every two-letter key's list has one element (else `Single` throws InvalidOperation); maps exactly the two-letter keys to that element |
| LocaleData.CountryCurrencyFromRecord | LocaleGenerator/LocaleDataGenerator.cs:176-187 | when currency codes have three letters and country codes do not, each code the table of country currencies maps has a record with that code and that currency |
| LocaleData.CountryCurrencyFromFile | LocaleGenerator/LocaleDataGenerator.cs:176-187 | a two-letter country code of an accepted record maps to that record's currency |
| LocaleData.ThreeLetterKeysAreCurrencies | LocaleGenerator/LocaleDataGenerator.cs:157-174 | when currency codes have three letters and country codes do not, the three-letter keys are the currency set, in order |
| LocaleData.CurrencyListsFromFile | LocaleGenerator/LocaleDataGenerator.cs:157-174 | then a currency's row lists exactly the countries of its records |
| LocaleData.CurrencyRowsAlign | LocaleGenerator/LocaleDataGenerator.cs:146-174 | row `i` of the currency-to-countries table belongs to the currency with ordinal `i`, and lists exactly the countries of its records |
| LocaleData.AddContinent | LocaleGenerator/LocaleDataGenerator.cs:310-312 | a line with fewer than two fields is IndexOutOfRange, any other failure is DuplicateKey |
| LocaleData.ContinentsFrom | LocaleGenerator/LocaleDataGenerator.cs:303-315 | the only exceptions are IndexOutOfRange and DuplicateKey |
| LocaleData.ContinentCount | LocaleGenerator/LocaleDataGenerator.cs:308-313 | every line adds exactly two keys |
| LocaleData.Continents | LocaleGenerator/LocaleDataGenerator.cs:303-315 | the loop computes `ContinentsFrom` of the non-empty lines: the map, or the exception of the first line that throws |
| LocaleData.FirstContinentFailureStands | LocaleGenerator/LocaleDataGenerator.cs:308-313 | once a line throws, later lines are not read |
| LocaleData.AddContinentContents | LocaleGenerator/LocaleDataGenerator.cs:311-312 | a line adds its code under its name and its name under itself, both new, and changes nothing else |
| LocaleData.ContinentsListed | LocaleGenerator/LocaleDataGenerator.cs:308-313 | every line's code maps to its name and its name to itself |
| LocaleData.ContinentKeysFromLines | LocaleGenerator/LocaleDataGenerator.cs:308-313 | every key is the code or the name of a line |
| LocaleData.ContinentKeysDistinct | LocaleGenerator/LocaleDataGenerator.cs:311-312 | no code or name comes from two lines, since a repeated key throws |
| LocaleData.ContinentNamesDeclared | LocaleGenerator/LocaleDataGenerator.cs:104-125 | every name a key maps to is itself a key mapped to itself, so each emitted alias names a declared continent |
| Locales.States | HigherLogics.Locale/Locales.cs:17-18 | succeeds iff the country has a province table, else KeyNotFound; HigherLogics.Locale/Postal.cs:14-15 is the same member |
| Locales.State | HigherLogics.Locale/Locales.cs:26-27 | succeeds iff the country is present and the case-folded name is a key of its table, else KeyNotFound; HigherLogics.Locale/Postal.cs:23-24 is the same member |
| Locales.Countries | HigherLogics.Locale/Locales.cs:34-35 | succeeds iff the ordinal indexes a row, else IndexOutOfRange; HigherLogics.Locale/Postal.cs:31-32 is the same member |
| Locales.Currency | HigherLogics.Locale/Locales.cs:42-45 | `Some` iff the country is a key of the country-to-currency table; HigherLogics.Locale/Postal.cs:39-42 is the same member |
| Locales.StateIgnoresCase | HigherLogics.Locale/Locales.cs:26-27 | two spellings differing only in letter case look up the same state |
| Locales.StatesAreLookups | HigherLogics.Locale/Locales.cs:17-27 | the states of a country are exactly the names `State` can return for it |
| Locales.AliasTable | LocaleGenerator/LocaleDataGenerator.cs:194-199 | the emitted OrdinalIgnoreCase dictionary: throws iff two aliases are equal ignoring case, else maps each folded alias to its official name and holds nothing else |
| Locales.ProvinceTable | LocaleGenerator/LocaleDataGenerator.cs:189-204 | the emitted province table: when two countries share an enum member the generated code does not build; otherwise it throws DuplicateKey iff a country's dictionary throws |
| Locales.ProvinceTableEntries | LocaleGenerator/LocaleDataGenerator.cs:189-204 | each country is under the enum member of its name with its dictionary, and nothing else is present |
| Locales.ProvinceTableFolded | LocaleGenerator/LocaleDataGenerator.cs:194 | every key of the emitted dictionaries is case-folded |
| Locales.StateOfEveryAlias | HigherLogics.Locale/Locales.cs:26-27 | after the tables are built from the province file, any line's alias in any letter case looks up that line's official name |
| Locales.StateOfOfficialName | HigherLogics.Locale/Locales.cs:26-27 | an official name that no line of its country uses as an alias looks up itself, in any letter case |
| Locales.OfficialNameOfEntry | LocaleGenerator/LocaleDataGenerator.cs:275-277 | every entry of a country maps to the official name of one of its lines |
| Locales.StatesFromFile | HigherLogics.Locale/Locales.cs:17-18 | every state listed for a country is the official name of one of its lines |
| Locales.OfficialNamesListed | HigherLogics.Locale/Locales.cs:17-18 | every line's official name is among its country's states |
| Locales.CountryRows | LocaleGenerator/LocaleDataGenerator.cs:157-174 | the emitted rows are the lists of `Currency2Country`, in order |
| Locales.IndexOf | LocaleGenerator/LocaleDataGenerator.cs:183 | the ordinal of a currency enum member is its position |
| Locales.CurrencyTable | LocaleGenerator/LocaleDataGenerator.cs:176-187 | the emitted country-to-currency table maps the same countries, each to the ordinal of its currency |
| Locales.CountryCurrenciesDeclared | LocaleGenerator/LocaleDataGenerator.cs:176-187 | each two-letter country's currency is a member of the currency enum |
| Locales.CountriesOfCurrency | HigherLogics.Locale/Locales.cs:34-35 | `Countries` succeeds iff the ordinal is a currency's, and then lists exactly the countries whose records have that currency |
| Locales.CountryUsesItsCurrency | HigherLogics.Locale/Locales.cs:42-45 | `Currency` of a country gives the currency of one of its records |
| Locales.CountryAmongItsCurrencyCountries | HigherLogics.Locale/Locales.cs:34-45 | a country code without surrounding white space is among the countries of its own currency |

## Left out

- The address parser (`ParseAddress`) is not part of this model. None of the
  modelled files defines it.
- Loading, fetching and caching of the data files (`Load`, `Fetch`) are not
  modelled. `Execute` and the source-generator plumbing are also left out.
  File contents are parameters.
- The exact C# text emitted by the `Elaborate*` builders is not modelled.
  Only which entries are emitted, and under which keys, is modelled
  (`Currency2Country`, `Country2Currency`, `AliasTable`, `ProvinceTable`,
  `CountryRows`, `CurrencyTable`). Also left out:
  - the `[Display]` attributes;
  - the order of the continent and country enum members;
  - whether an emitted name is a valid C# identifier.
- MoneyModel.Money has no null entry array. `Money` is a struct, so
  `default(Money)` and `new Money()` hold a null array. On such a value
  `Equals` throws ArgumentNullException from `SequenceEqual`
  (HigherLogics.Locale/Money.cs:40), and so does `CompareTo` from `Zip`
  (:48). `+` and `-` throw NullReferenceException in `Missing` (:121), and
  `*` and `/` throw it in `Multiply` and `Divide` (:185, :193). The model
  covers only values built by the public constructor and the operators.
- `decimal` is modelled as an exact `real`. Rounding, scale and
  `OverflowException` are not modelled. Division by zero is a precondition
  of the arithmetic functions, but `MoneyModel.Eval` reports it as
  DivideByZero.
- `GetHashCode` and `ToString` of `Fixed` are left out.
- HigherLogics.Locale/PostalAddress.cs is left out: a settable-field record
  with one formatting method.
- HigherLogics.Locale.Tests/Tests.cs is left out: its assertions are about
  the parser.
- Text.Below: the culture-sensitive default string comparison used by
  `List.Sort`, `SortedSet` and `SortedDictionary` is modelled as ordinal
  (character code) order.
- Text.Fold: OrdinalIgnoreCase is modelled as upper-casing the ASCII letters
  only.
- Text.IsWhiteSpace follows the Unicode white-space set of `Char.IsWhiteSpace`.
  A `char` here is one Unicode scalar value, where a .NET `char` is one
  UTF-16 code unit.
- LocaleData.ThreeLetterKeys, LocaleData.Country2Currency: a string is a
  sequence of Unicode scalar values, so a key holding a character outside
  the Basic Multilingual Plane is one shorter here than its .NET `Length`,
  which counts UTF-16 code units, and a lone surrogate cannot be written at
  all. The length filters (`Length == 3` at
  LocaleGenerator/LocaleDataGenerator.cs:162, `Length == 2` at :181) and
  the `CodeLengthsApart` condition count characters, not code units.
- Locales.States returns a set. The `Values` collection it models may list a
  name several times, in dictionary order.
- Locales.Tables: the Country enum gives each ISO code member the same value
  as its country-name member. The model names a country by the member
  written in each table (the name for the province table, the ISO-2 code for
  the currency tables) and does not identify the two.
- LocaleData.Provinces takes the code map as a parameter instead of calling
  `Countries` itself. The code map is what `Countries` returns.
- Locales.ProvinceTable: the generated static initialiser's exception reaches
  callers wrapped in a TypeInitializationException. The model reports the
  inner DuplicateKey.
- HigherLogics.Locale/Locales.cs and HigherLogics.Locale/Postal.cs declare
  the same members of one partial class, so the two files cannot be compiled
  together. The model has one copy.
- LocaleData.Continents returns a map. The key order of the
  `SortedDictionary`, which only affects the emitted text, is not kept.
- MoneyOps.Longer: when both arrays have the same length and are distinct
  objects, the source picks `lhs`. The same array passed twice gives the
  same contents either way, so aliasing is not modelled.

## Findings

| source | as written | input that shows it | evidently intended | confidence | as-written member | corrected member |
|---|---|---|---|---|---|---|
| LocaleGenerator/LocaleDataGenerator.cs:287-290 | the currency loop reads a record every four tokens, but splitting with `RemoveEmptyEntries` leaves no token for an empty JSON value, so every later record starts one token earlier than the reader expects, is read as (`" "`, `", "`), and is skipped as a lone comma | `{"AQ": "", "BD": "BDT", "BE": "EUR"}`: no currency is listed | a record with an empty value is three tokens long and the next record starts right after it, so BDT and EUR are both listed | not executed | LocaleData.EmptyCurrencyShiftsRecords | LocaleData.RealignedCurrencySet |

The other modules keep the reader as written (`Rows`), since they describe
the tables the generator actually emits; `Realigned` is the corrected reader,
and `RealignedReadsRecords` and `RealignedCurrencySet` state what it reads.
