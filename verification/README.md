# JavaUtility core in Dafny

A model of the sequential core of the `bayern.steinbrecher.javaUtility`
library, with proofs about it:

- **SEPA identifier checks** (`SepaUtility`): IBAN, BIC, creditor identifier
  and message id validators. The IBAN check follows the check-digit test of
  ISO 13616-1, which is the ISO/IEC 7064 MOD 97-10 procedure. The patterns
  are written out as regular-expression data with a whole-string matching
  semantics (module `Regex`). Each executable check is proved equal to its
  pattern-based statement. For the IBAN, the check computes the remainder
  digit by digit, and that remainder is proved equal to the remainder of the
  whole rearranged number.
- **CSV writer** (`IOUtility.writeCSV`, `CSVFormat`): the characters handed
  to the file writer, computed by the same nested loops as the source. They
  are related to a line-by-line definition and to a reader that parses them
  back.
- **The stop decision of `IOUtility.readAll`**: each loop iteration becomes
  one abstract event: a data chunk, end of stream, a timeout, or a failed or
  interrupted read. The loop is related to a declarative "first stopping
  event" description.
- **`SupplyingMap`**: the constructor's null check and the filling `get`,
  with its frame properties.
- **The report assembly of `XMLUtility.isValidXML`**: the error handler's
  callbacks fold into a `SupplyingMap` of category lists and a validity
  flag. The entries are sorted by `String.compareTo`, flattened, joined, and
  reduced to an optional report. The result is proved equal to a
  category-by-category description that does not mention the map.
- **`CompareUtility.clamp`**, over any comparator that satisfies the
  `Comparable` contract.
- **`ExceptionalCallable.call`**. The subclass relation is a parameter.

A `null` argument of the SEPA validators and of the `SupplyingMap`
constructor is `Option.None`; elsewhere the model has no `null`. Java
strings are `seq<char>`. A Java `int` printed by string concatenation is
`Decimal.IntToString`.

Two facts of the code shape the model:

- `readAll` declares `throws IOException`, but a failed read reaches the
  loop as an `ExecutionException`, which is caught together with
  `InterruptedException` (IOUtility.java:73-75). The loop stops and returns
  the data read so far, unless closing the channel afterwards fails.
- In `isValidXML` the error handler is installed on the `DocumentBuilder`
  only (XMLUtility.java:65). Schema-validation problems reach the code as
  the single exception `Validator.validate` throws (XMLUtility.java:92-101).

Two constructs are modelled differently from their Java form:

- The Java `assert` in the `CSVFormat` constructor is a `requires` clause.
  It is only enforced when assertions are enabled.
- `call` catches `Exception`, not `Throwable`. An `Error` thrown by the
  callable passes through unchanged, and the model keeps that case.

Consequences of the source as written:

- The IBAN pattern admits only digits after the country code, although its
  comment calls it the pattern of a possible valid IBAN
  (SepaUtility.java:61-65). IBANs whose account part contains letters, as in
  the United Kingdom, are rejected (`SepaUtility.AcceptedIbanShape`).
- An IBAN is never a valid creditor id (`SepaUtility.IbanIsNeverCreditorId`).
- CSV cells are not quoted. A cell holding the separator or a line feed
  cannot be read back, and an empty row is written exactly like a row
  holding one empty cell (`IoUtility.EmptyRowIsBareLineFeed`).

## Model

| member | source | states |
|---|---|---|
| SepaUtility.IsValidIban | src/main/java/bayern/steinbrecher/javaUtility/SepaUtility.java:98-119 | Accepts exactly when the argument is non-null and non-empty and its space-free form has all of these properties: it matches `[A-Z]{2}\d{2,32}`; it has at least 5 characters; and the account part, then the letter codes (A=10 …), then the check digits, read as one decimal number, leave remainder 1 modulo 97. null and "" are rejected. |
| SepaUtility.IbanShapeIffRegex | src/main/java/bayern/steinbrecher/javaUtility/SepaUtility.java:64-65 | A string matches the IBAN pattern exactly when it is 4 to 34 characters long, starts with two upper-case letters and has only digits after them. |
| SepaUtility.AcceptedIbanShape | src/main/java/bayern/steinbrecher/javaUtility/SepaUtility.java:103-107 | An accepted IBAN, with its spaces removed, is 5 to 34 characters long: two upper-case letters followed by digits only. |
| SepaUtility.RearrangedIsDigits | src/main/java/bayern/steinbrecher/javaUtility/SepaUtility.java:105-111 | For a well-shaped IBAN, the rearranged string handed to `BigInteger` consists of decimal digits only, so the conversion cannot fail. |
| Decimal.RemainderFoldIsRemainder | src/main/java/bayern/steinbrecher/javaUtility/SepaUtility.java:111-113 | Reducing modulo m after each digit gives the remainder of the whole decimal number modulo m (ISO/IEC 7064 piecewise computation). |
| Decimal.NatToString | src/main/java/bayern/steinbrecher/javaUtility/SepaUtility.java:109-110 | The printed form of a natural number is a non-empty digit string without a leading zero that reads back as the number. |
| Decimal.IntToStringInjective | src/main/java/bayern/steinbrecher/javaUtility/XMLUtility.java:67 | Different integers print differently. |
| Decimal.IntToString | src/main/java/bayern/steinbrecher/javaUtility/SepaUtility.java:109-110 | `"" + int` (also the line number at XMLUtility.java:67): a minus sign exactly for negative numbers, followed by a non-empty digit string without a leading zero whose value is the magnitude. |
| SepaUtility.IbanIgnoresSpaces | src/main/java/bayern/steinbrecher/javaUtility/SepaUtility.java:101 | Inserting a space anywhere in a string never changes the IBAN verdict. |
| Text.RemoveAll | src/main/java/bayern/steinbrecher/javaUtility/SepaUtility.java:101 | `String.replace(target, "")`. The result is never longer than the string. A string without the target is returned unchanged, and a string that contains it loses at least the target's length. |
| Text.RemoveAllFirstOccurrence | src/main/java/bayern/steinbrecher/javaUtility/SepaUtility.java:147 | Everything before the first occurrence of the target is kept, that occurrence is deleted, and deletion resumes right after it. With the unchanged case of `RemoveAll` this fixes the result: every occurrence, left to right, without overlap. |
| Text.Contains | src/main/java/bayern/steinbrecher/javaUtility/SepaUtility.java:146 | `String.contains`: a string never contains a longer one, and every string contains the empty string. |
| Text.ContainsIffOccurs | src/main/java/bayern/steinbrecher/javaUtility/SepaUtility.java:146 | `contains` holds exactly when the target occurs at some index of the string. |
| Text.RemoveCharContents | src/main/java/bayern/steinbrecher/javaUtility/SepaUtility.java:101 | Removing a one-character target leaves no copy of that character and keeps every other character with its multiplicity. |
| Text.RemoveAllSubMultiset | src/main/java/bayern/steinbrecher/javaUtility/SepaUtility.java:147 | Deleting occurrences of a target never introduces a character. |
| SepaUtility.IsValidBic | src/main/java/bayern/steinbrecher/javaUtility/SepaUtility.java:128-132 | Accepts exactly the non-null strings that match `[A-Z]{6}[A-Z2-9][A-NP-Z0-9]([A-Z0-9]{3})?`. Every accepted BIC has 8 or 11 characters. |
| SepaUtility.BicShapeIffRegex | src/main/java/bayern/steinbrecher/javaUtility/SepaUtility.java:70 | The BIC pattern is matched exactly by strings of length 8 or 11 with the required class at each position. |
| SepaUtility.IsValidMessageId | src/main/java/bayern/steinbrecher/javaUtility/SepaUtility.java:158-162 | Accepts exactly the non-null strings that match the whitelist pattern and have at most 35 characters. The empty id is accepted. |
| SepaUtility.MessageIdCharIffClass | src/main/java/bayern/steinbrecher/javaUtility/SepaUtility.java:76 | A character is one of the pattern's alternatives (letters, digits, `/ -?:().,'+` and space) exactly when it lies in the pattern's class. |
| SepaUtility.IsValidCreditorId | src/main/java/bayern/steinbrecher/javaUtility/SepaUtility.java:140-150 | Accepts exactly when the argument is non-null, its space-free form contains `ZZZ`, and what is left after deleting every `ZZZ` is an accepted IBAN. An accepted id has at least 8 non-space characters. |
| SepaUtility.CodeRemovalKeepsSpacesOut | src/main/java/bayern/steinbrecher/javaUtility/SepaUtility.java:145-147 | After spaces are removed and the business code deleted, no space is left, so the IBAN check's own space removal changes nothing. |
| SepaUtility.CreditorIdIgnoresSpaces | src/main/java/bayern/steinbrecher/javaUtility/SepaUtility.java:145 | Inserting a space anywhere never changes the creditor-id verdict. |
| SepaUtility.IbanIsNeverCreditorId | src/main/java/bayern/steinbrecher/javaUtility/SepaUtility.java:140-150 | No string is accepted both as an IBAN and as a creditor id: an IBAN never contains `ZZZ`. |
| CsvFormats.NewCsvFormat | src/main/java/bayern/steinbrecher/javaUtility/CSVFormat.java:18-35 | A format with a byte-order mark must be UTF-8. The getters return exactly the constructor's arguments. |
| CsvFormats.PresetFormats | src/main/java/bayern/steinbrecher/javaUtility/CSVFormat.java:11-12 | `EXCEL` is `;`, UTF-8, with byte-order mark. `LIBRE_OFFICE` is `,`, UTF-8, without. Both satisfy the constructor's condition. |
| IoUtility.WriteCsv | src/main/java/bayern/steinbrecher/javaUtility/IOUtility.java:141-164 | The nested loops with the first-cell flag write the optional byte-order mark, then, row after row, the cells with the separator between neighbours and a line feed after each row. |
| IoUtility.WriteCells | src/main/java/bayern/steinbrecher/javaUtility/IOUtility.java:153-160 | The inner loop with the first-cell flag writes the row's cells with one separator between neighbours and none before the first or after the last, which is joining the cells on the separator. |
| IoUtility.BomIffFormat | src/main/java/bayern/steinbrecher/javaUtility/IOUtility.java:144-150 | The output starts with U+FEFF exactly when the format asks for a byte-order mark, as long as the data itself does not start with U+FEFF. |
| IoUtility.LinesAsJoin | src/main/java/bayern/steinbrecher/javaUtility/IOUtility.java:152-162 | The lines of a non-empty row list are the rows' joined cells, joined by line feeds, plus exactly one final line feed. |
| IoUtility.CsvRoundTrip | src/main/java/bayern/steinbrecher/javaUtility/IOUtility.java:152-162 | Splitting the output at line feeds and separators gives back the rows. This holds when no cell contains the separator or a line feed, the separator is not a line feed, and no row is empty. |
| IoUtility.EmptyRowIsBareLineFeed | src/main/java/bayern/steinbrecher/javaUtility/IOUtility.java:153-161 | An empty row is written as a bare line feed, the same text as a row holding one empty cell. |
| IoUtility.ReadAll | src/main/java/bayern/steinbrecher/javaUtility/IOUtility.java:41-90 | If the loop ends, it ends at the first event that stops it: end of stream, a failed or interrupted read, or a second timeout in a row. The output is every data chunk before that event, in order. If the loop does not end, no event stops it and the output is all chunks. |
| IoUtility.TimeoutStopsOnlyWhenRepeated | src/main/java/bayern/steinbrecher/javaUtility/IOUtility.java:76-85 | A reading of the stop condition `StopsAt` that the contract of `ReadAll` is stated with: a timeout stops the loop exactly when the event before it was a timeout too. |
| IoUtility.DataResetsTimeout | src/main/java/bayern/steinbrecher/javaUtility/IOUtility.java:66-85 | A reading of the stop condition `StopsAt` that the contract of `ReadAll` is stated with: in timeout, data, timeout, neither the data event nor the second timeout stops the loop. |
| SupplyingMaps.NewSupplyingMap | src/main/java/bayern/steinbrecher/javaUtility/SupplyingMap.java:27-31 | A null supplier is rejected with the `NullPointerException` message of the source. Otherwise the map starts empty with the given supplier. |
| SupplyingMaps.Get | src/main/java/bayern/steinbrecher/javaUtility/SupplyingMap.java:48-54 | On a present key, returns the stored value and leaves the map unchanged. On an absent key, stores and returns `supplier(key)`. Afterwards the key is present and bound to the result, the key set grew by at most that key, and every other binding is unchanged. |
| SupplyingMaps.GetIdempotent | src/main/java/bayern/steinbrecher/javaUtility/SupplyingMap.java:48-54 | A second `get` of the same key returns the same value and leaves the map as the first left it. |
| SupplyingMaps.GetAllGrowsMap | src/main/java/bayern/steinbrecher/javaUtility/SupplyingMap.java:48-54 | After a series of `get`s: the key set is the old keys plus those read; old bindings are kept; new keys hold their supplied values; every read returned the key's final binding. |
| XmlUtility.CreateLineInjective | src/main/java/bayern/steinbrecher/javaUtility/XMLUtility.java:66-68 | A formatted problem line determines the line number and the message it was made from. |
| XmlUtility.CreateLine | src/main/java/bayern/steinbrecher/javaUtility/XMLUtility.java:66-68 | A problem line starts with `"line: "` and ends with the problem's message. |
| XmlUtility.Record | src/main/java/bayern/steinbrecher/javaUtility/XMLUtility.java:72 | `get(key).add(line)` appends the line to the key's list, starting from the supplied empty list when the key was absent, and keeps the supplier. |
| XmlUtility.EmptyProblems | src/main/java/bayern/steinbrecher/javaUtility/XMLUtility.java:63 | The problem map starts with no entries, and its supplier gives an empty list for every key. |
| XmlUtility.Handle | src/main/java/bayern/steinbrecher/javaUtility/XMLUtility.java:71-85 | A callback appends the problem's line to the list under its severity's key, or to the list the map's supplier gives when the key was absent, adds that key and no other, and leaves the other keys' lists and the supplier alone. The flag stays set only if it was set and the problem was a warning. |
| XmlUtility.Validate | src/main/java/bayern/steinbrecher/javaUtility/XMLUtility.java:92-101 | Without a validator exception nothing changes. With one, the flag is cleared and the exception's message is appended under `fatalError (discontinue)`, to the existing list or to the list the supplier gives, adding only that key and leaving the other keys' lists alone. |
| XmlUtility.ParseByCategory | src/main/java/bayern/steinbrecher/javaUtility/XMLUtility.java:63-85 | After the callbacks, the map holds only the keys `warning`, `error` and `fatalError`. Each of them is present exactly when some problem of that severity arrived, and then holds those problems' lines in arrival order. The flag is still set exactly when every problem was a warning. |
| XmlUtility.CategoryOrderAscending | src/main/java/bayern/steinbrecher/javaUtility/XMLUtility.java:105 | Under `String.compareTo` the four keys ascend as `error`, `fatalError`, `fatalError (discontinue)`, `warning`. |
| XmlUtility.PrefixComesFirst | src/main/java/bayern/steinbrecher/javaUtility/XMLUtility.java:105 | Under `String.compareTo`, a string comes before every proper extension of it. |
| XmlUtility.CompareTo | src/main/java/bayern/steinbrecher/javaUtility/XMLUtility.java:105 | `String.compareTo` gives 0 exactly for equal strings. |
| XmlUtility.CompareToAntisymmetric | src/main/java/bayern/steinbrecher/javaUtility/XMLUtility.java:105 | Swapping the arguments of `String.compareTo` negates the result, so the sort order of the keys is well defined. |
| XmlUtility.SortedKeysSorted | src/main/java/bayern/steinbrecher/javaUtility/XMLUtility.java:103-105 | For a map holding only category keys, the sorted key list contains exactly the map's keys, in strictly ascending `compareTo` order. |
| XmlUtility.ValidatedKeysSorted | src/main/java/bayern/steinbrecher/javaUtility/XMLUtility.java:103-105 | For the very map `isValidXML` sorts, after all callbacks and the validator, the sorted key list holds exactly its keys in strictly ascending `compareTo` order. |
| XmlUtility.ReportAsExpected | src/main/java/bayern/steinbrecher/javaUtility/XMLUtility.java:92-107 | The flattened sorted map gives: the error lines, then the fatal-error lines, then the validator's message, then the warnings. Each line is prefixed by its key and `": "`, and each group keeps arrival order. |
| XmlUtility.IsValidXml | src/main/java/bayern/steinbrecher/javaUtility/XMLUtility.java:63-117 | The result is empty exactly when no error, fatal error or validator exception occurred. Otherwise it is that report, lines joined by `"\n"` with no trailing line feed. |
| Text.Join | src/main/java/bayern/steinbrecher/javaUtility/XMLUtility.java:107 | `Collectors.joining`: no parts give the empty string, and the result starts with the first part. |
| Text.JoinSeparatorsAndLast | src/main/java/bayern/steinbrecher/javaUtility/XMLUtility.java:107 | With two or more parts a separator follows the first part, and the joined string ends with the last part. |
| CompareUtility.Clamp | src/main/java/bayern/steinbrecher/javaUtility/CompareUtility.java:12-22 | The result is one of the three arguments. A value below `min` gives `min` (whatever `max` is), a value not below `min` but above `max` gives `max`, and a value between the bounds is returned unchanged. |
| CompareUtility.ClampWithinBounds | src/main/java/bayern/steinbrecher/javaUtility/CompareUtility.java:12-22 | For a comparator that obeys the `Comparable` contract and `min <= max`, the result lies in `[min, max]`. |
| CompareUtility.ClampIdempotent | src/main/java/bayern/steinbrecher/javaUtility/CompareUtility.java:12-22 | For `min <= max`, clamping twice equals clamping once. |
| CompareUtility.ClampInvertedBounds | src/main/java/bayern/steinbrecher/javaUtility/CompareUtility.java:14-17 | For `min > max`, values below `min` give `min` and all other values give `max`. |
| CompareUtility.ClampIntegers | src/main/java/bayern/steinbrecher/javaUtility/CompareUtility.java:12-22 | On integers with `lo <= hi`, `clamp` is `lo` below `lo`, `hi` above `hi`, and the value otherwise. |
| ExceptionalCallables.Call | src/main/java/bayern/steinbrecher/javaUtility/ExceptionalCallable.java:20-30 | A returned value is returned unchanged. A throw always ends in a throw. A throwable that is not an `Exception`, such as an `Error`, escapes the `catch` unchanged. A throwable other than the original is exactly an `UnhandledException` with the fixed message whose cause is the original. |
| ExceptionalCallables.CallRethrowsDeclared | src/main/java/bayern/steinbrecher/javaUtility/ExceptionalCallable.java:23-25 | An exception whose class is `E` or a subclass of it is rethrown as the same object. |
| ExceptionalCallables.CallWrapsUndeclared | src/main/java/bayern/steinbrecher/javaUtility/ExceptionalCallable.java:26-27 | Any other exception is replaced by an `UnhandledException` caused by it. |
| ExceptionalCallables.CallHonoursThrowsClause | src/main/java/bayern/steinbrecher/javaUtility/ExceptionalCallable.java:20-30 | Whatever `call` throws is assignable to `E` or unchecked, given that `UnhandledException` extends `RuntimeException`. |
| ExceptionalCallables.CallWithExceptionIsTransparent | src/main/java/bayern/steinbrecher/javaUtility/ExceptionalCallable.java:20-30 | With `E = Exception`, `call` behaves exactly like `callUnsafe`. |

## Left out

- `PlatformUtility`: cross-thread dispatch onto the JavaFX thread, which is concurrency.
- `IOUtility.readChannelContinuously`: polling of a live SSH channel with sleeps, which is timing-dependent I/O.
- `readAll` plumbing: the per-read `Task` and thread, the 3-second wait and charset decoding. They are replaced by the abstract event sequence.
- `IoUtility.ReadAll`: runs over a finite prefix of the events. A stream that never stops the loop is modelled only up to the end of that prefix, because an infinite loop has no result to state.
- File writing (`FileWriter`, `Path`) in `writeCSV`: it is I/O. The model returns the characters written. `new FileWriter(outputPath.toFile())` (IOUtility.java:143) encodes them with the platform's default charset, and `format.getEncoding()` is never read, so `CSVFormat.encoding` has no effect on what `writeCSV` writes. With a default charset other than UTF-8 even the byte order mark U+FEFF is not written as the bytes EF BB BF. Byte-level encoding is not modelled.
- `IoUtility.ReadAll`: a `Data` event is a chunk the loop actually received. A chunk read by the thread that the loop abandons after a timeout (IOUtility.java:63-64, 76) is lost, and a multi-byte character split across two 1024-byte chunks, each decoded on its own (IOUtility.java:55), is corrupted. Neither loss is modelled.
- `IoUtility.WriteCsv`: rows and cells are never `null` in the model. In Java a `null` row makes the inner loop throw `NullPointerException` (IOUtility.java:154), and a `null` cell makes `writer.write(cell)` throw it (IOUtility.java:158), after the mark, the earlier rows and the earlier cells of the row have been written. That partial output and the exception are not modelled.
- `IoUtility.ReadAll`: the try-with-resources closes the channel and with it the stream (IOUtility.java:43-87). An `IOException` from that close escapes `readAll` and the data read is lost. The model always returns the data.
- `SepaUtility.IsValidMessageId`: the Java pattern's starred group recurses once per character, so on a very long id made of allowed characters `matches` can throw `StackOverflowError` before the length test runs (SepaUtility.java:160-161). The model returns `false` for such an id instead of throwing.
- Logging, everywhere: it is a side effect with no influence on the results.
- `XmlUtility.Parse`: a parser may stop after `fatalError` or go on, and the JDK's default parser throws once the handler returns (XMLUtility.java:95-97). A sequence with `FatalError` events followed by further callbacks models a parser that goes on after fatal errors. The exception that stops a parser is not modelled.
- XML parsing and schema validation in `isValidXML`, and `validateSepaXML`: they are foreign calls into SAX and JAXP. Their outcome enters as the sequence of handler callbacks and the optional validator message.
- Exceptions thrown by `parse` or by `newSchema` propagate out of `isValidXML` unchanged. The model starts after parsing.
- `SepaUtility.getSepaDate`: a thin wrapper over `DateTimeFormatter`.
- `SupplyingMap.getEntrySupplier`: it is the `entrySupplier` field of the datatype.
- The unused SEPA constants `UNIQUE_DAYS_MESSAGEID`, `UNIQUE_MONTH_PMTINFID`, `MAX_CHAR_PMTINFID` and `MAX_CHAR_NAME_FIELD`: no modelled operation reads them.
- Java `char` is a UTF-16 code unit while Dafny's `char` is a Unicode scalar value. Surrogate pairs are not modelled.
- `\d` is read as ASCII `0-9`, which is Java's default without `UNICODE_CHARACTER_CLASS`.
- Dialogs, stages, controllers and bindings (`DialogFactory`, `DialogGenerator`, `DialogUtility`, `StageFactory`, `ControllerUtility`, `BindingUtility`): JavaFX user-interface glue.
- `ExceptionalCallables.Call`: class identity is a class name and the subclass relation is a parameter. `Class.isAssignableFrom` and the JVM class hierarchy are not modelled.
- `CompareUtility.Clamp`: a `null` argument, which makes `compareTo` throw, is not modelled.
- `CsvFormats.NewCsvFormat`: the constructor's `assert` is a precondition. With assertions disabled, Java also builds formats that violate it.
