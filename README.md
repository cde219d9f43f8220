# general-nio-fileaccess, modelled in Dafny

`GeneralNIOFileAccess.leseFile` reads a file and hands it, unit by unit, to
a `java.util.function.Consumer`. A non-null charset selects text mode and a
null charset binary mode. A block size of zero or less reads the whole file
as one unit. A positive block size reads line by line in text mode, and in
blocks of at most that many bytes in binary mode. A null `clazz` means the
name is a file-system path; otherwise it is a resource of that class.

Four consumers collect what they are given:

- `FullBinaryReadConsumer` concatenates byte arrays.
- `FullTextualReadConsumer` concatenates strings.
- `ReadNxLinesTextConsumer` keeps the first N lines.
- `TransformTxtToCsvConsumer` turns the data block of a fixed-width report
  into `;`-separated records. The block opens at a line starting with
  `---` and closes at a line containing `record(s) selected.`.

Three listing helpers filter a directory walk by entry kind and path text.

The model has one module per source file, plus three shared modules and
one composition module:

| module | file | models |
|---|---|---|
| `GeneralNioFileAccess` | general_nio_file_access.dfy | `leseFile` and the three `holeAlle…` filters |
| `TransformTxtToCsv` | transform_txt_to_csv.dfy | `TransformTxtToCsvConsumer` |
| `ReadNxLines` | read_nx_lines.dfy | `ReadNxLinesTextConsumer` |
| `FullBinaryRead` | full_binary_read.dfy | `FullBinaryReadConsumer` |
| `FullTextualRead` | full_textual_read.dfy | `FullTextualReadConsumer` |
| `JavaLang` | java_lang.dfy | `byte`, and the `String` methods `trim`, `startsWith`, `endsWith` and `contains` |
| `Seqs` | seqs.dfy | sequence helpers |
| `Wrappers` | wrappers.dfy | `Option` and `Result` |
| `ReadPipelines` | read_pipelines.dfy | `leseFile` with each consumer plugged in |

How Java concepts map into the model:

- **Consumers are classes.** Their fields are updated in place by
  `Accept`.
- **Ghost history.** Each consumer keeps a ghost record of the units it has
  accepted since its data was last replaced. Its object invariant `Valid()`
  states its exact state in terms of that history.
- **Loops stay loops.** The column loop of `accept`, the line loop and the
  block loop of `leseFile` are methods with loop invariants. They are
  proved against specification functions.
- **Callback calls.** A consumer's `accept` calls are modelled by the unit
  sequence `LeseFile` returns. The `Feed…` methods make those calls one by
  one.
- **File system.** The file system is a `map` from resolved paths to byte
  contents. A missing file is an error result.
- **`InputStream.read(byte[])`** may return any count between 1 and the
  space left in the buffer. The model leaves that count open, so the
  block properties hold for every admissible stream.
- **Charset decoding and `BufferedReader.readLine`** are function
  parameters. They are library semantics.

`accept` appends `;` after every field, the last one included
(TransformTxtToCsvConsumer.java:47-48), so the line `AAA BBB CCC` with
three 3-wide columns gives `AAA;BBB;CCC;`.

## Model

Source paths are relative to the repository root.

| member | source | states |
|---|---|---|
| JavaLang.TrimWindow | src/main/java/at/diwh/generalnio/consumer/TransformTxtToCsvConsumer.java:47 | `trim` keeps exactly the window between the longest prefix and the longest suffix of chars <= U+0020; everything cut is such a char, and a non-empty window starts and ends with a kept char |
| JavaLang.TrimKeepsAbsence | src/main/java/at/diwh/generalnio/consumer/TransformTxtToCsvConsumer.java:47 | trimming never introduces a char, so a field cut from a line without `;` has no `;` |
| JavaLang.ContainsIffOccurs | src/main/java/at/diwh/generalnio/consumer/TransformTxtToCsvConsumer.java:30 | `contains` holds exactly when the text occurs at some position |
| TransformTxtToCsv.Fields | src/main/java/at/diwh/generalnio/consumer/TransformTxtToCsvConsumer.java:38-52 | a record has one field per dash run of the ruler |
| TransformTxtToCsv.FieldAt | src/main/java/at/diwh/generalnio/consumer/TransformTxtToCsvConsumer.java:43-47 | field k is the trimmed substring between the clamped cut positions of column k |
| TransformTxtToCsv.SpanMonotone | src/main/java/at/diwh/generalnio/consumer/TransformTxtToCsvConsumer.java:39-40 | `endPos` grows by at least one per column |
| TransformTxtToCsv.RulerSize | src/main/java/at/diwh/generalnio/consumer/TransformTxtToCsvConsumer.java:21-23 | the ruler splits into 29 dash runs, none wider than 200 |
| TransformTxtToCsv.SpanBound | src/main/java/at/diwh/generalnio/consumer/TransformTxtToCsvConsumer.java:39-40 | with no column wider than m, `endPos` after k columns is at most k * (m + 1) |
| TransformTxtToCsv.EndPosFitsInt | src/main/java/at/diwh/generalnio/consumer/TransformTxtToCsvConsumer.java:39-45 | before any column the clamped `endPos` is at most 5628 and `endPos + laengeFeld` at most 5829, so the 32-bit `int` arithmetic never wraps |
| TransformTxtToCsv.CutsInRange | src/main/java/at/diwh/generalnio/consumer/TransformTxtToCsvConsumer.java:40-46 | for any line length, 0 <= startPos <= endPos <= length for every column, so `substring` never fails |
| TransformTxtToCsv.SlicesPartition | src/main/java/at/diwh/generalnio/consumer/TransformTxtToCsvConsumer.java:38-49 | the untrimmed slices of the first n columns, concatenated in order, are exactly the line's prefix up to the n-th cut |
| TransformTxtToCsv.SlicesCoverPrefix | src/main/java/at/diwh/generalnio/consumer/TransformTxtToCsvConsumer.java:38-49 | all slices together are the first min(length, sum of width+1) chars; the rest of the line is dropped |
| TransformTxtToCsv.TrailingFieldsEmpty | src/main/java/at/diwh/generalnio/consumer/TransformTxtToCsvConsumer.java:43-48 | columns lying wholly past the end of a short line give empty fields |
| TransformTxtToCsv.TerminateSnoc | src/main/java/at/diwh/generalnio/consumer/TransformTxtToCsvConsumer.java:47-48 | appending a field appends the trimmed text and one `;` |
| TransformTxtToCsv.RecordEndsWithSeparator | src/main/java/at/diwh/generalnio/consumer/TransformTxtToCsvConsumer.java:47-48 | with at least one column, a record is non-empty and ends with `;` |
| TransformTxtToCsv.SplitTerminate | src/main/java/at/diwh/generalnio/consumer/TransformTxtToCsvConsumer.java:47-48 | splitting a `;`-terminated list of `;`-free fields at `;` gives the fields back |
| TransformTxtToCsv.RecordRoundTrip | src/main/java/at/diwh/generalnio/consumer/TransformTxtToCsvConsumer.java:38-53 | a line without `;` gives a record that splits back into exactly its trimmed columns, in order |
| TransformTxtToCsv.RunConcat | src/main/java/at/diwh/generalnio/consumer/TransformTxtToCsvConsumer.java:26-60 | feeding two batches of lines one after the other is feeding their concatenation |
| TransformTxtToCsv.RunAppendOnly | src/main/java/at/diwh/generalnio/consumer/TransformTxtToCsvConsumer.java:53 | the record list is append-only: earlier records never change, each line adds at most one record, and each added record is the record of a fed line |
| TransformTxtToCsv.ThreeColumnRecord | src/main/java/at/diwh/generalnio/consumer/TransformTxtToCsvConsumer.java:38-53 | the line `AAA BBB CCC` with three 3-wide columns becomes `AAA;BBB;CCC;` |
| TransformTxtToCsv.ThreeColumnExample | src/main/java/at/diwh/generalnio/consumer/TransformTxtToCsvConsumer.java:26-60 | noise, header, one data line and the end marker leave the consumer outside a block with that one record |
| TransformTxtToCsv.CsvLine | src/main/java/at/diwh/generalnio/consumer/TransformTxtToCsvConsumer.java:33-53 | the column loop with its clamp computes exactly the line's record |
| TransformTxtToCsv.TxtToCsvConsumer.constructor | src/main/java/at/diwh/generalnio/consumer/TransformTxtToCsvConsumer.java:18-20 | a new consumer is outside a block, with no records and no exceptions |
| TransformTxtToCsv.TxtToCsvConsumer.Accept | src/main/java/at/diwh/generalnio/consumer/TransformTxtToCsvConsumer.java:26-60 | outside a block, a `---` line opens it and any other line changes nothing; inside, a line containing the end marker closes the block and appends nothing; any other line inside (a `---` line too) appends exactly its record and stays inside |
| TransformTxtToCsv.TxtToCsvConsumer.GetData | src/main/java/at/diwh/generalnio/consumer/TransformTxtToCsvConsumer.java:70-72 | the list starts with what it held when last replaced, and each later entry is the record of an accepted line, at most one per line |
| TransformTxtToCsv.TxtToCsvConsumer.SetData | src/main/java/at/diwh/generalnio/consumer/TransformTxtToCsvConsumer.java:75-77 | the record list is replaced and the block state kept; later accepts append to the new list |
| TransformTxtToCsv.TxtToCsvConsumer.GetExceptions | src/main/java/at/diwh/generalnio/consumer/TransformTxtToCsvConsumer.java:65-67 | the exception list is returned by value and is always empty |
| ReadNxLines.KeptIsPrefix | src/main/java/at/diwh/generalnio/consumer/ReadNxLinesTextConsumer.java:38-44 | after k lines the list is the first min(k, max(N, 0)) of them, in delivery order |
| ReadNxLines.KeptSaturates | src/main/java/at/diwh/generalnio/consumer/ReadNxLinesTextConsumer.java:39 | once N lines are stored, further lines change nothing |
| ReadNxLines.ReadNxLinesTextConsumer.constructor | src/main/java/at/diwh/generalnio/consumer/ReadNxLinesTextConsumer.java:26-30 | a new consumer stores N, its counter is 0 and its list empty |
| ReadNxLines.ReadNxLinesTextConsumer.Accept | src/main/java/at/diwh/generalnio/consumer/ReadNxLinesTextConsumer.java:37-44 | below N the line is appended and the counter incremented; at or above N nothing changes; the counter always equals the list length |
| ReadNxLines.ReadNxLinesTextConsumer.GetData | src/main/java/at/diwh/generalnio/consumer/ReadNxLinesTextConsumer.java:56-58 | the list is the first min(k, N) of the k lines accepted, and never longer than max(N, 0) |
| ReadNxLines.ReadNxLinesTextConsumer.GetExceptions | src/main/java/at/diwh/generalnio/consumer/ReadNxLinesTextConsumer.java:49-51 | the exception list is returned by value and is always empty |
| FullBinaryRead.FullBinaryReadConsumer.constructor | src/main/java/at/diwh/generalnio/consumer/FullBinaryReadConsumer.java:18-19 | a new consumer holds no bytes |
| FullBinaryRead.FullBinaryReadConsumer.Accept | src/main/java/at/diwh/generalnio/consumer/FullBinaryReadConsumer.java:21-30 | the array is written after the existing bytes, which stay unchanged |
| FullBinaryRead.FullBinaryReadConsumer.GetData | src/main/java/at/diwh/generalnio/consumer/FullBinaryReadConsumer.java:40-42 | the bytes are the buffer's content when last replaced, followed by every accepted array in acceptance order |
| FullBinaryRead.FullBinaryReadConsumer.SetData | src/main/java/at/diwh/generalnio/consumer/FullBinaryReadConsumer.java:45-47 | the buffer is replaced; later accepts append to the new one |
| FullBinaryRead.FullBinaryReadConsumer.GetExceptions | src/main/java/at/diwh/generalnio/consumer/FullBinaryReadConsumer.java:35-37 | the exception list is returned by value and is always empty |
| FullTextualRead.FullTextualReadConsumer.constructor | src/main/java/at/diwh/generalnio/consumer/FullTextualReadConsumer.java:16-17 | a new consumer holds the empty string |
| FullTextualRead.FullTextualReadConsumer.Accept | src/main/java/at/diwh/generalnio/consumer/FullTextualReadConsumer.java:19-23 | the string is appended: the text grows by exactly its length and keeps its old prefix, so an empty string changes nothing |
| FullTextualRead.FullTextualReadConsumer.GetData | src/main/java/at/diwh/generalnio/consumer/FullTextualReadConsumer.java:33-35 | the text is the builder's content when last replaced, followed by every accepted string in acceptance order |
| FullTextualRead.FullTextualReadConsumer.SetData | src/main/java/at/diwh/generalnio/consumer/FullTextualReadConsumer.java:38-40 | the builder is replaced; later accepts append to the new one |
| FullTextualRead.FullTextualReadConsumer.GetExceptions | src/main/java/at/diwh/generalnio/consumer/FullTextualReadConsumer.java:28-30 | the exception list is returned by value and is always empty |
| GeneralNioFileAccess.EmptyFileNoBlocks | src/main/java/at/diwh/generalnio/core/GeneralNIOFileAccess.java:94 | block mode delivers no block at all for an empty file |
| GeneralNioFileAccess.FullBlocksSplit | src/main/java/at/diwh/generalnio/core/GeneralNIOFileAccess.java:90-98 | a stream that always fills the buffer gives blocks of exactly `blocksize` bytes except the last; this is one admissible delivery among others |
| GeneralNioFileAccess.ByteInputStream.Read | src/main/java/at/diwh/generalnio/core/GeneralNIOFileAccess.java:94 | `read(byte[])` returns 0 for an empty buffer and -1 at the end; otherwise it copies the next n bytes (1 <= n <= min(buffer, left)) to the front of the buffer and leaves the rest untouched |
| GeneralNioFileAccess.ReadBlocks | src/main/java/at/diwh/generalnio/core/GeneralNIOFileAccess.java:90-98 | the trimmed copies of a reused buffer, in delivery order, concatenate to exactly the file's bytes, and each holds 1 to `blocksize` bytes (no zero padding) |
| GeneralNioFileAccess.LineReader.ReadLine | src/main/java/at/diwh/generalnio/core/GeneralNIOFileAccess.java:82 | `readLine` gives the next line, and null once all lines are read |
| GeneralNioFileAccess.ReadLines | src/main/java/at/diwh/generalnio/core/GeneralNIOFileAccess.java:80-85 | the line loop delivers every line, in order, once |
| GeneralNioFileAccess.LeseFile | src/main/java/at/diwh/generalnio/core/GeneralNIOFileAccess.java:71-103 | a missing file fails. Otherwise binary units come exactly when the charset is null, whatever `clazz` is. Text with blocksize > 0 gives the lines. Whole-file mode (blocksize <= 0) gives one unit with all of the content in both modes. Binary blocks split the content |
| GeneralNioFileAccess.PathsWhere | src/main/java/at/diwh/generalnio/core/GeneralNIOFileAccess.java:193 | a filtered listing is never longer than the walk |
| GeneralNioFileAccess.PathsWhereInOrder | src/main/java/at/diwh/generalnio/core/GeneralNIOFileAccess.java:193-194 | the k-th listed path is the path of the k-th accepted walk entry: positions strictly increase and cover every accepted entry, so order is kept and nothing is missed |
| GeneralNioFileAccess.PathsWhereListedInOrder | src/main/java/at/diwh/generalnio/core/GeneralNIOFileAccess.java:193-194 | the filtered listing lists the accepted walk entries' paths in walk order, each once |
| GeneralNioFileAccess.IncreasingSameElements | src/main/java/at/diwh/generalnio/core/GeneralNIOFileAccess.java:193-194 | two strictly increasing position lists with the same elements are equal |
| GeneralNioFileAccess.ListedInOrderUnique | src/main/java/at/diwh/generalnio/core/GeneralNIOFileAccess.java:193-194 | at most one list names the accepted entries in walk order, so no reordering or repetition of the filtered listing qualifies |
| GeneralNioFileAccess.PathsWhereMembers | src/main/java/at/diwh/generalnio/core/GeneralNIOFileAccess.java:193-194 | a path is listed exactly when some accepted walk entry has it |
| GeneralNioFileAccess.HoleAlleFilesMitNameEnthaelt | src/main/java/at/diwh/generalnio/core/GeneralNIOFileAccess.java:188-197 | a path is listed exactly when a regular-file entry of the walk has it and it contains the text, and the listing is in walk order (`ListedInOrder`, which determines the list) |
| GeneralNioFileAccess.HoleAlleUnterverzeichnisseMitNameEnthaelt | src/main/java/at/diwh/generalnio/core/GeneralNIOFileAccess.java:205-214 | a path is listed exactly when a directory entry of the walk has it and it contains the text, and the listing is in walk order (`ListedInOrder`, which determines the list) |
| GeneralNioFileAccess.HoleAlleFilesMitNameEndet | src/main/java/at/diwh/generalnio/core/GeneralNIOFileAccess.java:222-231 | a path is listed exactly when a regular-file entry of the walk has it and it ends with the text, and the listing is in walk order (`ListedInOrder`, which determines the list) |
| ReadPipelines.FeedBinary | src/main/java/at/diwh/generalnio/core/GeneralNIOFileAccess.java:93-96 | accepting each block in turn appends their concatenation |
| ReadPipelines.FeedText | src/main/java/at/diwh/generalnio/core/GeneralNIOFileAccess.java:82-84 | accepting each string in turn appends their concatenation |
| ReadPipelines.FeedFirstN | src/main/java/at/diwh/generalnio/core/GeneralNIOFileAccess.java:82-84 | accepting each line in turn extends the delivered history by those lines |
| ReadPipelines.FeedCsv | src/main/java/at/diwh/generalnio/core/GeneralNIOFileAccess.java:82-84 | accepting each line in turn runs the block state machine over them |
| ReadPipelines.ReadBinaryFile | src/main/java/at/diwh/generalnio/consumer/FullBinaryReadConsumer.java:10-11 | a binary read into a fresh FullBinaryReadConsumer yields exactly the file's bytes for every block size, so block reads and whole-file reads agree; a missing file fails |
| ReadPipelines.ReadTextFile | src/main/java/at/diwh/generalnio/core/GeneralNIOFileAccess.java:79-88 | a text read into a FullTextualReadConsumer yields the decoded file when read whole, and the lines run together without terminators when read by lines |
| ReadPipelines.FirstLinesOfFile | src/main/java/at/diwh/generalnio/core/GeneralNIOFileAccess.java:79-85 | a line read into a ReadNxLinesTextConsumer yields the file's first min(k, N) lines; whole-file mode yields the one decoded unit when N > 0 |
| ReadPipelines.TransformFileToCsv | src/main/java/at/diwh/generalnio/core/GeneralNIOFileAccess.java:79-85 | a line read into a TxtToCsvConsumer yields the state machine's records for the file's lines; whole-file mode yields none, since one whole text never starts a block and then continues it |
| ReadPipelines.LineModeIgnoresBlocksize | src/main/java/at/diwh/generalnio/core/GeneralNIOFileAccess.java:79-85 | in text mode any two positive block sizes give the same units |
| ReadPipelines.ReadEmptyBinaryFile | src/main/java/at/diwh/generalnio/core/GeneralNIOFileAccess.java:90-100 | an empty file gives no unit in block mode and one empty unit in whole-file mode |

## Left out

- `DemoGeneralNIOFileAccess.main`: a console demo of environment variables, temporary paths and sample files.
- Path and resource resolution (`Paths.get`, `getResource(f).toURI()`). These are library calls. A resolved path is a key of the file-system map. A missing resource surfaces as an error result rather than a NullPointerException.
- Charset decoding and `BufferedReader.readLine` line splitting. These are library semantics, passed in as functions. A `MalformedInputException` during decoding is not modelled.
- Stream closing, the missing `finally`, and the unchecked `(T)` casts. Units are typed separately as bytes or strings instead.
- `schreibeFile`, `holeDateibaum` and the `Files.walk` traversal itself. These are file-system I/O. The filters take the walk as a given list of entries with their kind.
- The `System.out.println` tracing in the transformer, and the `FELDNAMEN` / `geteilteFeldnamen` lookup, which only feeds that tracing. The name list has 224 entries for 29 columns, so the lookup cannot fail.
- `TransformTxtToCsv.ColumnWidths`: the dash-run lengths of the ruler line `LAENGENMA` are written out as a constant rather than computed by splitting the 695-character ruler.
- The `IOException` catch in `FullBinaryReadConsumer.accept`. Writing to a `ByteArrayOutputStream` does not raise it, so the exception list stays empty.
- Aliasing through `getData` / `setData`. The lists, buffer and builder are modelled as values, so a caller changing a list obtained from the transformer's `getData` is not modelled. Neither is sharing a `ByteArrayOutputStream` or `StringBuilder` passed to `setData`.
- `ReadNxLines.ReadNxLinesTextConsumer.constructor`: does not model a null `Integer` argument or the private no-argument constructor, which leaves the fields null. Every `accept` on such an object throws.
- `GeneralNioFileAccess.ReadBlocks`: promises blocks of 1 to `blocksize` bytes, not blocks of exactly `blocksize` bytes except the last. `InputStream.read` may return fewer bytes, and `FullBlocksSplit` shows the full-buffer split is only one admissible case.
- Text with supplementary characters. A Dafny `char` is a Unicode scalar value, so a surrogate pair cannot be written as two chars. Java's `length` and `substring` count UTF-16 units, so on such text a column cut can split a pair, and the model does not capture that.
