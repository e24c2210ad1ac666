# Elasticsearch bulk writer: a Dafny model

This project models the batch-assembly path of jmxtrans's Elasticsearch output
writer (`ElasticWriter`). One write cycle (`internalWrite`) does five things.
It keeps only the query results whose value is numeric. It maps each kept
result to a flat document. It names the destination index as the root prefix
followed by the date as `yyyy-MM-dd`. It appends an action-header line and a
document line per result to the bulk buffer. It then drains the buffer into
one POST to `<connectionUrl>/_bulk` and classifies the backend's status code.

Modules, leaves first:

- `Wrappers`: `Option`, the stand-in for nullable references.
- `Text`: splitting and joining on a separator, newline framing, and decimal
  rendering of numbers the way Java prints them.
- `Json`: the JSON values given to the JSON library, plus the serialiser
  (`Encoder`), of which only newline-freedom is assumed.
- `Samples`: `Server`, `Result` and the sample filter `Kept`.
- `Documents`: the document mapper and the bulk action header.
- `IndexNames`: constructor defaulting (`NewConfig`), date formatting and `IndexName`.
- `Bulk`: the buffer text as line pairs, plus the `BulkBuffer` class with
  `Append` and `Drain`.
- `ElasticWriter`: the loop, `InternalWrite`, the bulk request and the
  response classification.

Some code the writer calls is not part of this model. It enters as the
fields of `ElasticWriter.Env`:

- `isNumeric` (jmxtrans's `NumberUtils`): an arbitrary predicate. jmxtrans applies it to the value object; the model applies it to the value's text (see "## Left out").
- `Double.parseDouble`: an arbitrary partial function to an opaque `Double`.
- The fastjson serialiser: an arbitrary `Json -> string` function.

Two further inputs replace outside calls:

- The clock is a parameter `clock: nat -> Date`. It gives the date of the k-th
  `getDate()` call of the cycle, and the writer calls `getDate()` once per kept result.
- The HTTP response is an input value (`Response`): a status code and an optional body.

Where the writer's intended design and its code differ, the model follows the code:

- A value that passes `isNumeric` but makes `Double.parseDouble` throw does
  not just lose that one sample. The exception leaves `internalWrite`, so no
  request is sent. The pairs already appended stay in the buffer and go out
  with the next cycle's drain (`InternalWrite`, `FailsAt`).
- A cycle with no numeric results still posts, with an empty body. The buffer
  is never checked for emptiness before the post.
- When the response has no body, the exception message is not the bare
  status code. It is `"Elasticsearch status code was: "` followed by the code.

## Model

| member | source | states |
|---|---|---|
| Samples.Kept | jmxtrans-output/jmxtrans-output-elastic/src/main/java/com/googlecode/jmxtrans/model/output/elastic/ElasticWriter.java:112-114 | every submitted result has a numeric value, and no more results are submitted than were received |
| Samples.KeptMembers | jmxtrans-output/jmxtrans-output-elastic/src/main/java/com/googlecode/jmxtrans/model/output/elastic/ElasticWriter.java:112-114 | a result is submitted if and only if it is one of the inputs and its value is numeric |
| Samples.KeptAppend | jmxtrans-output/jmxtrans-output-elastic/src/main/java/com/googlecode/jmxtrans/model/output/elastic/ElasticWriter.java:112-147 | filtering a concatenation is concatenating the filtered parts, so input order is kept and each result is judged independently of the others |
| Samples.SkipNonNumeric | jmxtrans-output/jmxtrans-output-elastic/src/main/java/com/googlecode/jmxtrans/model/output/elastic/ElasticWriter.java:144-146 | a non-numeric result contributes nothing, and the results after it are still processed |
| Samples.KeptAllNumeric | jmxtrans-output/jmxtrans-output-elastic/src/main/java/com/googlecode/jmxtrans/model/output/elastic/ElasticWriter.java:112-114 | when every value is numeric, every result is submitted, in order |
| Documents.Nullable | jmxtrans-output/jmxtrans-output-elastic/src/main/java/com/googlecode/jmxtrans/model/output/elastic/ElasticWriter.java:116 | a null alias becomes a JSON null, and a present one becomes the same string |
| Documents.Document | jmxtrans-output/jmxtrans-output-elastic/src/main/java/com/googlecode/jmxtrans/model/output/elastic/ElasticWriter.java:115-126 | a document has exactly the eleven fields serverAlias, server, port, objDomain, className, typeName, attributeName, valuePath, keyAlias, value and timestamp |
| Documents.DocumentFields | jmxtrans-output/jmxtrans-output-elastic/src/main/java/com/googlecode/jmxtrans/model/output/elastic/ElasticWriter.java:116-126 | each field holds its own source unchanged: serverAlias the server's alias (JSON null when absent), server its host, port its port; objDomain, className, typeName, attributeName and keyAlias (null when absent) the result's field of that name; valuePath the `/`-joined value path; value the parsed double; timestamp the epoch |
| Documents.DocumentFaithful | jmxtrans-output/jmxtrans-output-elastic/src/main/java/com/googlecode/jmxtrans/model/output/elastic/ElasticWriter.java:115-126 | two documents are equal if and only if they agree on server, parsed value, joined path and every copied result field: the mapper loses nothing it copies |
| Documents.JoinPathRoundTrip | jmxtrans-output/jmxtrans-output-elastic/src/main/java/com/googlecode/jmxtrans/model/output/elastic/ElasticWriter.java:123 | when no segment contains `/`, splitting valuePath at `/` gives back one or more segments in order, and an empty value path reads back as a single empty segment |
| Documents.JoinPath | jmxtrans-output/jmxtrans-output-elastic/src/main/java/com/googlecode/jmxtrans/model/output/elastic/ElasticWriter.java:123 | an empty path joins to the empty text; otherwise the text starts with the first segment, and a `/` follows it when there are more segments |
| Documents.JoinPathAmbiguous | jmxtrans-output/jmxtrans-output-elastic/src/main/java/com/googlecode/jmxtrans/model/output/elastic/ElasticWriter.java:123 | the join does not escape: segments `["a/b"]` and `["a","b"]` give the same valuePath |
| Documents.Header | jmxtrans-output/jmxtrans-output-elastic/src/main/java/com/googlecode/jmxtrans/model/output/elastic/ElasticWriter.java:129-135 | after both puts the header has the single key `index`, whose value has exactly the keys `_index` and `_type` |
| Documents.HeaderNamesIndex | jmxtrans-output/jmxtrans-output-elastic/src/main/java/com/googlecode/jmxtrans/model/output/elastic/ElasticWriter.java:67-73 | reading the index back out of a header gives the index it was built for, and its `_type` is `doc` |
| IndexNames.NewConfig | jmxtrans-output/jmxtrans-output-elastic/src/main/java/com/googlecode/jmxtrans/model/output/elastic/ElasticWriter.java:97-103 | a given root prefix is kept, a null one becomes `jmxtrans`, and the index name equals the root prefix |
| IndexNames.FormatDate | jmxtrans-output/jmxtrans-output-elastic/src/main/java/com/googlecode/jmxtrans/model/output/elastic/ElasticWriter.java:104 | a calendar date formats to ten characters with dashes at positions 4 and 7 |
| IndexNames.FormatDateRoundTrip | jmxtrans-output/jmxtrans-output-elastic/src/main/java/com/googlecode/jmxtrans/model/output/elastic/ElasticWriter.java:206-208 | reading the formatted date back as year-month-day gives the date it was made from |
| IndexNames.IndexName | jmxtrans-output/jmxtrans-output-elastic/src/main/java/com/googlecode/jmxtrans/model/output/elastic/ElasticWriter.java:131 | the index name starts with the configured index name, and for a calendar date exactly 10 characters follow it |
| IndexNames.IndexNameParts | jmxtrans-output/jmxtrans-output-elastic/src/main/java/com/googlecode/jmxtrans/model/output/elastic/ElasticWriter.java:131 | an index name starts with the configured index name, and the rest reads back as the date (10 more characters for a calendar date) |
| IndexNames.IndexNameInjective | jmxtrans-output/jmxtrans-output-elastic/src/main/java/com/googlecode/jmxtrans/model/output/elastic/ElasticWriter.java:131 | under one prefix, two dates give the same index if and only if they are the same date |
| IndexNames.FormatExampleDate | jmxtrans-output/jmxtrans-output-elastic/src/main/java/com/googlecode/jmxtrans/model/output/elastic/ElasticWriter.java:104 | 2024-03-05 is formatted as `2024-03-05`, with month and day zero-padded |
| IndexNames.IndexNameExamples | jmxtrans-output/jmxtrans-output-elastic/src/main/java/com/googlecode/jmxtrans/model/output/elastic/ElasticWriter.java:97-100 | prefix `metrics` on 2024-03-05 gives `metrics2024-03-05`, and no prefix gives `jmxtrans2024-03-05` |
| Bulk.PairLines | jmxtrans-output/jmxtrans-output-elastic/src/main/java/com/googlecode/jmxtrans/model/output/elastic/ElasticWriter.java:137-142 | the buffer has two lines per pair: line 2i is the i-th header and line 2i+1 the i-th document |
| Bulk.AppendPair | jmxtrans-output/jmxtrans-output-elastic/src/main/java/com/googlecode/jmxtrans/model/output/elastic/ElasticWriter.java:138-141 | an append keeps the earlier text, then adds the encoded header, a newline, the encoded document and a final newline, and nothing else |
| Bulk.AppendPairExtends | jmxtrans-output/jmxtrans-output-elastic/src/main/java/com/googlecode/jmxtrans/model/output/elastic/ElasticWriter.java:137-142 | the four appends leave a buffer of the same shape holding one more pair at the end, with earlier text untouched |
| Bulk.PayloadFraming | jmxtrans-output/jmxtrans-output-elastic/src/main/java/com/googlecode/jmxtrans/model/output/elastic/ElasticWriter.java:138-141 | with a newline-free encoder, splitting the buffer into newline-terminated lines gives exactly the header/document lines; it has 2 newlines per pair, and is empty if and only if there are no pairs |
| Bulk.BulkBuffer.Append | jmxtrans-output/jmxtrans-output-elastic/src/main/java/com/googlecode/jmxtrans/model/output/elastic/ElasticWriter.java:137-142 | appending adds header, newline, document, newline to the text and records one more pair |
| Bulk.BulkBuffer.Drain | jmxtrans-output/jmxtrans-output-elastic/src/main/java/com/googlecode/jmxtrans/model/output/elastic/ElasticWriter.java:150-153 | a drain returns all text appended since the last drain and leaves the buffer empty |
| Bulk.DrainTwice | jmxtrans-output/jmxtrans-output-elastic/src/main/java/com/googlecode/jmxtrans/model/output/elastic/ElasticWriter.java:150-153 | a second drain with no append in between returns the empty text |
| ElasticWriter.Start | jmxtrans-output/jmxtrans-output-elastic/src/main/java/com/googlecode/jmxtrans/model/output/elastic/ElasticWriter.java:176-184 | a started writer has an empty buffer |
| ElasticWriter.JavaText | jmxtrans-output/jmxtrans-output-elastic/src/main/java/com/googlecode/jmxtrans/model/output/elastic/ElasticWriter.java:155 | a present string is rendered as itself and a null one as `null` |
| ElasticWriter.BulkUrl | jmxtrans-output/jmxtrans-output-elastic/src/main/java/com/googlecode/jmxtrans/model/output/elastic/ElasticWriter.java:155 | the request goes to the connection URL followed by `/_bulk`; a null connection URL gives `null/_bulk`, as Java's string concatenation renders null |
| ElasticWriter.Classify | jmxtrans-output/jmxtrans-output-elastic/src/main/java/com/googlecode/jmxtrans/model/output/elastic/ElasticWriter.java:165-171 | the write completes if and only if the status is 200, whatever the body; otherwise it throws ElasticWriterException, whose message is the body if present, else the fixed prefix followed by text that reads back as the status code |
| ElasticWriter.StatusMessage | jmxtrans-output/jmxtrans-output-elastic/src/main/java/com/googlecode/jmxtrans/model/output/elastic/ElasticWriter.java:169 | the message is the fixed prefix followed by at least one character, and that character is a minus sign exactly when the status code is negative |
| ElasticWriter.StatusMessageNamesCode | jmxtrans-output/jmxtrans-output-elastic/src/main/java/com/googlecode/jmxtrans/model/output/elastic/ElasticWriter.java:169 | the status-code message starts with `Elasticsearch status code was: `, and its remainder reads back as the code, negative codes included |
| ElasticWriter.ClassifyExamples | jmxtrans-output/jmxtrans-output-elastic/src/main/java/com/googlecode/jmxtrans/model/output/elastic/ElasticWriter.java:165-167 | status 500 with body `cluster red` throws with message `cluster red`, and status 200 completes whatever the body |
| ElasticWriter.AppendResult | jmxtrans-output/jmxtrans-output-elastic/src/main/java/com/googlecode/jmxtrans/model/output/elastic/ElasticWriter.java:113-146 | one loop step skips a non-numeric result and appends the pair of a numeric one whose value parses, leaving the buffer as the pairs of all kept results so far; a failing parse is reported with the buffer unchanged |
| ElasticWriter.AppendResults | jmxtrans-output/jmxtrans-output-elastic/src/main/java/com/googlecode/jmxtrans/model/output/elastic/ElasticWriter.java:112-147 | the loop ends normally if and only if every kept value parses, and the buffer then holds one pair per kept result, in order; otherwise it stops at the first failing parse, with exactly the earlier kept results' pairs appended |
| ElasticWriter.PairsContent | jmxtrans-output/jmxtrans-output-elastic/src/main/java/com/googlecode/jmxtrans/model/output/elastic/ElasticWriter.java:115-135 | one pair per kept result, in order; the i-th header names the index for the i-th clock reading, and the i-th document has the eleven keys and holds the i-th kept result's parsed value and epoch |
| ElasticWriter.FailureIsFinal | jmxtrans-output/jmxtrans-output-elastic/src/main/java/com/googlecode/jmxtrans/model/output/elastic/ElasticWriter.java:125 | a kept value that fails to parse means the kept results as a whole do not all parse |
| ElasticWriter.InternalWrite | jmxtrans-output/jmxtrans-output-elastic/src/main/java/com/googlecode/jmxtrans/model/output/elastic/ElasticWriter.java:110-172 | if every kept value parses, the buffer is drained into exactly one POST (sent even when empty), whose body is the earlier buffer text followed by one pair per kept result, and the response is classified; otherwise the first failing result's NumberFormatException is thrown, nothing is posted and the earlier pairs stay in the buffer |
| ElasticWriter.CycleLines | jmxtrans-output/jmxtrans-output-elastic/src/main/java/com/googlecode/jmxtrans/model/output/elastic/ElasticWriter.java:129-142 | from an empty buffer, the posted body has exactly 2 × (kept results) lines; line 2i is the header for the index of the i-th date read and line 2i+1 the i-th kept result's document |
| ElasticWriter.OneIndexPerDate | jmxtrans-output/jmxtrans-output-elastic/src/main/java/com/googlecode/jmxtrans/model/output/elastic/ElasticWriter.java:131 | if the clock gives the same date throughout a cycle, every header names the same index, prefix plus that date |
| ElasticWriter.EndToEndExample | jmxtrans-output/jmxtrans-output-elastic/src/main/java/com/googlecode/jmxtrans/model/output/elastic/ElasticWriter.java:112-146 | of a numeric result followed by a non-numeric one, only the first is kept, and it yields exactly one pair |

## Left out

- HTTP transport: `HttpClients`, `HttpPost`, `StringEntity` and `EntityUtils` are library code. The request is a value (URL, content type, body text), the response is an input, and the UTF-8 encoding of the body and any `IOException` from `execute` are not modelled.
- The `synchronized (bulkBuilder)` blocks: appends and drains are modelled as atomic steps of one sequential cycle. Interleavings with other producer threads are not modelled.
- `isNumeric` and `Double.parseDouble`: their parsing rules are not part of this model. They are arbitrary functions on the value's `toString()` text, and the parsed double is an opaque bit pattern.
- Samples.Kept: jmxtrans calls `isNumeric` on the value object, not on its text (line 114). The model keeps only the value's `toString()` text, so it judges two values with the same text alike. A null value cannot be represented, and neither can the `NullPointerException` that its `toString()` call would throw.
- The `BulkBuffer` class models the `StringBuilder` with its pair history. The cycle (`InternalWrite`) does not call the class. It works on the same text held as `Writer.buffer`, performs the appends with `AppendPair` and the drain inline. `AppendPairExtends` is what both build on: an append to a buffer holding some pairs gives a buffer holding one more.
- fastjson serialisation: the text is produced by an arbitrary encoder. Its `HashMap` key order, its treatment of null-valued fields, and its escaping are not modelled. The only assumption is that it writes no raw newline, and only the framing lemmas need that.
- `SimpleDateFormat` and `new Date()`: the current date, in the JVM's default time zone, is supplied by `clock`.
- The double `EntityUtils.toString` read of the response body (the debug log and then the exception message): its result depends on how the HTTP library consumes streams. The model assumes the message is the body.
- Calling `internalWrite` before `start`, when the buffer is still null, is not modelled. Only a started writer exists in the model.
- The `query` argument is unused by the writer, so it is not modelled.
- `close`, `validateSetup`, `toString`, logging, and the constructor parameters handed to the base writer (`typeNames`, `booleanAsNumber`, `debug`, `settings`, plus the unused `username` and `password`) have no behaviour on this path.
- Document: the result's string fields other than `keyAlias`, and the value-path segments, are non-null strings. A null segment would make Guava's `Joiner` throw, and that case is not modelled.
- Document: the timestamp is an unbounded integer. Java's 64-bit `long` never wraps here, because it is only copied.
