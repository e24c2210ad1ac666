/**
 One write cycle of the Elasticsearch output writer (`internalWrite`): filter
 the results, map each numeric one to a header and a document, append both to
 the bulk buffer, drain the buffer into one bulk request, and classify the
 backend's response.
 */
module ElasticWriter {
  import opened Wrappers
  import opened Text
  import opened Json
  import opened Samples
  import opened Documents
  import opened IndexNames
  import opened Bulk

  const BULK_ENDPOINT := "/_bulk"
  const CONTENT_TYPE := "application/x-ndjson"
  const SC_OK := 200
  const STATUS_MESSAGE_PREFIX := "Elasticsearch status code was: "

  /** The code the writer calls but that is not part of this model: the
      numeric test on a value's text, `Double.parseDouble` (partial: it may
      throw), and the JSON serialiser. */
  datatype Env = Env(
    isNumeric: string -> bool,
    parseDouble: string -> Option<Double>,
    encode: Encoder)

  /** A started writer: its configuration and the bulk buffer's text. */
  datatype Writer = Writer(config: Config, buffer: string)

  /** `start`: the writer begins with an empty buffer. */
  function Start(config: Config): (w: Writer)
    ensures w.config == config && w.buffer == ""
  {
    Writer(config, "")
  }

  datatype Request = Request(url: string, contentType: string, entity: string)

  /** The backend's answer: a status code and an optional body. */
  datatype Response = Response(statusCode: int, entity: Option<string>)

  datatype WriteError =
    | NumberFormatException(text: string)
    | ElasticWriterException(message: string)

  /** How `internalWrite` ends: normally, or by throwing. */
  datatype Outcome = Completed | Thrown(error: WriteError)

  /** Java string concatenation renders a null reference as `"null"`. */
  function JavaText(s: Option<string>): (t: string)
    ensures s.Some? ==> t == s.value
    ensures s.None? ==> t == "null"
  {
    s.GetOr("null")
  }

  /** The bulk endpoint of the configured connection URL. */
  function BulkUrl(config: Config): (url: string)
    ensures config.connectionUrl.Some? ==> url == config.connectionUrl.value + "/_bulk"
    ensures config.connectionUrl.None? ==> url == "null/_bulk"
  {
    JavaText(config.connectionUrl) + BULK_ENDPOINT
  }

  /** The exception message for a response without a body: the fixed prefix,
      then the status code in decimal, with a minus sign exactly when it is negative. */
  function StatusMessage(statusCode: int): (m: string)
    ensures |STATUS_MESSAGE_PREFIX| < |m| && m[..|STATUS_MESSAGE_PREFIX|] == STATUS_MESSAGE_PREFIX
    ensures m[|STATUS_MESSAGE_PREFIX|] == '-' <==> statusCode < 0
  {
    STATUS_MESSAGE_PREFIX + IntToString(statusCode)
  }

  /** The status-code message names the status code it was made from. */
  lemma StatusMessageNamesCode(statusCode: int)
    ensures StatusMessage(statusCode)[..|STATUS_MESSAGE_PREFIX|] == STATUS_MESSAGE_PREFIX
    ensures ParseInt(StatusMessage(statusCode)[|STATUS_MESSAGE_PREFIX|..]) == Some(statusCode)
  {
    assert StatusMessage(statusCode)[|STATUS_MESSAGE_PREFIX|..] == IntToString(statusCode);
    IntToStringRoundTrip(statusCode);
  }

  /** Status 200 completes whatever the body; any other status throws an
      `ElasticWriterException` carrying the body if there is one, else the
      status-code message. */
  function Classify(response: Response): (o: Outcome)
    ensures o.Completed? <==> response.statusCode == SC_OK
    ensures o.Thrown? ==> o.error.ElasticWriterException?
    ensures o.Thrown? && response.entity.Some? ==> o.error.message == response.entity.value
    ensures o.Thrown? && response.entity.None? ==>
      && |STATUS_MESSAGE_PREFIX| <= |o.error.message|
      && o.error.message[..|STATUS_MESSAGE_PREFIX|] == STATUS_MESSAGE_PREFIX
      && ParseInt(o.error.message[|STATUS_MESSAGE_PREFIX|..]) == Some(response.statusCode)
  {
    if response.statusCode != SC_OK then
      match response.entity
      case Some(body) => Thrown(ElasticWriterException(body))
      case None =>
        StatusMessageNamesCode(response.statusCode);
        Thrown(ElasticWriterException(StatusMessage(response.statusCode)))
    else Completed
  }

  /** Every value in `rs` parses as a double. */
  predicate AllParse(env: Env, rs: seq<Result>)
  {
    forall i :: 0 <= i < |rs| ==> env.parseDouble(rs[i].value).Some?
  }

  /** The pairs a cycle appends for the kept results `kept`: the i-th one goes
      to the index named with the i-th clock reading of the cycle. */
  function Pairs(env: Env, config: Config, server: Server, kept: seq<Result>, clock: nat -> Date): (pairs: seq<Pair>)
    requires AllParse(env, kept)
    ensures |pairs| == |kept|
  {
    seq(|kept|, i requires 0 <= i < |kept| =>
      Pair(Header(IndexName(config.indexName, clock(i))),
           Document(server, kept[i], env.parseDouble(kept[i].value).value)))
  }

  /** The i-th pair goes to the index of the i-th clock reading, and its
      document records the i-th kept result's parsed value and epoch. */
  lemma PairsContent(env: Env, config: Config, server: Server, kept: seq<Result>, clock: nat -> Date)
    requires AllParse(env, kept)
    ensures forall i :: 0 <= i < |kept| ==>
      HeaderIndex(Pairs(env, config, server, kept, clock)[i].header) == Some(IndexName(config.indexName, clock(i)))
    ensures forall i :: 0 <= i < |kept| ==>
      && Pairs(env, config, server, kept, clock)[i].document.JObject?
      && Pairs(env, config, server, kept, clock)[i].document.fields.Keys == DocumentKeys
      && Pairs(env, config, server, kept, clock)[i].document.fields["value"] == JDouble(env.parseDouble(kept[i].value).value)
      && Pairs(env, config, server, kept, clock)[i].document.fields["timestamp"] == JLong(kept[i].epoch)
  {
  }

  lemma PairsSnoc(env: Env, config: Config, server: Server, kept: seq<Result>, r: Result, d: Double, clock: nat -> Date)
    requires AllParse(env, kept) && env.parseDouble(r.value) == Some(d)
    ensures AllParse(env, kept + [r])
    ensures Pairs(env, config, server, kept + [r], clock)
         == Pairs(env, config, server, kept, clock)
            + [Pair(Header(IndexName(config.indexName, clock(|kept|))), Document(server, r, d))]
  {
    assert forall i :: 0 <= i < |kept| ==> (kept + [r])[i] == kept[i];
  }

  /** Result `i` is the first numeric result whose value fails to parse. */
  predicate FailsAt(env: Env, results: seq<Result>, i: int)
  {
    && 0 <= i < |results|
    && env.isNumeric(results[i].value)
    && env.parseDouble(results[i].value).None?
    && AllParse(env, Kept(env.isNumeric, results[..i]))
  }

  /** A failing parse makes the whole kept sequence fail to parse. */
  lemma FailureIsFinal(env: Env, results: seq<Result>, i: int)
    requires FailsAt(env, results, i)
    ensures !AllParse(env, Kept(env.isNumeric, results))
  {
    var kept := Kept(env.isNumeric, results[..i]);
    KeptSnoc(env.isNumeric, results, i);
    KeptAppend(env.isNumeric, results[..i + 1], results[i + 1..]);
    assert results[..i + 1] + results[i + 1..] == results;
    assert Kept(env.isNumeric, results)[|kept|] == results[i];
  }

  /** The buffer holds `before` followed by the pairs of the kept results of `rs`. */
  ghost predicate Filled(env: Env, config: Config, server: Server, rs: seq<Result>,
                         clock: nat -> Date, before: string, buffer: string)
  {
    && AllParse(env, Kept(env.isNumeric, rs))
    && buffer == before + Payload(env.encode, Pairs(env, config, server, Kept(env.isNumeric, rs), clock))
  }

  /** The loop body for one result `r` after the processed results `rs`: a
      non-numeric result is skipped; a numeric one whose value parses has its
      header and document appended; a numeric one whose value does not parse
      makes the parse throw (`parsed` is false) with the buffer untouched. */
  method AppendResult(env: Env, config: Config, server: Server, ghost rs: seq<Result>, r: Result,
                      clock: nat -> Date, ghost before: string, buffer: string, readings: nat)
    returns (buffer': string, readings': nat, parsed: bool)
    requires Filled(env, config, server, rs, clock, before, buffer)
    requires readings == |Kept(env.isNumeric, rs)|
    ensures parsed <==> !env.isNumeric(r.value) || env.parseDouble(r.value).Some?
    ensures parsed ==> Filled(env, config, server, rs + [r], clock, before, buffer')
    ensures parsed ==> readings' == |Kept(env.isNumeric, rs + [r])|
    ensures !parsed ==> buffer' == buffer
  {
    KeptAppend(env.isNumeric, rs, [r]);
    assert [r][1..] == [];
    if !env.isNumeric(r.value) {
      assert Kept(env.isNumeric, rs + [r]) == Kept(env.isNumeric, rs);
      return buffer, readings, true;
    }
    match env.parseDouble(r.value)
    case None =>
      return buffer, readings, false;
    case Some(d) =>
      var p := Pair(Header(IndexName(config.indexName, clock(readings))), Document(server, r, d));
      ghost var kept := Kept(env.isNumeric, rs);
      assert Kept(env.isNumeric, rs + [r]) == kept + [r];
      PairsSnoc(env, config, server, kept, r, d, clock);
      AppendPairExtends(before, env.encode, Pairs(env, config, server, kept, clock), p);
      buffer' := AppendPair(buffer, env.encode, p);
      readings' := readings + 1;
      parsed := true;
  }

  /** The loop of `internalWrite`: each result in order goes through
      `AppendResult`, after the text `before` already in the buffer. Stops at
      the first numeric value that fails to parse, whose position it reports. */
  method AppendResults(env: Env, config: Config, server: Server, results: seq<Result>,
                       clock: nat -> Date, before: string)
    returns (buffer: string, failure: Option<nat>)
    ensures failure.None? <==> AllParse(env, Kept(env.isNumeric, results))
    ensures failure.None? ==>
      buffer == before + Payload(env.encode, Pairs(env, config, server, Kept(env.isNumeric, results), clock))
    ensures failure.Some? ==>
      && FailsAt(env, results, failure.value)
      && buffer == before
           + Payload(env.encode, Pairs(env, config, server, Kept(env.isNumeric, results[..failure.value]), clock))
  {
    buffer := before;
    var readings: nat := 0;
    var i := 0;
    assert results[..0] == [];
    while i < |results|
      invariant 0 <= i <= |results|
      invariant Filled(env, config, server, results[..i], clock, before, buffer)
      invariant readings == |Kept(env.isNumeric, results[..i])|
    {
      assert results[..i + 1] == results[..i] + [results[i]];
      var next, nextReadings, parsed := AppendResult(env, config, server, results[..i], results[i], clock, before, buffer, readings);
      if !parsed {
        FailureIsFinal(env, results, i);
        failure := Some(i);
        return;
      }
      buffer, readings := next, nextReadings;
      i := i + 1;
    }
    assert results[..i] == results;
    failure := None;
  }

  /** `internalWrite(server, query, results)` given the clock readings and the
      backend's response. When every numeric value parses, the buffer is
      drained into one POST to the bulk endpoint (sent even if empty) and the
      response is classified. Otherwise the first failing parse throws: no
      request is made and the pairs appended so far stay in the buffer. */
  method InternalWrite(env: Env, w: Writer, server: Server, results: seq<Result>,
                       clock: nat -> Date, response: Response)
    returns (w': Writer, request: Option<Request>, outcome: Outcome)
    ensures w'.config == w.config
    ensures AllParse(env, Kept(env.isNumeric, results)) ==>
      && w'.buffer == ""
      && request == Some(Request(BulkUrl(w.config), CONTENT_TYPE,
           w.buffer + Payload(env.encode, Pairs(env, w.config, server, Kept(env.isNumeric, results), clock))))
      && outcome == Classify(response)
    ensures !AllParse(env, Kept(env.isNumeric, results)) ==>
      && request == None
      && exists i :: FailsAt(env, results, i)
           && outcome == Thrown(NumberFormatException(results[i].value))
           && w'.buffer == w.buffer
                + Payload(env.encode, Pairs(env, w.config, server, Kept(env.isNumeric, results[..i]), clock))
  {
    var buffer, failure := AppendResults(env, w.config, server, results, clock, w.buffer);
    match failure
    case Some(i) =>
      // Double.parseDouble threw: the exception leaves the loop, the buffer keeps its text
      w', request, outcome := Writer(w.config, buffer), None, Thrown(NumberFormatException(results[i].value));
    case None =>
      // drain: the whole buffer becomes the request entity and the buffer is reset
      var entity := buffer;
      w' := Writer(w.config, "");
      request := Some(Request(BulkUrl(w.config), CONTENT_TYPE, entity));
      outcome := Classify(response);
  }

  /** For a writer whose buffer was empty at the start of the cycle, the
      request entity consists of exactly two newline-terminated lines per
      numeric result, in input order: line 2i is the header naming the index
      for the i-th clock reading, line 2i+1 the document of the i-th kept result. */
  lemma {:induction false} CycleLines(env: Env, config: Config, server: Server, results: seq<Result>, clock: nat -> Date)
    requires NewlineFree(env.encode)
    requires AllParse(env, Kept(env.isNumeric, results))
    ensures var kept := Kept(env.isNumeric, results);
      var lines := Lines("" + Payload(env.encode, Pairs(env, config, server, kept, clock)));
      && |lines| == 2 * |kept|
      && forall i :: 0 <= i < |kept| ==>
           && lines[2 * i] == env.encode(Header(IndexName(config.indexName, clock(i))))
           && lines[2 * i + 1] == env.encode(Document(server, kept[i], env.parseDouble(kept[i].value).value))
  {
    var kept := Kept(env.isNumeric, results);
    var pairs := Pairs(env, config, server, kept, clock);
    assert "" + Payload(env.encode, pairs) == Payload(env.encode, pairs);
    PayloadFraming(env.encode, pairs);
    var lines := PairLines(env.encode, pairs);
    forall i | 0 <= i < |kept|
      ensures lines[2 * i] == env.encode(Header(IndexName(config.indexName, clock(i))))
      ensures lines[2 * i + 1] == env.encode(Document(server, kept[i], env.parseDouble(kept[i].value).value))
    {
      assert pairs[i] == Pair(Header(IndexName(config.indexName, clock(i))),
                              Document(server, kept[i], env.parseDouble(kept[i].value).value));
    }
  }

  /** With the date fixed for the whole cycle, every header names the same index. */
  lemma OneIndexPerDate(env: Env, config: Config, server: Server, kept: seq<Result>, clock: nat -> Date, date: Date)
    requires AllParse(env, kept)
    requires forall k :: clock(k) == date
    ensures forall i :: 0 <= i < |kept| ==>
      HeaderIndex(Pairs(env, config, server, kept, clock)[i].header) == Some(IndexName(config.indexName, date))
  {
    forall i | 0 <= i < |kept|
      ensures HeaderIndex(Pairs(env, config, server, kept, clock)[i].header) == Some(IndexName(config.indexName, date))
    {
      HeaderNamesIndex(IndexName(config.indexName, date));
    }
  }

  /** Of a numeric sample and a non-numeric one, only the first yields a pair. */
  lemma EndToEndExample(env: Env, config: Config, server: Server, good: Result, bad: Result, d: Double, clock: nat -> Date)
    requires env.isNumeric(good.value) && !env.isNumeric(bad.value)
    requires env.parseDouble(good.value) == Some(d)
    ensures Kept(env.isNumeric, [good, bad]) == [good]
    ensures Pairs(env, config, server, [good], clock)
         == [Pair(Header(IndexName(config.indexName, clock(0))), Document(server, good, d))]
  {
    assert [good, bad][1..] == [bad];
  }

  /** A 500 with body "cluster red" throws with that text; a 200 completes whatever the body. */
  lemma ClassifyExamples(body: Option<string>)
    ensures Classify(Response(500, Some("cluster red"))) == Thrown(ElasticWriterException("cluster red"))
    ensures Classify(Response(200, body)) == Completed
  {
  }
}
