/**
 The inputs of one write cycle, as jmxtrans delivers them: the monitored
 server and the query's results. The sample filter keeps the results whose
 value the numeric test accepts.
 */
module Samples {
  import opened Wrappers

  /** `Server`: `alias` may be null in jmxtrans; `port` is kept as the text jmxtrans stores. */
  datatype Server = Server(alias: Option<string>, host: string, port: string)

  /** `Result`: one sample. `value` is the text of the value object (`toString()`),
      `epoch` the collection timestamp in milliseconds. */
  datatype Result = Result(
    objDomain: string,
    className: string,
    typeName: string,
    attributeName: string,
    valuePath: seq<string>,
    keyAlias: Option<string>,
    value: string,
    epoch: int)

  /** The results the writer submits, in input order: those whose value is numeric. */
  function Kept(isNumeric: string -> bool, results: seq<Result>): (kept: seq<Result>)
    ensures |kept| <= |results|
    ensures forall i :: 0 <= i < |kept| ==> isNumeric(kept[i].value)
  {
    if |results| == 0 then []
    else (if isNumeric(results[0].value) then [results[0]] else []) + Kept(isNumeric, results[1..])
  }

  /** A result is kept exactly when it is one of the inputs and its value is numeric. */
  lemma {:induction false} KeptMembers(isNumeric: string -> bool, results: seq<Result>)
    ensures forall r :: r in Kept(isNumeric, results) <==> r in results && isNumeric(r.value)
    decreases |results|
  {
    if |results| > 0 {
      KeptMembers(isNumeric, results[1..]);
      assert results == [results[0]] + results[1..];
    }
  }

  /** Filtering distributes over concatenation: order is preserved, and what
      one result does has no effect on how the others are filtered. */
  lemma {:induction false} KeptAppend(isNumeric: string -> bool, a: seq<Result>, b: seq<Result>)
    ensures Kept(isNumeric, a + b) == Kept(isNumeric, a) + Kept(isNumeric, b)
    decreases |a|
  {
    if |a| == 0 {
      assert a + b == b;
    } else {
      assert (a + b)[1..] == a[1..] + b;
      KeptAppend(isNumeric, a[1..], b);
    }
  }

  /** A non-numeric result is skipped and the results after it are still processed. */
  lemma SkipNonNumeric(isNumeric: string -> bool, r: Result, rest: seq<Result>)
    requires !isNumeric(r.value)
    ensures Kept(isNumeric, [r] + rest) == Kept(isNumeric, rest)
  {
    assert ([r] + rest)[1..] == rest;
  }

  /** When every value is numeric nothing is dropped. */
  lemma {:induction false} KeptAllNumeric(isNumeric: string -> bool, results: seq<Result>)
    requires forall i :: 0 <= i < |results| ==> isNumeric(results[i].value)
    ensures Kept(isNumeric, results) == results
    decreases |results|
  {
    if |results| > 0 {
      KeptAllNumeric(isNumeric, results[1..]);
    }
  }

  /** Extending the processed prefix by one result. */
  lemma KeptSnoc(isNumeric: string -> bool, results: seq<Result>, i: nat)
    requires i < |results|
    ensures Kept(isNumeric, results[..i + 1])
         == Kept(isNumeric, results[..i]) + (if isNumeric(results[i].value) then [results[i]] else [])
  {
    assert results[..i + 1] == results[..i] + [results[i]];
    KeptAppend(isNumeric, results[..i], [results[i]]);
  }
}
