/**
 The bulk buffer: the text accumulated for one bulk request. Each append adds
 an action-header line and a document line, each ended by a newline; a drain
 hands out the whole text and leaves the buffer empty.
 */
module Bulk {
  import opened Text
  import opened Json

  /** One (action header, document) pair of the bulk payload. */
  datatype Pair = Pair(header: Json, document: Json)

  /** The payload's lines: for each pair, its encoded header then its encoded document. */
  function PairLines(encode: Encoder, pairs: seq<Pair>): (lines: seq<string>)
    ensures |lines| == 2 * |pairs|
    ensures forall i :: 0 <= i < |pairs| ==>
      lines[2 * i] == encode(pairs[i].header) && lines[2 * i + 1] == encode(pairs[i].document)
  {
    if |pairs| == 0 then []
    else [encode(pairs[0].header), encode(pairs[0].document)] + PairLines(encode, pairs[1..])
  }

  /** The text of a buffer holding exactly `pairs`. */
  function Payload(encode: Encoder, pairs: seq<Pair>): string
  {
    Frame(PairLines(encode, pairs))
  }

  /** Appending one pair to the buffer text: header, newline, document, newline.
      The earlier text is kept as it was, and the new text ends in a newline. */
  function AppendPair(content: string, encode: Encoder, p: Pair): (after: string)
    ensures |after| == |content| + |encode(p.header)| + |encode(p.document)| + 2
    ensures after[..|content|] == content
    ensures after[|content|..|content| + |encode(p.header)|] == encode(p.header)
    ensures after[|content| + |encode(p.header)|] == '\n' && after[|after| - 1] == '\n'
  {
    content + encode(p.header) + "\n" + encode(p.document) + "\n"
  }

  lemma {:induction false} PairLinesAppend(encode: Encoder, pairs: seq<Pair>, p: Pair)
    ensures PairLines(encode, pairs + [p]) == PairLines(encode, pairs) + [encode(p.header), encode(p.document)]
    decreases |pairs|
  {
    if |pairs| == 0 {
      assert pairs + [p] == [p];
    } else {
      assert (pairs + [p])[1..] == pairs[1..] + [p];
      PairLinesAppend(encode, pairs[1..], p);
    }
  }

  /** Appending a pair to a buffer that holds `pairs` after some earlier text
      `before` yields a buffer holding `pairs + [p]` after the same text. */
  lemma AppendPairExtends(before: string, encode: Encoder, pairs: seq<Pair>, p: Pair)
    ensures AppendPair(before + Payload(encode, pairs), encode, p) == before + Payload(encode, pairs + [p])
  {
    var h, d := encode(p.header), encode(p.document);
    PairLinesAppend(encode, pairs, p);
    FrameAppend(PairLines(encode, pairs), [h, d]);
    assert Frame([h, d]) == h + "\n" + (d + "\n" + "") by {
      assert [h, d][1..] == [d];
      assert Frame([d]) == d + "\n" + Frame([]);
    }
  }

  lemma {:induction false} PairLinesNewlineFree(encode: Encoder, pairs: seq<Pair>)
    requires NewlineFree(encode)
    ensures forall i :: 0 <= i < |PairLines(encode, pairs)| ==> '\n' !in PairLines(encode, pairs)[i]
    decreases |pairs|
  {
    if |pairs| > 0 {
      PairLinesNewlineFree(encode, pairs[1..]);
      var rest := PairLines(encode, pairs[1..]);
      var lines := [encode(pairs[0].header), encode(pairs[0].document)] + rest;
      assert PairLines(encode, pairs) == lines;
      assert '\n' !in encode(pairs[0].header) && '\n' !in encode(pairs[0].document);
      assert forall i :: 2 <= i < |lines| ==> lines[i] == rest[i - 2];
    }
  }

  /** The framing of a payload whose encoder writes no newline: exactly two
      newline-terminated lines per pair, header first, in the pairs' order;
      empty exactly when there are no pairs. */
  lemma {:induction false} PayloadFraming(encode: Encoder, pairs: seq<Pair>)
    requires NewlineFree(encode)
    ensures Lines(Payload(encode, pairs)) == PairLines(encode, pairs)
    ensures Count(Payload(encode, pairs), '\n') == 2 * |pairs|
    ensures Payload(encode, pairs) == "" <==> |pairs| == 0
  {
    var lines := PairLines(encode, pairs);
    PairLinesNewlineFree(encode, pairs);
    LinesOfFrame(lines);
    FrameNewlines(lines);
  }

  /** The writer's `StringBuilder`, with the pairs appended since the last
      drain kept as ghost history. Appends and drains are atomic. */
  class BulkBuffer {
    const encode: Encoder
    var content: string
    ghost var pairs: seq<Pair>

    ghost predicate Valid()
      reads this
    {
      content == Payload(encode, pairs)
    }

    /** A fresh, empty buffer. */
    constructor (encode: Encoder)
      ensures Valid() && this.encode == encode
      ensures content == "" && pairs == []
    {
      this.encode := encode;
      content := "";
      pairs := [];
    }

    method Append(p: Pair)
      requires Valid()
      modifies this
      ensures Valid() && pairs == old(pairs) + [p]
      ensures content == AppendPair(old(content), encode, p)
    {
      AppendPairExtends("", encode, pairs, p);
      assert "" + Payload(encode, pairs) == Payload(encode, pairs);
      content := AppendPair(content, encode, p);
      pairs := pairs + [p];
    }

    /** Returns everything appended since the last drain and resets the buffer. */
    method Drain() returns (payload: string)
      requires Valid()
      modifies this
      ensures Valid() && content == "" && pairs == []
      ensures payload == old(content) && payload == Payload(encode, old(pairs))
    {
      payload := content;
      content := "";
      pairs := [];
    }
  }

  /** A second drain with no append in between returns the empty text. */
  method DrainTwice(b: BulkBuffer) returns (first: string, second: string)
    requires b.Valid()
    modifies b
    ensures first == old(b.content) && second == ""
    ensures b.Valid() && b.content == ""
  {
    first := b.Drain();
    second := b.Drain();
  }
}
