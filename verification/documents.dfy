/**
 The document mapper and the bulk action header: the two JSON objects the
 writer appends for every numeric result.
 */
module Documents {
  import opened Wrappers
  import opened Text
  import opened Json
  import opened Samples

  const INDEX_OPERATION_NAME := "index"
  const INDEX_PARAM := "_index"
  const TYPE_PARAM := "_type"
  const ELASTIC_TYPE_NAME := "doc"

  /** The exactly eleven fields of a document. */
  const DocumentKeys: set<string> := {
    "serverAlias", "server", "port",
    "objDomain", "className", "typeName", "attributeName",
    "valuePath", "keyAlias", "value", "timestamp"}

  /** The `valuePath` field: the path segments joined by `/`, unescaped. An
      empty path is the empty text; otherwise the text starts with the first
      segment, followed by `/` when more segments come. */
  function JoinPath(segments: seq<string>): (path: string)
    ensures |segments| == 0 ==> path == ""
    ensures |segments| >= 1 ==> |segments[0]| <= |path| && path[..|segments[0]|] == segments[0]
    ensures |segments| >= 2 ==> |segments[0]| < |path| && path[|segments[0]|] == '/'
  {
    Join(segments, '/')
  }

  /** Segments free of `/` are recovered from the joined path; an empty path
      reads back as one empty segment. */
  lemma JoinPathRoundTrip(segments: seq<string>)
    requires forall i :: 0 <= i < |segments| ==> '/' !in segments[i]
    ensures |segments| >= 1 ==> SplitOn(JoinPath(segments), '/') == segments
    ensures |segments| == 0 ==> SplitOn(JoinPath(segments), '/') == [""]
  {
    if |segments| >= 1 {
      SplitJoin(segments, '/');
    }
  }

  /** Without escaping, a segment holding `/` is indistinguishable from two segments. */
  lemma JoinPathAmbiguous()
    ensures JoinPath(["a/b"]) == JoinPath(["a", "b"])
  {
  }

  /** A nullable string as a JSON value. */
  function Nullable(s: Option<string>): (j: Json)
    ensures s.None? <==> j.JNull?
    ensures s.Some? ==> j == JString(s.value)
  {
    match s
    case Some(t) => JString(t)
    case None => JNull
  }

  /** The flat field map for one numeric result; `value` is its parsed double. */
  function Document(server: Server, r: Result, value: Double): (doc: Json)
    ensures doc.JObject? && doc.fields.Keys == DocumentKeys
  {
    JObject(map[
      "serverAlias" := Nullable(server.alias),
      "server" := JString(server.host),
      "port" := JString(server.port),
      "objDomain" := JString(r.objDomain),
      "className" := JString(r.className),
      "typeName" := JString(r.typeName),
      "attributeName" := JString(r.attributeName),
      "valuePath" := JString(JoinPath(r.valuePath)),
      "keyAlias" := Nullable(r.keyAlias),
      "value" := JDouble(value),
      "timestamp" := JLong(r.epoch)])
  }

  /** Each key of a document holds the server or result field of the same
      name, unchanged; `valuePath` holds the joined path and `value` the parsed double. */
  lemma DocumentFields(server: Server, r: Result, value: Double)
    ensures var doc := Document(server, r, value);
      && doc.fields["serverAlias"] == Nullable(server.alias)
      && doc.fields["server"] == JString(server.host)
      && doc.fields["port"] == JString(server.port)
      && doc.fields["objDomain"] == JString(r.objDomain)
      && doc.fields["className"] == JString(r.className)
      && doc.fields["typeName"] == JString(r.typeName)
      && doc.fields["attributeName"] == JString(r.attributeName)
      && doc.fields["valuePath"] == JString(JoinPath(r.valuePath))
      && doc.fields["keyAlias"] == Nullable(r.keyAlias)
      && doc.fields["value"] == JDouble(value)
      && doc.fields["timestamp"] == JLong(r.epoch)
  {
  }

  /** No two inputs share a document unless they agree on what it records:
      two documents are equal exactly when the server, the parsed value and
      every copied result field agree (the path only through its joined form). */
  lemma DocumentFaithful(s1: Server, r1: Result, v1: Double, s2: Server, r2: Result, v2: Double)
    ensures Document(s1, r1, v1) == Document(s2, r2, v2) <==>
      && s1 == s2 && v1 == v2
      && r1.objDomain == r2.objDomain && r1.className == r2.className
      && r1.typeName == r2.typeName && r1.attributeName == r2.attributeName
      && JoinPath(r1.valuePath) == JoinPath(r2.valuePath)
      && r1.keyAlias == r2.keyAlias && r1.epoch == r2.epoch
  {
    DocumentFields(s1, r1, v1);
    DocumentFields(s2, r2, v2);
  }

  /** The action header for a document going to `index`. The operation entry
      is put twice, as the writer does; the second put replaces the first. */
  function Header(index: string): (h: Json)
    ensures h.JObject? && h.fields.Keys == {INDEX_OPERATION_NAME}
    ensures h.fields[INDEX_OPERATION_NAME].JObject?
    ensures h.fields[INDEX_OPERATION_NAME].fields.Keys == {INDEX_PARAM, TYPE_PARAM}
  {
    var indexParameters := map[INDEX_PARAM := JString(index), TYPE_PARAM := JString(ELASTIC_TYPE_NAME)];
    var parameters := map[][INDEX_OPERATION_NAME := JObject(indexParameters)];
    JObject(parameters[INDEX_OPERATION_NAME := JObject(indexParameters)])
  }

  /** The destination index an action header names, if it is an index action. */
  function HeaderIndex(h: Json): Option<string>
  {
    if h.JObject? && INDEX_OPERATION_NAME in h.fields
      && h.fields[INDEX_OPERATION_NAME].JObject?
      && INDEX_PARAM in h.fields[INDEX_OPERATION_NAME].fields
      && h.fields[INDEX_OPERATION_NAME].fields[INDEX_PARAM].JString?
    then Some(h.fields[INDEX_OPERATION_NAME].fields[INDEX_PARAM].str)
    else None
  }

  /** A header is an index action on the given index with document type `doc`. */
  lemma HeaderNamesIndex(index: string)
    ensures HeaderIndex(Header(index)) == Some(index)
    ensures Header(index).fields[INDEX_OPERATION_NAME].fields[TYPE_PARAM] == JString("doc")
  {
  }
}
