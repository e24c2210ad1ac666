/**
 The writer's configuration defaulting and the index namer: the destination
 index is the root prefix followed by the current date as `yyyy-MM-dd`.
 */
module IndexNames {
  import opened Wrappers
  import opened Text

  const DEFAULT_ROOT_PREFIX := "jmxtrans"

  /** A calendar date as the clock reports it. */
  datatype Date = Date(year: nat, month: nat, day: nat)

  predicate ValidDate(d: Date)
  {
    1 <= d.year <= 9999 && 1 <= d.month <= 12 && 1 <= d.day <= 31
  }

  /** One numeric field of a `SimpleDateFormat` pattern: `n` zero-padded to `width` digits. */
  function Field(n: nat, width: nat): string
  {
    PadLeft(NatToString(n), width)
  }

  /** `SimpleDateFormat("yyyy-MM-dd")`: year padded to four digits, month and day to two. */
  function FormatDate(d: Date): (s: string)
    ensures ValidDate(d) ==> |s| == 10 && s[4] == '-' && s[7] == '-'
  {
    FieldLengths(d);
    Field(d.year, 4) + "-" + Field(d.month, 2) + "-" + Field(d.day, 2)
  }

  lemma FieldLengths(d: Date)
    ensures ValidDate(d) ==> |Field(d.year, 4)| == 4 && |Field(d.month, 2)| == 2 && |Field(d.day, 2)| == 2
  {
    if ValidDate(d) {
      NatToStringLength(d.year, 4);
      NatToStringLength(d.month, 2);
      NatToStringLength(d.day, 2);
    }
  }

  /** A field is a dash-free digit string whose value is the number it renders. */
  lemma FieldReadsBack(n: nat, width: nat)
    ensures IsDigits(Field(n, width)) && '-' !in Field(n, width)
    ensures DigitsValue(Field(n, width)) == n
  {
    PadLeftValue(NatToString(n), width);
    NatToStringRoundTrip(n);
    DigitsHaveNoDash(Field(n, width));
  }

  /** Reads a `year-month-day` text of three decimal fields. */
  function ParseDate(s: string): Option<Date>
  {
    var p := SplitOn(s, '-');
    if |p| == 3 && IsDigits(p[0]) && IsDigits(p[1]) && IsDigits(p[2])
    then Some(Date(DigitsValue(p[0]), DigitsValue(p[1]), DigitsValue(p[2])))
    else None
  }

  lemma JoinThree(a: string, b: string, c: string, sep: char)
    ensures Join([a, b, c], sep) == a + [sep] + b + [sep] + c
  {
    assert [a, b, c][1..] == [b, c];
    assert [b, c][1..] == [c];
    assert Join([b, c], sep) == b + [sep] + c;
  }

  /** The formatted date determines the date. */
  lemma FormatDateRoundTrip(d: Date)
    ensures ParseDate(FormatDate(d)) == Some(d)
  {
    var y, m, dd := Field(d.year, 4), Field(d.month, 2), Field(d.day, 2);
    FieldReadsBack(d.year, 4);
    FieldReadsBack(d.month, 2);
    FieldReadsBack(d.day, 2);
    JoinThree(y, m, dd, '-');
    assert FormatDate(d) == Join([y, m, dd], '-');
    SplitJoin([y, m, dd], '-');
  }

  lemma DigitsHaveNoDash(s: string)
    requires IsDigits(s)
    ensures '-' !in s
  {
    assert forall i :: 0 <= i < |s| ==> s[i] != '-';
  }

  /** The writer's configuration after construction. */
  datatype Config = Config(rootPrefix: string, connectionUrl: Option<string>, indexName: string)

  /** The constructor: a null root prefix defaults to `"jmxtrans"`, and the
      index name is the root prefix. */
  function NewConfig(rootPrefix: Option<string>, connectionUrl: Option<string>): (c: Config)
    ensures rootPrefix.Some? ==> c.rootPrefix == rootPrefix.value
    ensures rootPrefix.None? ==> c.rootPrefix == DEFAULT_ROOT_PREFIX
    ensures c.indexName == c.rootPrefix && c.connectionUrl == connectionUrl
  {
    var prefix := rootPrefix.GetOr(DEFAULT_ROOT_PREFIX);
    Config(prefix, connectionUrl, prefix)
  }

  /** The index a document is sent to, given the date read for it: the
      configured name, then the date text. */
  function IndexName(indexName: string, date: Date): (index: string)
    ensures indexName <= index
    ensures ValidDate(date) ==> |index| == |indexName| + 10
  {
    indexName + FormatDate(date)
  }

  /** An index name is the prefix followed by a text that reads back as the date. */
  lemma IndexNameParts(indexName: string, date: Date)
    ensures IndexName(indexName, date)[..|indexName|] == indexName
    ensures ParseDate(IndexName(indexName, date)[|indexName|..]) == Some(date)
    ensures ValidDate(date) ==> |IndexName(indexName, date)| == |indexName| + 10
  {
    assert IndexName(indexName, date)[|indexName|..] == FormatDate(date);
    FormatDateRoundTrip(date);
  }

  /** Under one prefix, different dates give different indices. */
  lemma IndexNameInjective(indexName: string, d1: Date, d2: Date)
    ensures IndexName(indexName, d1) == IndexName(indexName, d2) <==> d1 == d2
  {
    IndexNameParts(indexName, d1);
    IndexNameParts(indexName, d2);
  }

  lemma FormatExampleDate()
    ensures FormatDate(Date(2024, 3, 5)) == "2024-03-05"
  {
    assert NatToString(2024) == "2024" by {
      assert NatToString(2) == "2";
      assert NatToString(20) == "20";
      assert NatToString(202) == "202";
    }
    assert Field(2024, 4) == "2024";
    assert Field(3, 2) == "03";
    assert Field(5, 2) == "05";
  }

  /** Prefix `"metrics"` on 2024-03-05 names index `"metrics2024-03-05"`;
      without a prefix the index is `"jmxtrans2024-03-05"`. */
  lemma IndexNameExamples()
    ensures IndexName(NewConfig(Some("metrics"), None).indexName, Date(2024, 3, 5)) == "metrics2024-03-05"
    ensures IndexName(NewConfig(None, None).indexName, Date(2024, 3, 5)) == "jmxtrans2024-03-05"
  {
    FormatExampleDate();
    assert IndexName("metrics", Date(2024, 3, 5)) == "metrics" + "2024-03-05";
    assert IndexName("jmxtrans", Date(2024, 3, 5)) == "jmxtrans" + "2024-03-05";
  }
}
