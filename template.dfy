/** The template compiler: ModbusHelper.parse_template_build_calls turns
    the rows of a modqtt template into per-function-code address tables
    (the interpreter helper), per-tag MQTT publishing policies (the mqtt
    helper) and batched read requests (the call groups). */
module Template {
  import opened Wrappers
  import opened PyNumbers
  import opened CallGroups

  // ---------------------------------------------------------------------
  // Constant tables
  // ---------------------------------------------------------------------

  /** The keywords that select each Modbus read function, in the order the
      compiler tries them. */
  function FunctionCodes(): seq<(string, seq<string>)>
  {
    [
      ("01", ["1", "01", "FC01", "coil", "Coil", "coils", "Coils", "RC", "Coil-FC01"]),
      ("02", ["2", "02", "FC02", "discrete", "Discrete", "di", "DI", "RDI", "DI-FC02"]),
      ("03", ["3", "03", "FC03", "holding", "Holding", "HR", "RHR", "HR-FC03"]),
      ("04", ["4", "04", "FC04", "input register", "input registers", "Input Register",
              "Input Registers", "IR", "RIR", "IR-FC04"])
    ]
  }

  /** The supported data types and the number of 16-bit words each reads. */
  function RegisterCount(): map<string, nat>
  {
    map[
      "uint16" := 1, "sint16" := 1, "float32" := 2, "float64" := 4,
      "packedbool" := 1, "ruint16" := 1, "rsint16" := 1,
      "rfloat32_byte_swap" := 2, "rfloat32_word_swap" := 2,
      "rfloat32_byte_word_swap" := 2, "di" := 1, "coil" := 1
    ]
  }

  const TextWords: seq<string> := ["plaintext", "Plaintext", "PLAINTEXT", "text", "Text", "TEXT"]
  const JsonWords: seq<string> := ["json", "Json", "JSON"]
  const QosWords: seq<string> := ["0", "1", "2"]
  const TrueWords: seq<string> := ["TRUE", "true", "True"]
  const FalseWords: seq<string> := ["FALSE", "false", "False"]
  const RbeWords: seq<string> := ["rbe", "RBE", "Rbe", "exception", "report by exception",
    "report-by-exception", "Report-by-exception", "Report by exception"]

  // ---------------------------------------------------------------------
  // Data model
  // ---------------------------------------------------------------------

  /** One template row, every field as the text the CSV reader produced.
      addressNumber is the value of int(address); the compiler only
      converts addresses of rows it accepts. */
  datatype Row = Row(
    address: string, addressNumber: int, readType: string, tagName: string,
    dataType: string, topic: string, payload: string, qos: string,
    retain: string, publish: string, deadband: string, low: string,
    high: string, scalingCoeff: string, scalingOffset: string)

  datatype Payload = Text | Json

  /** Report by exception, or at most once per interval of seconds. */
  datatype PublishMode = Rbe | Every(seconds: PyFloat)

  /** The resolved publishing settings of a tag. */
  datatype Settings = Settings(
    payload: Payload, qos: int, retain: bool, publish: PublishMode,
    deadband: PyFloat, low: Option<PyFloat>, high: Option<PyFloat>)

  /** An mqtt helper entry: it may hold only a topic, only a placeholder, or
      a topic and the settings, which the compiler always writes together. */
  datatype Policy = Policy(topic: Option<string>, settings: Option<Settings>)

  /** What the decoder needs to know about the tag read at one address. */
  datatype Descriptor = Descriptor(
    count: nat, dataType: string, tagName: string,
    scalingCoeff: string, scalingOffset: string)

  /** The interpreter helper of one function code: every claimed address,
      in claim order, and the descriptor of each start address. */
  datatype FcTable = FcTable(addresses: seq<int>, maps: map<int, Descriptor>)

  /** The compiler's state after some rows. */
  datatype Compiled = Compiled(tables: map<string, FcTable>, policies: map<string, Policy>)

  // ---------------------------------------------------------------------
  // Function-code lookup
  // ---------------------------------------------------------------------

  predicate IsPrefix(k: string, s: string)
  {
    |k| <= |s| && s[..|k|] == k
  }

  /** Python's `k in s` on strings. */
  predicate IsSubstring(k: string, s: string)
  {
    IsPrefix(k, s) || (s != [] && IsSubstring(k, s[1..]))
  }

  /** Some keyword of the list occurs in the read type. */
  predicate HasKeyword(readType: string, keywords: seq<string>)
  {
    exists j :: 0 <= j < |keywords| && IsSubstring(keywords[j], readType)
  }

  /** The first function code, from the i-th on, one of whose keywords
      occurs in the read type. */
  function MatchFrom(readType: string, codes: seq<(string, seq<string>)>, i: nat): (r: Option<string>)
    requires i <= |codes|
    ensures r.Some? <==> exists m :: i <= m < |codes| && HasKeyword(readType, codes[m].1)
    ensures r.Some? ==>
      exists m :: i <= m < |codes| && r.value == codes[m].0 &&
        HasKeyword(readType, codes[m].1) &&
        (forall m' :: i <= m' < m ==> !HasKeyword(readType, codes[m'].1))
    decreases |codes| - i
  {
    if i == |codes| then None
    else if HasKeyword(readType, codes[i].1) then Some(codes[i].0)
    else MatchFrom(readType, codes, i + 1)
  }

  function MatchCode(readType: string): Option<string>
  {
    MatchFrom(readType, FunctionCodes(), 0)
  }

  /** The lookup loop: try the function codes in order and stop at the first
      keyword found in the read type. */
  method FindFunctionCode(readType: string) returns (r: Option<string>)
    ensures r == MatchCode(readType)
  {
    r := None;
    var found := false;
    var i := 0;
    while i < |FunctionCodes()|
      invariant 0 <= i <= |FunctionCodes()|
      invariant !found ==> r.None? && MatchFrom(readType, FunctionCodes(), i) == MatchCode(readType)
      invariant found ==> r == MatchCode(readType)
    {
      if found {
        break;
      }
      var code := FunctionCodes()[i].0;
      var hit := ScanKeywords(readType, FunctionCodes()[i].1);
      if hit {
        found := true;
        r := Some(code);
      }
      i := i + 1;
    }
  }

  /** The inner loop over one code's keywords: it stops at the first
      keyword that occurs in the read type, where the source claims the row
      once and breaks out. */
  method ScanKeywords(readType: string, keywords: seq<string>) returns (found: bool)
    ensures found == HasKeyword(readType, keywords)
  {
    found := false;
    var j := 0;
    while j < |keywords| && !found
      invariant 0 <= j <= |keywords|
      invariant found <==> exists j' :: 0 <= j' < j && IsSubstring(keywords[j'], readType)
    {
      if IsSubstring(keywords[j], readType) {
        found := true;
      }
      j := j + 1;
    }
  }

  // ---------------------------------------------------------------------
  // Row acceptance and defaults
  // ---------------------------------------------------------------------

  /** A blank data type defaults to sint16. */
  function DataTypeOf(row: Row): string
  {
    if row.dataType == "" then "sint16" else row.dataType
  }

  /** Rows without an address or a read type, or with an unsupported data
      type, are skipped. */
  predicate Accepted(row: Row)
  {
    row.address != "" && row.readType != "" && DataTypeOf(row) in RegisterCount()
  }

  /** A blank tag name defaults to a name built from the row itself. */
  function TagNameOf(row: Row): string
  {
    if row.tagName == "" then row.readType + "_address_" + row.address + "_data_type_" + DataTypeOf(row)
    else row.tagName
  }

  /** A blank topic publishes under the tag name, otherwise under
      topic/tag name. */
  function TopicOf(row: Row): string
  {
    if row.topic == "" then TagNameOf(row) else row.topic + "/" + TagNameOf(row)
  }

  function Count(row: Row): nat
    requires Accepted(row)
  {
    RegisterCount()[DataTypeOf(row)]
  }

  function DescriptorOf(row: Row): Descriptor
    requires Accepted(row)
  {
    Descriptor(Count(row), DataTypeOf(row), TagNameOf(row), row.scalingCoeff, row.scalingOffset)
  }

  // ---------------------------------------------------------------------
  // Resolution of the publishing settings
  // ---------------------------------------------------------------------

  function PayloadOf(text: string): Payload
  {
    if text == "" || text in TextWords then Text
    else if text in JsonWords then Json
    else Text
  }

  function QosOf(text: string): int
  {
    if text == "" then 0
    else if text in QosWords then text[0] as int - '0' as int
    else 0
  }

  function RetainOf(text: string): bool
  {
    if text == "" then true
    else if text in TrueWords then true
    else if text in FalseWords then false
    else true
  }

  /** An interval is any text float() accepts that is not a rbe keyword. */
  function PublishOf(text: string, parse: string -> Option<PyFloat>): PublishMode
  {
    if text == "" || text in RbeWords then Rbe
    else match parse(text)
      case None => Rbe
      case Some(x) => Every(x)
  }

  function DeadbandOf(text: string, dataType: string, publish: PublishMode, parse: string -> Option<PyFloat>): PyFloat
  {
    if text == "" then Num(0.0)
    else if dataType in ["di", "coil"] then Num(0.0)
    else if publish.Every? then Num(0.0)
    else match parse(text)
      case None => Num(0.0)
      case Some(x) => x
  }

  function LimitOf(text: string, parse: string -> Option<PyFloat>): Option<PyFloat>
  {
    if text == "" then None else parse(text)
  }

  /** The settings of an accepted row. Unsupported texts fall back to the
      defaults: text payload, QoS 0, retained, report by exception, no
      deadband, no limits. */
  function SettingsOf(row: Row, dataType: string, parse: string -> Option<PyFloat>): Settings
  {
    var publish := PublishOf(row.publish, parse);
    Settings(PayloadOf(row.payload), QosOf(row.qos), RetainOf(row.retain), publish,
      DeadbandOf(row.deadband, dataType, publish, parse),
      LimitOf(row.low, parse), LimitOf(row.high, parse))
  }

  /** What the resolved settings of a row are: the defaults for blank or
      unsupported texts, the parsed number otherwise; QoS is always 0, 1 or
      2; a deadband is only kept for report-by-exception tags that are not
      discrete inputs or coils. */
  lemma {:induction false} LemmaSettingsOf(row: Row, dataType: string, parse: string -> Option<PyFloat>)
    ensures var r := SettingsOf(row, dataType, parse);
      (r.payload == Json <==> row.payload in JsonWords) &&
      0 <= r.qos <= 2 &&
      (row.qos in QosWords ==> r.qos == row.qos[0] as int - '0' as int) &&
      (row.qos !in QosWords ==> r.qos == 0) &&
      (!r.retain <==> row.retain in FalseWords)
    ensures var r := SettingsOf(row, dataType, parse);
      (r.publish.Every? <==> row.publish != "" && row.publish !in RbeWords && parse(row.publish).Some?) &&
      (r.publish.Every? ==> parse(row.publish) == Some(r.publish.seconds))
    ensures var r := SettingsOf(row, dataType, parse);
      (r.deadband != Num(0.0) ==>
        r.publish.Rbe? && row.deadband != "" && dataType !in ["di", "coil"] && parse(row.deadband) == Some(r.deadband)) &&
      (r.publish.Rbe? && row.deadband != "" && dataType !in ["di", "coil"] && parse(row.deadband).Some? ==>
        Some(r.deadband) == parse(row.deadband))
    ensures var r := SettingsOf(row, dataType, parse);
      (row.low == "" ==> r.low.None?) && (row.low != "" ==> r.low == parse(row.low)) &&
      (row.high == "" ==> r.high.None?) && (row.high != "" ==> r.high == parse(row.high))
  {
  }

  // ---------------------------------------------------------------------
  // Sub-tags of a packed boolean
  // ---------------------------------------------------------------------

  function DigitChar(d: nat): char
    requires d < 10
  {
    ('0' as int + d) as char
  }

  /** str(n) for a natural number. */
  function Decimal(n: nat): string
  {
    if n < 10 then [DigitChar(n)] else Decimal(n / 10) + [DigitChar(n % 10)]
  }

  const ValueSuffix: string := "_uint16_value"

  function BitSuffix(k: nat): string
  {
    "_bit" + Decimal(k)
  }

  function ValueKey(tag: string): string
  {
    tag + ValueSuffix
  }

  function BitKey(tag: string, k: nat): string
  {
    tag + BitSuffix(k)
  }

  predicate IsBitKey(tag: string, x: string, n: nat)
  {
    exists k :: 0 <= k < n && x == BitKey(tag, k)
  }

  /** The mqtt helper entries a row writes: its tag's and, for a packed
      boolean, its value and bit sub-tags'. */
  predicate Writes(row: Row, x: string)
  {
    var tag := TagNameOf(row);
    x == tag || (DataTypeOf(row) == "packedbool" && (x == ValueKey(tag) || IsBitKey(tag, x, 16)))
  }

  lemma {:induction false} LemmaAppendCancel(t: string, a: string, b: string)
    requires t + a == t + b
    ensures a == b
  {
    assert a == (t + a)[|t|..];
    assert b == (t + b)[|t|..];
  }

  /** The sub-tag names differ from the tag and from each other's kind. */
  lemma {:induction false} LemmaSubtagNamesDiffer(tag: string, k: nat)
    ensures BitKey(tag, k) != tag && ValueKey(tag) != tag
    ensures BitKey(tag, k) != ValueKey(tag)
  {
    assert BitKey(tag, k)[|tag| + 1] == 'b';
    assert ValueKey(tag)[|tag| + 1] == 'u';
  }

  /** The first n bit sub-tags each get a fresh entry holding only their
      topic. */
  function ResetBits(p: map<string, Policy>, tag: string, topic: string, n: nat): (r: map<string, Policy>)
    ensures p.Keys <= r.Keys
    ensures forall k :: 0 <= k < n ==> BitKey(tag, k) in r && r[BitKey(tag, k)] == Policy(Some(topic + BitSuffix(k)), None)
    ensures forall x :: x in p && !IsBitKey(tag, x, n) ==> r[x] == p[x]
    ensures forall x :: x in r ==> x in p || IsBitKey(tag, x, n)
  {
    if n == 0 then p
    else
      var q := ResetBits(p, tag, topic, n - 1);
      var r := q[BitKey(tag, n - 1) := Policy(Some(topic + BitSuffix(n - 1)), None)];
      assert forall k :: 0 <= k < n - 1 ==> r[BitKey(tag, k)] == Policy(Some(topic + BitSuffix(k)), None) by {
        forall k | 0 <= k < n - 1
          ensures r[BitKey(tag, k)] == Policy(Some(topic + BitSuffix(k)), None)
        {
          if BitKey(tag, k) == BitKey(tag, n - 1) {
            LemmaAppendCancel(tag, BitSuffix(k), BitSuffix(n - 1));
          }
        }
      }
      r
  }

  /** Every sub-tag entry is replaced by one holding only its topic. */
  function ResetSubtags(p: map<string, Policy>, tag: string, topic: string): map<string, Policy>
  {
    ResetBits(p[ValueKey(tag) := Policy(Some(topic + ValueSuffix), None)], tag, topic, 16)
  }

  /** Give an existing entry the settings, keeping its topic. */
  function Settle(p: map<string, Policy>, name: string, s: Settings): (r: map<string, Policy>)
    ensures r.Keys == p.Keys
    ensures name in p ==> r[name] == Policy(p[name].topic, Some(s))
    ensures forall x :: x in p && x != name ==> r[x] == p[x]
  {
    if name in p then p[name := Policy(p[name].topic, Some(s))] else p
  }

  function SettleBits(p: map<string, Policy>, tag: string, s: Settings, n: nat): (r: map<string, Policy>)
    ensures r.Keys == p.Keys
    ensures forall x :: x in p ==> r[x].topic == p[x].topic && (r[x].settings == p[x].settings || r[x].settings == Some(s))
    ensures forall k :: 0 <= k < n && BitKey(tag, k) in p ==> r[BitKey(tag, k)].settings == Some(s)
    ensures forall x :: x in p && !IsBitKey(tag, x, n) ==> r[x] == p[x]
  {
    if n == 0 then p else Settle(SettleBits(p, tag, s, n - 1), BitKey(tag, n - 1), s)
  }

  function SettleSubtags(p: map<string, Policy>, tag: string, s: Settings): map<string, Policy>
  {
    SettleBits(Settle(p, ValueKey(tag), s), tag, s, 16)
  }

  // ---------------------------------------------------------------------
  // One row, and the whole template
  // ---------------------------------------------------------------------

  function TableOf(tables: map<string, FcTable>, fc: string): FcTable
  {
    if fc in tables then tables[fc] else FcTable([], map[])
  }

  /** The row claims count consecutive addresses from its start address and
      records its descriptor there, replacing any earlier one. */
  function Claim(t: FcTable, row: Row): FcTable
    requires Accepted(row)
  {
    FcTable(t.addresses + Range(row.addressNumber, Count(row)),
      t.maps[row.addressNumber := DescriptorOf(row)])
  }

  /** The mqtt helper after an accepted row, before its function code is
      looked up: the tag has an entry, and a packed boolean's sub-tag
      entries are reset to their topics. */
  function Prepare(p: map<string, Policy>, row: Row): map<string, Policy>
    requires Accepted(row)
  {
    var tag := TagNameOf(row);
    var p0 := if tag in p then p else p[tag := Policy(None, None)];
    if DataTypeOf(row) == "packedbool" then ResetSubtags(p0, tag, TopicOf(row)) else p0
  }

  /** The mqtt helper after a row whose function code was found: the tag,
      and a packed boolean's sub-tags, receive the row's settings. */
  function Publish(p: map<string, Policy>, row: Row, s: Settings): map<string, Policy>
    requires Accepted(row)
  {
    var tag := TagNameOf(row);
    var p2 := p[tag := Policy(Some(TopicOf(row)), Some(s))];
    if DataTypeOf(row) == "packedbool" then SettleSubtags(p2, tag, s) else p2
  }

  /** The effect of one template row. */
  function Step(st: Compiled, row: Row, parse: string -> Option<PyFloat>): (r: Compiled)
    ensures !Accepted(row) ==> r == st
    ensures MatchCode(row.readType).None? ==> r.tables == st.tables
  {
    if !Accepted(row) then st
    else
      match MatchCode(row.readType)
      case None => Compiled(st.tables, Prepare(st.policies, row))
      case Some(fc) =>
        var p := Publish(Prepare(st.policies, row), row, SettingsOf(row, DataTypeOf(row), parse));
        Compiled(st.tables[fc := Claim(TableOf(st.tables, fc), row)], p)
  }

  /** The state after all rows, in order. */
  function Compile(rows: seq<Row>, parse: string -> Option<PyFloat>): Compiled
  {
    if rows == [] then Compiled(map[], map[])
    else Step(Compile(rows[..|rows| - 1], parse), rows[|rows| - 1], parse)
  }

  /** The call groups of each function code: its claimed addresses, sorted,
      merged into runs. */
  function GroupsOf(tables: map<string, FcTable>): map<string, seq<CallGroup>>
  {
    map fc | fc in tables :: MergeRuns(SortAsc(tables[fc].addresses))
  }

  // ---------------------------------------------------------------------
  // Properties of one row
  // ---------------------------------------------------------------------

  /** The defaults of a row with a blank data type and tag name. */
  lemma {:induction false} ExampleDefaults(row: Row)
    requires row == Row("40001", 40001, "holding", "", "", "", "", "", "", "", "", "", "", "", "")
    ensures Accepted(row) && DataTypeOf(row) == "sint16" && Count(row) == 1
    ensures TagNameOf(row) == "holding_address_40001_data_type_sint16" && TopicOf(row) == TagNameOf(row)
  {
    assert "sint16" in RegisterCount() && RegisterCount()["sint16"] == 1;
    ExampleDefaultName();
  }

  lemma {:induction false} ExampleDefaultName()
    ensures "holding" + "_address_" + "40001" + "_data_type_" + "sint16" == "holding_address_40001_data_type_sint16"
  {
  }

  /** Every character of a substring occurs in the string. */
  lemma {:induction false} LemmaSubstringChars(k: string, s: string)
    requires IsSubstring(k, s)
    ensures forall c :: c in k ==> c in s
    ensures |k| > 0 ==> k[0] in s && k[|k| - 1] in s
  {
    if IsPrefix(k, s) {
      assert forall i :: 0 <= i < |k| ==> k[i] == s[i];
    } else {
      LemmaSubstringChars(k, s[1..]);
    }
  }

  /** The keyword search is by substring and in table order: a read type
      naming input registers but containing the digit 2 selects read
      discrete inputs. */
  lemma {:induction false} ExampleMatchCode()
    ensures MatchCode("IR 2") == Some("02")
  {
    var s := "IR 2";
    var keywords := FunctionCodes()[0].1;
    forall j | 0 <= j < |keywords|
      ensures !IsSubstring(keywords[j], s)
    {
      var k := keywords[j];
      if IsSubstring(k, s) {
        LemmaSubstringChars(k, s);
      }
    }
    assert IsSubstring("2", s) by {
      assert IsPrefix("2", s[3..]);
    }
    assert HasKeyword(s, FunctionCodes()[1].1) by {
      assert FunctionCodes()[1].1[0] == "2";
    }
  }

  /** Substring search in table order also catches a word that only
      contains a keyword: "holding" contains "di", so a read type spelled
      "holding" selects read discrete inputs, not holding registers. */
  lemma {:induction false} ExampleHoldingIsDiscrete()
    ensures MatchCode("holding") == Some("02")
  {
    var s := "holding";
    var keywords := FunctionCodes()[0].1;
    forall j | 0 <= j < |keywords|
      ensures !IsSubstring(keywords[j], s)
    {
      var k := keywords[j];
      if IsSubstring(k, s) {
        LemmaSubstringChars(k, s);
      }
    }
    assert IsSubstring("di", s) by {
      assert IsPrefix("di", s[3..]);
    }
    assert HasKeyword(s, FunctionCodes()[1].1) by {
      assert FunctionCodes()[1].1[5] == "di";
    }
  }

  /** A row whose function code was found claims count consecutive
      addresses from its start address, overwrites the descriptor at that
      address, leaves every other function code alone, and gives its tag
      its topic and settings. */
  lemma {:induction false} LemmaMatchedRow(st: Compiled, row: Row, parse: string -> Option<PyFloat>, fc: string)
    requires Accepted(row) && MatchCode(row.readType) == Some(fc)
    ensures var r := Step(st, row, parse); var t := TableOf(st.tables, fc);
      r.tables.Keys == st.tables.Keys + {fc} &&
      (forall fc' :: fc' in st.tables && fc' != fc ==> r.tables[fc'] == st.tables[fc']) &&
      r.tables[fc].addresses == t.addresses + Range(row.addressNumber, Count(row)) &&
      r.tables[fc].maps.Keys == t.maps.Keys + {row.addressNumber} &&
      r.tables[fc].maps[row.addressNumber] == DescriptorOf(row) &&
      (forall a :: a in t.maps && a != row.addressNumber ==> r.tables[fc].maps[a] == t.maps[a])
    ensures Step(st, row, parse).policies[TagNameOf(row)] ==
      Policy(Some(TopicOf(row)), Some(SettingsOf(row, DataTypeOf(row), parse)))
    ensures forall x :: x in st.policies && !Writes(row, x) ==>
      x in Step(st, row, parse).policies && Step(st, row, parse).policies[x] == st.policies[x]
  {
    LemmaMatchedRowTables(st, row, parse, fc);
    LemmaMatchedRowPolicy(st, row, parse, fc);
  }

  lemma {:induction false} LemmaMatchedRowTables(st: Compiled, row: Row, parse: string -> Option<PyFloat>, fc: string)
    requires Accepted(row) && MatchCode(row.readType) == Some(fc)
    ensures var r := Step(st, row, parse); var t := TableOf(st.tables, fc);
      r.tables.Keys == st.tables.Keys + {fc} &&
      (forall fc' :: fc' in st.tables && fc' != fc ==> r.tables[fc'] == st.tables[fc']) &&
      r.tables[fc].addresses == t.addresses + Range(row.addressNumber, Count(row)) &&
      r.tables[fc].maps.Keys == t.maps.Keys + {row.addressNumber} &&
      r.tables[fc].maps[row.addressNumber] == DescriptorOf(row) &&
      (forall a :: a in t.maps && a != row.addressNumber ==> r.tables[fc].maps[a] == t.maps[a])
  {
    var t := TableOf(st.tables, fc);
    assert Step(st, row, parse).tables == st.tables[fc := Claim(t, row)];
    LemmaClaim(st.tables, row, fc);
  }

  lemma {:induction false} LemmaClaim(tables: map<string, FcTable>, row: Row, fc: string)
    requires Accepted(row)
    ensures var r := tables[fc := Claim(TableOf(tables, fc), row)]; var t := TableOf(tables, fc);
      r.Keys == tables.Keys + {fc} &&
      (forall fc' :: fc' in tables && fc' != fc ==> r[fc'] == tables[fc']) &&
      r[fc].addresses == t.addresses + Range(row.addressNumber, Count(row)) &&
      r[fc].maps.Keys == t.maps.Keys + {row.addressNumber} &&
      r[fc].maps[row.addressNumber] == DescriptorOf(row) &&
      (forall a :: a in t.maps && a != row.addressNumber ==> r[fc].maps[a] == t.maps[a])
  {
  }

  lemma {:induction false} LemmaMatchedRowPolicy(st: Compiled, row: Row, parse: string -> Option<PyFloat>, fc: string)
    requires Accepted(row) && MatchCode(row.readType) == Some(fc)
    ensures Step(st, row, parse).policies[TagNameOf(row)] ==
      Policy(Some(TopicOf(row)), Some(SettingsOf(row, DataTypeOf(row), parse)))
    ensures forall x :: x in st.policies && !Writes(row, x) ==>
      x in Step(st, row, parse).policies && Step(st, row, parse).policies[x] == st.policies[x]
  {
    LemmaRowPolicyFrame(st, row, parse);
    var tag := TagNameOf(row);
    var s := SettingsOf(row, DataTypeOf(row), parse);
    var p1 := Prepare(st.policies, row);
    var p2 := p1[tag := Policy(Some(TopicOf(row)), Some(s))];
    assert Step(st, row, parse).policies == Publish(p1, row, s);
    if DataTypeOf(row) == "packedbool" {
      LemmaSubtagNamesDiffer(tag, 0);
      var q := Settle(p2, ValueKey(tag), s);
      assert q[tag] == p2[tag];
      assert SettleBits(q, tag, s, 16)[tag].topic == Some(TopicOf(row));
    }
  }

  /** A row whose read type matches no keyword claims nothing, but its tag
      still gets an entry: the one it had, or an empty one. */
  lemma {:induction false} LemmaUnmatchedRow(st: Compiled, row: Row, parse: string -> Option<PyFloat>)
    requires Accepted(row) && MatchCode(row.readType).None?
    ensures var r := Step(st, row, parse); var tag := TagNameOf(row);
      r.tables == st.tables && tag in r.policies &&
      r.policies[tag] == if tag in st.policies then st.policies[tag] else Policy(None, None)
    ensures forall x :: x in st.policies && !Writes(row, x) ==>
      x in Step(st, row, parse).policies && Step(st, row, parse).policies[x] == st.policies[x]
  {
    LemmaRowPolicyFrame(st, row, parse);
    var tag := TagNameOf(row);
    if DataTypeOf(row) == "packedbool" {
      var p0 := if tag in st.policies then st.policies else st.policies[tag := Policy(None, None)];
      LemmaSubtagNamesDiffer(tag, 0);
      var p := p0[ValueKey(tag) := Policy(Some(TopicOf(row) + ValueSuffix), None)];
      assert !IsBitKey(tag, tag, 16) by {
        forall k | 0 <= k < 16
          ensures tag != BitKey(tag, k)
        {
          LemmaSubtagNamesDiffer(tag, k);
        }
      }
      assert ResetBits(p, tag, TopicOf(row), 16)[tag] == p[tag];
    }
  }

  /** A packed boolean publishes its raw word and its sixteen bits as
      sub-tags: each gets the topic of the tag with its suffix and, once
      the function code is found, the settings of the tag. A packed boolean
      row whose function code is not found resets them to their topics. */
  lemma {:induction false} LemmaPackedboolSubtags(st: Compiled, row: Row, parse: string -> Option<PyFloat>)
    requires Accepted(row) && DataTypeOf(row) == "packedbool"
    ensures var r := Step(st, row, parse); var tag := TagNameOf(row); var topic := TopicOf(row);
      var s := if MatchCode(row.readType).Some? then Some(SettingsOf(row, "packedbool", parse)) else None;
      ValueKey(tag) in r.policies && r.policies[ValueKey(tag)] == Policy(Some(topic + ValueSuffix), s) &&
      forall k :: 0 <= k < 16 ==>
        BitKey(tag, k) in r.policies && r.policies[BitKey(tag, k)] == Policy(Some(topic + BitSuffix(k)), s)
  {
    var tag := TagNameOf(row);
    var topic := TopicOf(row);
    var p1 := Prepare(st.policies, row);
    LemmaPreparedSubtagTopics(st.policies, row);
    match MatchCode(row.readType)
    case None =>
      assert Step(st, row, parse).policies == p1;
    case Some(fc) =>
      var s := SettingsOf(row, "packedbool", parse);
      assert Step(st, row, parse).policies == Publish(p1, row, s);
      LemmaPublishedSubtags(p1, row, s);
  }

  /** Preparing a packed boolean row gives its sub-tags their topics and
      no settings. */
  lemma {:induction false} LemmaPreparedSubtagTopics(p: map<string, Policy>, row: Row)
    requires Accepted(row) && DataTypeOf(row) == "packedbool"
    ensures var r := Prepare(p, row); var tag := TagNameOf(row); var topic := TopicOf(row);
      ValueKey(tag) in r && r[ValueKey(tag)] == Policy(Some(topic + ValueSuffix), None) &&
      forall k :: 0 <= k < 16 ==>
        BitKey(tag, k) in r && r[BitKey(tag, k)] == Policy(Some(topic + BitSuffix(k)), None)
  {
    var tag := TagNameOf(row);
    var topic := TopicOf(row);
    var p0 := if tag in p then p else p[tag := Policy(None, None)];
    var q := p0[ValueKey(tag) := Policy(Some(topic + ValueSuffix), None)];
    assert !IsBitKey(tag, ValueKey(tag), 16) by {
      forall k | 0 <= k < 16
        ensures ValueKey(tag) != BitKey(tag, k)
      {
        LemmaSubtagNamesDiffer(tag, k);
      }
    }
    assert Prepare(p, row) == ResetBits(q, tag, topic, 16);
  }

  /** Publishing a prepared packed boolean row gives its sub-tags the
      row's settings and keeps their topics. */
  lemma {:induction false} LemmaPublishedSubtags(p: map<string, Policy>, row: Row, s: Settings)
    requires Accepted(row) && DataTypeOf(row) == "packedbool"
    requires var tag := TagNameOf(row); var topic := TopicOf(row);
      ValueKey(tag) in p && p[ValueKey(tag)] == Policy(Some(topic + ValueSuffix), None) &&
      forall k :: 0 <= k < 16 ==>
        BitKey(tag, k) in p && p[BitKey(tag, k)] == Policy(Some(topic + BitSuffix(k)), None)
    ensures var r := Publish(p, row, s); var tag := TagNameOf(row); var topic := TopicOf(row);
      ValueKey(tag) in r && r[ValueKey(tag)] == Policy(Some(topic + ValueSuffix), Some(s)) &&
      forall k :: 0 <= k < 16 ==>
        BitKey(tag, k) in r && r[BitKey(tag, k)] == Policy(Some(topic + BitSuffix(k)), Some(s))
  {
    var tag := TagNameOf(row);
    var topic := TopicOf(row);
    LemmaSubtagNamesDiffer(tag, 0);
    var p2 := p[tag := Policy(Some(topic), Some(s))];
    var q := Settle(p2, ValueKey(tag), s);
    assert q[ValueKey(tag)] == Policy(Some(topic + ValueSuffix), Some(s));
    forall k | 0 <= k < 16
      ensures q[BitKey(tag, k)] == Policy(Some(topic + BitSuffix(k)), None)
    {
      LemmaSubtagNamesDiffer(tag, k);
    }
    assert Publish(p, row, s) == SettleBits(q, tag, s, 16);
  }

  /** Preparing a row gives every entry it writes a place and leaves every
      other entry as it was. */
  lemma {:induction false} LemmaPrepareFrame(p: map<string, Policy>, row: Row)
    requires Accepted(row)
    ensures WrittenBy(p, Prepare(p, row), row)
  {
    var tag := TagNameOf(row);
    var p0 := if tag in p then p else p[tag := Policy(None, None)];
    if DataTypeOf(row) == "packedbool" {
      var topic := TopicOf(row);
      var q := p0[ValueKey(tag) := Policy(Some(topic + ValueSuffix), None)];
      assert Prepare(p, row) == ResetBits(q, tag, topic, 16);
      forall x | Writes(row, x)
        ensures x in Prepare(p, row)
      {
        if IsBitKey(tag, x, 16) {
          var k :| 0 <= k < 16 && x == BitKey(tag, k);
        }
      }
    }
  }

  /** Publishing a row changes only the entries it writes and adds only
      its tag's. */
  lemma {:induction false} LemmaPublishFrame(p: map<string, Policy>, row: Row, s: Settings)
    requires Accepted(row)
    ensures var r := Publish(p, row, s);
      r.Keys == p.Keys + {TagNameOf(row)} &&
      (forall x :: x in p && !Writes(row, x) ==> r[x] == p[x])
  {
    var tag := TagNameOf(row);
    var p2 := p[tag := Policy(Some(TopicOf(row)), Some(s))];
    if DataTypeOf(row) == "packedbool" {
      var q := Settle(p2, ValueKey(tag), s);
      assert Publish(p, row, s) == SettleBits(q, tag, s, 16);
    }
  }

  /** The mqtt helper went from p to r by writing the entries of the row
      and no other: every entry the row writes is present, no other entry
      appears, and every other entry is kept. */
  ghost predicate WrittenBy(p: map<string, Policy>, r: map<string, Policy>, row: Row)
  {
    (forall x :: Writes(row, x) ==> x in r) &&
    (forall x :: x in r ==> x in p || Writes(row, x)) &&
    (forall x :: x in p && !Writes(row, x) ==> x in r && r[x] == p[x])
  }

  /** A row writes the entries of its tag and, for a packed boolean, of its
      sub-tags, and of no other tag. */
  lemma {:induction false} LemmaRowPolicyFrame(st: Compiled, row: Row, parse: string -> Option<PyFloat>)
    requires Accepted(row)
    ensures WrittenBy(st.policies, Step(st, row, parse).policies, row)
  {
    var p1 := Prepare(st.policies, row);
    LemmaPrepareFrame(st.policies, row);
    match MatchCode(row.readType)
    case None =>
    case Some(fc) =>
      var s := SettingsOf(row, DataTypeOf(row), parse);
      assert Step(st, row, parse).policies == Publish(p1, row, s);
      LemmaPublishFrame(p1, row, s);
  }

  // ---------------------------------------------------------------------
  // Properties of the whole template
  // ---------------------------------------------------------------------

  /** The index of the last accepted row that writes the entry x. */
  function LastWriter(rows: seq<Row>, x: string): (r: Option<nat>)
    ensures r.Some? ==> r.value < |rows|
  {
    if rows == [] then None
    else if Accepted(rows[|rows| - 1]) && Writes(rows[|rows| - 1], x) then Some(|rows| - 1)
    else LastWriter(rows[..|rows| - 1], x)
  }

  /** LastWriter finds an accepted row writing x with no such row after it,
      and finds none exactly when no accepted row writes x. */
  lemma {:induction false} LemmaLastWriter(rows: seq<Row>, x: string)
    ensures var r := LastWriter(rows, x);
      r.Some? ==>
        Accepted(rows[r.value]) && Writes(rows[r.value], x) &&
        forall j :: r.value < j < |rows| ==> !(Accepted(rows[j]) && Writes(rows[j], x))
    ensures LastWriter(rows, x).None? ==> forall j :: 0 <= j < |rows| ==> !(Accepted(rows[j]) && Writes(rows[j], x))
  {
    if rows != [] {
      var init := rows[..|rows| - 1];
      LemmaLastWriter(init, x);
      assert forall j :: 0 <= j < |init| ==> init[j] == rows[j];
    }
  }

  /** Rows that do not write the entry x leave it as it was: present or
      absent, and with the same value. */
  lemma {:induction false} LemmaRowsAfterKeep(rows: seq<Row>, parse: string -> Option<PyFloat>, x: string, k: nat)
    requires k <= |rows|
    requires forall j :: k <= j < |rows| ==> !(Accepted(rows[j]) && Writes(rows[j], x))
    ensures x in Compile(rows, parse).policies <==> x in Compile(rows[..k], parse).policies
    ensures x in Compile(rows[..k], parse).policies ==>
      Compile(rows, parse).policies[x] == Compile(rows[..k], parse).policies[x]
  {
    if k == |rows| {
      assert rows[..k] == rows;
    } else {
      var init := rows[..|rows| - 1];
      var row := rows[|rows| - 1];
      assert init[..k] == rows[..k];
      LemmaRowsAfterKeep(init, parse, x, k);
      var before, after := Compile(init, parse).policies, Compile(rows, parse).policies;
      if Accepted(row) {
        LemmaRowPolicyFrame(Compile(init, parse), row, parse);
        assert WrittenBy(before, after, row);
        assert !Writes(row, x);
      } else {
        assert after == before;
      }
    }
  }

  /** A tag has an mqtt helper entry exactly when some accepted row writes
      it, and the entry is the one the last such row left: the rows after it
      do not touch it. */
  lemma {:induction false} LemmaCompilePolicies(rows: seq<Row>, parse: string -> Option<PyFloat>, x: string)
    ensures LastWriter(rows, x).None? ==> x !in Compile(rows, parse).policies
    ensures LastWriter(rows, x).Some? ==>
      x in Compile(rows[..LastWriter(rows, x).value + 1], parse).policies && x in Compile(rows, parse).policies &&
      Compile(rows, parse).policies[x] == Compile(rows[..LastWriter(rows, x).value + 1], parse).policies[x]
  {
    LemmaLastWriter(rows, x);
    match LastWriter(rows, x)
    case None =>
      LemmaRowsAfterKeep(rows, parse, x, 0);
      assert rows[..0] == [];
    case Some(j) =>
      var upto := rows[..j + 1];
      assert upto[..j] == rows[..j] && upto[j] == rows[j];
      LemmaRowPolicyFrame(Compile(rows[..j], parse), rows[j], parse);
      assert x in Compile(upto, parse).policies;
      LemmaRowsAfterKeep(rows, parse, x, j + 1);
  }

  /** Row i is accepted and its function code is fc. */
  predicate ClaimsFor(row: Row, fc: string)
  {
    Accepted(row) && MatchCode(row.readType) == Some(fc)
  }

  /** The addresses the rows claim for fc, in row order. */
  function Claims(rows: seq<Row>, fc: string): seq<int>
  {
    if rows == [] then []
    else
      var row := rows[|rows| - 1];
      Claims(rows[..|rows| - 1], fc) + (if ClaimsFor(row, fc) then Range(row.addressNumber, Count(row)) else [])
  }

  /** The descriptor of the last row that claims start address a for fc. */
  function LastDescriptor(rows: seq<Row>, fc: string, a: int): Option<Descriptor>
  {
    if rows == [] then None
    else
      var row := rows[|rows| - 1];
      if ClaimsFor(row, fc) && row.addressNumber == a then Some(DescriptorOf(row))
      else LastDescriptor(rows[..|rows| - 1], fc, a)
  }

  function DescriptorAt(tables: map<string, FcTable>, fc: string, a: int): Option<Descriptor>
  {
    var t := TableOf(tables, fc);
    if a in t.maps then Some(t.maps[a]) else None
  }

  lemma {:induction false} LemmaStepKeys(st: Compiled, row: Row, parse: string -> Option<PyFloat>)
    ensures Step(st, row, parse).tables.Keys ==
      st.tables.Keys + if Accepted(row) && MatchCode(row.readType).Some? then {MatchCode(row.readType).value} else {}
  {
  }

  /** Some row claims for fc. */
  predicate Claimed(rows: seq<Row>, fc: string)
  {
    rows != [] && (ClaimsFor(rows[|rows| - 1], fc) || Claimed(rows[..|rows| - 1], fc))
  }

  /** After the whole template, a function code has a table exactly when
      some row claims for it. */
  lemma {:induction false} LemmaCompileKeys(rows: seq<Row>, parse: string -> Option<PyFloat>, fc: string)
    ensures fc in Compile(rows, parse).tables <==> Claimed(rows, fc)
  {
    if rows != [] {
      var init := rows[..|rows| - 1];
      LemmaCompileKeys(init, parse, fc);
      LemmaStepKeys(Compile(init, parse), rows[|rows| - 1], parse);
    }
  }

  /** The addresses of a function code are all its claims, in row order,
      duplicates kept. */
  lemma {:induction false} LemmaCompileAddresses(rows: seq<Row>, parse: string -> Option<PyFloat>, fc: string)
    ensures TableOf(Compile(rows, parse).tables, fc).addresses == Claims(rows, fc)
  {
    if rows != [] {
      var init := rows[..|rows| - 1];
      var row := rows[|rows| - 1];
      LemmaCompileAddresses(init, parse, fc);
      if Accepted(row) {
        match MatchCode(row.readType)
        case None =>
        case Some(fc') =>
          LemmaMatchedRow(Compile(init, parse), row, parse, fc');
      }
    }
  }

  /** Last write wins: the descriptor at an address is the one of the last
      row that claimed it as its start address. */
  lemma {:induction false} LemmaCompileDescriptors(rows: seq<Row>, parse: string -> Option<PyFloat>, fc: string, a: int)
    ensures DescriptorAt(Compile(rows, parse).tables, fc, a) == LastDescriptor(rows, fc, a)
  {
    if rows != [] {
      var init := rows[..|rows| - 1];
      var row := rows[|rows| - 1];
      LemmaCompileDescriptors(init, parse, fc, a);
      if Accepted(row) {
        match MatchCode(row.readType)
        case None =>
        case Some(fc') =>
          LemmaMatchedRow(Compile(init, parse), row, parse, fc');
      }
    }
  }

  /** The call groups of a compiled template read exactly the claimed
      addresses, in ascending order, and their counts add up to the number
      of claims. */
  lemma {:induction false} LemmaCompiledGroups(rows: seq<Row>, parse: string -> Option<PyFloat>, fc: string)
    requires fc in Compile(rows, parse).tables
    ensures Expand(GroupsOf(Compile(rows, parse).tables)[fc]) == SortAsc(Claims(rows, fc))
    ensures TotalCount(GroupsOf(Compile(rows, parse).tables)[fc]) == |Claims(rows, fc)|
  {
    LemmaCompileAddresses(rows, parse, fc);
    LemmaMergeRunsCovers(SortAsc(Claims(rows, fc)));
    LemmaMergeRunsCount(SortAsc(Claims(rows, fc)));
  }

  // ---------------------------------------------------------------------
  // The compiler, as the loops it is
  // ---------------------------------------------------------------------

  method ApplyRow(tables: map<string, FcTable>, policies: map<string, Policy>, row: Row,
                  parse: string -> Option<PyFloat>)
    returns (tables': map<string, FcTable>, policies': map<string, Policy>)
    ensures Compiled(tables', policies') == Step(Compiled(tables, policies), row, parse)
  {
    var accepted, prepared := PrepareRow(policies, row);
    tables', policies' := tables, prepared;
    if !accepted {
      return;
    }
    var settings := SettingsOf(row, DataTypeOf(row), parse);
    var fc := FindFunctionCode(row.readType);
    if fc.Some? {
      if DataTypeOf(row) == "packedbool" {
        LemmaPreparedSubtags(policies, row);
      }
      tables', policies' := ClaimRow(tables', policies', row, fc.value, settings);
    }
  }

  /** The first half of a row: skip it when the address or read type is
      blank or the data type unsupported, otherwise make sure its tag has
      an entry and reset a packed boolean's sub-tags. */
  method PrepareRow(policies: map<string, Policy>, row: Row) returns (accepted: bool, policies': map<string, Policy>)
    ensures accepted == Accepted(row)
    ensures policies' == if accepted then Prepare(policies, row) else policies
  {
    accepted, policies' := false, policies;
    if row.address == "" {
      return;
    }
    if row.readType == "" {
      return;
    }
    var dataType := row.dataType;
    if dataType == "" {
      dataType := "sint16";
    }
    if dataType !in RegisterCount() {
      return;
    }
    accepted := true;
    var tag := row.tagName;
    if tag == "" {
      tag := row.readType + "_address_" + row.address + "_data_type_" + dataType;
    }
    if tag !in policies' {
      policies' := policies'[tag := Policy(None, None)];
    }
    var topic := if row.topic == "" then tag else row.topic + "/" + tag;
    if dataType == "packedbool" {
      policies' := ResetSubtagEntries(policies', tag, topic);
    }
    assert dataType == DataTypeOf(row) && tag == TagNameOf(row) && topic == TopicOf(row);
  }

  /** The second half of a row whose function code was found: record the
      descriptor, write the settings, claim the addresses. */
  method ClaimRow(tables: map<string, FcTable>, policies: map<string, Policy>, row: Row, code: string, settings: Settings)
    returns (tables': map<string, FcTable>, policies': map<string, Policy>)
    requires Accepted(row)
    requires DataTypeOf(row) == "packedbool" ==>
      ValueKey(TagNameOf(row)) in policies && forall k :: 0 <= k < 16 ==> BitKey(TagNameOf(row), k) in policies
    ensures tables' == tables[code := Claim(TableOf(tables, code), row)]
    ensures policies' == Publish(policies, row, settings)
  {
    var dataType := DataTypeOf(row);
    var tag := TagNameOf(row);
    var table := if code in tables then tables[code] else FcTable([], map[]);
    var count := RegisterCount()[dataType];
    var maps := table.maps[row.addressNumber := Descriptor(count, dataType, tag, row.scalingCoeff, row.scalingOffset)];
    policies' := policies[tag := Policy(Some(TopicOf(row)), Some(settings))];
    if dataType == "packedbool" {
      LemmaSubtagNamesDiffer(tag, 0);
      policies' := SettleSubtagEntries(policies', tag, settings);
    }
    var addresses := ClaimAddresses(table.addresses, row.addressNumber, count);
    tables' := tables[code := FcTable(addresses, maps)];
  }

  lemma {:induction false} LemmaPreparedSubtags(p: map<string, Policy>, row: Row)
    requires Accepted(row) && DataTypeOf(row) == "packedbool"
    ensures ValueKey(TagNameOf(row)) in Prepare(p, row)
    ensures forall k :: 0 <= k < 16 ==> BitKey(TagNameOf(row), k) in Prepare(p, row)
  {
  }

  /** Replace every sub-tag entry of a packed boolean by one holding only
      its topic. */
  method ResetSubtagEntries(p: map<string, Policy>, tag: string, topic: string) returns (r: map<string, Policy>)
    ensures r == ResetSubtags(p, tag, topic)
  {
    r := p[ValueKey(tag) := Policy(Some(topic + ValueSuffix), None)];
    ghost var before := r;
    var i := 0;
    while i < 16
      invariant 0 <= i <= 16
      invariant r == ResetBits(before, tag, topic, i)
    {
      r := r[BitKey(tag, i) := Policy(Some(topic + BitSuffix(i)), None)];
      i := i + 1;
    }
  }

  /** Copy the settings into every sub-tag entry of a packed boolean. */
  method SettleSubtagEntries(p: map<string, Policy>, tag: string, s: Settings) returns (r: map<string, Policy>)
    requires ValueKey(tag) in p
    requires forall k :: 0 <= k < 16 ==> BitKey(tag, k) in p
    ensures r == SettleSubtags(p, tag, s)
  {
    r := p[ValueKey(tag) := Policy(p[ValueKey(tag)].topic, Some(s))];
    ghost var before := r;
    var i := 0;
    while i < 16
      invariant 0 <= i <= 16
      invariant r == SettleBits(before, tag, s, i)
    {
      r := r[BitKey(tag, i) := Policy(r[BitKey(tag, i)].topic, Some(s))];
      i := i + 1;
    }
  }

  /** Append the count addresses from start to the claimed addresses. */
  method ClaimAddresses(addresses: seq<int>, start: int, count: nat) returns (r: seq<int>)
    ensures r == addresses + Range(start, count)
  {
    r := addresses;
    var address := start;
    while address < start + count
      invariant start <= address <= start + count
      invariant r == addresses + Range(start, address - start)
    {
      LemmaRangeStep(start, address - start);
      r := r + [address];
      address := address + 1;
    }
  }

  /** parse_template_build_calls on the rows of a template. */
  method ParseTemplateBuildCalls(rows: seq<Row>, parse: string -> Option<PyFloat>)
    returns (callGroups: map<string, seq<CallGroup>>, tables: map<string, FcTable>, policies: map<string, Policy>)
    ensures Compiled(tables, policies) == Compile(rows, parse)
    ensures callGroups == GroupsOf(tables)
    ensures forall fc :: fc in callGroups ==>
      Expand(callGroups[fc]) == SortAsc(tables[fc].addresses) &&
      TotalCount(callGroups[fc]) == |tables[fc].addresses|
  {
    tables, policies := CompileRows(rows, parse);
    callGroups := BuildCallGroups(tables);
  }

  /** The loop over the template rows. */
  method CompileRows(rows: seq<Row>, parse: string -> Option<PyFloat>)
    returns (tables: map<string, FcTable>, policies: map<string, Policy>)
    ensures Compiled(tables, policies) == Compile(rows, parse)
  {
    tables, policies := map[], map[];
    var i := 0;
    while i < |rows|
      invariant 0 <= i <= |rows|
      invariant Compiled(tables, policies) == Compile(rows[..i], parse)
    {
      assert rows[..i + 1][..i] == rows[..i];
      tables, policies := ApplyRow(tables, policies, rows[i], parse);
      i := i + 1;
    }
    assert rows[..i] == rows;
  }

  /** The sort-and-merge pass over the claimed addresses of every function
      code. */
  method BuildCallGroups(tables: map<string, FcTable>) returns (callGroups: map<string, seq<CallGroup>>)
    ensures callGroups == GroupsOf(tables)
    ensures forall fc :: fc in callGroups ==>
      Expand(callGroups[fc]) == SortAsc(tables[fc].addresses) &&
      TotalCount(callGroups[fc]) == |tables[fc].addresses|
  {
    callGroups := map[];
    var remaining := tables.Keys;
    while remaining != {}
      invariant remaining <= tables.Keys
      invariant callGroups.Keys == tables.Keys - remaining
      invariant forall fc :: fc in callGroups ==> callGroups[fc] == MergeRuns(SortAsc(tables[fc].addresses))
      decreases remaining
    {
      var fc :| fc in remaining;
      var groups := MergeCallGroups(SortAsc(tables[fc].addresses));
      callGroups := callGroups[fc := groups];
      remaining := remaining - {fc};
    }
    LemmaGroupsOf(tables, callGroups);
    LemmaGroupsCover(tables, callGroups);
  }

  lemma {:induction false} LemmaGroupsOf(tables: map<string, FcTable>, g: map<string, seq<CallGroup>>)
    requires g.Keys == tables.Keys
    requires forall fc :: fc in g ==> g[fc] == MergeRuns(SortAsc(tables[fc].addresses))
    ensures g == GroupsOf(tables)
  {
  }

  lemma {:induction false} LemmaGroupsCover(tables: map<string, FcTable>, g: map<string, seq<CallGroup>>)
    requires g.Keys == tables.Keys
    requires forall fc :: fc in g ==> g[fc] == MergeRuns(SortAsc(tables[fc].addresses))
    ensures forall fc :: fc in g ==>
      Expand(g[fc]) == SortAsc(tables[fc].addresses) &&
      TotalCount(g[fc]) == |tables[fc].addresses|
  {
    forall fc | fc in g
      ensures Expand(g[fc]) == SortAsc(tables[fc].addresses)
      ensures TotalCount(g[fc]) == |tables[fc].addresses|
    {
      LemmaMergeRunsCovers(SortAsc(tables[fc].addresses));
      LemmaMergeRunsCount(SortAsc(tables[fc].addresses));
    }
  }
}
