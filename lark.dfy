/** The table sink: rewriting a flat record into table fields, and the create-or-update decision
    against a remote table that is searched by business id. */
module Lark {
  import opened Wrappers
  import opened GoStrings
  import opened CivilTime
  import QFlow
  import QFlowTypes

  /** The business id every record is matched on (serial number). */
  const IdFieldName: string := "编号"
  /** The two timestamp fields (last update time, application time). */
  const UpdateTimeFieldName: string := "更新时间"
  const CreateTimeFieldName: string := "申请时间"
  /** The field sent as a hyperlink; the same key the form client stores the permalink under. */
  const LinkFieldName: string := QFlow.UrlKey

  /** A value as the table receives it: plain text, an epoch-millisecond timestamp, or a link
      object `{"link": ...}`. */
  datatype FieldValue = Text(text: string) | Millis(ms: int) | Link(link: string)

  type Fields = map<string, FieldValue>

  predicate IsTimeKey(key: string) {
    key == UpdateTimeFieldName || key == CreateTimeFieldName
  }

  // ---------------------------------------------------------------------------
  // parseFields
  // ---------------------------------------------------------------------------

  /** A timestamp field: the reading's Unix milliseconds, or the current time `now` (already in
      milliseconds) when the text does not parse. */
  function TimestampMillis(v: string, now: int): int
  {
    match ParseLocal(v)
    case Some(t) => ParseIsValid(v); UnixMillis(t)
    case None => now
  }

  /** The per-entry rewrite, applied to an already trimmed key. */
  function FieldValueOf(key: string, v: string, now: int): (fv: FieldValue)
    ensures fv.Millis? <==> IsTimeKey(key)
    ensures fv.Link? <==> key == LinkFieldName
    ensures fv.Text? ==> fv.text == v
    ensures fv.Link? ==> fv.link == v
  {
    if IsTimeKey(key) then Millis(TimestampMillis(v, now))
    else if key == LinkFieldName then Link(v)
    else Text(v)
  }

  /** `lo.MapEntries` over the keys in the order `order` visits them: each entry present in
      `fields` stores its trimmed key, so a later key that trims to the same text overwrites an
      earlier one. */
  function MapEntries(fields: map<string, string>, order: seq<string>, now: int): Fields
  {
    if |order| == 0 then map[]
    else
      var init := order[..|order| - 1];
      var k := order[|order| - 1];
      assert order == init + [k];
      var prev := MapEntries(fields, init, now);
      if k in fields then prev[TrimSpace(k) := FieldValueOf(TrimSpace(k), fields[k], now)] else prev
  }

  /** `order` lists each of `keys` exactly once: one run of Go's (unspecified) map iteration. */
  predicate Enumerates(order: seq<string>, keys: set<string>) {
    && (forall k :: k in keys ==> k in order)
    && (forall i :: 0 <= i < |order| ==> order[i] in keys)
    && (forall i, j :: 0 <= i < j < |order| ==> order[i] != order[j])
  }

  /** `parseFields(fields)` when Go's range over the map visits the keys in `order`. The result's
      keys are exactly the trimmed input keys. */
  function ParseFields(fields: map<string, string>, order: seq<string>, now: int): Fields
    requires Enumerates(order, fields.Keys)
  {
    MapEntries(fields, order, now)
  }

  /** The keys written are the trimmed keys of the entries visited. */
  lemma {:induction false} MapEntriesKeys(fields: map<string, string>, order: seq<string>, now: int)
    ensures MapEntries(fields, order, now).Keys == set k | k in order && k in fields :: TrimSpace(k)
  {
    if |order| > 0 {
      var init := order[..|order| - 1];
      var k := order[|order| - 1];
      assert order == init + [k];
      MapEntriesKeys(fields, init, now);
    }
  }

  /** The output's keys are exactly the trimmed input keys. */
  lemma ParseFieldsKeys(fields: map<string, string>, order: seq<string>, now: int)
    requires Enumerates(order, fields.Keys)
    ensures ParseFields(fields, order, now).Keys == set k | k in fields :: TrimSpace(k)
  {
    MapEntriesKeys(fields, order, now);
  }

  /** An entry that no later entry overwrites keeps its own rewritten value. */
  lemma {:induction false} LastEntryWins(fields: map<string, string>, order: seq<string>, now: int, i: int)
    requires 0 <= i < |order| && order[i] in fields
    requires forall j :: i < j < |order| && order[j] in fields ==> TrimSpace(order[j]) != TrimSpace(order[i])
    ensures var key := TrimSpace(order[i]);
      key in MapEntries(fields, order, now) && MapEntries(fields, order, now)[key] == FieldValueOf(key, fields[order[i]], now)
  {
    var init := order[..|order| - 1];
    if i < |order| - 1 {
      assert init[i] == order[i];
      forall j | i < j < |init| && init[j] in fields
        ensures TrimSpace(init[j]) != TrimSpace(init[i])
      {
        assert init[j] == order[j];
      }
      LastEntryWins(fields, init, now, i);
    }
  }

  /** A key that no other key trims to is rewritten from its own value, whatever the order. */
  lemma UniqueKeyField(fields: map<string, string>, order: seq<string>, now: int, k: string)
    requires Enumerates(order, fields.Keys)
    requires k in fields
    requires forall k' :: k' in fields && TrimSpace(k') == TrimSpace(k) ==> k' == k
    ensures var key := TrimSpace(k);
      key in ParseFields(fields, order, now) && ParseFields(fields, order, now)[key] == FieldValueOf(key, fields[k], now)
  {
    var i :| 0 <= i < |order| && order[i] == k;
    LastEntryWins(fields, order, now, i);
  }

  /** When no two keys trim to the same text, the map's iteration order does not matter. */
  lemma OrderIrrelevant(fields: map<string, string>, o1: seq<string>, o2: seq<string>, now: int)
    requires Enumerates(o1, fields.Keys) && Enumerates(o2, fields.Keys)
    requires forall k, k' :: k in fields && k' in fields && TrimSpace(k) == TrimSpace(k') ==> k == k'
    ensures ParseFields(fields, o1, now) == ParseFields(fields, o2, now)
  {
    var r1 := ParseFields(fields, o1, now);
    var r2 := ParseFields(fields, o2, now);
    forall key | key in r1
      ensures key in r2 && r1[key] == r2[key]
    {
      SameEntry(fields, o1, o2, now, key);
    }
    forall key | key in r2
      ensures key in r1
    {
      SameEntry(fields, o2, o1, now, key);
    }
    assert r1.Keys == r2.Keys;
  }

  lemma SameEntry(fields: map<string, string>, o1: seq<string>, o2: seq<string>, now: int, key: string)
    requires Enumerates(o1, fields.Keys) && Enumerates(o2, fields.Keys)
    requires forall k, k' :: k in fields && k' in fields && TrimSpace(k) == TrimSpace(k') ==> k == k'
    requires key in ParseFields(fields, o1, now)
    ensures key in ParseFields(fields, o2, now) && ParseFields(fields, o1, now)[key] == ParseFields(fields, o2, now)[key]
  {
    MapEntriesKeys(fields, o1, now);
    var k :| k in o1 && k in fields && TrimSpace(k) == key;
    UniqueKeyField(fields, o1, now, k);
    UniqueKeyField(fields, o2, now, k);
  }

  /** A field already free of surrounding blanks, other than the time and link fields, keeps its
      text unchanged. */
  lemma PlainFieldUnchanged(fields: map<string, string>, order: seq<string>, now: int, k: string)
    requires Enumerates(order, fields.Keys)
    requires k in fields && NoLeadingSpace(k) && NoTrailingSpace(k)
    requires !IsTimeKey(k) && k != LinkFieldName
    requires forall k' :: k' in fields && TrimSpace(k') == k ==> k' == k
    ensures k in ParseFields(fields, order, now) && ParseFields(fields, order, now)[k] == Text(fields[k])
  {
    TrimSpaceKeepsTrimmed(k);
    UniqueKeyField(fields, order, now, k);
  }

  /** The permalink the form client stores under "URL" reaches the table as a link, unless some
      other key of the record also trims to "URL". */
  lemma PermalinkSentAsLink(c: QFlow.Client, item: QFlowTypes.Item, order: seq<string>, now: int)
    requires Enumerates(order, QFlow.ItemRecord(c, item).Keys)
    requires forall k :: k in QFlow.ItemRecord(c, item) && TrimSpace(k) == LinkFieldName ==> k == LinkFieldName
    ensures var out := ParseFields(QFlow.ItemRecord(c, item), order, now);
      LinkFieldName in out && out[LinkFieldName] == Link(QFlow.Permalink(c, item.applyId))
  {
    var rec := QFlow.ItemRecord(c, item);
    assert NoLeadingSpace(LinkFieldName) && NoTrailingSpace(LinkFieldName);
    TrimSpaceKeepsTrimmed(LinkFieldName);
    UniqueKeyField(rec, order, now, LinkFieldName);
  }

  /** A timestamp written in the layout becomes that instant in Unix milliseconds. */
  lemma TimestampOfLayout(t: LocalTime, now: int)
    requires Valid(t)
    ensures FieldValueOf(UpdateTimeFieldName, Format(t), now) == Millis(UnixMillis(t))
    ensures FieldValueOf(CreateTimeFieldName, Format(t), now) == Millis(UnixMillis(t))
  {
    ParseFormat(t);
  }

  /** The example in the source comment. */
  lemma ExampleTimestampField(now: int)
    ensures FieldValueOf(UpdateTimeFieldName, "2024-11-24 20:15:35", now) == Millis(1732450535000)
  {
    ExampleTimestamp();
  }

  /** A timestamp that does not parse is not an error: the field becomes the current time. */
  lemma UnparsableTimestampIsNow(v: string, now: int)
    requires ParseLocal(v).None?
    ensures FieldValueOf(UpdateTimeFieldName, v, now) == Millis(now)
    ensures FieldValueOf(CreateTimeFieldName, v, now) == Millis(now)
  {
  }

  // The examples below take the text as a parameter `v` equal to a literal, and rebuild it from
  // `Pad` pieces in small `...Text` and `...Join` lemmas. Stating the property about the literal
  // itself, or chaining the literal concatenations in one proof, makes the solver unfold the
  // parser over every character of the literal, which costs far more than these steps.

  /** Month 13 does not parse, so such an update time is sent as the current time. */
  lemma MonthThirteenIsUnparsable(v: string, now: int)
    requires v == "2024-13-01 00:00:00"
    ensures ParseLocal(v).None?
    ensures FieldValueOf(UpdateTimeFieldName, v, now) == Millis(now)
  {
    MonthThirteenText(v);
    MonthRejectedOf(2024, 13, "-01 00:00:00");
  }

  lemma MonthThirteenText(v: string)
    requires v == "2024-13-01 00:00:00"
    ensures v == Pad(2024, 4) + ("-" + (Pad(13, 2) + "-01 00:00:00"))
  {
    ExampleYear();
    PadTwo(13);
    assert Pad(13, 2) == "13";
    MonthThirteenJoin();
  }

  lemma MonthThirteenJoin()
    ensures "2024" + ("-" + ("13" + "-01 00:00:00")) == "2024-13-01 00:00:00"
  {
  }

  /** The 31st of November does not parse, so such an update time is sent as the current time. */
  lemma NovemberThirtyFirstIsUnparsable(v: string, now: int)
    requires v == "2024-11-31 00:00:00"
    ensures ParseLocal(v).None?
    ensures FieldValueOf(UpdateTimeFieldName, v, now) == Millis(now)
  {
    NovemberThirtyFirstText(v);
    DayRejectedOf(2024, 11, 31, " 00:00:00");
  }

  lemma NovemberThirtyFirstText(v: string)
    requires v == "2024-11-31 00:00:00"
    ensures v == Pad(2024, 4) + ("-" + (Pad(11, 2) + ("-" + (Pad(31, 2) + " 00:00:00"))))
  {
    ExampleYear();
    PadTwo(11);
    PadTwo(31);
    assert Pad(11, 2) == "11" && Pad(31, 2) == "31";
    NovemberJoin();
  }

  lemma NovemberJoin()
    ensures "2024" + ("-" + ("11" + ("-" + ("31" + " 00:00:00")))) == "2024-11-31 00:00:00"
  {
  }

  /** Hour 24 does not parse, so such an update time is sent as the current time. */
  lemma HourTwentyFourIsUnparsable(v: string, now: int)
    requires v == "2024-11-24 24:00:00"
    ensures ParseLocal(v).None?
    ensures FieldValueOf(UpdateTimeFieldName, v, now) == Millis(now)
  {
    HourTwentyFourText(v);
    HourRejectedOf(2024, 11, 24, 24, ":00:00");
  }

  lemma HourTwentyFourText(v: string)
    requires v == "2024-11-24 24:00:00"
    ensures v == Pad(2024, 4) + ("-" + (Pad(11, 2) + ("-" + (Pad(24, 2) + (" " + (Pad(24, 2) + ":00:00"))))))
  {
    ExampleYear();
    PadTwo(11);
    PadTwo(24);
    assert Pad(11, 2) == "11" && Pad(24, 2) == "24";
    HourTwentyFourJoin();
  }

  lemma HourTwentyFourJoin()
    ensures "2024" + ("-" + ("11" + ("-" + ("24" + (" " + ("24" + ":00:00")))))) == "2024-11-24 24:00:00"
  {
  }

  // ---------------------------------------------------------------------------
  // The remote table
  // ---------------------------------------------------------------------------

  /** How one remote call went: delivered with a success response, its rate limiter's wait
      failed (no request is sent), the transport failed, or the service answered with an error
      code. */
  datatype Outcome = Delivered | LimiterFailed | SendFailed | Refused(code: int)

  datatype SinkError = LimiterError | TransportError | ApiError(code: int)

  /** The error a call returns. */
  function ErrorOf(o: Outcome): (e: Option<SinkError>)
    ensures e.None? <==> o.Delivered?
  {
    match o
    case Delivered => None
    case LimiterFailed => Some(LimiterError)
    case SendFailed => Some(TransportError)
    case Refused(code) => Some(ApiError(code))
  }

  /** A request that reached the service. */
  datatype Call =
    | Search(id: string)
    | Update(recordId: string, fields: Fields)
    | Create(fields: Fields)

  /** The request is sent unless the limiter's wait failed first. */
  function Sent(o: Outcome, call: Call): (log: seq<Call>)
    ensures log == [] <==> o.LimiterFailed?
  {
    if o.LimiterFailed? then [] else [call]
  }

  /** The business id a created row can later be searched by: the text stored under "编号". */
  function RowKey(fields: Fields): Option<string>
  {
    if IdFieldName in fields && fields[IdFieldName].Text? then Some(fields[IdFieldName].text) else None
  }

  /** The table after a create: the new row is indexed by its business id when it has one. */
  function AfterCreate(rows: map<string, string>, fields: Fields, o: Outcome, newRecordId: string): map<string, string>
  {
    if o.Delivered? && RowKey(fields).Some? then rows[RowKey(fields).value := newRecordId] else rows
  }

  /** The table client. `rows` maps each business id to the record id of its row; `calls` logs
      the requests sent, in order. Replies are decided by `rows` and by the outcome given to each
      call, which stands for the limiter, the network and the service's response code. */
  class Sink {
    var rows: map<string, string>
    var calls: seq<Call>

    constructor (rows0: map<string, string>)
      ensures rows == rows0 && calls == []
    {
      rows := rows0;
      calls := [];
    }

    /** `RecordExists`: on any failure `(false, "", err)`; otherwise whether a row has business id
        `id`, and the record id of that row. */
    method RecordExists(id: string, o: Outcome) returns (found: bool, recordId: string, err: Option<SinkError>)
      modifies this
      ensures rows == old(rows)
      ensures calls == old(calls) + Sent(o, Search(id))
      ensures err == ErrorOf(o)
      ensures found <==> o.Delivered? && id in rows
      ensures recordId == if found then rows[id] else ""
    {
      if o.LimiterFailed? {
        return false, "", Some(LimiterError);
      }
      calls := calls + [Search(id)];
      match o {
        case SendFailed => return false, "", Some(TransportError);
        case Refused(code) => return false, "", Some(ApiError(code));
        case Delivered =>
          if id !in rows {
            return false, "", None;
          }
          return true, rows[id], None;
      }
    }

    /** `UpdateRecord`: rewrites the fields of an existing row; the index is unchanged. */
    method UpdateRecord(recordId: string, fields: Fields, o: Outcome) returns (err: Option<SinkError>)
      modifies this
      ensures rows == old(rows)
      ensures calls == old(calls) + Sent(o, Update(recordId, fields))
      ensures err == ErrorOf(o)
    {
      if o.LimiterFailed? {
        return Some(LimiterError);
      }
      calls := calls + [Update(recordId, fields)];
      return ErrorOf(o);
    }

    /** `CreateRecord`: adds a row; on success its new record id is returned, otherwise "". */
    method CreateRecord(fields: Fields, o: Outcome, newRecordId: string) returns (recordId: string, err: Option<SinkError>)
      modifies this
      ensures rows == AfterCreate(old(rows), fields, o, newRecordId)
      ensures calls == old(calls) + Sent(o, Create(fields))
      ensures err == ErrorOf(o)
      ensures recordId == if o.Delivered? then newRecordId else ""
    {
      if o.LimiterFailed? {
        return "", Some(LimiterError);
      }
      calls := calls + [Create(fields)];
      if !o.Delivered? {
        return "", ErrorOf(o);
      }
      if RowKey(fields).Some? {
        rows := rows[RowKey(fields).value := newRecordId];
      }
      return newRecordId, None;
    }

    /** `WriteRecord`: a record without "编号" is skipped; otherwise its id is searched and the
        rewritten fields update the matching row, or create one when there is none. `order` is the
        map iteration order `parseFields` sees; `existsOutcome` and `writeOutcome` are how the
        search and the write go. */
    method WriteRecord(rec: map<string, string>, order: seq<string>, now: int,
                       existsOutcome: Outcome, writeOutcome: Outcome, newRecordId: string)
      returns (err: Option<SinkError>)
      requires Enumerates(order, rec.Keys)
      modifies this
      ensures IdFieldName !in rec ==> err.None? && calls == old(calls) && rows == old(rows)
      ensures IdFieldName in rec && !existsOutcome.Delivered? ==>
        && err == ErrorOf(existsOutcome)
        && calls == old(calls) + Sent(existsOutcome, Search(rec[IdFieldName]))
        && rows == old(rows)
      ensures IdFieldName in rec && existsOutcome.Delivered? && rec[IdFieldName] in old(rows) ==>
        && err == ErrorOf(writeOutcome)
        && calls == old(calls) + [Search(rec[IdFieldName])]
                    + Sent(writeOutcome, Update(old(rows)[rec[IdFieldName]], ParseFields(rec, order, now)))
        && rows == old(rows)
      ensures IdFieldName in rec && existsOutcome.Delivered? && rec[IdFieldName] !in old(rows) ==>
        && err == ErrorOf(writeOutcome)
        && calls == old(calls) + [Search(rec[IdFieldName])] + Sent(writeOutcome, Create(ParseFields(rec, order, now)))
        && rows == AfterCreate(old(rows), ParseFields(rec, order, now), writeOutcome, newRecordId)
    {
      if IdFieldName !in rec {
        return None;
      }
      var id := rec[IdFieldName];
      var found, recordId, e := RecordExists(id, existsOutcome);
      if e.Some? {
        return e;
      }
      var fields := ParseFields(rec, order, now);
      if found {
        err := UpdateRecord(recordId, fields, writeOutcome);
        return;
      }
      var _, e2 := CreateRecord(fields, writeOutcome, newRecordId);
      return e2;
    }
  }

  /** A created row is indexed by the record's own "编号" when no other key of the record trims
      to "编号", so the next write of the same record finds it and updates instead. */
  lemma CreatedRowIsFound(rows: map<string, string>, rec: map<string, string>, order: seq<string>, now: int,
                           newRecordId: string)
    requires Enumerates(order, rec.Keys)
    requires IdFieldName in rec
    requires forall k :: k in rec && TrimSpace(k) == IdFieldName ==> k == IdFieldName
    ensures var after := AfterCreate(rows, ParseFields(rec, order, now), Delivered, newRecordId);
      rec[IdFieldName] in after && after[rec[IdFieldName]] == newRecordId
  {
    assert NoLeadingSpace(IdFieldName) && NoTrailingSpace(IdFieldName);
    PlainFieldUnchanged(rec, order, now, IdFieldName);
  }
}
