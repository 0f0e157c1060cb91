/**
 * A request and its answer, end to end: the query string that the client writes, the
 * parameters that the server reads from it, the answer, and how the client judges it.
 */
module Exchanges {
  import opened Answers
  import Client
  import opened Calendar
  import opened CodePointOrder
  import opened DateTimes
  import opened Encoding
  import opened Periods
  import opened Queries
  import opened QueryStrings
  import opened ReferenceServer
  import opened Texts
  import opened Wrappers

  /** The parameters of a call. */
  datatype Call = Call(target: Option<Text>, start: Option<string>, end: Option<string>, granularity: Option<Granularity>)

  predicate CanBeSent(call: Call) {
    && (call.start.Some? ==> QueryBound(Start, call.start.value).Ok?)
    && (call.end.Some? ==> QueryBound(End, call.end.value).Ok?)
  }

  /** The call as it is sent, and as its answer is judged: with the bounds in the form sent. */
  function Sent(call: Call): Query
    requires CanBeSent(call)
  {
    Query(call.target,
          if call.start.Some? then Some(QueryBound(Start, call.start.value).value) else None,
          if call.end.Some? then Some(QueryBound(End, call.end.value).value) else None,
          call.granularity)
  }

  function GranularityName(unit: Granularity): string {
    match unit
    case Yearly => "yearly"
    case Monthly => "monthly"
    case Daily => "daily"
  }

  function Given(name: string, value: Option<string>): seq<Pair> {
    if value.Some? then [Pair(name, value.value)] else []
  }

  /** The pairs that the client writes, in order. */
  function PairsOf(query: Query): seq<Pair> {
    Given("target", if query.target.Some? then Some(WriteUtf8(query.target.value)) else None)
    + Given("start", query.start) + Given("end", query.end)
    + Given("granularity", if query.granularity.Some? then Some(GranularityName(query.granularity.value)) else None)
  }

  function Lookup(honored: map<string, string>, name: string): Option<string> {
    if name in honored then Some(honored[name]) else None
  }

  function GranularityNamed(name: string): Granularity {
    if name == "yearly" then Yearly else if name == "monthly" then Monthly else Daily
  }

  /** The query that the server answers, from the parameters it honors. */
  function QueryOf(honored: map<string, string>): Query {
    Query(if "target" in honored then ReadUtf8(honored["target"]) else None,
          Lookup(honored, "start"), Lookup(honored, "end"),
          if "granularity" in honored then Some(GranularityNamed(honored["granularity"])) else None)
  }

  /** The query that a server reads from what the client writes. */
  function ReadFrom(rawQuery: string): Query {
    QueryOf(HonoredOf(SeenIn(Parts(rawQuery))))
  }

  // ---- Date-times are plain text ----

  lemma TailIsAscii(tail: string, i: nat)
    requires TailForm(tail) && i < |tail|
    ensures tail[i] as int < 0x80
  {
    var zone := |tail| - ZoneLength(tail);
    if i < zone {
      assert tail[..zone][i] == tail[i];
      assert i > 0 ==> tail[..zone][1..][i - 1] == tail[i];
    } else {
      var text := tail[zone..];
      assert text[i - zone] == tail[i];
      if text != "Z" {
        assert text[1..3][0] == text[1] && text[1..3][1] == text[2] && text[4..6][0] == text[4] && text[4..6][1] == text[5];
      }
    }
  }

  lemma RestIsAscii(rest: string, i: nat)
    requires RestForm(rest) && i < |rest|
    ensures rest[i] as int < 0x80
  {
    hide TailForm;
    assert rest[1..3][0] == rest[1] && rest[1..3][1] == rest[2] && rest[4..6][0] == rest[4] && rest[4..6][1] == rest[5];
    assert rest[7..9][0] == rest[7] && rest[7..9][1] == rest[8] && rest[10..12][0] == rest[10] && rest[10..12][1] == rest[11];
    assert rest[13..15][0] == rest[13] && rest[13..15][1] == rest[14];
    if i >= 15 {
      TailIsAscii(rest[15..], i - 15);
    }
  }

  lemma DateTimeIsEncoded(value: string)
    requires HasDateTimeForm(value)
    ensures IsEncoded(value)
  {
    hide RestForm;
    forall i | 0 <= i < |value| ensures value[i] as int < 0x80 {
      if i < 4 {
        assert value[..4][i] == value[i];
      } else {
        RestIsAscii(value[4..], i - 4);
      }
    }
    AsciiIsUtf8(value);
  }

  // ---- The server reads what the client meant ----

  /** A bound that can be sent: the server honors it, and it is plain text. */
  lemma BoundIsHonored(value: string)
    requires IsUtcDateTime(value)
    ensures IsEncoded(value) && JsIsUtcDateTime(value)
  {
    hide JsParse;
    hide RestForm;
    hide Parse;
    hide IsEncoded;
    ServerReadsAsConsumer(value);
    DateTimeIsEncoded(value);
  }

  lemma NamesAreText()
    ensures IsEncoded("target") && IsEncoded("start") && IsEncoded("end") && IsEncoded("granularity")
    ensures IsEncoded("yearly") && IsEncoded("monthly") && IsEncoded("daily")
  {
    hide IsUtf8;
    AsciiIsUtf8("target");
    AsciiIsUtf8("start");
    AsciiIsUtf8("end");
    AsciiIsUtf8("granularity");
    AsciiIsUtf8("yearly");
    AsciiIsUtf8("monthly");
    AsciiIsUtf8("daily");
  }

  lemma PairsAreWritten(query: Query)
    requires IsQuery(query)
    ensures var pairs := PairsOf(query);
      && ArePairs(pairs) && DistinctParameters(pairs)
      && forall i :: 0 <= i < |pairs| ==> IsParameter(pairs[i].name) && (IsValidValue(pairs[i]) <==> pairs[i] != Pair("target", ""))
  {
    hide IsEncoded;
    hide JsIsUtcDateTime;
    hide IsUtcDateTime;
    hide WriteUtf8;
    NamesAreText();
    if query.start.Some? { BoundIsHonored(query.start.value); }
    if query.end.Some? { BoundIsHonored(query.end.value); }
    if query.target.Some? { WrittenReadsBack(query.target.value); }
  }

  /** Whether a name is among the pairs, and with which value. */
  lemma PairsName(query: Query, name: string)
    ensures var pairs := PairsOf(query);
      && (name == "target" && query.target.Some? ==> exists i :: 0 <= i < |pairs| && pairs[i] == Pair("target", WriteUtf8(query.target.value)))
      && (name == "start" && query.start.Some? ==> exists i :: 0 <= i < |pairs| && pairs[i] == Pair("start", query.start.value))
      && (name == "end" && query.end.Some? ==> exists i :: 0 <= i < |pairs| && pairs[i] == Pair("end", query.end.value))
      && (name == "granularity" && query.granularity.Some? ==>
            exists i :: 0 <= i < |pairs| && pairs[i] == Pair("granularity", GranularityName(query.granularity.value)))
      && (name == "target" && query.target.None? ==> forall i :: 0 <= i < |pairs| ==> pairs[i].name != "target")
      && (name == "start" && query.start.None? ==> forall i :: 0 <= i < |pairs| ==> pairs[i].name != "start")
      && (name == "end" && query.end.None? ==> forall i :: 0 <= i < |pairs| ==> pairs[i].name != "end")
      && (name == "granularity" && query.granularity.None? ==> forall i :: 0 <= i < |pairs| ==> pairs[i].name != "granularity")
  {
    hide WriteUtf8;
    var pairs := PairsOf(query);
    var t, s, e := if query.target.Some? then 1 else 0, if query.start.Some? then 1 else 0, if query.end.Some? then 1 else 0;
    if query.target.Some? { assert pairs[0] == Pair("target", WriteUtf8(query.target.value)); }
    if query.start.Some? { assert pairs[t] == Pair("start", query.start.value); }
    if query.end.Some? { assert pairs[t + s] == Pair("end", query.end.value); }
    if query.granularity.Some? { assert pairs[t + s + e] == Pair("granularity", GranularityName(query.granularity.value)); }
  }

  /** A target as the server reads it: not at all if it is empty, and with every lone surrogate replaced. */
  function TargetRead(target: Option<Text>): Option<Text> {
    if target.None? || target.value == [] then None else Some(WellFormed(target.value))
  }

  /** A target that comes through: none, or one that is not empty and whose surrogates all stand in pairs. */
  predicate ComesThrough(target: Option<Text>) {
    target.Some? ==> target.value != [] && IsWellFormed(target.value)
  }

  /** What the server reads from the query string that the client writes for a query. */
  lemma ServerReads(query: Query)
    requires IsQuery(query)
    ensures ArePairs(PairsOf(query)) && ReadFrom(QueryText(PairsOf(query))) == query.(target := TargetRead(query.target))
  {
    hide IsEncoded;
    hide IsValidValue;
    hide IsQuery;
    hide QueryText;
    hide Parts;
    hide SeenIn;
    hide HonoredOf;
    hide PairsOf;
    hide WriteUtf8;
    hide ReadUtf8;
    hide WellFormed;
    var pairs := PairsOf(query);
    PairsAreWritten(query);
    WrittenParametersAreHonored(pairs);
    PairsName(query, "target");
    PairsName(query, "start");
    PairsName(query, "end");
    PairsName(query, "granularity");
    if query.target.Some? {
      WrittenReadsBack(query.target.value);
    }
  }

  /** The server reads exactly the query that the client wrote if and only if the target, if there is one, comes through. */
  lemma ServerReadsTheQueryIff(query: Query)
    requires IsQuery(query)
    ensures ArePairs(PairsOf(query)) && (ReadFrom(QueryText(PairsOf(query))) == query <==> ComesThrough(query.target))
  {
    hide ReadFrom;
    hide PairsOf;
    hide WellFormed;
    hide IsQuery;
    ServerReads(query);
    if query.target.Some? {
      LeftAsItIsIff(query.target.value);
    }
  }

  /** An empty target is written, but no server honors it: the query it answers has none. */
  lemma EmptyTargetIsNotHonored(query: Query)
    requires IsQuery(query) && query.target == Some([])
    ensures ArePairs(PairsOf(query)) && ReadFrom(QueryText(PairsOf(query))) == query.(target := None)
  {
    hide ReadFrom;
    hide PairsOf;
    hide IsQuery;
    ServerReads(query);
  }

  predicate Names(o: Held, target: Text) {
    o.target == target
  }

  /**
   * A target with a lone surrogate is read as another text: a server that compares texts answers with objects that the
   * client, comparing likewise, finds to name another target, every one of them.
   */
  lemma LoneSurrogateIsComplainedOf(query: Query, objects: seq<Held>)
    requires IsQuery(query) && query.target.Some? && !IsWellFormed(query.target.value) && AreHeld(objects) && IsExtended(objects)
    ensures ArePairs(PairsOf(query))
    ensures var asked := ReadFrom(QueryText(PairsOf(query))); IsQuery(asked)
    ensures var asked := ReadFrom(QueryText(PairsOf(query)));
      var answer := AnswerQuery(Names, objects, asked);
      AreHeld(answer) && forall i :: 0 <= i < |answer| ==> OtherTarget(i) in ComplaintsOf(Names, answer[i], query, i)
  {
    hide ReadFrom;
    hide PairsOf;
    hide WellFormed;
    hide IsHeld;
    hide IsWellFormed;
    hide SelectObjects;
    hide InRequestedRange;
    hide WholeAsRequested;
    ServerReads(query);
    LeftAsItIsIff(query.target.value);
    var asked := ReadFrom(QueryText(PairsOf(query)));
    AnswerIsTheSatisfyingPart(Names, objects, asked);
    var answer := AnswerQuery(Names, objects, asked);
    forall i | 0 <= i < |answer| ensures !Names(answer[i], query.target.value) {
      assert multiset(answer)[answer[i]] > 0;
    }
  }

  /** An input that shows it: a high surrogate alone is read as U+FFFD. */
  lemma LoneSurrogateIsReplaced()
    ensures var query := Query(Some([0xD800]), None, None, None);
      ArePairs(PairsOf(query)) && ReadFrom(QueryText(PairsOf(query))) == Query(Some([REPLACEMENT]), None, None, None)
  {
    hide ReadFrom;
    hide PairsOf;
    ServerReads(Query(Some([0xD800]), None, None, None));
    assert CodePoints([0xD800]) == [0xD800];
    assert Replaced([0xD800]) == [REPLACEMENT];
    assert TextOfPoints([REPLACEMENT]) == [REPLACEMENT];
  }

  /** The granularities that the client sends are those that the server honors. */
  lemma GranularitiesAreHonored(name: string)
    ensures name in Client.Granularities() <==> IsValidValue(Pair("granularity", name))
    ensures name in Client.Granularities() <==> exists unit :: name == GranularityName(unit)
  {
    assert GranularityName(Yearly) == "yearly" && GranularityName(Monthly) == "monthly" && GranularityName(Daily) == "daily";
  }

  lemma SentIsQuery(call: Call)
    requires CanBeSent(call)
    ensures IsQuery(Sent(call))
  {
    hide QueryBound;
    hide IsUtcDateTime;
    if call.start.Some? { SentBoundIsHonored(Start, call.start.value); }
    if call.end.Some? { SentBoundIsHonored(End, call.end.value); }
  }

  /** What is sent of a call: its target and granularity, and of each bound that it gives the instant or the midnight that this names. */
  lemma SentMeansTheCall(call: Call)
    requires CanBeSent(call)
    ensures var query := Sent(call);
      && query.target == call.target && query.granularity == call.granularity
      && (query.start.Some? <==> call.start.Some?) && (query.end.Some? <==> call.end.Some?)
      && (call.start.Some? ==> MeansBound(Start, call.start.value, query.start.value))
      && (call.end.Some? ==> MeansBound(End, call.end.value, query.end.value))
  {
    hide QueryBound;
    hide MeansBound;
    if call.start.Some? { BoundIsMeant(Start, call.start.value); }
    if call.end.Some? { BoundIsMeant(End, call.end.value); }
  }

  /** The same instant as a date-time; of a label, its first midnight as `start` and the one after it as `end`. */
  predicate MeansBound(side: Side, value: string, sent: string) {
    if IsDateTime(value) then IsDateTime(sent) && Instant(sent) == Instant(value)
    else
      && IsLabel(value) && IsDate(LabelDate(value)) && IsDate(AfterLabel(value))
      && sent == Bound(if side == Start then LabelDate(value) else AfterLabel(value), 0)
  }

  lemma BoundIsMeant(side: Side, value: string)
    requires QueryBound(side, value).Ok?
    ensures MeansBound(side, value, QueryBound(side, value).value)
  {
    hide QueryBound;
    hide IsLabel;
    hide IsDate;
    hide LabelDate;
    hide AfterLabel;
    hide Bound;
    hide IsDateTime;
    hide Instant;
    if IsDateTime(value) {
      DateTimeBoundIs(side, value);
    } else {
      OtherBoundIs(side, value);
    }
  }

  /**
   * For every call whose bounds can be sent and whose target comes through, the answer of an extended server to the query
   * string of the call is honored: the client reports nothing as not requested, and the objects are in ascending order.
   */
  lemma ExchangeIsHonored(server: (Held, Text) -> bool, consumer: (Held, Text) -> bool, objects: seq<Held>, call: Call)
    requires CanBeSent(call) && ComesThrough(call.target) && AreHeld(objects) && IsExtended(objects)
    requires forall i :: 0 <= i < |objects| ==> SameTargetRule(server, consumer, objects[i], Sent(call))
    requires call.granularity == Some(Daily) ==> forall i :: 0 <= i < |objects| ==> DaysAreKept(objects[i])
    ensures var query := Sent(call); IsQuery(query) && ArePairs(PairsOf(query))
    ensures var query := Sent(call);
      var asked := ReadFrom(QueryText(PairsOf(query)));
      asked == query
      && var answer := AnswerQuery(server, objects, asked);
         AreHeld(answer) && AllComplaints(consumer, answer, query) == [] && IsAscending(answer)
  {
    hide ComesThrough;
    hide IsHeld;
    hide IsQuery;
    hide QueryBound;
    hide DaysAreKept;
    hide SameTargetRule;
    hide AllComplaints;
    hide AnswerQuery;
    hide PairsOf;
    hide ReadFrom;
    hide IsAscending;
    SentIsQuery(call);
    ServerReadsTheQueryIff(Sent(call));
    AnswersAreHonored(server, consumer, objects, Sent(call));
  }
}
