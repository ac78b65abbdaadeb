/**
 * What the handler's output promises, stated over whole records: where each
 * context entry ends up in a card, that Timestamp is the last fact, that the
 * simple style ignores the context and the settings, and that two renderings
 * of one record differ at most in the Timestamp fact.
 */
module HandlerProperties {
  import opened Php
  import opened TeamsMessage
  import opened Context
  import opened Handler

  /** A card's primary facts: one per non-exception entry, then Timestamp, last. */
  lemma CardFacts(h: LoggerHandler, record: Record, palette: Palette, cfg: Config, now: string)
    requires h.style == "card"
    ensures var facts := h.MessageOf(record, palette, cfg, now).sections[0].facts;
            |facts| == PlainCount(record.context) + 1 && facts[|facts| - 1] == TimestampFact(now)
  {
    PartitionLengths(record.context);
  }

  /** A card has the primary section and one section per exception entry. */
  lemma CardSectionCount(h: LoggerHandler, record: Record, palette: Palette, cfg: Config, now: string)
    requires h.style == "card"
    ensures |h.MessageOf(record, palette, cfg, now).sections| == 1 + ExceptionCount(record.context)
  {
    PartitionLengths(record.context);
  }

  /** Entry i without an exception is the primary section's fact number PlainCount(ctx[..i]). */
  lemma CardFactAt(h: LoggerHandler, record: Record, palette: Palette, cfg: Config, now: string, i: nat)
    requires h.style == "card"
    requires i < |record.context| && !record.context[i].1.Exc?
    ensures var facts := h.MessageOf(record, palette, cfg, now).sections[0].facts;
            var (key, value) := record.context[i];
            PlainCount(record.context[..i]) < |facts| - 1
            && facts[PlainCount(record.context[..i])].name == key
            && (value.Scalar? ==> facts[PlainCount(record.context[..i])].value == value.atom)
            && (value.Composite? ==> facts[PlainCount(record.context[..i])].value == Str("`" + value.json + "`"))
  {
    FactAt(record.context, i);
  }

  /** Entry i holding an exception is section number 1 + ExceptionCount(ctx[..i]). */
  lemma CardExceptionSectionAt(h: LoggerHandler, record: Record, palette: Palette, cfg: Config, now: string, i: nat)
    requires h.style == "card"
    requires i < |record.context| && record.context[i].1.Exc?
    ensures var sections := h.MessageOf(record, palette, cfg, now).sections;
            var (key, value) := record.context[i];
            1 + ExceptionCount(record.context[..i]) < |sections|
            && sections[1 + ExceptionCount(record.context[..i])] == ExceptionSection(key, value.ex)
  {
    ExceptionAt(record.context, i);
  }

  /** Every section after the first renders an exception entry of the context. */
  lemma CardSectionOrigin(h: LoggerHandler, record: Record, palette: Palette, cfg: Config, now: string, j: nat)
    returns (i: nat)
    requires h.style == "card"
    requires 1 <= j < |h.MessageOf(record, palette, cfg, now).sections|
    ensures i < |record.context| && record.context[i].1.Exc?
    ensures 1 + ExceptionCount(record.context[..i]) == j
    ensures h.MessageOf(record, palette, cfg, now).sections[j] == ExceptionSection(record.context[i].0, record.context[i].1.ex)
  {
    i := ExceptionOrigin(record.context, j - 1);
  }

  /**
   * With unique keys, the key of an exception entry names none of the facts
   * drawn from the context (only the appended Timestamp fact may share it).
   */
  lemma CardExceptionNotAFact(h: LoggerHandler, record: Record, palette: Palette, cfg: Config, now: string, i: nat)
    requires h.style == "card" && DistinctKeys(record.context)
    requires i < |record.context| && record.context[i].1.Exc?
    ensures var facts := h.MessageOf(record, palette, cfg, now).sections[0].facts;
            forall j :: 0 <= j < |facts| - 1 ==> facts[j].name != record.context[i].0
  {
    ExceptionNotAFact(record.context, i);
  }

  /** Any style other than "card" gives the simple message, whatever the context, settings and time. */
  lemma SimpleIgnoresContext(h: LoggerHandler, r1: Record, r2: Record, palette: Palette,
                             cfg1: Config, cfg2: Config, now1: string, now2: string)
    requires h.style != "card"
    requires r1.levelName == r2.levelName && r1.message == r2.message
    ensures h.MessageOf(r1, palette, cfg1, now1) == h.MessageOf(r2, palette, cfg2, now2)
    ensures h.MessageOf(r1, palette, cfg1, now1).Simple?
  {
  }

  /** The message with the last fact of the primary section removed. */
  function WithoutTimestamp(m: Message): Message
  {
    if m.Card? && |m.sections| > 0 && m.sections[0].Activity? && |m.sections[0].facts| > 0 then
      var Activity(title, subtitle, image, facts, markdown) := m.sections[0];
      m.(sections := [Activity(title, subtitle, image, facts[..|facts| - 1], markdown)] + m.sections[1..])
    else m
  }

  /** Rendering one record at two instants differs only in the Timestamp fact. */
  lemma OnlyTimestampDiffers(h: LoggerHandler, record: Record, palette: Palette, cfg: Config, now1: string, now2: string)
    ensures WithoutTimestamp(h.MessageOf(record, palette, cfg, now1)) == WithoutTimestamp(h.MessageOf(record, palette, cfg, now2))
  {
  }

  /** A two-line trace gets a blank line between its lines. */
  lemma TwoLineTrace(a: string, b: string)
    requires '\n' !in a && '\n' !in b
    ensures MarkdownTrace(a + "\n" + b) == a + "\n\n" + b
  {
    ReplaceConcat('\n', "\n\n", a + "\n", b);
    ReplaceConcat('\n', "\n\n", a, "\n");
    ReplaceWithoutSeparator('\n', "\n\n", a);
    ReplaceWithoutSeparator('\n', "\n\n", b);
    assert StrReplace('\n', "\n\n", "\n") == "\n\n";
  }

  /** The context { userId: 42, err: <exception> } splits into one fact and one exception. */
  lemma ScenarioPartition(ex: ExceptionInfo)
    ensures var ctx: Entries := [("userId", Scalar(Int(42))), ("err", Exc(ex))];
            Facts(ctx) == [Fact("userId", Int(42))] && Exceptions(ctx) == [("err", ex)]
  {
    var ctx: Entries := [("userId", Scalar(Int(42))), ("err", Exc(ex))];
    PrefixStep(ctx, 0);
    PrefixStep(ctx, 1);
    assert ctx[..0] == [] && ctx[..2] == ctx;
  }

  /**
   * A card for the context { userId: 42, err: <exception "timeout" at x.go:10> }:
   * one context fact and Timestamp in the primary section, then one section
   * for the exception with its Code, File and Line.
   */
  lemma CardScenario(h: LoggerHandler, palette: Palette, now: string)
    requires h.style == "card"
    ensures var ex := ExceptionInfo("timeout", "#0 main" + "\n" + "#1 {main}", 7, "x.go", 10);
            var record := Record("ERROR", "request failed", [("userId", Scalar(Int(42))), ("err", Exc(ex))]);
            var m := h.MessageOf(record, palette, Config(false, false), now);
            && m.sections[0].facts == [Fact("userId", Int(42)), TimestampFact(now)]
            && m.sections[0].activityImage == None
            && m.sections[0].activitySubtitle == "request failed"
            && |m.sections| == 2
            && m.sections[1].activityTitle == "err"
            && m.sections[1].activitySubtitle == "timeout"
            && m.sections[1].activityText == "#0 main" + "\n\n" + "#1 {main}"
            && m.sections[1].facts == [Fact("Code", Int(7)), Fact("File", Str("x.go")), Fact("Line", Int(10))]
  {
    var ex := ExceptionInfo("timeout", "#0 main" + "\n" + "#1 {main}", 7, "x.go", 10);
    var record := Record("ERROR", "request failed", [("userId", Scalar(Int(42))), ("err", Exc(ex))]);
    ScenarioPartition(ex);
    TwoLineTrace("#0 main", "#1 {main}");
    assert Facts(record.context) + [TimestampFact(now)] == [Fact("userId", Int(42)), TimestampFact(now)];
    var m := h.MessageOf(record, palette, Config(false, false), now);
    assert m == h.UseCardStyling("ERROR", "request failed", [Fact("userId", Int(42)), TimestampFact(now)],
                                 [("err", ex)], palette, Config(false, false));
    assert m.sections[1] == ExceptionSection("err", ex);
  }

  /** A handler built from a url alone renders simple messages that start with "Default - ". */
  method DefaultHandler(url: string, record: Record, palette: Palette, cfg: Config, now: string)
    returns (h: LoggerHandler, m: Message)
    ensures h.url == url && h.style == "simple" && h.name == "Default"
    ensures m == h.MessageOf(record, palette, cfg, now)
    ensures m.Simple? && "Default - " <= m.text
  {
    h := new LoggerHandler(url);
    m := h.GetMessage(record, palette, cfg, now);
  }

  /** The simple message of handler "svc" for an ERROR record reads "svc - <coloured ERROR>: disk full". */
  lemma SimpleScenario(h: LoggerHandler, palette: Palette, cfg: Config, now: string)
    requires h.style == "simple" && h.name == "svc"
    ensures var m := h.MessageOf(Record("ERROR", "disk full", []), palette, cfg, now);
            m.text == "svc - " + ColourSpan(palette.colour("ERROR"), "ERROR") + ": disk full"
  {
  }
}
