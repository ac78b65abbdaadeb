/**
 * The Teams log handler: its configuration fields, the choice of style, and
 * the two renderings of a log record (a one-line simple message or a card
 * with a fact section and one section per exception).
 */
module Handler {
  import opened Php
  import opened TeamsMessage
  import opened Context

  /** The parts of a Monolog record the handler reads. */
  datatype Record = Record(levelName: string, message: string, context: Entries)

  /** `LoggerColour` and `LoggerAvatar`, as functions of the level name. */
  datatype Palette = Palette(colour: string -> string, avatar: string -> string)

  /** The `teams.show_avatars` and `teams.show_type` settings. */
  datatype Config = Config(showAvatars: bool, showType: bool)

  /** The fact appended after the context's facts, holding the formatted time. */
  function TimestampFact(now: string): Fact
  {
    Fact("Timestamp", Str(now))
  }

  /** The markdown text of a trace: every newline doubled, so each line renders on its own. */
  function MarkdownTrace(trace: string): (text: string)
    ensures text == StrReplace('\n', "\n\n", trace)
    ensures |text| == |trace| + Occurrences('\n', trace)
    ensures '\n' !in trace ==> text == trace
  {
    ImplodeExplodeIsReplace('\n', "\n\n", trace);
    ReplaceLength('\n', "\n\n", trace);
    ReplaceWithoutSeparator('\n', "\n\n", trace);
    Implode("\n\n", Explode('\n', trace))
  }

  /** The grouped section for the exception stored under `key`. */
  function ExceptionSection(key: string, ex: ExceptionInfo): (s: Section)
    ensures s.Grouped? && s.startGroup && s.markdown
    ensures s.activityTitle == key && s.activitySubtitle == ex.message
    ensures s.activityText == StrReplace('\n', "\n\n", ex.trace)
    ensures |s.facts| == 3
    ensures s.facts[0] == Fact("Code", Int(ex.code))
    ensures s.facts[1] == Fact("File", Str(ex.file))
    ensures s.facts[2] == Fact("Line", Int(ex.line))
  {
    Grouped(
      key, ex.message, MarkdownTrace(ex.trace),
      [Fact("Code", Int(ex.code)), Fact("File", Str(ex.file)), Fact("Line", Int(ex.line))],
      true, true)
  }

  class LoggerHandler {
    const url: string
    const style: string
    const name: string

    /**
     * Without a style the handler renders simple messages; without a name it
     * is called "Default". The level threshold and bubbling flag go to Monolog
     * and are not modelled.
     */
    constructor (url: string, style: string := "simple", name: string := "Default")
      ensures this.url == url && this.style == style && this.name == name
    {
      this.url := url;
      this.style := style;
      this.name := name;
    }

    /** `level`, followed by ": name" when the handler's name is truthy. */
    function Summary(levelName: string): (s: string)
      ensures levelName <= s
      ensures s == levelName <==> !Truthy(name)
      ensures Truthy(name) ==> s[|levelName|..] == ": " + name
    {
      levelName + (if Truthy(name) then ": " + name else "")
    }

    /** The card: the primary section, then one grouped section per exception. */
    function UseCardStyling(levelName: string, message: string, facts: seq<Fact>,
                            exceptions: seq<(string, ExceptionInfo)>, palette: Palette, cfg: Config): (m: Message)
      ensures m.Card?
      ensures m.summary == Summary(levelName)
      ensures m.themeColor == palette.colour(levelName)
      ensures |m.sections| == 1 + |exceptions|
      ensures m.sections[0].Activity?
      ensures m.sections[0].activityTitle == name
      ensures m.sections[0].facts == facts && m.sections[0].markdown
      ensures m.sections[0].activityImage.Some? <==> cfg.showAvatars
      ensures cfg.showAvatars ==> m.sections[0].activityImage.value == palette.avatar(levelName)
      ensures cfg.showType ==> m.sections[0].activitySubtitle == ColourSpan(palette.colour(levelName), message)
      ensures !cfg.showType ==> m.sections[0].activitySubtitle == message
      ensures forall j :: 0 <= j < |exceptions| ==> m.sections[j + 1] == ExceptionSection(exceptions[j].0, exceptions[j].1)
    {
      var colour := palette.colour(levelName);
      var primary := Activity(
        name,
        if cfg.showType then ColourSpan(colour, message) else message,
        if cfg.showAvatars then Some(palette.avatar(levelName)) else None,
        facts,
        true);
      var grouped := seq(|exceptions|, j requires 0 <= j < |exceptions| => ExceptionSection(exceptions[j].0, exceptions[j].1));
      Card(Summary(levelName), colour, [primary] + grouped)
    }

    /** The one-line message: "name - " when the name is truthy, then the coloured level, then the message. */
    function UseSimpleStyling(levelName: string, message: string, palette: Palette): (m: Message)
      ensures m.Simple?
      ensures m.themeColor == palette.colour(levelName)
      ensures var tail := ColourSpan(palette.colour(levelName), levelName) + ": " + message;
              |tail| <= |m.text| && m.text[|m.text| - |tail|..] == tail
              && |m.text| == |tail| + (if Truthy(name) then |name| + 3 else 0)
      ensures (name + " - " <= m.text) <==> Truthy(name)
    {
      var colour := palette.colour(levelName);
      var tail := ColourSpan(colour, levelName) + ": " + message;
      var text := (if Truthy(name) then name + " - " else "") + tail;
      assert text[|text| - |tail|..] == tail;
      assert !Truthy(name) ==> text[0] == '<';
      Simple(text, colour)
    }

    /** What `getMessage` builds for `record` when the current time formats as `now`. */
    function MessageOf(record: Record, palette: Palette, cfg: Config, now: string): (m: Message)
      ensures m.Card? <==> style == "card"
      ensures m.themeColor == palette.colour(record.levelName)
    {
      if style == "card" then
        UseCardStyling(record.levelName, record.message,
                       Facts(record.context) + [TimestampFact(now)],
                       Exceptions(record.context), palette, cfg)
      else
        UseSimpleStyling(record.levelName, record.message, palette)
    }

    /**
     * Splits the context into facts and exceptions in one pass, appends the
     * Timestamp fact and renders the card, or renders the simple message.
     */
    method GetMessage(record: Record, palette: Palette, cfg: Config, now: string) returns (m: Message)
      ensures m == MessageOf(record, palette, cfg, now)
    {
      if style == "card" {
        var ctx := record.context;
        var facts: seq<Fact> := [];
        var exceptions: seq<(string, ExceptionInfo)> := [];
        var i := 0;
        while i < |ctx|
          invariant 0 <= i <= |ctx|
          invariant facts == Facts(ctx[..i])
          invariant exceptions == Exceptions(ctx[..i])
        {
          var (key, value) := ctx[i];
          PrefixStep(ctx, i);
          if value.Exc? {
            exceptions := exceptions + [(key, value.ex)];
          } else {
            facts := facts + [Fact(key, FactValue(value))];
          }
          i := i + 1;
        }
        assert ctx[..|ctx|] == ctx;
        facts := facts + [TimestampFact(now)];
        m := UseCardStyling(record.levelName, record.message, facts, exceptions, palette, cfg);
      } else {
        m := UseSimpleStyling(record.levelName, record.message, palette);
      }
    }
  }
}
