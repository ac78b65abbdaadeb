# Teams log handler — message rendering

A Dafny model of the rendering core of `LoggerHandler`, a Monolog handler. It
turns a log record into a Microsoft Teams connector payload. A record has a
level name, a message and an ordered context array. The handler's `style`
field chooses the output:

- `"card"` gives a card. The card has a summary, a theme colour and a primary
  section. That section holds the handler's name, the message, an optional
  avatar and one fact per non-exception context entry, followed by a
  `Timestamp` fact. After it comes one grouped section per exception in the
  context. Each grouped section shows the exception's message, its trace with
  the newlines doubled for markdown, and its code, file and line.
- Any other style gives a one-line simple message. The text is the name, when
  the name is truthy, then the level in a coloured span, then the message.

Modules, one per concern:

- `Php` (`php.dfy`): the PHP behaviour the renderer relies on. This is
  string truthiness and `explode`/`implode` on a one-character separator,
  plus a character-wise `str_replace`. The renderer never calls
  `str_replace`; it serves only as the reference definition for the other two.
- `TeamsMessage` (`teams_message.dfy`): the payload, with facts, the two kinds
  of section and the two message shapes.
- `Context` (`context.dfy`): context values and the partition into facts and
  exceptions. `Facts` and `Exceptions` specify the loop of `getMessage`; the
  lemmas say where each entry ends up and that order is kept.
- `Handler` (`handler.dfy`): the `LoggerHandler` class. It has constant `url`,
  `style` and `name` fields, which the source sets only in its constructor. It
  holds both renderings, `MessageOf` (the function that specifies the message)
  and the `GetMessage` method with its loop.
- `HandlerProperties` (`handler_properties.dfy`): properties of whole
  renderings, plus two scenario lemmas.

Foreign inputs are parameters:

- `LoggerColour` and `LoggerAvatar` are the two arrow fields of a `Palette`.
- The `teams.show_avatars` and `teams.show_type` settings form a `Config`.
- The formatted `date(...)` is the string `now`.
- `json_encode` of an array or object is the text carried by `Composite`.

## Model

| member | source | states |
|---|---|---|
| `Php.Explode` | src/LoggerHandler.php:99 | `explode` on one separator gives one piece more than the separator occurs, and no piece contains the separator |
| `Php.ImplodeExplodeIsReplace` | src/LoggerHandler.php:99 | imploding with `glue` the pieces exploded on `sep` equals replacing every `sep` by `glue` |
| `Php.ImplodeExplodeRoundTrip` | src/LoggerHandler.php:99 | imploding with the separator itself gives back the original text |
| `Php.ReplaceWithoutSeparator` | src/LoggerHandler.php:99 | a text without the separator is unchanged |
| `Php.ReplaceLength` | src/LoggerHandler.php:99 | the result is longer by one less than the length of `glue` for each occurrence of the separator |
| `Php.ReplaceConcat` | src/LoggerHandler.php:99 | replacing in `a + b` is replacing in `a` and in `b` separately |
| `Php.Implode` | src/LoggerHandler.php:99 | definition, no contract: PHP's `implode`, the parts joined with the glue between neighbours; `Php.ImplodeExplodeIsReplace` and `Php.ImplodeExplodeRoundTrip` state what it does with `explode`'s pieces |
| `Php.Truthy` | src/LoggerHandler.php:78 | definition, no contract: PHP truthiness of the name string, false only for `""` and `"0"`; it decides the name suffix at line 78 and the name prefix at line 123 |
| `TeamsMessage.ColourSpan` | src/LoggerHandler.php:92 | definition, no contract: the `<span style="color:#C">text</span>` wrapper built at lines 92 and 123 |
| `Handler.TimestampFact` | src/LoggerHandler.php:55-58 | definition, no contract: the fact named Timestamp holding the formatted date; `HandlerProperties.CardFacts` states it is the last primary fact |
| `Handler.MarkdownTrace` | src/LoggerHandler.php:97-99 | the activity text has every newline of the trace doubled; its length is the trace's plus its newline count; a trace without a newline is unchanged |
| `Handler.ExceptionSection` | src/LoggerHandler.php:93-107 | an exception's section has the key as title and its message as subtitle, the doubled-newline trace as text, then facts Code, File, Line in that order holding the exception's own values, with startGroup and markdown set |
| `Handler.LoggerHandler.constructor` | src/LoggerHandler.php:25-32 | the handler keeps the url, style and name it is given; the style defaults to "simple" and the name to "Default" |
| `Handler.LoggerHandler.Summary` | src/LoggerHandler.php:78 | the summary starts with the level; it equals the level exactly when the name is falsy (`""` or `"0"`); otherwise `": " + name` follows |
| `Handler.LoggerHandler.UseCardStyling` | src/LoggerHandler.php:73-110 | builds a card themed in the level's colour with one section more than there are exceptions. Section 0 has the handler's name as title, the given facts and markdown. It has an avatar exactly when show_avatars holds, and it is the level's avatar. Its subtitle is the message in a colour span when show_type holds, the bare message otherwise. Section j+1 is the section of exception j |
| `Handler.LoggerHandler.UseSimpleStyling` | src/LoggerHandler.php:118-126 | themed in the level's colour; the text always ends with the coloured level span, `": "` and the message; it starts with `name + " - "` exactly when the name is truthy, and is then longer by the length of the name plus 3 |
| `Handler.LoggerHandler.MessageOf` | src/LoggerHandler.php:39-64 | the result is a card exactly when style is `"card"`, and its theme colour is always the level's colour |
| `Handler.LoggerHandler.GetMessage` | src/LoggerHandler.php:39-64 | the one-pass loop that appends to the facts and exceptions, followed by the Timestamp fact, builds exactly the message `MessageOf` specifies |
| `Context.FactValue` | src/LoggerHandler.php:50 | a scalar value is passed through unchanged; an array or object becomes a string two characters longer than its JSON text, opening and closing with a backtick, with exactly the JSON text in between, so the JSON can be read back |
| `Context.Facts` | src/LoggerHandler.php:44-53 | definition, no contract: the `$facts` array the loop builds, one fact per non-exception entry in context order; characterised by `Context.FactAt`, `Context.FactOrigin` and `Context.PartitionLengths` |
| `Context.Exceptions` | src/LoggerHandler.php:44-53 | definition, no contract: the `$exceptions` array the loop builds, one keyed exception per exception entry in context order; characterised by `Context.ExceptionAt`, `Context.ExceptionOrigin` and `Context.PartitionLengths` |
| `Context.PartitionCounts` | src/LoggerHandler.php:44-53 | every context entry is counted as either a fact or an exception |
| `Context.PartitionLengths` | src/LoggerHandler.php:44-53 | there is one fact per non-exception entry and one exception per exception entry |
| `Context.PrefixStep` | src/LoggerHandler.php:44-53 | one more entry adds one fact (non-exception) or one exception (exception), at the end |
| `Context.FactAt` | src/LoggerHandler.php:49-52 | a non-exception entry at position i is the fact at index PlainCount(ctx[..i]), with its key as name and FactValue of its value |
| `Context.ExceptionAt` | src/LoggerHandler.php:45-47 | an exception entry at position i is the exception at index ExceptionCount(ctx[..i]), under its key |
| `Context.FactOrigin` | src/LoggerHandler.php:44-53 | each fact comes from a non-exception entry, at the place FactAt gives |
| `Context.ExceptionOrigin` | src/LoggerHandler.php:44-53 | each exception comes from an exception entry, at the place ExceptionAt gives |
| `Context.CountsMonotone` | src/LoggerHandler.php:44-53 | counting over a longer prefix never gives less |
| `Context.FactsKeepOrder` | src/LoggerHandler.php:44-53 | of two non-exception entries, the earlier one's fact comes first |
| `Context.ExceptionsKeepOrder` | src/LoggerHandler.php:44-53 | of two exception entries, the earlier one's exception comes first |
| `Context.FactNamedBy` | src/LoggerHandler.php:44-53 | with unique keys, a key names at most one fact: the one of its own non-exception entry |
| `Context.ExceptionNotAFact` | src/LoggerHandler.php:45-47 | with unique keys, no fact from the context carries an exception entry's key |
| `HandlerProperties.CardFacts` | src/LoggerHandler.php:55-58 | the primary facts number (non-exception entries) + 1, and the last one is `{Timestamp: now}` |
| `HandlerProperties.CardSectionCount` | src/LoggerHandler.php:80-108 | a card has 1 + (number of exception entries) sections |
| `HandlerProperties.CardFactAt` | src/LoggerHandler.php:49-58 | a non-exception entry's fact sits in the primary section at index PlainCount(ctx[..i]), before the Timestamp, named by its key; a scalar value appears unchanged and an array or object as its JSON text in backticks |
| `HandlerProperties.CardExceptionSectionAt` | src/LoggerHandler.php:45-47 | an exception entry's section is section 1 + ExceptionCount(ctx[..i]) of the card |
| `HandlerProperties.CardSectionOrigin` | src/LoggerHandler.php:93-108 | every section after the first renders an exception entry of the context, in context order |
| `HandlerProperties.CardExceptionNotAFact` | src/LoggerHandler.php:45-47 | with unique keys, an exception entry's key names none of the facts drawn from the context |
| `HandlerProperties.SimpleIgnoresContext` | src/LoggerHandler.php:61-63 | with a non-card style the message depends only on level and message: the context, the settings and the time do not matter |
| `HandlerProperties.OnlyTimestampDiffers` | src/LoggerHandler.php:55-58 | rendering one record at two instants gives messages equal once the Timestamp fact is removed |
| `HandlerProperties.TwoLineTrace` | src/LoggerHandler.php:99 | a trace of two lines becomes the same lines with a blank line between them |
| `HandlerProperties.ScenarioPartition` | src/LoggerHandler.php:44-53 | `{userId: 42, err: <exception>}` gives the fact `userId = 42` and the exception under `err` |
| `HandlerProperties.CardScenario` | src/LoggerHandler.php:39-110 | that context, rendered as a card, has facts `[userId = 42, Timestamp]`, no avatar, the raw message as subtitle, and one exception section. That section's subtitle is `timeout`, its text has the newline doubled, and its facts are Code, File, Line |
| `HandlerProperties.SimpleScenario` | src/LoggerHandler.php:118-126 | handler `svc`, level `ERROR`, message `disk full` gives `svc - <span style="color:#C">ERROR</span>: disk full` |
| `HandlerProperties.DefaultHandler` | src/LoggerHandler.php:25 | a handler built from a url alone has style "simple" and name "Default"; its message for any record is simple and starts with "Default - " |

## Left out

- `write` (src/LoggerHandler.php:131-147) is left out. It serialises the message to JSON and POSTs it with cURL. That is network I/O whose result the handler ignores.
- Level filtering and bubbling are left out. They belong to Monolog's `AbstractProcessingHandler`, which is not part of this model. The constructor's `$level` and `$bubble` arguments are left out for the same reason.
- The constructor's `MonologLogger::DEBUG` default is left out, along with the `$level` argument it belongs to.
- `LoggerColour` and `LoggerAvatar` are not part of this model. The palette's arrow fields stand for them, so there is no claim about fallback colours or hex format.
- `json_encode` is not modelled. A `Composite` value carries the text it produced. When `json_encode` fails and returns `false`, that text is `""`.
- `date('D, M d Y H:i:s e')` is not modelled; the `now` parameter is its formatted result.
- `config(...)` is not modelled. `Config` carries the two settings as booleans, and Laravel's config defaults are not modelled.
- src/LoggerServiceProvider.php is not modelled. It is Laravel bootstrap code with no rendering logic.
- `LoggerMessage` is not part of this model. It is replaced by the `Message` datatype. The order of keys inside a section's JSON object is not modelled; `array_merge` keeps the overridden `activitySubtitle` in its place.
- Float scalars are not modelled. `Atom` covers strings, integers, booleans and null.
- Context keys are modelled as strings. PHP's integer keys of list-shaped context arrays are not modelled.
- Exception codes are modelled as integers. Subclasses whose `getCode()` returns a string are not modelled.
- `Throwable` objects that are not `\Exception` take the object path at src/LoggerHandler.php:50. The model gives them as `Composite` values.
- `Handler.LoggerHandler.MessageOf`: style is compared as a string with `==`. PHP's loose `==` against a non-string style is not modelled.
- `Php.Truthy`: only string names are modelled. PHP truthiness of non-string names is not modelled.
- The simple style always wraps the level in a colour span (src/LoggerHandler.php:123); no setting switches it off, so the model has none.
- A well-formed hex theme colour is not claimed. It depends on `LoggerColour`, which is not part of this model.
