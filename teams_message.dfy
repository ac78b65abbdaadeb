/**
 * The Microsoft Teams connector payload the handler builds (the fields the
 * `LoggerMessage` it constructs is given). JSON serialisation of it is not
 * part of this model.
 */
module TeamsMessage {

  /** An optional field: absent from the payload when None. */
  datatype Option<+T> = None | Some(value: T)

  /** A PHP scalar as it ends up in a fact's `value`. */
  datatype Atom = Str(s: string) | Int(i: int) | Bool(b: bool) | Null

  /** One `{name, value}` entry of a section's `facts`. */
  datatype Fact = Fact(name: string, value: Atom)

  datatype Section =
      /** The primary section: the handler's name, the message, the avatar and the facts. */
    | Activity(activityTitle: string, activitySubtitle: string, activityImage: Option<string>,
               facts: seq<Fact>, markdown: bool)
      /** One section per exception, opening a new visual group. */
    | Grouped(activityTitle: string, activitySubtitle: string, activityText: string,
              facts: seq<Fact>, startGroup: bool, markdown: bool)

  datatype Message =
    | Simple(text: string, themeColor: string)
    | Card(summary: string, themeColor: string, sections: seq<Section>)

  /** `<span style="color:#C">text</span>`. */
  function ColourSpan(colour: string, text: string): string
  {
    "<span style=\"color:#" + colour + "\">" + text + "</span>"
  }
}
