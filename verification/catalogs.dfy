/** The data the extractor works on: extracted messages, catalog entries and
    the catalogs themselves (the parsed contents of `<language>.json` and
    `<language>.outdated.json`). */
module Catalogs {
  import opened Wrappers

  /** A catalog value: a plain translation, or a plural record `{one, other}`. */
  datatype Entry = Str(s: string) | Plural(one: string, other: string)

  /** A parsed catalog or outdated store: message text to entry. */
  type Catalog = map<string, Entry>

  /** One message produced by the extraction library. The context is carried
      along but is never part of the catalog key. */
  datatype Message = Message(text: string, textPlural: Option<string>, context: Option<string>)

  /** The extractor takes the plural branch when `message.textPlural` is truthy,
      so an empty plural text counts as a singular message. */
  predicate IsPlural(m: Message)
    ensures IsPlural(m) <==> m.textPlural != None && m.textPlural != Some("")
  {
    m.textPlural.Some? && m.textPlural.value != ""
  }

  /** The source plural text of a plural message. */
  function PluralText(m: Message): (p: string)
    requires IsPlural(m)
    ensures p != ""
  {
    m.textPlural.value
  }

  /** The catalog keys a sequence of messages produces. */
  function Texts(msgs: seq<Message>): set<string>
  {
    set m | m in msgs :: m.text
  }

  /** The empty-string entry: the only entry value JavaScript treats as falsy. */
  const Blank: Entry := Str("")
}
