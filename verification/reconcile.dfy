/** The reconciliation pass of `makeLocale` with its file reads and writes
    taken out: it merges the existing catalog and outdated store of one language
    with the freshly extracted messages. */
module Reconciliation {
  import opened Catalogs
  import opened JsValues

  /** The working copy `previous`: the outdated store with the catalog assigned
      over it, so a key present in both keeps the catalog's value. */
  function Overlay(outdated: Catalog, catalog: Catalog): (previous: Catalog)
    ensures previous.Keys == outdated.Keys + catalog.Keys
    ensures forall k :: k in catalog ==> previous[k] == catalog[k]
    ensures forall k :: k in outdated && k !in catalog ==> previous[k] == outdated[k]
  {
    outdated + catalog
  }

  /** The entry written for message `m`, computed with the script's own
      operators: `previous[t] || ""` for a singular message, and
      `{one: (previous[t] && previous[t].one) || "",
        other: (previous[t] && previous[t].other) || textPlural}` for a plural one.
      The contract spells out what those expressions amount to. */
  function NewEntry(previous: Catalog, m: Message): (e: Entry)
    ensures !IsPlural(m) ==>
      e == (if m.text in previous && previous[m.text] != Blank then previous[m.text] else Blank)
    ensures IsPlural(m) ==> e.Plural?
    ensures IsPlural(m) ==>
      e.one == (if m.text in previous && previous[m.text].Plural? then previous[m.text].one else "")
    ensures IsPlural(m) ==>
      e.other == (if m.text in previous && previous[m.text].Plural? && previous[m.text].other != ""
                  then previous[m.text].other else PluralText(m))
  {
    var p := Lookup(previous, m.text);
    if IsPlural(m) then
      Plural(Or(AndMember(p, One), JsString("")).s,
             Or(AndMember(p, Other), JsString(PluralText(m))).s)
    else
      ToEntry(Or(p, JsString("")))
  }

  /** The entry a message gets when `previous` has nothing under its text. */
  function Default(m: Message): (e: Entry)
    ensures !IsPlural(m) ==> e == Blank
    ensures IsPlural(m) ==> e == Plural("", PluralText(m))
  {
    NewEntry(map[], m)
  }

  /** The state of the message loop: what is left of `previous`, and `latest`. */
  datatype Pass = Pass(previous: Catalog, latest: Catalog)

  /** The `forEach` over the messages: each one writes its entry into `latest`
      and then deletes its text from `previous`. */
  function Consume(previous: Catalog, latest: Catalog, msgs: seq<Message>): (r: Pass)
    ensures r.latest.Keys == latest.Keys + Texts(msgs)
    ensures forall k :: k in latest && k !in Texts(msgs) ==> r.latest[k] == latest[k]
    ensures forall k :: k in r.previous <==> k in previous && k !in Texts(msgs)
    ensures forall k :: k in r.previous ==> r.previous[k] == previous[k]
    decreases |msgs|
  {
    if msgs == [] then Pass(previous, latest)
    else
      var m := msgs[0];
      assert Texts(msgs) == {m.text} + Texts(msgs[1..]) by {
        assert msgs == [m] + msgs[1..];
      }
      Consume(previous - {m.text}, latest[m.text := NewEntry(previous, m)], msgs[1..])
  }

  /** The loop over the left-overs that deletes every value that is exactly `""`. */
  function Prune(leftover: Catalog): (kept: Catalog)
    ensures kept.Keys <= leftover.Keys
    ensures forall k :: k in kept ==> kept[k] == leftover[k] && kept[k] != Blank
    ensures forall k :: k in leftover && k !in kept ==> leftover[k] == Blank
  {
    map k | k in leftover && leftover[k] != Blank :: leftover[k]
  }

  /** What one `makeLocale` call produces: the new catalog, the new outdated
      store, and whether the outdated file is written (otherwise it is deleted). */
  datatype Outcome = Outcome(catalog: Catalog, outdated: Catalog, writeOutdated: bool)

  /** The whole reconciliation for one language. */
  function Reconcile(outdated: Catalog, catalog: Catalog, msgs: seq<Message>): (r: Outcome)
    ensures r.catalog.Keys == Texts(msgs)
    ensures r.outdated.Keys !! r.catalog.Keys
    ensures var previous := Overlay(outdated, catalog);
      forall k :: k in r.outdated <==> k in previous && k !in Texts(msgs) && previous[k] != Blank
    ensures var previous := Overlay(outdated, catalog);
      forall k :: k in r.outdated ==> r.outdated[k] == previous[k]
    ensures forall k :: k in r.outdated ==> r.outdated[k] != Blank
    ensures r.writeOutdated <==> |r.outdated| > 0
  {
    var previous := Overlay(outdated, catalog);
    var empty: Catalog := map[];
    assert empty.Keys == {};
    var pass := Consume(previous, empty, msgs);
    assert pass.latest.Keys == Texts(msgs);
    var kept := Prune(pass.previous);
    assert forall k :: k in kept ==> k in pass.previous && kept[k] == previous[k];
    assert forall k :: k in kept <==> k in previous && k !in Texts(msgs) && previous[k] != Blank;
    assert kept.Keys !! pass.latest.Keys;
    Outcome(pass.latest, kept, |kept| != 0)
  }
}
