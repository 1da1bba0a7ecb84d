/** Properties of the reconciliation: which entry every key ends up with, the
    behaviours a user of the tool relies on, and idempotence of a second run on
    the tool's own output. */
module ReconcileFacts {
  import opened Catalogs
  import opened Reconciliation

  /** The position of the last message whose text is `t`. */
  function LastIndex(msgs: seq<Message>, t: string): (i: nat)
    requires t in Texts(msgs)
    ensures i < |msgs| && msgs[i].text == t
    ensures forall j :: i < j < |msgs| ==> msgs[j].text != t
    decreases |msgs|
  {
    var n := |msgs| - 1;
    if msgs[n].text == t then n
    else
      assert t in Texts(msgs[..n]) by {
        var m :| m in msgs && m.text == t;
        var j :| 0 <= j < |msgs| && msgs[j] == m;
        assert msgs[..n][j] == m;
      }
      LastIndex(msgs[..n], t)
  }

  /** The entry key `t` should hold after reconciliation, stated without the
      loop: the last message with text `t` decides. If an earlier message had
      the same text, that earlier one already deleted `t` from `previous`, so
      the last one gets its default; otherwise it reads `previous`. */
  function Expected(previous: Catalog, msgs: seq<Message>, t: string): Entry
    requires t in Texts(msgs)
  {
    var i := LastIndex(msgs, t);
    if t in Texts(msgs[..i]) then Default(msgs[i]) else NewEntry(previous, msgs[i])
  }

  /** `NewEntry` reads nothing of `previous` but the message's own key. */
  lemma NewEntryReadsOnlyItsKey(p1: Catalog, p2: Catalog, m: Message)
    requires m.text in p1 <==> m.text in p2
    requires m.text in p1 ==> p1[m.text] == p2[m.text]
    ensures NewEntry(p1, m) == NewEntry(p2, m)
  {
  }

  /** Removing the message's own key from `previous` turns its entry into the default. */
  lemma NewEntryWithoutKey(previous: Catalog, m: Message)
    requires m.text !in previous
    ensures NewEntry(previous, m) == Default(m)
  {
  }

  /** Feeding an entry back in as `previous` reproduces it. */
  lemma NewEntryIdempotent(previous: Catalog, m: Message)
    ensures NewEntry(previous[m.text := NewEntry(previous, m)], m) == NewEntry(previous, m)
  {
  }

  /** Shifting a message sequence by one moves the last occurrence by one. */
  lemma LastIndexTail(msgs: seq<Message>, t: string)
    requires |msgs| > 0
    requires t in Texts(msgs[1..])
    ensures t in Texts(msgs)
    ensures LastIndex(msgs, t) == LastIndex(msgs[1..], t) + 1
  {
    var i := LastIndex(msgs[1..], t);
    assert msgs[i + 1] == msgs[1..][i];
    assert forall j :: i + 1 < j < |msgs| ==> msgs[j] == msgs[1..][j - 1];
  }

  /** Membership in `Texts` is membership of some message's text. */
  lemma TextsPrefix(msgs: seq<Message>, i: nat, t: string)
    requires i <= |msgs|
    ensures t in Texts(msgs[..i]) <==> exists j :: 0 <= j < i && msgs[j].text == t
  {
    if t in Texts(msgs[..i]) {
      var m :| m in msgs[..i] && m.text == t;
      var j :| 0 <= j < i && msgs[..i][j] == m;
      assert msgs[j].text == t;
    }
    if exists j :: 0 <= j < i && msgs[j].text == t {
      var j :| 0 <= j < i && msgs[j].text == t;
      assert msgs[..i][j] == msgs[j];
    }
  }

  /** Dropping the first message: a key it does not decide keeps its
      expected entry, read from `previous` without the first message's key. */
  lemma ExpectedTail(previous: Catalog, msgs: seq<Message>, t: string)
    requires |msgs| > 0
    requires t in Texts(msgs[1..])
    ensures t in Texts(msgs)
    ensures Expected(previous - {msgs[0].text}, msgs[1..], t) == Expected(previous, msgs, t)
  {
    var m := msgs[0];
    var rest := msgs[1..];
    LastIndexTail(msgs, t);
    var i := LastIndex(rest, t);
    assert msgs[i + 1] == rest[i];
    TextsPrefix(msgs, i + 1, t);
    TextsPrefix(rest, i, t);
    assert forall j :: 0 < j < i + 1 ==> msgs[j] == rest[j - 1];
    assert t in Texts(msgs[..i + 1]) <==> m.text == t || t in Texts(rest[..i]);
    if m.text == t {
      NewEntryWithoutKey(previous - {m.text}, rest[i]);
    } else {
      NewEntryReadsOnlyItsKey(previous - {m.text}, previous, rest[i]);
    }
  }

  /** The first message decides its key when no later message shares it. */
  lemma ExpectedHead(previous: Catalog, msgs: seq<Message>)
    requires |msgs| > 0
    requires msgs[0].text !in Texts(msgs[1..])
    ensures msgs[0].text in Texts(msgs)
    ensures Expected(previous, msgs, msgs[0].text) == NewEntry(previous, msgs[0])
  {
    var t := msgs[0].text;
    assert msgs[0] in msgs;
    assert forall j :: 0 < j < |msgs| ==> msgs[j] == msgs[1..][j - 1];
    assert LastIndex(msgs, t) == 0;
    assert msgs[..0] == [];
  }

  /** The message loop leaves under an extracted key the entry `Expected`
      describes, whatever `latest` held before. */
  lemma {:induction false} ConsumeValue(previous: Catalog, latest: Catalog, msgs: seq<Message>, t: string)
    requires t in Texts(msgs)
    ensures Consume(previous, latest, msgs).latest[t] == Expected(previous, msgs, t)
    decreases |msgs|
  {
    var m := msgs[0];
    var rest := msgs[1..];
    var previous' := previous - {m.text};
    var latest' := latest[m.text := NewEntry(previous, m)];
    assert Consume(previous, latest, msgs) == Consume(previous', latest', rest);
    if t in Texts(rest) {
      ConsumeValue(previous', latest', rest, t);
      ExpectedTail(previous, msgs, t);
    } else {
      assert msgs == [m] + rest;
      assert t == m.text;
      ExpectedHead(previous, msgs);
    }
  }

  /** The entry of every key of the new catalog. */
  lemma ReconcileEntries(outdated: Catalog, catalog: Catalog, msgs: seq<Message>)
    ensures forall t :: t in Texts(msgs) ==>
      Reconcile(outdated, catalog, msgs).catalog[t] == Expected(Overlay(outdated, catalog), msgs, t)
  {
    forall t | t in Texts(msgs)
      ensures Reconcile(outdated, catalog, msgs).catalog[t] == Expected(Overlay(outdated, catalog), msgs, t)
    {
      ConsumeValue(Overlay(outdated, catalog), map[], msgs, t);
    }
  }

  /** A message whose text no other message shares gets exactly the entry
      `NewEntry` computes from `previous`. */
  lemma SoleOccurrenceEntry(outdated: Catalog, catalog: Catalog, msgs: seq<Message>, i: nat)
    requires i < |msgs|
    requires forall j :: 0 <= j < |msgs| && j != i ==> msgs[j].text != msgs[i].text
    ensures Reconcile(outdated, catalog, msgs).catalog[msgs[i].text]
         == NewEntry(Overlay(outdated, catalog), msgs[i])
  {
    var t := msgs[i].text;
    assert t in Texts(msgs);
    ReconcileEntries(outdated, catalog, msgs);
    assert LastIndex(msgs, t) == i;
    TextsPrefix(msgs, i, t);
  }

  /** An existing translation survives: a singular message keeps the value
      its catalog holds (an empty one stays empty). */
  lemma TranslationPreserved(outdated: Catalog, catalog: Catalog, msgs: seq<Message>, i: nat)
    requires i < |msgs| && !IsPlural(msgs[i])
    requires forall j :: 0 <= j < |msgs| && j != i ==> msgs[j].text != msgs[i].text
    requires msgs[i].text in catalog
    ensures Reconcile(outdated, catalog, msgs).catalog[msgs[i].text] == catalog[msgs[i].text]
  {
    SoleOccurrenceEntry(outdated, catalog, msgs, i);
  }

  /** A translation moved to the outdated store comes back when its message
      reappears, and leaves the outdated store. */
  lemma RestoredFromOutdated(outdated: Catalog, catalog: Catalog, msgs: seq<Message>, i: nat)
    requires i < |msgs| && !IsPlural(msgs[i])
    requires forall j :: 0 <= j < |msgs| && j != i ==> msgs[j].text != msgs[i].text
    requires msgs[i].text !in catalog
    requires msgs[i].text in outdated && outdated[msgs[i].text] != Blank
    ensures Reconcile(outdated, catalog, msgs).catalog[msgs[i].text] == outdated[msgs[i].text]
    ensures msgs[i].text !in Reconcile(outdated, catalog, msgs).outdated
  {
    SoleOccurrenceEntry(outdated, catalog, msgs, i);
  }

  /** A message never seen before gets `""`, or `{one: "", other: textPlural}`. */
  lemma NewMessageDefaults(outdated: Catalog, catalog: Catalog, msgs: seq<Message>, i: nat)
    requires i < |msgs|
    requires forall j :: 0 <= j < |msgs| && j != i ==> msgs[j].text != msgs[i].text
    requires msgs[i].text !in catalog && msgs[i].text !in outdated
    ensures !IsPlural(msgs[i]) ==> Reconcile(outdated, catalog, msgs).catalog[msgs[i].text] == Blank
    ensures IsPlural(msgs[i]) ==>
      Reconcile(outdated, catalog, msgs).catalog[msgs[i].text] == Plural("", PluralText(msgs[i]))
  {
    SoleOccurrenceEntry(outdated, catalog, msgs, i);
  }

  /** A translated string that is no longer extracted moves from the catalog
      to the outdated store, and the outdated file is written. */
  lemma DemotedToOutdated(outdated: Catalog, catalog: Catalog, msgs: seq<Message>, k: string)
    requires k in catalog && catalog[k] != Blank
    requires k !in Texts(msgs)
    ensures var r := Reconcile(outdated, catalog, msgs);
      k !in r.catalog && k in r.outdated && r.outdated[k] == catalog[k] && r.writeOutdated
  {
  }

  /** When two messages share a text, the last one gets its default entry, and
      the translation the key had is kept in neither the catalog nor the
      outdated store. */
  lemma DuplicateTextDropsTranslation(outdated: Catalog, catalog: Catalog, msgs: seq<Message>, i: nat, j: nat)
    requires i < j < |msgs| && msgs[i].text == msgs[j].text
    requires forall k :: j < k < |msgs| ==> msgs[k].text != msgs[j].text
    ensures var r := Reconcile(outdated, catalog, msgs);
      r.catalog[msgs[j].text] == Default(msgs[j]) && msgs[j].text !in r.outdated
  {
    var t := msgs[j].text;
    assert t in Texts(msgs);
    ReconcileEntries(outdated, catalog, msgs);
    assert LastIndex(msgs, t) == j;
    assert msgs[..j][i] == msgs[i];
    assert t in Texts(msgs[..j]);
  }

  /** On a second run over the first run's output, every key's entry is unchanged. */
  lemma SecondRunEntry(outdated: Catalog, catalog: Catalog, msgs: seq<Message>, t: string)
    requires t in Texts(msgs)
    ensures var r := Reconcile(outdated, catalog, msgs);
      Reconcile(r.outdated, r.catalog, msgs).catalog[t] == r.catalog[t]
  {
    var previous := Overlay(outdated, catalog);
    var r := Reconcile(outdated, catalog, msgs);
    var previous2 := Overlay(r.outdated, r.catalog);
    ReconcileEntries(outdated, catalog, msgs);
    ReconcileEntries(r.outdated, r.catalog, msgs);
    var i := LastIndex(msgs, t);
    if t !in Texts(msgs[..i]) {
      NewEntryReadsOnlyItsKey(previous2, previous[t := NewEntry(previous, msgs[i])], msgs[i]);
      NewEntryIdempotent(previous, msgs[i]);
    }
  }

  /** On a second run a key is outdated exactly when it was, with the same entry. */
  lemma SecondRunOutdatedKey(outdated: Catalog, catalog: Catalog, msgs: seq<Message>, k: string)
    ensures var r := Reconcile(outdated, catalog, msgs);
      var r2 := Reconcile(r.outdated, r.catalog, msgs);
      (k in r2.outdated <==> k in r.outdated) && (k in r.outdated ==> r2.outdated[k] == r.outdated[k])
  {
    var r := Reconcile(outdated, catalog, msgs);
    var previous2 := Overlay(r.outdated, r.catalog);
    if k in r.outdated {
      assert k !in r.catalog;
      assert previous2[k] == r.outdated[k];
    }
  }

  /** On a second run the outdated store is exactly the first run's. */
  lemma SecondRunOutdated(outdated: Catalog, catalog: Catalog, msgs: seq<Message>)
    ensures var r := Reconcile(outdated, catalog, msgs);
      Reconcile(r.outdated, r.catalog, msgs).outdated == r.outdated
  {
    var r := Reconcile(outdated, catalog, msgs);
    var o2 := Reconcile(r.outdated, r.catalog, msgs).outdated;
    forall k
      ensures (k in o2 <==> k in r.outdated) && (k in r.outdated ==> o2[k] == r.outdated[k])
    {
      SecondRunOutdatedKey(outdated, catalog, msgs, k);
    }
    SameEntries(o2, r.outdated);
  }

  /** Two catalogs with the same keys and the same entry under each are equal. */
  lemma SameEntries(a: Catalog, b: Catalog)
    requires forall k :: (k in a <==> k in b) && (k in b ==> a[k] == b[k])
    ensures a == b
  {
  }

  /** Running the reconciliation again on its own output (the written catalog,
      and the written outdated store or none when the file was deleted)
      changes nothing. */
  lemma ReconcileIdempotent(outdated: Catalog, catalog: Catalog, msgs: seq<Message>)
    ensures var r := Reconcile(outdated, catalog, msgs);
      Reconcile(if r.writeOutdated then r.outdated else map[], r.catalog, msgs) == r
  {
    var r := Reconcile(outdated, catalog, msgs);
    assert (if r.writeOutdated then r.outdated else map[]) == r.outdated;
    var r2 := Reconcile(r.outdated, r.catalog, msgs);
    forall t
      ensures (t in r2.catalog <==> t in r.catalog) && (t in r.catalog ==> r2.catalog[t] == r.catalog[t])
    {
      if t in Texts(msgs) {
        SecondRunEntry(outdated, catalog, msgs, t);
      }
    }
    SameEntries(r2.catalog, r.catalog);
    SecondRunOutdated(outdated, catalog, msgs);
  }
}
