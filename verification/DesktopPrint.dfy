/**
 * Sections printed from their keys and parsed again. Every line of a document has to say what it was printed for, so
 * the exact condition follows from adding up how many lines there are and how long their keys and values.
 */
module DesktopPrint {
  import opened Basics
  import opened DesktopLines
  import opened DesktopSections
  import opened DesktopSave
  import opened DesktopFacts

  // ---- Facts with the section they belong to ----

  function Tagged(name: string, facts: seq<Fact>): (r: seq<(string, Fact)>)
    ensures |r| == |facts|
    decreases |facts|
  {
    if facts == [] then []
    else
      var section := if facts[0].Opens? then facts[0].name else name;
      [(section, facts[0])] + Tagged(section, facts[1..])
  }

  function TagWeight(t: (string, Fact)): nat {
    Weight(t.1)
  }

  lemma {:induction false} TaggedWeighs(name: string, facts: seq<Fact>)
    ensures Sum(Tagged(name, facts), TagWeight) == Total(facts)
    ensures forall t :: t in Tagged(name, facts) ==> t.1 in facts
    decreases |facts|
  {
    if facts != [] {
      var section := if facts[0].Opens? then facts[0].name else name;
      TaggedWeighs(section, facts[1..]);
      assert Tagged(name, facts)[1..] == Tagged(section, facts[1..]);
    }
  }

  /** Whatever is in the sections was there or has been said. */
  lemma {:induction false} SectionsAreSaid(name: string, all: map<string, Keys>, facts: seq<Fact>)
    requires name == [] || name in all
    ensures forall n :: n in Into(name, all, facts) ==> n in all || (n != [] && (n, Opens(n)) in Tagged(name, facts))
    ensures forall n, k :: n in Into(name, all, facts) && k in Into(name, all, facts)[n] ==>
      var v := Into(name, all, facts)[n][k];
      (n in all && k in all[n] && all[n][k] == v) || (n, Has(k, v)) in Tagged(name, facts)
    decreases |facts|
  {
    if facts != [] {
      var f := facts[0];
      var section := if f.Opens? then f.name else name;
      var next := if f.Opens? then (if f.name == [] then all else all[f.name := map[]])
                  else if name == [] then all else all[name := all[name][f.key := f.value]];
      SectionsAreSaid(section, next, facts[1..]);
      assert Tagged(name, facts) == [(section, f)] + Tagged(section, facts[1..]);
    }
  }

  lemma {:induction false} KeysAreSaid(all: Keys, facts: seq<Fact>)
    ensures forall k :: k in KeysInto(all, facts) ==>
      (k in all && all[k] == KeysInto(all, facts)[k]) || Has(k, KeysInto(all, facts)[k]) in facts
    decreases |facts|
  {
    if facts != [] {
      var f := facts[0];
      KeysAreSaid(if f.Has? then all[f.key := f.value] else all, facts[1..]);
      assert facts == [f] + facts[1..];
    }
  }

  // ---- What a document is printed for ----

  function HasAll(keys: seq<string>, values: Keys): (facts: seq<Fact>)
    requires forall k :: k in keys ==> k in values
    ensures |facts| == |keys|
  {
    if keys == [] then [] else [Has(keys[0], values[keys[0]])] + HasAll(keys[1..], values)
  }

  function Items(order: seq<string>, sections: map<string, Section>, keyOrder: KeyOrder): seq<Fact>
    requires forall n :: n in order ==>
      n in sections && n in keyOrder && forall k :: k in keyOrder[n] ==> k in sections[n].values
  {
    if order == [] then []
    else
      var n := order[0];
      [Opens(n)] + HasAll(keyOrder[n], sections[n].values) + Items(order[1..], sections, keyOrder)
  }

  /** Every section is parsed, and each of its keys is listed once. */
  ghost predicate ParsedAndListed(sections: map<string, Section>, keyOrder: KeyOrder) {
    && Lists(keyOrder, sections)
    && forall n :: n in sections ==> sections[n].name == n && sections[n].unparsed == [] && Differ(keyOrder[n])
  }

  lemma {:induction false} TextJoins(a: seq<Fact>, b: seq<Fact>)
    ensures Text(a + b) == Text(a) + Text(b)
    decreases |a|
  {
    if a == [] {
      assert a + b == b;
    } else {
      assert (a + b)[0] == a[0] && (a + b)[1..] == a[1..] + b;
      TextJoins(a[1..], b);
    }
  }

  lemma {:induction false} PrintedIsText(keys: seq<string>, values: Keys)
    requires forall k :: k in keys ==> k in values
    ensures Printed(keys, values) == Text(HasAll(keys, values))
  {
    if keys != [] {
      PrintedIsText(keys[1..], values);
      OneMoreFact(Has(keys[0], values[keys[0]]), HasAll(keys[1..], values));
    }
  }

  lemma SectionIsText(section: Section, keys: seq<string>)
    requires section.unparsed == [] && forall k :: k in keys <==> k in section.values
    ensures SectionData(section, keys) == Text([Opens(section.name)] + HasAll(keys, section.values))
  {
    PrintedIsText(keys, section.values);
    OneMoreFact(Opens(section.name), HasAll(keys, section.values));
  }

  lemma {:induction false} DocumentIsText(order: seq<string>, sections: map<string, Section>, keyOrder: KeyOrder)
    requires ParsedAndListed(sections, keyOrder) && forall n :: n in order ==> n in sections
    ensures Document(order, sections, keyOrder) == Text(Items(order, sections, keyOrder))
  {
    hide Text, SectionData;
    if order == [] {
      NoText();
    } else {
      var n := order[0];
      DocumentIsText(order[1..], sections, keyOrder);
      SectionIsText(sections[n], keyOrder[n]);
      TextJoins([Opens(n)] + HasAll(keyOrder[n], sections[n].values), Items(order[1..], sections, keyOrder));
    }
  }

  lemma NoText()
    ensures Text([]) == []
  {
  }

  // ---- What the facts of a document make ----

  lemma {:induction false} KeysMadeInto(name: string, all: map<string, Keys>, keys: seq<string>, values: Keys,
                                        rest: seq<Fact>)
    requires name != [] && name in all && forall k :: k in keys ==> k in values
    ensures Into(name, all, HasAll(keys, values) + rest)
         == Into(name, all[name := WithKeys(all[name], keys, values)], rest)
    decreases |keys|
  {
    var facts := HasAll(keys, values) + rest;
    if keys == [] {
      assert facts == rest && all[name := all[name]] == all;
    } else {
      var next := all[name := all[name][keys[0] := values[keys[0]]]];
      assert facts[0] == Has(keys[0], values[keys[0]]) && facts[1..] == HasAll(keys[1..], values) + rest;
      KeysMadeInto(name, next, keys[1..], values, rest);
      assert next[name := WithKeys(next[name], keys[1..], values)] == all[name := WithKeys(all[name], keys, values)];
    }
  }

  function WithKeys(all: Keys, keys: seq<string>, values: Keys): Keys
    requires forall k :: k in keys ==> k in values
    decreases |keys|
  {
    if keys == [] then all else WithKeys(all[keys[0] := values[keys[0]]], keys[1..], values)
  }

  lemma {:induction false} AllKeys(all: Keys, keys: seq<string>, values: Keys)
    requires forall k :: k in keys ==> k in values
    ensures forall k :: k in WithKeys(all, keys, values) <==> k in all || k in keys
    ensures forall k :: k in keys ==> WithKeys(all, keys, values)[k] == values[k]
    ensures forall k :: k in all && k !in keys ==> WithKeys(all, keys, values)[k] == all[k]
    decreases |keys|
  {
    if keys != [] {
      AllKeys(all[keys[0] := values[keys[0]]], keys[1..], values);
      assert keys == [keys[0]] + keys[1..];
    }
  }

  lemma NothingButKeys(keys: seq<string>, values: Keys)
    requires forall k :: k in keys <==> k in values
    ensures WithKeys(map[], keys, values) == values
  {
    hide WithKeys;
    AllKeys(map[], keys, values);
  }

  lemma {:induction false} ItemsMake(name: string, all: map<string, Keys>, order: seq<string>,
                                     sections: map<string, Section>, keyOrder: KeyOrder)
    requires (name == [] || name in all) && ParsedAndListed(sections, keyOrder) && [] !in order
    requires forall n :: n in order ==> n in sections
    ensures var made := Into(name, all, Items(order, sections, keyOrder));
      && (forall n :: n in made <==> n in all || n in order)
      && (forall n :: n in order ==> made[n] == sections[n].values)
      && (forall n :: n in all && n !in order ==> made[n] == all[n])
    decreases |order|
  {
    hide WithKeys;
    if order != [] {
      var n := order[0];
      var values, rest := sections[n].values, Items(order[1..], sections, keyOrder);
      var keys := HasAll(keyOrder[n], values);
      Regrouped([Opens(n)], keys, rest);
      assert Items(order, sections, keyOrder) == [Opens(n)] + (keys + rest);
      OneMoreFact(Opens(n), keys + rest);
      hide Items, HasAll;
      KeysMadeInto(n, all[n := map[]], keyOrder[n], values, rest);
      NothingButKeys(keyOrder[n], values);
      assert all[n := map[]][n := values] == all[n := values];
      ItemsMake(n, all[n := values], order[1..], sections, keyOrder);
      assert order == [n] + order[1..];
    }
  }

  // ---- The facts of a document are all different ----

  lemma {:induction false} TaggedKeys(name: string, keys: seq<string>, values: Keys, rest: seq<Fact>)
    requires forall k :: k in keys ==> k in values
    ensures var tagged := Tagged(name, HasAll(keys, values));
      && Tagged(name, HasAll(keys, values) + rest) == tagged + Tagged(name, rest)
      && (forall t :: t in tagged ==> t.0 == name && t.1.Has? && t.1.key in keys && t.1.value == values[t.1.key])
      && (Differ(keys) ==> Differ(tagged))
    decreases |keys|
  {
    var facts := HasAll(keys, values);
    if keys == [] {
      assert facts + rest == rest;
    } else {
      var f, less := facts[0], HasAll(keys[1..], values);
      TaggedKeys(name, keys[1..], values, rest);
      assert facts[1..] == less && (facts + rest)[0] == f && (facts + rest)[1..] == less + rest;
      assert Tagged(name, facts) == [(name, f)] + Tagged(name, less);
      Regrouped([(name, f)], Tagged(name, less), Tagged(name, rest));
      assert keys == [keys[0]] + keys[1..];
      if Differ(keys) {
        assert forall i :: 0 <= i < |keys| - 1 ==> keys[1..][i] == keys[i + 1];
        assert keys[0] !in keys[1..];
        JoinDiffers([(name, f)], Tagged(name, less));
      }
    }
  }

  /** What a fact says is so. */
  ghost predicate IsSo(t: (string, Fact), sections: map<string, Section>) {
    && t.0 in sections
    && (t.1.Opens? ==> t.1.name == t.0)
    && (t.1.Has? ==> t.1.key in sections[t.0].values && t.1.value == sections[t.0].values[t.1.key])
  }

  lemma {:induction false} ItemsDiffer(name: string, order: seq<string>, sections: map<string, Section>,
                                       keyOrder: KeyOrder)
    requires ParsedAndListed(sections, keyOrder) && Differ(order) && forall n :: n in order ==> n in sections
    ensures Differ(Tagged(name, Items(order, sections, keyOrder)))
    ensures forall t :: t in Tagged(name, Items(order, sections, keyOrder)) ==> t.0 in order && IsSo(t, sections)
    decreases |order|
  {
    if order != [] {
      var n := order[0];
      var keys, values, rest := keyOrder[n], sections[n].values, Items(order[1..], sections, keyOrder);
      FirstDiffers(order);
      assert order == [n] + order[1..];
      ItemsDiffer(n, order[1..], sections, keyOrder);
      TaggedKeys(n, keys, values, rest);
      TaggedItems(name, order, sections, keyOrder);
      hide Items, HasAll, Tagged, Differ;
      var own, others := Tagged(n, HasAll(keys, values)), Tagged(n, rest);
      JoinDiffers(own, others);
      AloneDiffers((n, Opens(n)));
      JoinDiffers([(n, Opens(n))], own + others);
    }
  }

  lemma TaggedItems(name: string, order: seq<string>, sections: map<string, Section>, keyOrder: KeyOrder)
    requires ParsedAndListed(sections, keyOrder) && order != [] && forall n :: n in order ==> n in sections
    ensures var n, rest := order[0], Items(order[1..], sections, keyOrder);
      Tagged(name, Items(order, sections, keyOrder))
        == [(n, Opens(n))] + (Tagged(n, HasAll(keyOrder[n], sections[n].values)) + Tagged(n, rest))
  {
    var n, rest := order[0], Items(order[1..], sections, keyOrder);
    var keys := HasAll(keyOrder[n], sections[n].values);
    Regrouped([Opens(n)], keys, rest);
    assert Items(order, sections, keyOrder) == [Opens(n)] + (keys + rest);
    hide Items, HasAll;
    TaggedKeys(n, keyOrder[n], sections[n].values, rest);
    OneMoreFact(Opens(n), keys + rest);
  }

  // ---- Printing and loading ----

  /** The sections are found again with the same keys and values. */
  ghost predicate Reloads(document: string, sections: map<string, Section>) {
    var loaded := Loaded(document);
    loaded.Keys == sections.Keys && forall n :: n in sections ==> Parsed(loaded[n]) == sections[n].values
  }

  ghost predicate Makes(made: map<string, Keys>, sections: map<string, Section>) {
    made.Keys == sections.Keys && forall n :: n in sections ==> made[n] == sections[n].values
  }

  lemma ReloadsIsMaking(document: string, sections: map<string, Section>)
    ensures Reloads(document, sections) <==> Makes(Into([], map[], Trace(document, 0)), sections)
  {
    hide Cut, Eager, Parsed, Trace, Into;
    LazyIsEager(document);
    EagerIsInto(document, 0, [], map[]);
  }

  /** What makes the sections says all that is so of them, and so it is readable. */
  lemma MakingSaysIt(facts: seq<Fact>, sections: map<string, Section>, t: (string, Fact))
    requires Makes(Into([], map[], facts), sections) && IsSo(t, sections)
    requires forall f :: f in facts ==> f == Opens([]) || Readable(f)
    ensures t in Tagged([], facts) && Readable(t.1)
  {
    hide Readable, Into;
    SectionsAreSaid([], map[], facts);
    TaggedWeighs([], facts);
  }

  lemma {:induction false} AllAreReadable(facts: seq<Fact>)
    requires forall f :: f in facts ==> Readable(f)
    ensures AllReadable(facts)
    decreases |facts|
  {
    hide Readable;
    if facts != [] {
      AllAreReadable(facts[1..]);
    }
  }

  lemma {:induction false} EveryFactIsTagged(name: string, facts: seq<Fact>, f: Fact)
    requires f in facts
    ensures exists t :: t in Tagged(name, facts) && t.1 == f
    decreases |facts|
  {
    var section := if facts[0].Opens? then facts[0].name else name;
    assert Tagged(name, facts)[0] == (section, facts[0]);
    if f != facts[0] {
      EveryFactIsTagged(section, facts[1..], f);
    }
  }

  lemma {:induction false} CleanIsReadable(facts: seq<Fact>)
    requires AllClean(facts)
    ensures AllReadable(facts) && forall f :: f in facts ==> Readable(f)
    decreases |facts|
  {
    hide Readable;
    if facts != [] {
      CleanIsReadable(facts[1..]);
    }
  }

  lemma WholeText(facts: seq<Fact>)
    ensures Rest(Text(facts), 0, facts) && AtLine(Text(facts), 0, 0)
  {
  }

  /** A document that makes its sections was clean. */
  lemma MakingIsClean(order: seq<string>, sections: map<string, Section>, keyOrder: KeyOrder)
    requires ParsedAndListed(sections, keyOrder) && Differ(order) && forall n :: n in order <==> n in sections
    requires Makes(Into([], map[], Trace(Document(order, sections, keyOrder), 0)), sections)
    ensures AllClean(Items(order, sections, keyOrder))
  {
    hide Readable, Into, Trace, Makes, AllReadable, AllClean, IsSo, Document, Text, Total, Rest, AtLine;
    var items := Items(order, sections, keyOrder);
    var text := Text(items);
    var said := Trace(text, 0);
    DocumentIsText(order, sections, keyOrder);
    TraceIsReadable(text, 0);
    ItemsDiffer([], order, sections, keyOrder);
    forall t | t in Tagged([], items) ensures t in Tagged([], said) && Readable(t.1) {
      MakingSaysIt(said, sections, t);
    }
    forall f | f in items ensures Readable(f) {
      EveryFactIsTagged([], items, f);
    }
    AllAreReadable(items);
    WholeText(items);
    TraceWeighs(text, 0, 0, items);
    Covers(Tagged([], items), Tagged([], said), TagWeight);
    TaggedWeighs([], items);
    TaggedWeighs([], said);
  }

  lemma CleanMakes(order: seq<string>, sections: map<string, Section>, keyOrder: KeyOrder)
    requires ParsedAndListed(sections, keyOrder) && forall n :: n in order <==> n in sections
    requires AllClean(Items(order, sections, keyOrder))
    ensures Makes(Into([], map[], Trace(Document(order, sections, keyOrder), 0)), sections)
  {
    hide Into, Trace, Document, Text, Total, Rest, AtLine, AllClean, AllReadable;
    var items := Items(order, sections, keyOrder);
    DocumentIsText(order, sections, keyOrder);
    CleanIsReadable(items);
    WholeText(items);
    TraceWeighs(Text(items), 0, 0, items);
    NamesAreReadable(order, sections, keyOrder);
    ItemsMake([], map[], order, sections, keyOrder);
  }

  lemma {:induction false} NamesAreReadable(order: seq<string>, sections: map<string, Section>, keyOrder: KeyOrder)
    requires ParsedAndListed(sections, keyOrder) && forall n :: n in order ==> n in sections
    requires forall f :: f in Items(order, sections, keyOrder) ==> Readable(f)
    ensures [] !in order
    decreases |order|
  {
    if order != [] {
      var items, n := Items(order, sections, keyOrder), order[0];
      var rest := Items(order[1..], sections, keyOrder);
      assert items[0] == Opens(n) && items == [Opens(n)] + HasAll(keyOrder[n], sections[n].values) + rest;
      assert forall f :: f in rest ==> f in items;
      assert items[0] in items && Readable(Opens(n));
      NamesAreReadable(order[1..], sections, keyOrder);
      assert order == [n] + order[1..];
    }
  }

  /**
   * A document printed from its sections loads as the same sections exactly if every line is clean: trimmed names, keys
   * and values without open breaks, names without ']', keys without open '=' or dangling backslash that do not start
   * with '[' or '#', and, but for the very last one, values without dangling backslash.
   */
  lemma SavedDocumentLoadsIff(order: seq<string>, sections: map<string, Section>, keyOrder: KeyOrder)
    requires InOrder(order, sections) && ParsedAndListed(sections, keyOrder)
    ensures Reloads(Document(order, sections, keyOrder), sections) <==> AllClean(Items(order, sections, keyOrder))
  {
    hide Reloads, Makes, Items, Into, Trace, Document, AllClean;
    ReloadsIsMaking(Document(order, sections, keyOrder), sections);
    if AllClean(Items(order, sections, keyOrder)) {
      CleanMakes(order, sections, keyOrder);
    }
    if Makes(Into([], map[], Trace(Document(order, sections, keyOrder), 0)), sections) {
      MakingIsClean(order, sections, keyOrder);
    }
  }

  /** A section with the key `#`, set to nothing: it is printed as a comment. */
  const COMMENTED: map<string, Section> := map["s" := Section("s", map["#" := ""], [], 0)]
  const COMMENT_KEYS: KeyOrder := map["s" := ["#"]]

  lemma CommentedKeyIsLost()
    ensures InOrder(["s"], COMMENTED) && ParsedAndListed(COMMENTED, COMMENT_KEYS)
    ensures !Reloads(Document(["s"], COMMENTED, COMMENT_KEYS), COMMENTED)
  {
    hide Readable, Reloads, Document;
    var items := Items(["s"], COMMENTED, COMMENT_KEYS);
    assert ["s"][1..] == [];
    assert items == [Opens("s")] + HasAll(["#"], map["#" := ""]) + [];
    assert items[1] == Has("#", "") && items[1..][0] == items[1];
    SavedDocumentLoadsIff(["s"], COMMENTED, COMMENT_KEYS);
  }

  lemma {:induction false} KeysMade(all: Keys, keys: seq<string>, values: Keys)
    requires forall k :: k in keys ==> k in values
    ensures KeysInto(all, HasAll(keys, values)) == WithKeys(all, keys, values)
    decreases |keys|
  {
    if keys != [] {
      KeysMade(all[keys[0] := values[keys[0]]], keys[1..], values);
    }
  }

  /** The facts of a printed section behind its name. */
  lemma SectionSays(section: Section, keys: seq<string>) returns (data: string, pos: nat, i: nat)
    requires section.unparsed == [] && Clean(Opens(section.name), false)
    requires forall k :: k in keys <==> k in section.values
    ensures data == SectionData(section, keys) && pos <= |data| && AtLine(data, pos, i)
    ensures Rest(data, i, HasAll(keys, section.values))
    ensures KeysFrom(data, 0, map[]) == KeysInto(map[], Trace(data, pos))
  {
    hide Rest, Readable, Trace, AtLine, HasAll, Text, SectionData, LineFrom, HeaderName, Stop;
    var name, items := Opens(section.name), HasAll(keys, section.values);
    SectionIsText(section, keys);
    data := Text([name] + items);
    WholeText([name] + items);
    OneMoreFact(name, items);
    NamePassed(data, 0, [name] + items);
    HeaderIsRead(data, 0, 0, [name] + items);
    var line := LineFrom(data, 0);
    LineSays(data, 0, line);
    HeaderSays(data, line);
    pos, i := line.end, line.end + 1;
    NextOpens(data, 0, [name] + items);
    AfterBreak(data, pos);
    KeysAreInto(data, 0, map[]);
    OneMoreFact(name, Trace(data, pos));
  }

  /** A section printed from its keys and parsed again has the same keys exactly if its lines are clean. */
  lemma PrintedSectionParsesIff(section: Section, keys: seq<string>)
    requires section.unparsed == [] && Clean(Opens(section.name), false)
    requires Differ(keys) && forall k :: k in keys <==> k in section.values
    ensures KeysFrom(SectionData(section, keys), 0, map[]) == section.values
       <==> AllClean(HasAll(keys, section.values))
  {
    hide Readable, Trace, KeysFrom, KeysInto, SectionData, Rest, AtLine, AllClean, AllReadable, Clean, Total;
    var items := HasAll(keys, section.values);
    var data, pos, i := SectionSays(section, keys);
    var said := Trace(data, pos);
    if AllClean(items) {
      CleanIsReadable(items);
      TraceWeighs(data, pos, i, items);
      KeysMade(map[], keys, section.values);
      NothingButKeys(keys, section.values);
    }
    if KeysInto(map[], said) == section.values {
      KeysAreSaid(map[], said);
      TraceIsReadable(data, pos);
      ItemsOfKeys(keys, section.values);
      AllAreReadable(items);
      TraceWeighs(data, pos, i, items);
      TotalIsSum(items);
      TotalIsSum(said);
      Covers(items, said, Weight);
    }
  }

  lemma TotalIsSum(facts: seq<Fact>)
    ensures Total(facts) == Sum(facts, Weight)
  {
  }

  lemma {:induction false} ItemsOfKeys(keys: seq<string>, values: Keys)
    requires Differ(keys) && forall k :: k in keys ==> k in values
    ensures Differ(HasAll(keys, values))
    ensures forall f :: f in HasAll(keys, values) ==> f.Has? && f.key in keys && f.value == values[f.key]
  {
    if keys != [] {
      FirstDiffers(keys);
      ItemsOfKeys(keys[1..], values);
      assert keys == [keys[0]] + keys[1..];
      AloneDiffers(Has(keys[0], values[keys[0]]));
      JoinDiffers([Has(keys[0], values[keys[0]])], HasAll(keys[1..], values));
    }
  }
}
