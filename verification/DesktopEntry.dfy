/**
 * A desktop entry object. Reading a key parses its section in place; seen through `View` nothing changes, and every
 * call acts as it would on sections parsed when the file was loaded.
 */
module DesktopEntry {
  import opened Basics
  import opened DesktopLines
  import opened DesktopSections
  import opened DesktopSave

  /** The position a section gets that no file gave one. */
  const NO_POSITION := 99

  /** The keys of all sections. */
  ghost function ViewOf(sections: map<string, Section>): map<string, Keys> {
    map n | n in sections :: Parsed(sections[n])
  }

  lemma ViewWith(sections: map<string, Section>, name: string, section: Section)
    ensures ViewOf(sections[name := section]) == ViewOf(sections)[name := Parsed(section)]
  {
  }

  /** `DDesktopEntrySection::set`. */
  method SetKey(section: Section, key: string, value: string) returns (t: Section)
    ensures t == section.(values := Parsed(section)[key := value], unparsed := [])
  {
    t := EnsureParsed(section);
    if key in t.values {
      t := t.(values := t.values - {key});
    }
    t := t.(values := t.values[key := value]);
    assert t.values == Parsed(section)[key := value];
  }

  function KeyText(values: Keys, key: string): string
    requires key in values
  {
    key + "=" + values[key] + "\n"
  }

  lemma PrintedNext(keys: seq<string>, j: nat, values: Keys)
    requires j < |keys| && forall k :: k in keys ==> k in values
    ensures Printed(keys[j..], values) == KeyText(values, keys[j]) + Printed(keys[j + 1..], values)
  {
    assert keys[j..][0] == keys[j] && keys[j..][1..] == keys[j + 1..];
  }

  lemma NothingPrinted(keys: seq<string>, values: Keys)
    requires keys == []
    ensures Printed(keys, values) == []
  {
  }

  /** `sectionData`. */
  method SectionText(section: Section, keys: seq<string>) returns (data: string)
    requires forall k :: k in keys <==> k in section.values
    ensures data == SectionData(section, keys)
  {
    if section.unparsed != [] {
      return section.unparsed;
    }
    hide Printed;
    data := "[" + section.name + "]\n";
    assert keys[0..] == keys;
    var j := 0;
    while j < |keys|
      invariant 0 <= j <= |keys|
      invariant SectionData(section, keys) == data + Printed(keys[j..], section.values)
    {
      PrintedNext(keys, j, section.values);
      Regrouped(data, KeyText(section.values, keys[j]), Printed(keys[j + 1..], section.values));
      data := data + KeyText(section.values, keys[j]);
      j := j + 1;
    }
    NothingPrinted(keys[j..], section.values);
    assert data + [] == data;
  }

  lemma DocumentNext(order: seq<string>, i: nat, sections: map<string, Section>, keyOrder: KeyOrder)
    requires i < |order| && Lists(keyOrder, sections) && forall n :: n in order ==> n in sections
    ensures Document(order[i..], sections, keyOrder)
         == SectionData(sections[order[i]], keyOrder[order[i]]) + Document(order[i + 1..], sections, keyOrder)
  {
    assert order[i..][0] == order[i] && order[i..][1..] == order[i + 1..];
  }

  lemma NothingWritten(order: seq<string>, sections: map<string, Section>, keyOrder: KeyOrder)
    requires order == [] && Lists(keyOrder, sections)
    ensures Document(order, sections, keyOrder) == []
  {
  }

  // ---- Where a new section is written ----

  /**
   * A section that no file gave a position comes last in every order of writing, exactly if the file gave no section a
   * position of 99 or more, that is, if it has not named a hundred.
   */
  lemma NewIsLastIff(sections: map<string, Section>, name: string, section: Section, order: seq<string>)
    requires name !in sections && section.position == NO_POSITION
    requires InOrder(order, sections[name := section])
    ensures (forall o :: InOrder(o, sections[name := section]) ==> o != [] && o[|o| - 1] == name)
            <==> forall n <- sections :: sections[n].position < 99
  {
    var all := sections[name := section];
    if forall n <- sections :: sections[n].position < 99 {
      forall o | InOrder(o, all) ensures o != [] && o[|o| - 1] == name {
        LastIsBehind(o, all, name);
      }
    } else if order[|order| - 1] == name {
      var n :| n in sections && sections[n].position >= 99;
      var other := SwapLast(order, all, n);
      assert InOrder(other, all) && other[|other| - 1] != name;
    }
  }

  lemma LastIsBehind(order: seq<string>, sections: map<string, Section>, name: string)
    requires InOrder(order, sections) && name in sections
    ensures order != [] && order[|order| - 1] in sections
    ensures sections[name].position <= sections[order[|order| - 1]].position
  {
    assert name in order;
    var i :| 0 <= i < |order| && order[i] == name;
    assert order[|order| - 1] in order;
  }

  /** Two sections of one position may be written either way. */
  lemma SwapLast(order: seq<string>, sections: map<string, Section>, n: string) returns (other: seq<string>)
    requires InOrder(order, sections) && order != [] && n in sections && n != order[|order| - 1]
    requires sections[n].position >= sections[order[|order| - 1]].position
    ensures InOrder(other, sections) && other != [] && other[|other| - 1] != order[|order| - 1]
  {
    var k := |order| - 1;
    assert n in order;
    var i :| 0 <= i < |order| && order[i] == n;
    assert sections[n].position <= sections[order[k - 1]].position by {
      assert i == k - 1 || sections[order[i]].position <= sections[order[k - 1]].position;
    }
    other := order[k - 1 := order[k]][k := order[k - 1]];
    forall m ensures m in order <==> m in other {
      if m in order {
        var j :| 0 <= j < |order| && order[j] == m;
        assert other[if j == k then k - 1 else if j == k - 1 then k else j] == m;
      }
    }
    SwappedInOrder(order, sections, other, k);
  }

  lemma SwappedInOrder(order: seq<string>, sections: map<string, Section>, other: seq<string>, k: nat)
    requires InOrder(order, sections) && k > 0 && |order| == k + 1
    requires other == order[k - 1 := order[k]][k := order[k - 1]]
    requires order[k - 1] in sections && order[k] in sections
    requires sections[order[k]].position <= sections[order[k - 1]].position
    requires forall m :: m in order <==> m in other
    ensures InOrder(other, sections)
  {
    forall i, j | 0 <= i < j < |other|
      ensures other[i] != other[j] && other[i] in sections && other[j] in sections
      ensures sections[other[i]].position <= sections[other[j]].position
    {
      var a := if i == k - 1 then k else i;
      var b := if j == k then k - 1 else if j == k - 1 then k else j;
      assert other[i] == order[a] && other[j] == order[b];
    }
  }

  class Entry {
    var sections: map<string, Section>

    ghost function View(): map<string, Keys>
      reads this
    {
      ViewOf(sections)
    }

    /** Nothing but the one section has changed, and that only by being parsed. */
    twostate predicate OnlyParses(section: string)
      reads this
    {
      && View() == old(View()) && sections.Keys == old(sections.Keys)
      && forall n :: n in sections ==>
           && sections[n].position == old(sections[n].position) && sections[n].name == old(sections[n].name)
           && (n != section ==> sections[n] == old(sections[n]))
    }

    constructor ()
      ensures sections == map[]
    {
      sections := map[];
    }

    /** `initSectionsFromData`: any former sections are gone, whatever the format. */
    method Load(data: string) returns (formatOk: bool)
      modifies this
      ensures sections == Loaded(data)
      ensures View() == Eager(data, 0, [], map[])
      ensures formatOk <==> WellFormedFrom(data, 0)
    {
      formatOk, sections := InitSections(data);
      LazyIsEager(data);
    }

    method Parse(section: string)
      requires section in sections
      modifies this
      ensures OnlyParses(section) && sections[section].unparsed == [] && sections[section].values == View()[section]
    {
      var parsed := EnsureParsed(sections[section]);
      sections := sections[section := parsed];
    }

    method Contains(key: string, section: string) returns (found: bool)
      modifies this
      ensures OnlyParses(section)
      ensures found <==> key != [] && section != [] && section in View() && key in View()[section]
      ensures found ==> sections[section].unparsed == [] && sections[section].values == View()[section]
    {
      if key == [] || section == [] || section !in sections {
        return false;
      }
      Parse(section);
      found := key in sections[section].values;
    }

    method KeysOf(section: string) returns (keys: set<string>)
      modifies this
      ensures OnlyParses(section)
      ensures keys == if section != [] && section in View() then View()[section].Keys else {}
    {
      if section == [] || section !in sections {
        return {};
      }
      Parse(section);
      keys := sections[section].values.Keys;
    }

    method RawValue(key: string, section: string, default: string) returns (value: string)
      modifies this
      ensures OnlyParses(section)
      ensures value == if key != [] && section != [] && section in View() && key in View()[section]
                       then View()[section][key] else default
    {
      value := default;
      if key == [] || section == [] {
        return;
      }
      var found := Contains(key, section);
      if found {
        value := sections[section].values[key];
      }
    }

    method SetRawValue(value: string, key: string, section: string) returns (ok: bool)
      modifies this
      ensures ok <==> key != [] && section != []
      ensures !ok ==> sections == old(sections)
      ensures ok ==>
        var keys := if section in old(View()) then old(View())[section] else map[];
        && View() == old(View())[section := keys[key := value]]
        && sections == old(sections)[section := Section(
             if section in old(sections) then old(sections)[section].name else section, keys[key := value], [],
             if section in old(sections) then old(sections)[section].position else NO_POSITION)]
    {
      if key == [] || section == [] {
        return false;
      }
      var existing := if section in sections then sections[section] else Section(section, map[], [], NO_POSITION);
      var with := SetKey(existing, key, value);
      ViewWith(sections, section, with);
      sections := sections[section := with];
      ok := true;
    }

    method RemoveEntry(key: string, section: string) returns (removed: bool)
      modifies this
      ensures removed <==> key != [] && section != [] && section in old(View()) && key in old(View())[section]
      ensures removed ==> View() == old(View())[section := old(View())[section] - {key}]
      ensures !removed ==> OnlyParses(section)
      ensures forall n :: n in sections && n != section ==> n in old(sections) && sections[n] == old(sections[n])
    {
      if key == [] || section == [] {
        return false;
      }
      removed := Contains(key, section);
      if removed {
        var without := sections[section].(values := sections[section].values - {key});
        ViewWith(sections, section, without);
        sections := sections[section := without];
      }
    }

    /** `write`, with the sections in the order that sorting their names by position has given. */
    method Write(order: seq<string>, keyOrder: KeyOrder) returns (written: string)
      requires InOrder(order, sections) && Lists(keyOrder, sections)
      ensures written == Document(order, sections, keyOrder)
    {
      hide Document, SectionData;
      written := [];
      assert order[0..] == order;
      var i := 0;
      while i < |order|
        invariant 0 <= i <= |order|
        invariant Document(order, sections, keyOrder) == written + Document(order[i..], sections, keyOrder)
      {
        DocumentNext(order, i, sections, keyOrder);
        var data := SectionText(sections[order[i]], keyOrder[order[i]]);
        Regrouped(written, data, Document(order[i + 1..], sections, keyOrder));
        written := written + data;
        i := i + 1;
      }
      NothingWritten(order[i..], sections, keyOrder);
      assert written + [] == written;
    }
  }
}
