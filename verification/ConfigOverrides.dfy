/**
 * The order in which override files are applied. Directories are visited from the first base directory on, each from
 * its leaf up, and what is found goes before what was found so far; the last file applied wins.
 */
module ConfigOverrides {
  import opened Basics
  import opened ConfigMeta

  /** A base directory that exists, with its directories from the leaf up to itself and the files in each. */
  datatype BaseDir = Missing | BadSubpath | BaseDir(chain: seq<seq<string>>)

  /** What the collator puts first. */
  type Order = (string, string) -> bool

  ghost predicate IsSorted(names: seq<string>, lt: Order) {
    forall i, j :: 0 <= i < j < |names| ==> !lt(names[j], names[i])
  }

  /** What sorting promises; names that collate alike may come in any order. */
  ghost predicate IsSorting(sort: seq<string> -> seq<string>, lt: Order) {
    forall names :: multiset(sort(names)) == multiset(names) && IsSorted(sort(names), lt)
  }

  /** Files of one base directory: base to leaf, sorted within a directory. */
  function BaseToLeaf(chain: seq<seq<string>>, sort: seq<string> -> seq<string>): seq<string> {
    if chain == [] then [] else BaseToLeaf(chain[1..], sort) + sort(chain[0])
  }

  function FilesOf(dir: BaseDir, sort: seq<string> -> seq<string>): seq<string> {
    if dir.BaseDir? then BaseToLeaf(dir.chain, sort) else []
  }

  /** All files: the base directories in reverse. */
  function ApplicationOrder(dirs: seq<BaseDir>, sort: seq<string> -> seq<string>): seq<string> {
    if dirs == [] then [] else ApplicationOrder(dirs[1..], sort) + FilesOf(dirs[0], sort)
  }

  lemma {:induction false} OneMoreDirectory(chain: seq<seq<string>>, n: nat, sort: seq<string> -> seq<string>)
    requires n < |chain|
    ensures BaseToLeaf(chain[..n + 1], sort) == sort(chain[n]) + BaseToLeaf(chain[..n], sort)
  {
    if n == 0 {
      assert chain[..1][1..] == [];
    } else {
      assert chain[..n + 1][1..] == chain[1..][..n] && chain[..n][1..] == chain[1..][..n - 1];
      OneMoreDirectory(chain[1..], n - 1, sort);
    }
  }

  lemma {:induction false} OneMoreBase(dirs: seq<BaseDir>, n: nat, sort: seq<string> -> seq<string>)
    requires n < |dirs|
    ensures ApplicationOrder(dirs[..n + 1], sort) == FilesOf(dirs[n], sort) + ApplicationOrder(dirs[..n], sort)
  {
    if n == 0 {
      assert dirs[..1][1..] == [];
    } else {
      assert dirs[..n + 1][1..] == dirs[1..][..n] && dirs[..n][1..] == dirs[1..][..n - 1];
      OneMoreBase(dirs[1..], n - 1, sort);
    }
  }

  /** One base directory, from its leaf up. */
  method PrependChain(chain: seq<seq<string>>, sort: seq<string> -> seq<string>, found: seq<string>)
    returns (list: seq<string>)
    ensures list == BaseToLeaf(chain, sort) + found
  {
    list := found;
    assert BaseToLeaf(chain[..0], sort) == [];
    for j := 0 to |chain|
      invariant list == BaseToLeaf(chain[..j], sort) + found
    {
      hide BaseToLeaf;
      OneMoreDirectory(chain, j, sort);
      var sublist := sort(chain[j]);
      Regrouped(sublist, BaseToLeaf(chain[..j], sort), found);
      list := sublist + list;
    }
    assert chain[..|chain|] == chain;
  }

  /** `loadOverrides`. */
  method LoadOverrides(dirs: seq<BaseDir>, sort: seq<string> -> seq<string>, ghost lt: Order)
    returns (list: seq<string>)
    requires IsSorting(sort, lt)
    ensures list == ApplicationOrder(dirs, sort) && IsApplicationOrder(list, dirs, lt)
  {
    ApplicationOrderIs(dirs, sort, lt);
    list := [];
    assert ApplicationOrder(dirs[..0], sort) == [];
    for i := 0 to |dirs|
      invariant list == ApplicationOrder(dirs[..i], sort)
    {
      hide ApplicationOrder, BaseToLeaf;
      OneMoreBase(dirs, i, sort);
      if dirs[i].BaseDir? {
        list := PrependChain(dirs[i].chain, sort, list);
      }
    }
    assert dirs[..|dirs|] == dirs;
  }

  // ---- Which order that is ----

  /** The directories of a base from the base down, each with its files sorted. */
  ghost predicate IsBaseToLeaf(files: seq<string>, chain: seq<seq<string>>, lt: Order)
    decreases chain
  {
    if chain == [] then files == []
    else exists n: nat {:trigger files[n..]} :: n <= |files| && IsBaseToLeaf(files[..n], chain[1..], lt)
           && multiset(files[n..]) == multiset(chain[0]) && IsSorted(files[n..], lt)
  }

  /** The base directories from the last to the first. */
  ghost predicate IsApplicationOrder(files: seq<string>, dirs: seq<BaseDir>, lt: Order)
    decreases dirs
  {
    if dirs == [] then files == []
    else exists n: nat {:trigger files[n..]} :: n <= |files| && IsApplicationOrder(files[..n], dirs[1..], lt)
           && if dirs[0].BaseDir? then IsBaseToLeaf(files[n..], dirs[0].chain, lt) else files[n..] == []
  }

  lemma {:induction false} BaseToLeafIs(chain: seq<seq<string>>, sort: seq<string> -> seq<string>, lt: Order)
    requires IsSorting(sort, lt)
    ensures IsBaseToLeaf(BaseToLeaf(chain, sort), chain, lt)
  {
    if chain != [] {
      BaseToLeafIs(chain[1..], sort, lt);
      var files, below := BaseToLeaf(chain, sort), BaseToLeaf(chain[1..], sort);
      assert files[..|below|] == below && files[|below|..] == sort(chain[0]);
    }
  }

  lemma {:induction false} ApplicationOrderIs(dirs: seq<BaseDir>, sort: seq<string> -> seq<string>, lt: Order)
    requires IsSorting(sort, lt)
    ensures IsApplicationOrder(ApplicationOrder(dirs, sort), dirs, lt)
  {
    if dirs != [] {
      ApplicationOrderIs(dirs[1..], sort, lt);
      var files, others := ApplicationOrder(dirs, sort), ApplicationOrder(dirs[1..], sort);
      assert files[..|others|] == others && files[|others|..] == FilesOf(dirs[0], sort);
      if dirs[0].BaseDir? {
        BaseToLeafIs(dirs[0].chain, sort, lt);
      }
    }
  }

  // ---- Who wins ----

  function ParsedAll(files: seq<string>, parse: string -> File): seq<File> {
    if files == [] then [] else [parse(files[0])] + ParsedAll(files[1..], parse)
  }

  lemma {:induction false} ParsedJoins(s: seq<string>, t: seq<string>, parse: string -> File)
    ensures ParsedAll(s + t, parse) == ParsedAll(s, parse) + ParsedAll(t, parse)
  {
    if s == [] {
      assert s + t == t;
    } else {
      assert (s + t)[0] == s[0] && (s + t)[1..] == s[1..] + t;
      ParsedJoins(s[1..], t, parse);
    }
  }

  lemma {:induction false} LastOfJoined(s: seq<File>, t: seq<File>, key: string)
    ensures LastItem(s + t, key) == Or(LastItem(t, key), LastItem(s, key))
  {
    if t == [] {
      assert s + t == s;
    } else {
      assert (s + t)[|s + t| - 1] == t[|t| - 1] && (s + t)[..|s + t| - 1] == s + t[..|t| - 1];
      LastOfJoined(s, t[..|t| - 1], key);
    }
  }

  /** How many files are looked at: those before the first object of another kind or version. */
  function Reach(files: seq<File>, version: Version): (n: nat)
    ensures n <= |files|
    ensures n < |files| ==> files[n].File? && !IsOverride(files[n], version)
    ensures forall i :: 0 <= i < n ==> files[i].NoObject? || IsOverride(files[i], version)
  {
    if files == [] || (files[0].File? && !IsOverride(files[0], version)) then 0 else 1 + Reach(files[1..], version)
  }

  lemma {:induction false} LastApplied(files: seq<File>, version: Version, key: string)
    ensures LastItem(Applied(files, version), key) == LastItem(files[..Reach(files, version)], key)
  {
    if files != [] && (files[0].NoObject? || IsOverride(files[0], version)) {
      var n := Reach(files[1..], version);
      LastApplied(files[1..], version, key);
      assert files[..n + 1] == [files[0]] + files[1..][..n];
      LastOfJoined([files[0]], files[1..][..n], key);
      LastOfJoined([files[0]], Applied(files[1..], version), key);
      if files[0].NoObject? {
        assert LastItem([files[0]], key) == LastItem([], key);
      }
    }
  }

  /** The first directory visited that has an item for the key, and the last such file in it. */
  function FirstInChain(chain: seq<seq<string>>, sort: seq<string> -> seq<string>, parse: string -> File, key: string)
    : Option<Item>
  {
    if chain == [] then None
    else Or(LastItem(ParsedAll(sort(chain[0]), parse), key), FirstInChain(chain[1..], sort, parse, key))
  }

  function FirstInDirs(dirs: seq<BaseDir>, sort: seq<string> -> seq<string>, parse: string -> File, key: string)
    : Option<Item>
  {
    if dirs == [] then None
    else Or(if dirs[0].BaseDir? then FirstInChain(dirs[0].chain, sort, parse, key) else None,
            FirstInDirs(dirs[1..], sort, parse, key))
  }

  lemma {:induction false} LeafWins(chain: seq<seq<string>>, sort: seq<string> -> seq<string>, parse: string -> File,
                                    key: string)
    ensures LastItem(ParsedAll(BaseToLeaf(chain, sort), parse), key) == FirstInChain(chain, sort, parse, key)
  {
    if chain != [] {
      LeafWins(chain[1..], sort, parse, key);
      ParsedJoins(BaseToLeaf(chain[1..], sort), sort(chain[0]), parse);
      LastOfJoined(ParsedAll(BaseToLeaf(chain[1..], sort), parse), ParsedAll(sort(chain[0]), parse), key);
    }
  }

  lemma {:induction false} FirstBaseWins(dirs: seq<BaseDir>, sort: seq<string> -> seq<string>, parse: string -> File,
                                         key: string)
    ensures LastItem(ParsedAll(ApplicationOrder(dirs, sort), parse), key) == FirstInDirs(dirs, sort, parse, key)
  {
    if dirs != [] {
      FirstBaseWins(dirs[1..], sort, parse, key);
      var others, own := ApplicationOrder(dirs[1..], sort), FilesOf(dirs[0], sort);
      ParsedJoins(others, own, parse);
      LastOfJoined(ParsedAll(others, parse), ParsedAll(own, parse), key);
      if dirs[0].BaseDir? {
        LeafWins(dirs[0].chain, sort, parse, key);
      }
    }
  }

  /** Among files sorted, the value is that of one that no other file with an item collates after. */
  lemma LastCollatedWins(names: seq<string>, sort: seq<string> -> seq<string>, lt: Order, parse: string -> File,
                         key: string)
    requires IsSorting(sort, lt)
    ensures var item := LastItem(ParsedAll(sort(names), parse), key);
      && (item.None? <==> forall n :: n in names ==> SaidBy(parse(n), key).None?)
      && (item.Some? ==> exists n :: n in names && SaidBy(parse(n), key) == item
                           && forall m :: m in names && SaidBy(parse(m), key).Some? ==> !lt(n, m) || m == n)
  {
    var sorted := sort(names);
    assert forall n :: n in names <==> n in multiset(names);
    assert forall n :: n in sorted <==> n in multiset(sorted);
    LastIs(sorted, lt, parse, key);
  }

  lemma {:induction false} LastIs(names: seq<string>, lt: Order, parse: string -> File, key: string)
    requires IsSorted(names, lt)
    ensures var item := LastItem(ParsedAll(names, parse), key);
      && (item.None? <==> forall n :: n in names ==> SaidBy(parse(n), key).None?)
      && (item.Some? ==> exists n :: n in names && SaidBy(parse(n), key) == item
                           && forall m :: m in names && SaidBy(parse(m), key).Some? ==> !lt(n, m) || m == n)
  {
    if names != [] {
      var front, last := names[..|names| - 1], names[|names| - 1];
      LastIs(front, lt, parse, key);
      assert names == front + [last];
      ParsedJoins(front, [last], parse);
      LastOfJoined(ParsedAll(front, parse), ParsedAll([last], parse), key);
      assert ParsedAll([last], parse) == [parse(last)];
      assert LastItem([parse(last)], key) == Or(SaidBy(parse(last), key), LastItem([], key));
    }
  }

  /**
   * If every file is looked at, the value comes from the first base directory listed, and there from the deepest;
   * otherwise only the files before the first one of another kind or version count, which come from the last ones.
   */
  lemma FirstDirectoryWins(dirs: seq<BaseDir>, sort: seq<string> -> seq<string>, parse: string -> File, key: string,
                           item: Item, version: Version)
    ensures var files := ParsedAll(ApplicationOrder(dirs, sort), parse);
      var n := Reach(files, version);
      var last := LastItem(files[..n], key);
      && Overridden(item, Applied(files, version), key).value
         == (if item.noOverride || last.None? then item.value else last.value.value)
      && (n == |files| ==> last == FirstInDirs(dirs, sort, parse, key))
  {
    var files := ParsedAll(ApplicationOrder(dirs, sort), parse);
    LastApplied(files, version, key);
    FirstBaseWins(dirs, sort, parse, key);
    assert files[..|files|] == files;
  }
}
