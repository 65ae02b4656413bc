/**
  The monitored-game lists and the pure parts of the edits made to them:
  the configured entries (`list_of_applied_games`, one path and one
  resolution string each), the executable names shown to the user
  (`list_of_game`), the lookups `apply_resolution` makes, the edit it
  performs, and the removals `remove_game` performs.
*/
module GameList {
  import opened Wrappers
  import opened Text
  import opened Paths
  import opened Resolution

  /** One configured game: the executable's full path and its resolution string. */
  datatype GameConfig = GameConfig(game: string, resolution: string)

  /** Why `apply_resolution` changes nothing. */
  datatype EditError =
    | NoGameSelected   // nothing is selected in the list
    | EmptyGamePath    // no configured entry has the selected name, or its path is empty
    | AlreadyApplied   // the entry already holds the chosen resolution

  /** The game name a list item stands for: its text up to the first `" ("`. */
  function ItemName(text: string): string
  {
    SplitNonEmpty(text, " (");
    Split(text, " (")[0]
  }

  /** The text of a list item that shows its game's resolution, as built at startup and by an edit. */
  function Label(name: string, resolution: string): string
  {
    name + " (" + resolution + ")"
  }

  /** The name read back from a label is the game's name, for names without an opening parenthesis. */
  lemma ItemNameOfLabel(name: string, resolution: string)
    requires '(' !in name
    ensures ItemName(Label(name, resolution)) == name
  {
    assert Label(name, resolution) == name + " (" + (resolution + ")");
    SplitFirstPiece(name, " (", resolution + ")");
  }

  /** An item that shows a bare name, as added by browsing, stands for that name. */
  lemma ItemNameOfName(name: string)
    requires !Contains(name, " (")
    ensures ItemName(name) == name
  {
    SplitWithoutSeparator(name, " (");
  }

  /** The executable names of the entries, in order. */
  function Names(configs: seq<GameConfig>): (names: seq<string>)
    ensures |names| == |configs|
    ensures forall i :: 0 <= i < |configs| ==> names[i] == Basename(configs[i].game)
  {
    if configs == [] then [] else [Basename(configs[0].game)] + Names(configs[1..])
  }

  predicate NoDuplicates(names: seq<string>)
  {
    forall i, j :: 0 <= i < j < |names| ==> names[i] != names[j]
  }

  /** Every stored resolution string can be read back as a mode. */
  predicate ResolutionsParse(configs: seq<GameConfig>)
  {
    forall i :: 0 <= i < |configs| ==> Parse(configs[i].resolution).Success?
  }

  /** Adding a game with the default resolution keeps every resolution string readable. */
  lemma AddDefaultKeepsResolutions(configs: seq<GameConfig>, path: string)
    requires ResolutionsParse(configs)
    ensures ResolutionsParse(configs + [GameConfig(path, DefaultResolution)])
  {
    DefaultRoundTrip();
  }

  /** Adding an entry adds its name at the end. */
  lemma NamesAppend(configs: seq<GameConfig>, c: GameConfig)
    ensures Names(configs + [c]) == Names(configs) + [Basename(c.game)]
  {
  }

  /** The position of the first entry satisfying `p`, or `|configs|` when there is none. */
  function FirstWhere(configs: seq<GameConfig>, p: GameConfig -> bool): (k: nat)
    ensures k <= |configs|
    ensures forall j :: 0 <= j < k ==> !p(configs[j])
    ensures k < |configs| ==> p(configs[k])
  {
    if configs == [] then 0
    else if p(configs[0]) then 0
    else 1 + FirstWhere(configs[1..], p)
  }

  function HasName(name: string): GameConfig -> bool
  {
    (c: GameConfig) => Basename(c.game) == name
  }

  function HasPath(path: string): GameConfig -> bool
  {
    (c: GameConfig) => c.game == path
  }

  /**
    The lookup `apply_resolution` makes for the selected name: the path of
    the first entry whose executable name is `name`, if there is one.
  */
  function FindPath(configs: seq<GameConfig>, name: string): (path: Option<string>)
  {
    var k := FirstWhere(configs, HasName(name));
    if k < |configs| then Some(configs[k].game) else None
  }

  /** The lookup finds a path exactly when some entry has the name, and it is the first such entry's. */
  lemma FindPathFirst(configs: seq<GameConfig>, name: string)
    ensures FindPath(configs, name).Some? <==> exists i :: 0 <= i < |configs| && Basename(configs[i].game) == name
    ensures FindPath(configs, name).Some? ==>
      exists i :: 0 <= i < |configs| && Basename(configs[i].game) == name && configs[i].game == FindPath(configs, name).value
        && forall j :: 0 <= j < i ==> Basename(configs[j].game) != name
  {
    var k := FirstWhere(configs, HasName(name));
    if exists i :: 0 <= i < |configs| && Basename(configs[i].game) == name {
      var i :| 0 <= i < |configs| && Basename(configs[i].game) == name;
      assert HasName(name)(configs[i]);
    }
    if k < |configs| {
      assert HasName(name)(configs[k]);
      forall j | 0 <= j < k ensures Basename(configs[j].game) != name {
        assert !HasName(name)(configs[j]);
      }
    }
  }

  /**
    The whole of `apply_resolution` on the configured entries: find the
    selected name's path, find the first entry with that path, and put the
    new resolution into it unless it already holds it.
  */
  function SetResolution(configs: seq<GameConfig>, selected: seq<string>, resolution: string): Result<seq<GameConfig>, EditError>
  {
    if selected == [] then Failure(NoGameSelected)
    else
      match FindPath(configs, ItemName(selected[0]))
      case None => Failure(EmptyGamePath)
      case Some(path) =>
        if path == "" then Failure(EmptyGamePath)
        else
          var k := FirstWhere(configs, HasPath(path));
          assert k < |configs| by {
            var n := FirstWhere(configs, HasName(ItemName(selected[0])));
            assert HasPath(path)(configs[n]);
          }
          if configs[k].resolution == resolution then Failure(AlreadyApplied)
          else Success(configs[k := configs[k].(resolution := resolution)])
  }

  /** The entry found by path is the first entry with the selected name. */
  lemma PathIndexIsNameIndex(configs: seq<GameConfig>, name: string, path: string)
    requires FindPath(configs, name) == Some(path)
    ensures FirstWhere(configs, HasPath(path)) == FirstWhere(configs, HasName(name))
  {
    var n := FirstWhere(configs, HasName(name));
    assert HasPath(path)(configs[n]);
    assert Basename(path) == name;
    forall j | 0 <= j < n ensures !HasPath(path)(configs[j]) {
      assert !HasName(name)(configs[j]);
    }
  }

  /**
    A successful edit changes exactly the resolution of the first entry with
    the selected name, and nothing else: same length, same paths, every
    other entry as it was.
  */
  lemma SetResolutionEditsOne(configs: seq<GameConfig>, selected: seq<string>, resolution: string)
    requires SetResolution(configs, selected, resolution).Success?
    ensures selected != []
    ensures var edited := SetResolution(configs, selected, resolution).value;
      var k := FirstWhere(configs, HasName(ItemName(selected[0])));
      && k < |configs| == |edited|
      && configs[k].resolution != resolution
      && edited[k] == GameConfig(configs[k].game, resolution)
      && (forall j :: 0 <= j < |configs| && j != k ==> edited[j] == configs[j])
      && Names(edited) == Names(configs)
  {
    var path := FindPath(configs, ItemName(selected[0])).value;
    PathIndexIsNameIndex(configs, ItemName(selected[0]), path);
    var edited := SetResolution(configs, selected, resolution).value;
    assert forall j :: 0 <= j < |configs| ==> edited[j].game == configs[j].game;
  }

  /** Choosing the resolution an edit just stored is refused, and changes nothing. */
  lemma SetResolutionTwice(configs: seq<GameConfig>, selected: seq<string>, resolution: string)
    requires SetResolution(configs, selected, resolution).Success?
    ensures SetResolution(SetResolution(configs, selected, resolution).value, selected, resolution) == Failure(AlreadyApplied)
  {
    var edited := SetResolution(configs, selected, resolution).value;
    SetResolutionEditsOne(configs, selected, resolution);
    var name := ItemName(selected[0]);
    var k := FirstWhere(configs, HasName(name));
    assert forall j :: 0 <= j < |configs| ==> HasName(name)(edited[j]) == HasName(name)(configs[j]);
    FirstWhereSame(configs, edited, HasName(name));
    var path := FindPath(configs, name).value;
    assert FindPath(edited, name) == Some(path);
    PathIndexIsNameIndex(edited, name, path);
  }

  lemma {:induction false} FirstWhereSame(a: seq<GameConfig>, b: seq<GameConfig>, p: GameConfig -> bool)
    requires |a| == |b|
    requires forall j :: 0 <= j < |a| ==> p(a[j]) == p(b[j])
    ensures FirstWhere(a, p) == FirstWhere(b, p)
  {
    if a != [] && !p(a[0]) {
      FirstWhereSame(a[1..], b[1..], p);
    }
  }

  /** An edit that succeeds keeps the names and, given a readable new resolution, the readability of every entry. */
  lemma SetResolutionKeepsInvariants(configs: seq<GameConfig>, selected: seq<string>, resolution: string)
    requires SetResolution(configs, selected, resolution).Success?
    requires ResolutionsParse(configs) && Parse(resolution).Success?
    ensures ResolutionsParse(SetResolution(configs, selected, resolution).value)
  {
    SetResolutionEditsOne(configs, selected, resolution);
  }

  /** Python's list removal: drop the first occurrence of `name`. */
  function RemoveFirst(names: seq<string>, name: string): (r: seq<string>)
    requires name in names
    ensures |r| == |names| - 1
  {
    if names[0] == name then names[1..]
    else [names[0]] + RemoveFirst(names[1..], name)
  }

  /** The filter `remove_game` applies: keep, in order, the entries whose executable name is not `name`. */
  function WithoutGame(configs: seq<GameConfig>, name: string): seq<GameConfig>
  {
    if configs == [] then []
    else if Basename(configs[0].game) == name then WithoutGame(configs[1..], name)
    else [configs[0]] + WithoutGame(configs[1..], name)
  }

  /** An entry survives the filter exactly when it was there and has another name. */
  lemma {:induction false} WithoutGameMembers(configs: seq<GameConfig>, name: string, c: GameConfig)
    ensures c in WithoutGame(configs, name) <==> c in configs && Basename(c.game) != name
  {
    if configs != [] {
      WithoutGameMembers(configs[1..], name, c);
      assert configs == [configs[0]] + configs[1..];
    }
  }

  /** `a` is `b` with some entries deleted: the entries of `a` occur in `b` in the same order. */
  predicate Subsequence(a: seq<GameConfig>, b: seq<GameConfig>)
    decreases |b|
  {
    a == [] || (b != [] && ((a[0] == b[0] && Subsequence(a[1..], b[1..])) || Subsequence(a, b[1..])))
  }

  /** The entries that survive the filter keep their relative order. */
  lemma {:induction false} WithoutGameKeepsOrder(configs: seq<GameConfig>, name: string)
    ensures Subsequence(WithoutGame(configs, name), configs)
  {
    if configs != [] {
      WithoutGameKeepsOrder(configs[1..], name);
      var rest := WithoutGame(configs[1..], name);
      if Basename(configs[0].game) != name {
        assert WithoutGame(configs, name) == [configs[0]] + rest;
        assert ([configs[0]] + rest)[1..] == rest;
      }
    }
  }

  /**
    As written, removal compares the item's whole text with the executable
    names, so selecting an item that shows a resolution keeps its game.
  */
  lemma LabelledRemovalKeepsGame(configs: seq<GameConfig>, i: nat, resolution: string)
    requires i < |configs|
    ensures configs[i] in WithoutGame(configs, Label(Basename(configs[i].game), resolution))
    ensures Label(Basename(configs[i].game), resolution) !in Names(configs) ==>
      DropNames(Names(configs), [Label(Basename(configs[i].game), resolution)]) == Names(configs)
  {
    var name := Basename(configs[i].game);
    var itemText := Label(name, resolution);
    assert |itemText| > |name|;
    WithoutGameMembers(configs, itemText, configs[i]);
    if itemText !in Names(configs) {
      assert [itemText][1..] == [];
    }
  }

  /** An item that shows the bare name, as a browsed game's item does, removes the game as written. */
  lemma BareRemovalRemovesGame(configs: seq<GameConfig>, i: nat)
    requires i < |configs|
    ensures configs[i] !in WithoutGame(configs, Basename(configs[i].game))
    ensures forall c :: c in WithoutGame(configs, Basename(configs[i].game)) ==> Basename(c.game) != Basename(configs[i].game)
  {
    var name := Basename(configs[i].game);
    forall c | c in WithoutGame(configs, name) ensures Basename(c.game) != name {
      WithoutGameMembers(configs, name, c);
    }
    WithoutGameMembers(configs, name, configs[i]);
  }

  /** Removing by the name read back from a labelled item takes the game out. */
  lemma LabelledRemovalRemovesGame(configs: seq<GameConfig>, i: nat, resolution: string)
    requires i < |configs| && '(' !in Basename(configs[i].game)
    ensures configs[i] !in WithoutGame(configs, ItemName(Label(Basename(configs[i].game), resolution)))
  {
    var name := Basename(configs[i].game);
    ItemNameOfLabel(name, resolution);
    WithoutGameMembers(configs, name, configs[i]);
  }

  /** Filtering commutes with concatenation, so the survivors keep their relative order. */
  lemma {:induction false} WithoutGameAppend(a: seq<GameConfig>, b: seq<GameConfig>, name: string)
    ensures WithoutGame(a + b, name) == WithoutGame(a, name) + WithoutGame(b, name)
  {
    if a == [] {
      assert a + b == b;
    } else {
      var ab := a + b;
      assert ab[0] == a[0];
      assert ab[1..] == a[1..] + b;
      WithoutGameAppend(a[1..], b, name);
      if Basename(a[0].game) == name {
        assert WithoutGame(ab, name) == WithoutGame(ab[1..], name);
      } else {
        assert WithoutGame(ab, name) == [a[0]] + WithoutGame(ab[1..], name);
      }
    }
  }

  /** Filtering a list in which no entry has the name gives the list back. */
  lemma {:induction false} WithoutAbsentGame(configs: seq<GameConfig>, name: string)
    requires name !in Names(configs)
    ensures WithoutGame(configs, name) == configs
  {
    if configs != [] {
      assert Names(configs[1..]) == Names(configs)[1..];
      WithoutAbsentGame(configs[1..], name);
    }
  }

  /**
    With distinct names, filtering the entries by a name does to their names
    what `list.remove` does to the name list, so the two lists stay in step.
  */
  lemma {:induction false} WithoutGameNames(configs: seq<GameConfig>, name: string)
    requires NoDuplicates(Names(configs))
    ensures Names(WithoutGame(configs, name)) ==
      if name in Names(configs) then RemoveFirst(Names(configs), name) else Names(configs)
    ensures NoDuplicates(Names(WithoutGame(configs, name)))
  {
    if configs == [] {
      return;
    }
    var names := Names(configs);
    var rest := configs[1..];
    assert names == [names[0]] + Names(rest);
    if names[0] == name {
      assert WithoutGame(configs, name) == WithoutGame(rest, name);
      assert RemoveFirst(names, name) == names[1..];
      assert name !in Names(rest);
      WithoutAbsentGame(rest, name);
    } else {
      WithoutGameNames(rest, name);
      var r := WithoutGame(rest, name);
      assert WithoutGame(configs, name) == [configs[0]] + r;
      assert ([configs[0]] + r)[1..] == r;
      assert Names(WithoutGame(configs, name)) == [names[0]] + Names(r);
      if name in names {
        assert name in Names(rest);
        RemoveFirstKeepsDistinct(names, name);
      } else {
        assert name !in Names(rest);
      }
    }
  }

  /** `list.remove` takes out exactly one copy of the name and keeps every other element. */
  lemma {:induction false} RemoveFirstCounts(names: seq<string>, name: string)
    requires name in names
    ensures multiset(RemoveFirst(names, name)) == multiset(names) - multiset{name}
  {
    assert names == [names[0]] + names[1..];
    if names[0] != name {
      RemoveFirstCounts(names[1..], name);
    }
  }

  /** The occurrence removed is the first one, and the rest keeps its order. */
  lemma {:induction false} RemoveFirstAt(names: seq<string>, name: string) returns (i: nat)
    requires name in names
    ensures i < |names| && names[i] == name && name !in names[..i]
    ensures RemoveFirst(names, name) == names[..i] + names[i + 1..]
  {
    if names[0] == name {
      i := 0;
    } else {
      var j := RemoveFirstAt(names[1..], name);
      i := j + 1;
      assert names[..i] == [names[0]] + names[1..][..j];
      assert names[i + 1..] == names[1..][j + 1..];
    }
  }

  lemma {:induction false} RemoveFirstFromList(names: seq<string>, name: string, x: string)
    requires name in names && x in RemoveFirst(names, name)
    ensures x in names
  {
    if names[0] != name && x != names[0] {
      RemoveFirstFromList(names[1..], name, x);
    }
  }

  /** Removing one occurrence from a list without repeats leaves a list without repeats. */
  lemma {:induction false} RemoveFirstKeepsDistinct(names: seq<string>, name: string)
    requires name in names && NoDuplicates(names)
    ensures NoDuplicates(RemoveFirst(names, name))
  {
    if names[0] != name {
      var rest := names[1..];
      assert name in rest;
      RemoveFirstKeepsDistinct(rest, name);
      var tail := RemoveFirst(rest, name);
      var r := RemoveFirst(names, name);
      assert r == [names[0]] + tail;
      forall i, j | 0 <= i < j < |r| ensures r[i] != r[j] {
        if i == 0 {
          assert r[j] == tail[j - 1];
          RemoveFirstFromList(rest, name, tail[j - 1]);
        } else {
          assert r[i] == tail[i - 1] && r[j] == tail[j - 1];
        }
      }
    }
  }

  /** The name list after `remove_game` has taken out each selected name in turn. */
  function DropNames(names: seq<string>, selected: seq<string>): seq<string>
    decreases |selected|
  {
    if selected == [] then names
    else DropNames(if selected[0] in names then RemoveFirst(names, selected[0]) else names, selected[1..])
  }

  /** The entries after `remove_game` has filtered out each selected name in turn. */
  function DropGames(configs: seq<GameConfig>, selected: seq<string>): seq<GameConfig>
    decreases |selected|
  {
    if selected == [] then configs
    else DropGames(WithoutGame(configs, selected[0]), selected[1..])
  }

  /** The entries whose name is not among the selected ones, in their order. */
  function KeepUnselected(configs: seq<GameConfig>, selected: seq<string>): seq<GameConfig>
  {
    if configs == [] then []
    else if Basename(configs[0].game) in selected then KeepUnselected(configs[1..], selected)
    else [configs[0]] + KeepUnselected(configs[1..], selected)
  }

  /** An entry is kept exactly when it was there and its name is not selected. */
  lemma {:induction false} KeepUnselectedMembers(configs: seq<GameConfig>, selected: seq<string>, c: GameConfig)
    ensures c in KeepUnselected(configs, selected) <==> c in configs && Basename(c.game) !in selected
  {
    if configs != [] {
      KeepUnselectedMembers(configs[1..], selected, c);
      assert configs == [configs[0]] + configs[1..];
    }
  }

  /**
    Filtering once per selected name is the same as one filter that keeps
    the unselected entries: afterwards no entry has a selected name, and the
    others all survive in their original order.
  */
  lemma {:induction false} DropGamesKeepsUnselected(configs: seq<GameConfig>, selected: seq<string>)
    ensures DropGames(configs, selected) == KeepUnselected(configs, selected)
    decreases |selected|
  {
    if selected == [] {
      KeepAll(configs);
    } else {
      DropGamesKeepsUnselected(WithoutGame(configs, selected[0]), selected[1..]);
      KeepAfterWithout(configs, selected);
    }
  }

  lemma {:induction false} KeepAll(configs: seq<GameConfig>)
    ensures KeepUnselected(configs, []) == configs
  {
    if configs != [] {
      KeepAll(configs[1..]);
    }
  }

  lemma {:induction false} KeepAfterWithout(configs: seq<GameConfig>, selected: seq<string>)
    requires selected != []
    ensures KeepUnselected(WithoutGame(configs, selected[0]), selected[1..]) == KeepUnselected(configs, selected)
  {
    if configs != [] {
      KeepAfterWithout(configs[1..], selected);
      assert selected == [selected[0]] + selected[1..];
    }
  }

  /** Removing the selected names one by one keeps the two lists in step and free of repeats. */
  lemma {:induction false} DropKeepsNamesInStep(configs: seq<GameConfig>, selected: seq<string>)
    requires NoDuplicates(Names(configs))
    ensures Names(DropGames(configs, selected)) == DropNames(Names(configs), selected)
    ensures NoDuplicates(Names(DropGames(configs, selected)))
    decreases |selected|
  {
    if selected != [] {
      WithoutGameNames(configs, selected[0]);
      DropKeepsNamesInStep(WithoutGame(configs, selected[0]), selected[1..]);
    }
  }
}
