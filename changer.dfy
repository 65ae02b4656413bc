/**
  The application object (`GameResolutionChanger`): the two lists it keeps,
  the flag saying that the watchdog's mode switch is in force, and the
  operations that change them — adding a browsed game, storing a chosen
  resolution, removing selected games, and one watchdog tick.
*/
module App {
  import opened Wrappers
  import opened Text
  import opened Paths
  import opened Resolution
  import opened Backend
  import opened GameList
  import opened Watchdog

  class GameResolutionChanger {
    /** `list_of_game`: the executable names of the monitored games. */
    var gameNames: seq<string>
    /** `list_of_applied_games`: the configured games with their resolutions. */
    var appliedGames: seq<GameConfig>
    /** `resolution_changed`: the watchdog has switched the display and not yet switched it back. */
    var resolutionChanged: bool
    /** The display the watchdog switches. */
    const display: Display

    /** The name list is the entries' names, without repeats. */
    ghost predicate Valid()
      reads this
    {
      gameNames == Names(appliedGames) && NoDuplicates(gameNames)
    }

    /** Start from the configured games read from the configuration file. */
    constructor (config: seq<GameConfig>, display: Display)
      ensures appliedGames == config && gameNames == Names(config)
      ensures !resolutionChanged && this.display == display
      ensures Valid() <==> NoDuplicates(Names(config))
    {
      gameNames := Names(config);
      appliedGames := config;
      resolutionChanged := false;
      this.display := display;
    }

    /**
      `browse_game`: a chosen executable whose name is not yet monitored is
      added with the default resolution; an empty choice or a known name
      changes nothing.
    */
    method BrowseGame(gamePath: string)
      modifies this`gameNames, this`appliedGames
      ensures var name := Basename(gamePath);
        if gamePath != "" && name !in old(gameNames) then
          && gameNames == old(gameNames) + [name]
          && appliedGames == old(appliedGames) + [GameConfig(gamePath, DefaultResolution)]
        else
          gameNames == old(gameNames) && appliedGames == old(appliedGames)
      ensures old(Valid()) ==> Valid()
      ensures old(ResolutionsParse(appliedGames)) ==> ResolutionsParse(appliedGames)
    {
      if gamePath != "" {
        var gameName := Basename(gamePath);
        if gameName !in gameNames {
          gameNames := gameNames + [gameName];
          appliedGames := appliedGames + [GameConfig(gamePath, DefaultResolution)];
          NamesAppend(old(appliedGames), GameConfig(gamePath, DefaultResolution));
          if old(ResolutionsParse(appliedGames)) {
            AddDefaultKeepsResolutions(old(appliedGames), gamePath);
          }
        }
      }
    }

    /**
      `apply_resolution`: store the chosen resolution in the entry of the
      first selected item's game, unless nothing is selected, the game has
      no usable path, or the entry already holds that resolution.
    */
    method ApplyResolution(selected: seq<string>, resolution: string) returns (error: Option<EditError>)
      modifies this`appliedGames
      ensures match SetResolution(old(appliedGames), selected, resolution)
        case Success(edited) => error == None && appliedGames == edited
        case Failure(e) => error == Some(e) && appliedGames == old(appliedGames)
      ensures old(Valid()) ==> Valid()
    {
      if selected == [] {
        return Some(NoGameSelected);
      }
      var currentGame := ItemName(selected[0]);
      var currentGamePath := FindPath(appliedGames, currentGame);
      if currentGamePath.None? || currentGamePath.value == "" {
        return Some(EmptyGamePath);
      }
      var path := currentGamePath.value;
      ghost var named := FirstWhere(appliedGames, HasName(currentGame));
      assert appliedGames[named].game == path;
      var gameExists := false;
      var gameIndex := 0;
      var i := 0;
      while i < |appliedGames|
        invariant 0 <= i <= named
        invariant forall j :: 0 <= j < i ==> appliedGames[j].game != path
      {
        if appliedGames[i].game == path {
          gameExists := true;
          gameIndex := i;
          break;
        }
        i := i + 1;
      }
      if gameExists {
        assert HasPath(path)(appliedGames[gameIndex]);
        assert gameIndex == FirstWhere(appliedGames, HasPath(path));
        if appliedGames[gameIndex].resolution == resolution {
          return Some(AlreadyApplied);
        }
        appliedGames := appliedGames[gameIndex := appliedGames[gameIndex].(resolution := resolution)];
        error := None;
        SetResolutionEditsOne(old(appliedGames), selected, resolution);
      } else {
        assert false;
      }
    }

    /**
      `remove_game`: for each selected item in turn, drop its text from the
      name list and every entry whose executable name equals that text from
      the configured games. The text is compared as it is, so an item that
      shows a resolution next to its name matches nothing (see the findings).
    */
    method RemoveGame(selected: seq<string>) returns (error: Option<EditError>)
      modifies this`gameNames, this`appliedGames
      ensures selected == [] ==>
        error == Some(NoGameSelected) && gameNames == old(gameNames) && appliedGames == old(appliedGames)
      ensures selected != [] ==>
        && error == None
        && gameNames == DropNames(old(gameNames), selected)
        && appliedGames == DropGames(old(appliedGames), selected)
      ensures forall c :: c in appliedGames <==> c in old(appliedGames) && Basename(c.game) !in selected
      ensures old(Valid()) ==> Valid()
    {
      if selected == [] {
        error := Some(NoGameSelected);
        KeepAll(appliedGames);
      } else {
        var i := 0;
        while i < |selected|
          invariant 0 <= i <= |selected|
          invariant DropNames(gameNames, selected[i..]) == DropNames(old(gameNames), selected)
          invariant DropGames(appliedGames, selected[i..]) == DropGames(old(appliedGames), selected)
          invariant old(Valid()) ==> Valid()
        {
          var gameName := selected[i];
          assert selected[i..] == [gameName] + selected[i + 1..];
          if old(Valid()) {
            WithoutGameNames(appliedGames, gameName);
          }
          if gameName in gameNames {
            gameNames := RemoveFirst(gameNames, gameName);
          }
          appliedGames := WithoutGame(appliedGames, gameName);
          i := i + 1;
        }
        error := None;
      }
      DropGamesKeepsUnselected(old(appliedGames), selected);
      forall c ensures c in appliedGames <==> c in old(appliedGames) && Basename(c.game) !in selected {
        KeepUnselectedMembers(old(appliedGames), selected, c);
      }
    }

    /**
      `monitor`, one watchdog tick over a snapshot of running process
      names: it does what `Tick` describes, makes exactly `Tick`'s requests
      of the display, and ends the way `Tick` ends.
    */
    method Monitor(processes: seq<string>) returns (status: Status)
      requires display.Valid()
      modifies this`resolutionChanged, display
      ensures display.Valid()
      ensures var t := Tick(appliedGames, processes, old(resolutionChanged), old(display.served), display.answer, Parse);
        && resolutionChanged == t.changed
        && display.calls == old(display.calls) + t.calls
        && status == t.status
    {
      ghost var n0 := display.served;
      ghost var calls0 := display.calls;
      ghost var tickCalls: seq<Call> := [];
      ghost var goal := ScanFrom(appliedGames, processes, Scan(resolutionChanged, false, [], Completed), n0, display.answer, Parse);
      var gameRunning := false;
      var i := 0;
      while i < |appliedGames|
        invariant 0 <= i <= |appliedGames|
        invariant display.Valid()
        invariant display.calls == calls0 + tickCalls && display.served == n0 + |tickCalls|
        invariant ScanFrom(appliedGames[i..], processes, Scan(resolutionChanged, gameRunning, tickCalls, Completed), n0, display.answer, Parse) == goal
      {
        var game := appliedGames[i];
        ghost var before := Scan(resolutionChanged, gameRunning, tickCalls, Completed);
        ghost var after := Visit(before, game, processes, n0, display.answer, Parse);
        assert appliedGames[i..] == [game] + appliedGames[i + 1..];
        var gameStatus;
        gameRunning, gameStatus := CheckGame(game, processes, gameRunning, before, n0, calls0);
        tickCalls := after.calls;
        if gameStatus.Raised? {
          ScanAfterRaise(appliedGames[i + 1..], processes, after, n0, display.answer, Parse);
          return gameStatus;
        }
        i := i + 1;
      }
      if !gameRunning && resolutionChanged {
        var reverted := display.ResetResolution();
        tickCalls := tickCalls + [Reset];
        resolutionChanged := false;
      }
      status := Completed;
    }

    /**
      The inner loop of `monitor` for one configured game: find the first
      process with the game's executable name; on a match, read the game's
      resolution (which may raise), ask for it unless a switch is in force,
      and report the game as running. It does what `Visit` describes.
    */
    method CheckGame(game: GameConfig, processes: seq<string>, gameRunning: bool,
                     ghost before: Scan, ghost n0: nat, ghost calls0: seq<Call>)
      returns (running: bool, status: Status)
      requires before == Scan(resolutionChanged, gameRunning, before.calls, Completed)
      requires display.Valid()
      requires display.calls == calls0 + before.calls && display.served == n0 + |before.calls|
      modifies this`resolutionChanged, display
      ensures display.Valid()
      ensures var after := Visit(before, game, processes, n0, display.answer, Parse);
        && resolutionChanged == after.changed && running == after.running && status == after.status
        && display.calls == calls0 + after.calls && display.served == n0 + |after.calls|
    {
      var gameName := Basename(game.game);
      running := gameRunning;
      status := Completed;
      var j := 0;
      while j < |processes|
        invariant 0 <= j <= |processes|
        invariant forall k :: 0 <= k < j ==> !SameName(processes[k], gameName)
        invariant resolutionChanged == before.changed && display.Valid()
        invariant display.calls == calls0 + before.calls && display.served == n0 + |before.calls|
      {
        if Lower(processes[j]) == Lower(gameName) {
          assert Running(game, processes);
          var res := Parse(game.resolution);
          if res.Failure? {
            return running, Raised(res.error);
          }
          var mode := res.value;
          if !resolutionChanged {
            resolutionChanged := display.ChangeResolution(mode.width, mode.height, mode.refresh);
          }
          running := true;
          return;
        }
        j := j + 1;
      }
    }
  }
}
