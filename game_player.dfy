/** `GamePlayer`: everything needed to start the engine on one map pack, and the argument
    vector `play_quake_map` builds for it. */
module GamePlayers {
  import opened Wrappers
  import opened Text

  datatype GamePlayer = GamePlayer(
    quakeExe: string,
    quakeDir: string,
    mapId: string,
    startMap: Option<string>,
    commandLine: Option<string>)

  /** The arguments that follow `-basedir {quake_dir}`: the user's command line split on
      single spaces, or `-game {map_id}` when there is none. */
  function GameArguments(p: GamePlayer): (r: seq<string>)
    ensures |r| >= 1
  {
    match p.commandLine
    case Some(line) => SplitPieces(line, ' '); Split(line, ' ')
    case None => ["-game", p.mapId]
  }

  /** The whole argument vector, as a reference definition for the method below; it always
      holds the base directory pair and at least one game argument. */
  function Arguments(p: GamePlayer): (r: seq<string>)
    ensures |r| >= 3
  {
    ["-basedir", p.quakeDir] + GameArguments(p)
    + (match p.startMap case Some(m) => ["+map", m] case None => [])
  }

  /** Builds the engine invocation argument by argument, as the source pushes onto its
      `Command`. Spawning the process and logging the command are not modelled. */
  method PlayQuakeMap(p: GamePlayer) returns (program: string, args: seq<string>)
    ensures program == p.quakeExe
    ensures args == Arguments(p)
  {
    program := p.quakeExe;
    args := ["-basedir", p.quakeDir];
    if p.commandLine.Some? {
      var pieces := Split(p.commandLine.value, ' ');
      for i := 0 to |pieces|
        invariant args == ["-basedir", p.quakeDir] + pieces[..i]
      {
        args := args + [pieces[i]];
        assert pieces[..i + 1] == pieces[..i] + [pieces[i]];
      }
      assert pieces[..|pieces|] == pieces;
    } else {
      args := args + ["-game"] + [p.mapId];
    }
    if p.startMap.Some? {
      args := args + ["+map"] + [p.startMap.value];
    }
  }

  /** The vector always starts with `-basedir` and the Quake directory, and has
      2 + (pieces of the command line, or 2) + (2 when a start map is chosen) entries. */
  lemma ArgumentsShape(p: GamePlayer)
    ensures Arguments(p)[..2] == ["-basedir", p.quakeDir]
    ensures |Arguments(p)| == 2
      + (match p.commandLine case Some(line) => Count(line, ' ') + 1 case None => 2)
      + (if p.startMap.Some? then 2 else 0)
  {
    if p.commandLine.Some? {
      SplitPieces(p.commandLine.value, ' ');
    }
  }

  /** With a command line, its pieces follow the Quake directory in order, empty pieces
      included, so that joining them with single spaces gives the line back; no `-game` is
      added. Without one, `-game {map_id}` follows instead. */
  lemma ArgumentsCarryCommandLine(p: GamePlayer)
    ensures p.commandLine.Some? ==>
      var n := Count(p.commandLine.value, ' ') + 1;
      2 + n <= |Arguments(p)| && Join(Arguments(p)[2..2 + n], ' ') == p.commandLine.value
      && (p.startMap.None? ==> 2 + n == |Arguments(p)|)
    ensures p.commandLine.None? ==> Arguments(p)[2..4] == ["-game", p.mapId]
  {
    if p.commandLine.Some? {
      var line := p.commandLine.value;
      SplitPieces(line, ' ');
      JoinSplit(line, ' ');
      assert Arguments(p)[2..2 + Count(line, ' ') + 1] == Split(line, ' ');
    }
  }

  /** A chosen start map is always the last two arguments `+map {start_map}`; without one the
      vector ends with the game arguments. */
  lemma ArgumentsEndWithStartMap(p: GamePlayer)
    ensures p.startMap.Some? ==> Arguments(p)[|Arguments(p)| - 2..] == ["+map", p.startMap.value]
    ensures p.startMap.None? ==> Arguments(p) == ["-basedir", p.quakeDir] + GameArguments(p)
  {
  }
}
