/**
 * The parts of a waystone record that the viewer and the map integration
 * read. `WaystoneRecord.java` itself is not part of this model: a record is a
 * value here, identified by its `hash`.
 */
module Waystones {

  datatype BlockPos = BlockPos(x: int, y: int, z: int)

  /**
   * Who may see a waystone: `team` is the team name, the empty string
   * standing for "no team".
   */
  datatype AccessSettings = AccessSettings(global: bool, team: string, serverOwned: bool)

  /** `AccessSettings.hasTeam()`: a team name is set. */
  predicate HasTeam(a: AccessSettings) {
    a.team != ""
  }

  datatype WaystoneRecord = WaystoneRecord(
    hash: string,
    name: string,
    ownerId: string,
    ownerName: string,
    world: string,
    pos: BlockPos,
    access: AccessSettings)

  /** A player as the core sees one: an identity, a display name and an optional team. */
  datatype Player = Player(id: string, name: string, team: TeamName)

  /** The player's scoreboard team, `null` in the source when there is none. */
  datatype TeamName = NoTeam | Team(name: string)
}
