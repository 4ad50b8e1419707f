// Configuration read by the revival feature at decision time: the user
// settings of the mod and the two compile-time switches it consults.

module Settings {

  /** The values the revival feature reads from its configuration.
      `testing` is the user setting consulted by manual revival, while
      `testingConstant` and `selfRevival` are compile-time switches: the
      kill interception reads the former, the per-tick key check the latter. */
  datatype Config = Config(
    revivalDuration: real,           // seconds of invulnerability after a revival
    revivalCooldown: real,           // seconds between two manual revivals
    restoreDestroyedBodyParts: bool,
    hardcoreMode: bool,
    testing: bool,
    testingConstant: bool,
    selfRevival: bool)

  /** The defaults the mod binds: 4 s of invulnerability, a 180 s cooldown,
      no body-part restoration, hardcore and testing off. The two
      compile-time switches are not user settings, so they are passed in. */
  function Defaults(testingConstant: bool, selfRevival: bool): (c: Config)
    ensures c.revivalDuration == 4.0 && c.revivalCooldown == 180.0
    ensures !c.restoreDestroyedBodyParts && !c.hardcoreMode && !c.testing
    ensures c.testingConstant == testingConstant && c.selfRevival == selfRevival
  {
    Config(4.0, 180.0, false, false, false, testingConstant, selfRevival)
  }
}
