/**
 * The user configuration (`conf::config::Config`) and the compile-time
 * constants of `defs`, which the model takes as parameters because defs.rs
 * is not part of this model.
 */
module Settings {
  import opened Paths

  datatype Config = Config(
    partitions: seq<string>,   // extra partitions besides the built-in ones
    forceExt4: bool,
    disableUmount: bool,
    hymofsStealth: bool,
    hymofsDebug: bool
  )

  datatype Consts = Consts(
    builtinPartitions: seq<string>,
    runDir: Path,
    hymoMirrorDir: Path,
    hymoProtocolVersion: int,
    ksuOverlaySource: string,
    overlaySource: string,
    disableFileName: string,
    removeFileName: string,
    skipMountFileName: string
  )
}
