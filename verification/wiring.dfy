/** The process-wide configuration, populated before the core runs. */
module Wiring {

  /** The fields of the configuration the core reads. `maxSnap` is a
      plain (possibly negative) integer, as the flag that sets it is. */
  datatype Config = Config(
    maxSnap: int,
    tag: string,
    sourceRegion: string,
    targetRegion: string,
    targetKms: string)
}
