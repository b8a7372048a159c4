/**
 Which revision of the firmware a step function follows. `AsWritten` is the
 behaviour of the source exactly as it stands, including the defects listed in
 README.md under "Findings"; `Corrected` repairs each of those defects in the
 smallest way that makes the evidently intended property hold, and is the
 revision the composed controller (module Controller) runs.
 */
module Build {
  datatype Revision = AsWritten | Corrected
}
