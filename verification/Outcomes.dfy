/** Outcomes on the tape (crates/sequencer/src/store.rs:21-37). */
module Outcomes {

  datatype GapReason = Undecryptable | InvalidIntent | Unopened

  /** An opened position carries an intent, in whatever form the reader needs. */
  datatype TapeOutcome<+I> = Pending(matureAt: nat) | Opened(intent: I) | Gap(reason: GapReason)
}
