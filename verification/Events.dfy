/** Names of events in an execution graph. */
module Events {
  datatype Event = Event(thread: nat, index: nat)

  /** What a read, or one byte of it, reads from. */
  datatype Source = Init | FromWrite(write: Event)
}
