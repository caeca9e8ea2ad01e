/** The start of a peer's process, as far as a peer pair knows it (0 if not). Every part of the pair goes by it. */
module PeerStart {
  /** A later start than the one known ends all that was agreed with the peer. The first one heard of does not. */
  predicate Restarts(known: int, date: int) {
    known != 0 && known < date
  }

  function Learned(known: int, date: int): int {
    if known == 0 || known < date then date else known
  }
}
