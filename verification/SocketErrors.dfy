/** What the socket calls of both sides answer: that they did the job, or what is wrong. */
module SocketErrors {
  const NO_ERROR := 0

  /** The error of a call on a socket without a connection. */
  const ENOTCONN := 107
}
