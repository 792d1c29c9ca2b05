/** Requests between programs. */
module Network {
  /** What became of a request: answered, refused without effect, or carried out with the reply lost. */
  datatype Net = Answered | Refused | ReplyLost
}
