/** The identifiers and quantities that the services share. */
module Domain {
  type UserId = int
  type ChatId = int
  type MessageId = int
  type RequestId = nat
  type SocketId = nat
  type TimerId = nat
  type TaskId = nat      // a send that is under way
  type Token = string
  type Time = int        // milliseconds
}
