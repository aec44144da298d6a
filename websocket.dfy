/**
 * The topic-channel handler: a message a client sends on the chat
 * destination is returned as it is, to be re-broadcast to the topic.
 */
module WebSocket {

  /** `WebSocketController.message`. */
  function Message(message: string): (r: string)
  {
    message
  }

  /** The handler echoes its input: no transformation of any kind. */
  lemma MessageEchoes(message: string)
    ensures Message(message) == message
  {
  }
}
