/** The texts the chat server and the chat client exchange (server.py, client.py). */
module Protocol {

  /** Sent by the server to a freshly accepted connection to ask for its nickname. */
  const Sentinel: string := "NICK"

  /** Sent to the newcomer right after it is registered. */
  const Welcome: string := "--- Welcome to the chat! ---"

  /** Announced to everybody else when `nickname` joins. */
  function JoinNotice(nickname: string): string {
    "--- " + nickname + " has joined the chat! ---"
  }

  /** Announced to the remaining clients when the client registered as `nickname` leaves. */
  function LeaveNotice(nickname: string): string {
    "--- " + nickname + " has left the chat. ---"
  }
}
