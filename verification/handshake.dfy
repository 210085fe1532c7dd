/** The server and the client put together: the nickname handshake and the path of a
    chat line from one client to the others. */
module Handshake {
  import opened Protocol
  import opened ServerBroadcast
  import opened ChatServer
  import opened ChatClient

  /** The first packet a newcomer gets is the prompt; the client answers it with the
      nickname it chose; the server stores exactly that answer, at the end of
      `nicknames`, while the connection is the last entry of `clients`. Without failures
      and with aligned lists, name and connection share an index. */
  lemma HandshakeRegistersChosenNickname(r: Registry, id: ClientId, nickname: string, failing: set<ClientId>)
    ensures var answer := OnPayload(nickname, Sentinel);
            var o := Step(r, Join(id, answer.payload, failing));
            && answer == Reply(nickname)
            && o.packets[0] == Packet(id, Sentinel)
            && o.registry.nicknames == r.nicknames + [nickname]
            && |o.registry.clients| > 0 && o.registry.clients[|o.registry.clients| - 1] == id
            && (|r.clients| == |r.nicknames| && NoFailures(r.clients, failing) ==>
                  |o.registry.clients| == |r.clients| + 1 && o.registry.clients[|r.clients|] == id && o.registry.nicknames[|r.clients|] == nickname)
  {
    AdmitAnnounces(r, id, nickname, failing);
    AdmitAppends(r, id, nickname, failing);
  }

  /** A line typed by one client is relayed unchanged to the other clients, and each of
      them prints it as is; none of them mistakes it for the prompt. */
  lemma ChatLineShownVerbatim(r: Registry, from: ClientId, nickname: string, text: string,
                              failing: set<ClientId>, reader: string)
    ensures var line := FormatLine(nickname, text);
            var o := Step(r, Received(from, line, failing));
            forall p :: p in o.packets ==> p.to != from && OnPayload(reader, p.msg) == Show(line)
  {
    var line := FormatLine(nickname, text);
    RelayForwardsVerbatim(r, from, line, failing);
    FormattedLineIsNotPrompt(nickname, text, reader);
  }
}
