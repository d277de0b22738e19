/** The socket through which each connected user is reached. */
module Sockets {
  import opened Domain
  import opened Wrappers

  class SocketService {
    var connectedClients: map<UserId, SocketId>

    constructor ()
      ensures connectedClients == map[]
    {
      connectedClients := map[];
    }

    /** A second socket of a user takes the place of the first. */
    method AddConnectedClient(userId: UserId, client: SocketId)
      modifies this
      ensures connectedClients == old(connectedClients)[userId := client]
    {
      connectedClients := connectedClients[userId := client];
    }

    method GetConnectedClient(clientId: UserId) returns (client: Option<SocketId>)
      ensures client == if clientId in connectedClients then Some(connectedClients[clientId]) else None
    {
      client := if clientId in connectedClients then Some(connectedClients[clientId]) else None;
    }

    /** Whatever socket the user has by then is removed. */
    method RemoveConnectedClient(userId: UserId)
      modifies this
      ensures connectedClients == old(connectedClients) - {userId}
    {
      connectedClients := connectedClients - {userId};
    }
  }
}
