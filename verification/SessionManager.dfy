/** Session id to connection address; m_TCP_Id, which no decision reads, is not kept. */
module SessionManagers {
  import opened NamespaceSpec

  type Address = string

  class SessionManager {
    var sessions: map<SessionId, Address>

    constructor ()
      ensures sessions == map[]
    {
      sessions := map[];
    }

    method Add(id: SessionId, tcp: Address)
      modifies this
      ensures sessions == old(sessions)[id := tcp] && sessions.Keys == old(sessions.Keys) + {id}
    {
      sessions := sessions[id := tcp];
    }

    method Exist(id: SessionId) returns (found: bool)
      ensures found <==> id in sessions
    {
      found := id in sessions;
    }

    method Remove(id: SessionId)
      modifies this
      ensures sessions == old(sessions) - {id}
    {
      if id in sessions {
        sessions := sessions - {id};
      }
    }
  }
}
