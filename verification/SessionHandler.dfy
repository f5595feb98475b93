/** The registry from device tokens to sessions, shared by all sessions. */
module SessionHandler {
  import opened Bytes
  import opened Session

  /** What a registry operation issued by `self` leaves; an entry that exists is never overwritten. */
  function Apply<S>(m: map<ByteString, S>, op: RegistryOp, self: S): map<ByteString, S> {
    match op
    case Keep => m
    case Insert(key) => if key in m then m else m[key := self]
    case Erase(key) => m - {key}
  }

  function ApplyAll<S>(m: map<ByteString, S>, ops: seq<RegistryOp>, self: S): map<ByteString, S>
    decreases |ops|
  {
    if ops == [] then m else ApplyAll(Apply(m, ops[0], self), ops[1..], self)
  }

  lemma {:induction false} ApplyConcat<S>(m: map<ByteString, S>, a: seq<RegistryOp>, b: seq<RegistryOp>, self: S)
    ensures ApplyAll(m, a + b, self) == ApplyAll(ApplyAll(m, a, self), b, self)
    decreases |a|
  {
    if a == [] {
      assert a + b == b;
    } else {
      assert (a + b)[1..] == a[1..] + b;
      ApplyConcat(Apply(m, a[0], self), a[1..], b, self);
    }
  }

  class MqttSessionHandler<S> {
    var sessions: map<ByteString, S>
    /** The iterator of the last lookup: the key it stands at, or none when it is at the end. */
    var lastFound: Option<ByteString>

    constructor ()
      ensures sessions == map[] && lastFound == None
    {
      sessions, lastFound := map[], None;
    }

    method AddMqttSession(uuid: ByteString, session: S) returns (inserted: bool)
      modifies this`sessions
      ensures sessions == Apply(old(sessions), Insert(uuid), session)
      ensures inserted <==> uuid !in old(sessions)
      ensures uuid in sessions && (inserted ==> sessions[uuid] == session)
    {
      inserted := uuid !in sessions;
      if inserted {
        sessions := sessions[uuid := session];
      }
    }

    method DeleteMqttSession(uuid: ByteString) returns (num: nat)
      modifies this`sessions
      ensures sessions == old(sessions) - {uuid}
      ensures num == if uuid in old(sessions) then 1 else 0
    {
      num := if uuid in sessions then 1 else 0;
      sessions := sessions - {uuid};
    }

    method FindMqttSession(uuid: ByteString) returns (session: Option<S>)
      modifies this`lastFound
      ensures session == if uuid in sessions then Some(sessions[uuid]) else None
      ensures lastFound == if uuid in sessions then Some(uuid) else None
    {
      if uuid in sessions {
        lastFound := Some(uuid);
        session := Some(sessions[uuid]);
      } else {
        lastFound := None;
        session := None;
      }
    }
  }
}
