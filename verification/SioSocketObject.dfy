/** socket::impl as an object: the fields its calls update, one call at a time. */
module SioSocketObject {
  import opened Bytes
  import opened JsonGrammar
  import opened SioMessage
  import opened SioPacket
  import S = SioSocket

  /** s_global_event_id, one counter for all sockets. */
  class EventIds {
    var next: int
    ghost var drawn: nat

    constructor ()
      ensures Valid() && next == 1
    {
      next, drawn := 1, 1;
    }

    ghost predicate Valid()
      reads this
    {
      next == S.Key(drawn)
    }

    /** s_global_event_id++, an unsigned int. */
    method Draw() returns (id: int)
      requires Valid()
      modifies this
      ensures Valid() && id == S.Key(old(drawn)) && drawn == old(drawn) + 1
    {
      hide S.Key;
      S.NextKey(drawn);
      id := next;
      next := if next == TWO32 - 1 then 0 else next + 1;
      drawn := drawn + 1;
    }
  }

  class Socket {
    const nsp: bytes
    const ids: EventIds
    var client: bool
    var connected: bool
    var queue: seq<PacketState>
    var acks: map<int, S.Callback>
    var wire: seq<PacketState>
    var fired: seq<S.Grant>
    ghost var emitted: seq<PacketState>
    ghost var lost: seq<PacketState>
    ghost var granted: seq<S.Grant>

    ghost function Now(): S.Sock
      reads this, ids
    {
      S.Sock(nsp, client, connected, queue, acks, ids.drawn, wire, emitted, lost, granted, fired)
    }

    /** Nothing is queued while connected, what is emitted goes out in order, and each ack fires once. */
    ghost predicate Valid()
      reads this, ids
    {
      ids.Valid() && S.Sound(Now())
    }

    constructor (nsp: bytes, ids: EventIds, online: bool)
      requires ids.Valid()
      ensures Valid() && this.ids == ids && Now() == S.Born(nsp, ids.drawn, online)
    {
      this.nsp, this.ids, client, connected := nsp, ids, true, false;
      queue, acks, wire, fired, emitted, lost, granted := [], map[], [], [], [], [], [];
      S.BornSound(nsp, ids.drawn, false);
      S.BornSound(nsp, ids.drawn, online);
      new;
      if online {
        OnOpen();
      }
    }

    /** The drain loop of send_packet and on_connected. */
    method Drain()
      modifies `queue, `wire
      ensures queue == [] && wire == old(wire) + old(queue)
    {
      while queue != []
        invariant wire + queue == old(wire) + old(queue)
        decreases |queue|
      {
        var front := queue[0];
        queue := queue[1..];
        wire := wire + [front];
      }
    }

    method SendPacket(p: PacketState)
      modifies `queue, `wire, `emitted
      ensures Now() == S.SendPacket(old(Now()), p)
    {
      if !client {
        return;
      }
      if connected {
        Drain();
        wire := wire + [p];
      } else {
        queue := queue + [p];
      }
      emitted := emitted + [p];
    }

    method Emit(e: S.Emission)
      requires ids.Valid()
      modifies this, ids
      ensures ids.Valid() && Now() == S.Emit(old(Now()), e)
      ensures old(Valid()) ==> Valid()
    {
      ghost var was := Now();
      if S.Sound(was) {
        S.DoSound(was, S.Emits(e));
      }
      hide S.Sound;
      if !client {
        return;
      }
      var packId := -1;
      if e.ack.Some? {
        var id := ids.Draw();
        acks := acks[id := e.ack.value];
        granted := granted + [S.Grant(id, e.ack.value)];
        packId := ToInt(id);
      }
      SendPacket(S.EventPacket(nsp, e, packId));
    }

    /** What a listener or a callback emits, in turn. */
    method EmitAll(es: seq<S.Emission>)
      requires ids.Valid()
      modifies this, ids
      ensures ids.Valid() && Now() == S.EmitAll(old(Now()), es)
    {
      hide S.Emit;
      var i := 0;
      assert es[0..] == es;
      while i < |es|
        invariant 0 <= i <= |es| && ids.Valid()
        invariant S.EmitAll(Now(), es[i..]) == S.EmitAll(old(Now()), es)
      {
        assert es[i..][1..] == es[i + 1..];
        Emit(es[i]);
        i := i + 1;
      }
    }

    method OnConnected(nested: seq<S.Emission>)
      requires ids.Valid()
      modifies this, ids
      ensures ids.Valid() && Now() == S.Connected(old(Now()), nested)
    {
      hide S.EmitAll;
      if !connected {
        connected := true;
        EmitAll(nested);
        Drain();
      }
    }

    /** The clearing loop of on_close and on_disconnect. */
    method Clear()
      modifies `queue, `lost
      ensures Now() == S.Clear(old(Now()))
    {
      while queue != []
        invariant lost + queue == old(lost) + old(queue)
        decreases |queue|
      {
        lost := lost + [queue[0]];
        queue := queue[1..];
      }
    }

    method OnClose()
      requires Valid()
      modifies `client, `connected, `queue, `lost
      ensures Valid() && Now() == S.OnClose(old(Now()))
    {
      hide S.Sound;
      S.DoSound(Now(), S.TimesOut);
      if !client {
        return;
      }
      client := false;
      connected := false;
      Clear();
    }

    method OnDisconnect()
      requires Valid()
      modifies `connected, `queue, `lost
      ensures Valid() && Now() == S.OnDisconnect(old(Now()))
    {
      hide S.Sound;
      S.DoSound(Now(), S.Disconnects);
      if !client {
        return;
      }
      if connected {
        connected := false;
        Clear();
      }
    }

    method OnOpen()
      requires Valid()
      modifies `wire
      ensures Valid() && Now() == S.OnOpen(old(Now()))
    {
      hide S.Sound;
      S.DoSound(Now(), S.Opens);
      if !client || nsp == [SLASH] {
        return;
      }
      wire := wire + [S.Make(CONNECT, nsp, -1, Absent)];
    }

    method Close()
      requires Valid()
      modifies `queue, `wire, `emitted
      ensures Valid() && Now() == S.Close(old(Now()))
    {
      hide S.Sound;
      S.DoSound(Now(), S.Closes);
      if !client {
        return;
      }
      if connected {
        SendPacket(S.Make(S.DISCONNECT, nsp, -1, Absent));
      }
    }

    method OnAck(msgId: int)
      modifies `acks, `fired
      ensures Now() == S.OnAck(old(Now()), msgId)
    {
      var id := msgId % TWO32;
      if id in acks {
        var l := acks[id];
        acks := acks - {id};
        fired := fired + [S.Grant(id, l)];
      }
    }

    method OnPacket(p: PacketState, nested: seq<S.Emission>, reply: seq<Message>)
      requires Valid()
      modifies this, ids
      ensures Valid() && Now() == S.OnPacket(old(Now()), p, nested, reply)
    {
      S.DoSound(Now(), S.Receives(p, nested, reply));
      hide S.Sound, S.EmitAll, S.Connected, S.OnClose, S.SendPacket, S.OnAck, S.NamesEvent;
      if !client || p.nsp != nsp {
        return;
      }
      if p.kind == CONNECT {
        OnConnected(nested);
      } else if p.kind == S.DISCONNECT {
        OnClose();
      } else if p.kind == EVENT || p.kind == BINARY_EVENT {
        if S.NamesEvent(p.message) {
          EmitAll(nested);
          if p.packId >= 0 {
            SendPacket(S.AckPacket(nsp, p.packId, reply));
          }
        }
      } else if p.kind == ACK || p.kind == BINARY_ACK {
        OnAck(p.packId);
        EmitAll(nested);
      } else if p.kind == ERROR {
        EmitAll(nested);
      }
    }
  }
}
