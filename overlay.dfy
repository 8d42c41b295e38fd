/**
 * backend/app/services/overlay.py: the in-process room registry that fans events out to the
 * WebSocket connections of a channel, and the two event constructors.
 *
 * A connection is any value of the type parameter `Conn`; whether sending to it succeeds is an
 * oracle `sendOk: Conn -> bool`, and `json.dumps` is an opaque total function `dumps`.
 */
module Overlay {
  import opened Events
  import Palette

  /** The connections that survive a broadcast: those whose send succeeded. */
  function Survivors<Conn>(members: set<Conn>, sendOk: Conn -> bool): (r: set<Conn>)
    ensures r <= members
  {
    set w | w in members && sendOk(w)
  }

  /** `list(s)` of a Python set: every element once, in an order the model does not fix. */
  method Snapshot<T>(s: set<T>) returns (r: seq<T>)
    ensures |r| == |s|
    ensures forall x :: x in s <==> x in r
    ensures forall i, j :: 0 <= i < j < |r| ==> r[i] != r[j]
  {
    r := [];
    var rest := s;
    while rest != {}
      invariant rest <= s
      invariant forall x :: x in s <==> x in r || x in rest
      invariant forall x :: x in rest ==> x !in r
      invariant forall i, j :: 0 <= i < j < |r| ==> r[i] != r[j]
      invariant |r| + |rest| == |s|
      decreases |rest|
    {
      var x :| x in rest;
      r := r + [x];
      rest := rest - {x};
    }
  }

  class Rooms<Conn(==)> {
    /** `self.rooms`: a `defaultdict(set)` from channel name to its live connections. */
    var rooms: map<string, set<Conn>>

    /** `self.rooms[channel]` as a read: a channel never seen has no connections. */
    function Members(channel: string): set<Conn>
      reads this
    {
      if channel in rooms then rooms[channel] else {}
    }

    constructor ()
      ensures rooms == map[]
    {
      rooms := map[];
    }

    /** Registers `ws` under `channel` (after accepting the socket, which is not modelled). */
    method Add(ws: Conn, channel: string)
      modifies this
      ensures rooms == old(rooms)[channel := old(Members(channel)) + {ws}]
      ensures ws in Members(channel)
      ensures Members(channel) == ApplyOp(old(Members(channel)), Join(ws))
      ensures forall c :: c != channel ==> Members(c) == old(Members(c))
    {
      rooms := rooms[channel := Members(channel) + {ws}];
    }

    /** Unregisters `ws` from `channel`; a no-op on membership when it was not there. */
    method Remove(ws: Conn, channel: string)
      modifies this
      ensures rooms == old(rooms)[channel := old(Members(channel)) - {ws}]
      ensures ws !in Members(channel)
      ensures Members(channel) == ApplyOp(old(Members(channel)), Leave(ws))
      ensures ws !in old(Members(channel)) ==> Members(channel) == old(Members(channel))
      ensures forall c :: c != channel ==> Members(c) == old(Members(c))
    {
      rooms := rooms[channel := Members(channel) - {ws}];
    }

    /**
     * Serialises `payload` once and tries to send that text to each connection of a snapshot of
     * `channel` taken at the start; every connection whose send fails is dropped from the channel.
     * `attempts` lists the sends in order. Nothing here can fail.
     */
    method Broadcast<P>(channel: string, payload: P, dumps: P -> string, sendOk: Conn -> bool)
      returns (attempts: seq<(Conn, string)>)
      modifies this
      ensures rooms == old(rooms)[channel := Survivors(old(Members(channel)), sendOk)]
      ensures |attempts| == |old(Members(channel))|
      ensures forall i :: 0 <= i < |attempts| ==> attempts[i].1 == dumps(payload)
      ensures forall i, j :: 0 <= i < j < |attempts| ==> attempts[i].0 != attempts[j].0
      ensures forall w :: w in old(Members(channel)) <==> exists i :: 0 <= i < |attempts| && attempts[i].0 == w
      ensures forall w :: w in Members(channel) <==> w in old(Members(channel)) && sendOk(w)
      ensures Members(channel) == ApplyOp(old(Members(channel)), Send(sendOk))
      ensures forall c :: c != channel ==> Members(c) == old(Members(c))
    {
      var txt := dumps(payload);
      var snapshot := Snapshot(Members(channel));
      var start := Members(channel);
      rooms := rooms[channel := start];
      attempts := [];
      var members := start;
      var i := 0;
      while i < |snapshot|
        invariant 0 <= i <= |snapshot|
        invariant rooms == old(rooms)[channel := members]
        invariant members <= start
        invariant forall w :: w in start && sendOk(w) ==> w in members
        invariant forall j :: 0 <= j < i && !sendOk(snapshot[j]) ==> snapshot[j] !in members
        invariant |attempts| == i
        invariant forall j :: 0 <= j < i ==> attempts[j] == (snapshot[j], txt)
      {
        var ws := snapshot[i];
        attempts := attempts + [(ws, txt)];
        if !sendOk(ws) {
          members := members - {ws};
          rooms := rooms[channel := members];
        }
        i := i + 1;
      }
      forall w | w in members ensures sendOk(w) {
        var j :| 0 <= j < |snapshot| && snapshot[j] == w;
      }
      assert members == Survivors(start, sendOk);
      forall w | w in start ensures exists k :: 0 <= k < |attempts| && attempts[k].0 == w {
        var j :| 0 <= j < |snapshot| && snapshot[j] == w;
        assert attempts[j].0 == w;
      }
    }
  }

  /** `send_event`: broadcasts the event's payload on `channel`. */
  method SendEvent<Conn(==)>(rooms: Rooms<Conn>, channel: string, event: Event, dumps: Event -> string, sendOk: Conn -> bool)
    returns (attempts: seq<(Conn, string)>)
    modifies rooms
    ensures rooms.rooms == old(rooms.rooms)[channel := Survivors(old(rooms.Members(channel)), sendOk)]
    ensures |attempts| == |old(rooms.Members(channel))|
    ensures forall i :: 0 <= i < |attempts| ==> attempts[i].1 == dumps(event)
    ensures forall i, j :: 0 <= i < j < |attempts| ==> attempts[i].0 != attempts[j].0
    ensures forall w :: w in old(rooms.Members(channel)) <==> exists i :: 0 <= i < |attempts| && attempts[i].0 == w
    ensures forall w :: w in rooms.Members(channel) <==> w in old(rooms.Members(channel)) && sendOk(w)
    ensures forall c :: c != channel ==> rooms.Members(c) == old(rooms.Members(c))
  {
    attempts := rooms.Broadcast(channel, event, dumps, sendOk);
  }

  /** `make_chat_event`: a chat line, the duck colour defaulting to violet. */
  function MakeChatEvent(display: string, message: string, userId: string, duckColor: string := Palette.DefaultColor): (e: Event)
    ensures e.Type() == "chat" && e.ChatEvent?
    ensures e.userId == userId && e.display == display && e.message == message
    ensures e.duck.color == duckColor
    ensures e.v == 1
  {
    ChatEvent(userId, display, message, Duck(duckColor))
  }

  /** `make_duck_update_event`: announces the new colour of a user's duck. */
  function MakeDuckUpdateEvent(userId: string, duckColor: string): (e: Event)
    ensures e.Type() == "duck_update" && e.DuckUpdateEvent?
    ensures e.userId == userId && e.duck.color == duckColor
    ensures e.v == 1
  {
    DuckUpdateEvent(userId, Duck(duckColor))
  }

  lemma ChatEventDefaultColor(display: string, message: string, userId: string)
    ensures MakeChatEvent(display, message, userId).duck.color == "#8A2BE2"
  {
  }

  /**
   * What one call of `Rooms` does to the members of a channel: `Add`, `Remove`, or a `Broadcast`
   * with the given send outcomes. The ensures of those methods state exactly these new member sets.
   */
  datatype RoomOp<!Conn> = Join(joining: Conn) | Leave(leaving: Conn) | Send(sendOk: Conn -> bool)

  function ApplyOp<Conn>(members: set<Conn>, op: RoomOp<Conn>): set<Conn> {
    match op
    case Join(ws) => members + {ws}
    case Leave(ws) => members - {ws}
    case Send(sendOk) => Survivors(members, sendOk)
  }

  /** The members of the channel after a run of calls. */
  function RunOps<Conn>(members: set<Conn>, ops: seq<RoomOp<Conn>>): set<Conn>
    decreases |ops|
  {
    if ops == [] then members else RunOps(ApplyOp(members, ops[0]), ops[1..])
  }

  predicate Rejoins<Conn(==)>(ops: seq<RoomOp<Conn>>, w: Conn) {
    exists i :: 0 <= i < |ops| && ops[i].Join? && ops[i].joining == w
  }

  /** A connection that is not a member stays out until it is added again. */
  lemma {:induction false} AbsentStaysAbsent<Conn>(members: set<Conn>, ops: seq<RoomOp<Conn>>, w: Conn)
    requires w !in members && !Rejoins(ops, w)
    ensures w !in RunOps(members, ops)
    decreases |ops|
  {
    if ops != [] {
      assert !Rejoins(ops[1..], w) by {
        forall i | 0 <= i < |ops[1..]| ensures !(ops[1..][i].Join? && ops[1..][i].joining == w) {
          assert ops[1..][i] == ops[i + 1];
        }
      }
      AbsentStaysAbsent(ApplyOp(members, ops[0]), ops[1..], w);
    }
  }

  /**
   * A connection pruned by one broadcast is a member at no later point of any run of calls that
   * does not add it again, so no later broadcast, whose attempts are exactly the members at its
   * start, tries it.
   */
  lemma PrunedNeverRetried<Conn>(members: set<Conn>, sendOk: Conn -> bool, ops: seq<RoomOp<Conn>>, w: Conn)
    requires w in members && !sendOk(w)
    requires !Rejoins(ops, w)
    ensures forall k :: 0 <= k <= |ops| ==> w !in RunOps(Survivors(members, sendOk), ops[..k])
  {
    forall k | 0 <= k <= |ops| ensures w !in RunOps(Survivors(members, sendOk), ops[..k]) {
      assert !Rejoins(ops[..k], w) by {
        forall i | 0 <= i < k ensures !(ops[..k][i].Join? && ops[..k][i].joining == w) {
          assert ops[..k][i] == ops[i];
        }
      }
      AbsentStaysAbsent(Survivors(members, sendOk), ops[..k], w);
    }
  }

  /** With the same send outcomes, a second broadcast drops nobody: pruning is idempotent. */
  lemma SurvivorsIdempotent<Conn>(members: set<Conn>, sendOk: Conn -> bool)
    ensures Survivors(Survivors(members, sendOk), sendOk) == Survivors(members, sendOk)
  {
  }
}
