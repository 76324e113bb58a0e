/**
 * The process-wide catalogue of rooms, keyed by room id. It is the only
 * global mutable state of the server.
 */
module Registry {

  import opened Options
  import opened Participants
  import opened Rooms

  /** A room's participant list, or the empty list when there is no room. */
  function ListOf(members: Option<seq<Participant>>): seq<Participant> {
    if members.Some? then members.value else []
  }

  class RoomRegistry {

    var rooms: map<string, Room>

    /**
     * Every room is stored under its own id (so distinct keys hold distinct
     * room objects) and keeps its own invariant.
     */
    ghost predicate Valid()
      reads this, rooms.Values
    {
      forall k :: k in rooms ==> rooms[k].id == k && rooms[k].Valid()
    }

    /** The participant list of the room stored under `roomId`, or none when there is no such room. */
    ghost function Members(roomId: string): Option<seq<Participant>>
      reads this, if roomId in rooms then {rooms[roomId]} else {}
    {
      if roomId in rooms then Some(rooms[roomId].participants) else None
    }

    constructor ()
      ensures Valid() && rooms == map[]
    {
      rooms := map[];
    }

    /** The room stored under `roomId`, created empty and stored first when there is none. */
    method GetOrCreate(roomId: string) returns (room: Room)
      requires Valid()
      modifies this
      ensures Valid()
      ensures roomId in rooms && rooms[roomId] == room
      ensures roomId in old(rooms) ==> room == old(rooms[roomId]) && rooms == old(rooms)
      ensures roomId !in old(rooms) ==>
        fresh(room) && room.id == roomId && room.participants == [] &&
        rooms == old(rooms)[roomId := room]
      ensures room.participants == ListOf(old(Members(roomId)))
    {
      if roomId in rooms {
        room := rooms[roomId];
      } else {
        room := new Room(roomId);
        rooms := rooms[roomId := room];
      }
    }

    /** A lookup with no side effect: present exactly when `roomId` is a key. */
    method Find(roomId: string) returns (found: Option<Room>)
      ensures found.Some? <==> roomId in rooms
      ensures found.Some? ==> found.value == rooms[roomId]
    {
      if roomId in rooms {
        found := Some(rooms[roomId]);
      } else {
        found := None;
      }
    }

    /** Evicts the room stored under `roomId` when it exists and is empty; otherwise no change. */
    method RemoveIfEmpty(roomId: string)
      requires Valid()
      modifies this
      ensures Valid()
      ensures rooms ==
        if roomId in old(rooms) && old(rooms[roomId].participants) == []
        then old(rooms) - {roomId}
        else old(rooms)
      ensures Members(roomId) == if old(Members(roomId)) == Some([]) then None else old(Members(roomId))
      ensures forall k :: k != roomId ==> Members(k) == old(Members(k))
    {
      var found := Find(roomId);
      if found.Some? {
        var room := found.value;
        if room.IsEmpty() {
          rooms := rooms - {roomId};
        }
      }
    }
  }

  /** Two successive get-or-create calls with the same id yield the same room object. */
  method GetOrCreateTwice(registry: RoomRegistry, roomId: string) returns (first: Room, second: Room)
    requires registry.Valid()
    modifies registry
    ensures registry.Valid()
    ensures first == second && roomId in registry.rooms && registry.rooms[roomId] == first
  {
    first := registry.GetOrCreate(roomId);
    second := registry.GetOrCreate(roomId);
  }
}
