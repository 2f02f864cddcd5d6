/**
 * One-to-one chat: a room per unordered pair of users, named after the two
 * ids, and messages appended by the room's participants.
 */
module MessagingViews {
  import opened Wrappers
  import opened Text
  import opened ApiModels

  /** `get_private_room_name`: "chat_{min}_{max}". */
  function RoomName(a: UserId, b: UserId): string {
    var lo := if a <= b then a else b;
    var hi := if a <= b then b else a;
    "chat_" + NatToString(lo) + "_" + NatToString(hi)
  }

  /** The name does not depend on who starts the chat. */
  lemma RoomNameSymmetric(a: UserId, b: UserId)
    ensures RoomName(a, b) == RoomName(b, a)
  {
  }

  lemma NoSeparator(n: nat)
    ensures forall i :: 0 <= i < |NatToString(n)| ==> NatToString(n)[i] != '_'
  {
  }

  /** Two pairs share a room name only when they are the same unordered pair. */
  lemma RoomNameInjective(a: UserId, b: UserId, c: UserId, d: UserId)
    requires RoomName(a, b) == RoomName(c, d)
    ensures {a, b} == {c, d}
  {
    var lo1, hi1 := if a <= b then a else b, if a <= b then b else a;
    var lo2, hi2 := if c <= d then c else d, if c <= d then d else c;
    var x, y := NatToString(lo1), NatToString(hi1);
    var z, w := NatToString(lo2), NatToString(hi2);
    assert "chat_" + x + "_" + y == "chat_" + z + "_" + w;
    assert ("chat_" + x + "_" + y)[5..] == x + ['_'] + y;
    assert ("chat_" + z + "_" + w)[5..] == z + ['_'] + w;
    NoSeparator(lo1);
    NoSeparator(lo2);
    SplitUnique(x, y, z, w, '_');
    NatToStringInjective(lo1, lo2);
    NatToStringInjective(hi1, hi2);
  }

  /** A room and the ids of its participants. */
  datatype Room = Room(name: string, participants: set<UserId>)

  datatype Message = Message(room: nat, sender: UserId, content: string)

  /** A room as `start_private_chat` leaves it: named after the pair, with exactly the pair inside. */
  ghost predicate IsPairRoom(r: Room) {
    exists a: UserId, b: UserId :: RoomName(a, b) == r.name && r.participants == {a, b}
  }

  /** Every room holds exactly the pair its name encodes, as when only `start_private_chat` has touched the rooms. */
  ghost predicate PairRooms(rooms: seq<Room>) {
    forall k :: 0 <= k < |rooms| ==> IsPairRoom(rooms[k])
  }

  /** Every message was sent by a participant of its room. */
  predicate SendersParticipate(rooms: seq<Room>, messages: seq<Message>) {
    forall i :: 0 <= i < |messages| ==> messages[i].room < |rooms| && messages[i].sender in rooms[messages[i].room].participants
  }

  /** Room names are unique. */
  predicate UniqueNames(rooms: seq<Room>) {
    forall i, j :: 0 <= i < j < |rooms| ==> rooms[i].name != rooms[j].name
  }

  /** Where the room with this name is, if there is one. */
  function FindRoom(rooms: seq<Room>, name: string): (r: Option<nat>)
    ensures r.Some? ==> r.value < |rooms| && rooms[r.value].name == name
    ensures r.None? ==> forall k :: 0 <= k < |rooms| ==> rooms[k].name != name
    decreases |rooms|
  {
    if rooms == [] then None
    else if rooms[|rooms| - 1].name == name then Some(|rooms| - 1)
    else FindRoom(rooms[..|rooms| - 1], name)
  }

  /** The messages of one room, in sending order. */
  function RoomMessages(messages: seq<Message>, room: nat): (r: seq<Message>)
    ensures forall i :: 0 <= i < |r| ==> r[i].room == room
    decreases |messages|
  {
    if messages == [] then []
    else RoomMessages(messages[..|messages| - 1], room) + (if messages[|messages| - 1].room == room then [messages[|messages| - 1]] else [])
  }

  lemma SendAppendsToRoom(messages: seq<Message>, m: Message, other: nat)
    ensures RoomMessages(messages + [m], m.room) == RoomMessages(messages, m.room) + [m]
    ensures other != m.room ==> RoomMessages(messages + [m], other) == RoomMessages(messages, other)
  {
    assert (messages + [m])[..|messages|] == messages;
  }

  /** Two rooms for the same unordered pair are the same room. */
  lemma OneRoomPerPair(rooms: seq<Room>, a: UserId, b: UserId, i: nat, j: nat)
    requires UniqueNames(rooms) && i < |rooms| && j < |rooms|
    requires rooms[i].name == RoomName(a, b) && rooms[j].name == RoomName(b, a)
    ensures i == j
  {
    RoomNameSymmetric(a, b);
  }

  /** The chat-room and message tables. */
  class ChatStore {
    var rooms: seq<Room>
    var messages: seq<Message>

    /** Room names are unique and every message belongs to an existing room. */
    ghost predicate Valid()
      reads this
    {
      UniqueNames(rooms) && forall i :: 0 <= i < |messages| ==> messages[i].room < |rooms|
    }

    constructor ()
      ensures Valid() && rooms == [] && messages == []
    {
      rooms, messages := [], [];
    }

    /**
     * `start_private_chat`: 400 without a (non-zero) `user_id`, 404 for an
     * unknown user; otherwise the room named after the pair is fetched or
     * created and its participants set to exactly the two users.
     */
    method StartPrivateChat(requester: UserId, otherUserId: Option<int>, users: set<UserId>) returns (code: int, room: Option<nat>)
      requires Valid()
      modifies this
      ensures Valid()
      ensures otherUserId.None? || otherUserId == Some(0) ==> code == 400
      ensures otherUserId.Some? && otherUserId != Some(0) && !(otherUserId.value >= 0 && otherUserId.value in users) ==> code == 404
      ensures code != 200 ==> room.None? && rooms == old(rooms)
      ensures code == 200 <==> otherUserId.Some? && otherUserId != Some(0) && otherUserId.value >= 0 && otherUserId.value in users
      ensures code == 200 ==> (room.Some? && room.value < |rooms| &&
        rooms[room.value] == Room(RoomName(requester, otherUserId.value), {requester, otherUserId.value}))
      ensures code == 200 && FindRoom(old(rooms), RoomName(requester, otherUserId.value)).Some? ==>
        room == FindRoom(old(rooms), RoomName(requester, otherUserId.value))
        && rooms == old(rooms)[room.value := Room(RoomName(requester, otherUserId.value), {requester, otherUserId.value})]
      ensures code == 200 && FindRoom(old(rooms), RoomName(requester, otherUserId.value)).None? ==>
        room == Some(|old(rooms)|) && rooms == old(rooms) + [Room(RoomName(requester, otherUserId.value), {requester, otherUserId.value})]
      ensures messages == old(messages)
      ensures PairRooms(old(rooms)) ==> PairRooms(rooms) && (code == 200 && FindRoom(old(rooms), RoomName(requester, otherUserId.value)).Some? ==> rooms == old(rooms))
      ensures PairRooms(old(rooms)) && SendersParticipate(old(rooms), old(messages)) ==> SendersParticipate(rooms, messages)
    {
      if otherUserId.None? || otherUserId == Some(0) {
        return 400, None;
      }
      var otherId := otherUserId.value;
      if !(otherId >= 0 && otherId in users) {
        return 404, None;
      }
      var name := RoomName(requester, otherId);
      var pair := Room(name, {requester, otherId});
      var found := FindRoom(rooms, name);
      if found.Some? {
        var k := found.value;
        if PairRooms(rooms) {
          // A pair room with this name can only hold these two users: the set below changes nothing.
          assert IsPairRoom(rooms[k]);
          ghost var a: UserId, b: UserId :| RoomName(a, b) == rooms[k].name && rooms[k].participants == {a, b};
          RoomNameInjective(a, b, requester, otherId);
          assert rooms[k] == pair;
        }
        rooms := rooms[k := pair];
        return 200, Some(k);
      }
      assert IsPairRoom(pair);
      assert forall k :: 0 <= k < |rooms| ==> (rooms + [pair])[k] == rooms[k];
      rooms := rooms + [pair];
      return 200, Some(|rooms| - 1);
    }

    /**
     * `send_message`: 400 for missing or empty content (checked first), 404
     * for an unknown room, 403 for a non-participant; otherwise one message
     * from the requester is appended.
     */
    method SendMessage(requester: UserId, roomId: int, content: Option<string>) returns (code: int)
      requires Valid()
      modifies this
      ensures Valid()
      ensures content.None? || content == Some("") ==> code == 400
      ensures content.Some? && content != Some("") && !(0 <= roomId < |rooms|) ==> code == 404
      ensures content.Some? && content != Some("") && 0 <= roomId < |rooms| && requester !in rooms[roomId].participants ==> code == 403
      ensures code == 201 <==> content.Some? && content != Some("") && 0 <= roomId < |rooms| && requester in rooms[roomId].participants
      ensures code != 201 ==> messages == old(messages)
      ensures code == 201 ==> messages == old(messages) + [Message(roomId, requester, content.value)]
      ensures rooms == old(rooms)
      ensures SendersParticipate(old(rooms), old(messages)) ==> SendersParticipate(rooms, messages)
    {
      if content.None? || content == Some("") {
        return 400;
      }
      if !(0 <= roomId < |rooms|) {
        return 404;
      }
      if requester !in rooms[roomId].participants {
        return 403;
      }
      messages := messages + [Message(roomId, requester, content.value)];
      return 201;
    }
  }

  /** Every message in a pair room is from one of the two users the room's name encodes. */
  lemma SendersArePair(rooms: seq<Room>, messages: seq<Message>, i: nat)
    requires PairRooms(rooms) && SendersParticipate(rooms, messages) && i < |messages|
    ensures var m := messages[i];
      exists a: UserId, b: UserId :: RoomName(a, b) == rooms[m.room].name && (m.sender == a || m.sender == b)
  {
    var m := messages[i];
    assert IsPairRoom(rooms[m.room]);
  }
}
