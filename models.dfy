/** The display strings of the chat's two stored records, and the declared bound
    on a room's name. */
module Models {

  /** Declared maximum length of `Room.name`. */
  const RoomNameMaxLength: nat := 100

  /** Number of characters of a message's content shown in its preview. */
  const PreviewLength: nat := 50

  /** Appended to every preview, truncated or not. */
  const Ellipsis: string := "..."

  /** A stored chat message. The creation timestamp is filled in by Django when the
      row is first saved; it is an opaque instant here. */
  datatype Message = Message(content: string, timestamp: int)

  /** A chat room: a name and an optional free-text description. */
  datatype Room = Room(name: string, description: string)

  function Min(a: nat, b: nat): nat {
    if a <= b then a else b
  }

  /** `Message.__str__`: the first 50 characters of the content followed by "...". */
  function MessageToString(m: Message): (r: string)
    ensures |r| == Min(|m.content|, PreviewLength) + |Ellipsis|
    ensures r[..|r| - |Ellipsis|] == m.content[..Min(|m.content|, PreviewLength)]
    ensures r[|r| - |Ellipsis|..] == Ellipsis
  {
    m.content[..Min(|m.content|, PreviewLength)] + Ellipsis
  }

  /** A preview is never longer than 53 characters. */
  lemma MessageToStringBounded(m: Message)
    ensures |Ellipsis| <= |MessageToString(m)| <= PreviewLength + |Ellipsis|
  {
  }

  /** Content of at most 50 characters is shown whole, and still gets "...". */
  lemma ShortMessageToString(m: Message)
    requires |m.content| <= PreviewLength
    ensures MessageToString(m) == m.content + Ellipsis
  {
  }

  /** Content longer than 50 characters is cut to its first 50 characters, so the
      preview is shorter than content + "...". */
  lemma LongMessageToString(m: Message)
    requires |m.content| > PreviewLength
    ensures MessageToString(m) == m.content[..PreviewLength] + Ellipsis
    ensures |MessageToString(m)| < |m.content| + |Ellipsis|
  {
  }

  /** The preview depends only on the first 50 characters of the content (and not
      on the timestamp), so two messages agreeing there look the same. */
  lemma MessageToStringSeesOnlyHead(m1: Message, m2: Message)
    requires |m1.content| >= PreviewLength && |m2.content| >= PreviewLength
    requires m1.content[..PreviewLength] == m2.content[..PreviewLength]
    ensures MessageToString(m1) == MessageToString(m2)
  {
  }

  /** Dropping the trailing "..." from a preview recovers a prefix of the content;
      for short content it recovers the content itself. */
  lemma MessageToStringRecoversPrefix(m: Message)
    ensures var r := MessageToString(m);
            var shown := r[..|r| - |Ellipsis|];
            shown <= m.content && (|m.content| <= PreviewLength ==> shown == m.content)
  {
  }

  /** `Room.__str__`: the room's name, unchanged. */
  function RoomToString(room: Room): string {
    room.name
  }

  /** The display string identifies a room's name and nothing else: two rooms display
      alike exactly when their names are equal, the description never shows, and a
      valid room's display string has 1 to 100 characters. */
  lemma RoomToStringShowsName(a: Room, b: Room)
    ensures RoomToString(a) == RoomToString(b) <==> a.name == b.name
    ensures RoomToString(a) == RoomToString(Room(a.name, b.description))
    ensures ValidRoom(a) ==> 0 < |RoomToString(a)| <= RoomNameMaxLength
  {
  }

  /** The field validation of `Room`: the name is required (not blank) and at most
      100 characters; the description may be blank. */
  predicate ValidRoom(room: Room) {
    0 < |room.name| <= RoomNameMaxLength
  }

  /** `ValidRoom` unfolded: the bound falls on the name, which is what the room
      displays as, and any description, the empty one included, is allowed. */
  lemma ValidRoomCharacterised(room: Room)
    ensures ValidRoom(room) <==> 0 < |RoomToString(room)| <= RoomNameMaxLength
    ensures ValidRoom(room) <==> ValidRoom(Room(room.name, ""))
  {
  }
}
