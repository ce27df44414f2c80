/** When the JSON writer has enough space: what is left of its buffer, and what its allocator will hand
    out. */
module WriterRoom {
  import opened Bytes
  import opened WriterSpec
  import Decimal
  import JsonStrings

  const MINIMUM_STRING_CHUNK_SIZE: nat := 64
  const MAX_UNESCAPED_STRING_SIZE_PER_CHUNK: nat := 10

  /** The bytes left in the buffer, and the sizes of the buffers to come; a writer without an allocator
      will get none. */
  datatype Room = Room(left: nat, answers: seq<Option<nat>>)

  /** The next answer is a buffer of at least this size. */
  predicate Answers(answers: seq<Option<nat>>, required: nat) {
    answers != [] && answers[0].Some? && answers[0].value >= required
  }

  function Later(answers: seq<Option<nat>>): seq<Option<nat>> {
    if answers == [] then [] else answers[1..]
  }

  /** What a writer has after asking for space, if it gets it: the rest of its buffer if that is large
      enough, or the next one. */
  function Ask(room: Room, required: nat): (r: Option<Room>)
    ensures r.Some? ==> r.value.left >= required
  {
    if room.left >= required then Some(room)
    else if Answers(room.answers, required) then Some(Room(room.answers[0].value, Later(room.answers)))
    else None
  }

  function Used(room: Room, bytes: nat): Room
    requires bytes <= room.left
  {
    room.(left := room.left - bytes)
  }

  /** Every answer is a buffer of at least one chunk. */
  predicate AllChunks(answers: seq<Option<nat>>) {
    forall i :: 0 <= i < |answers| ==> answers[i].Some? && answers[i].value >= MINIMUM_STRING_CHUNK_SIZE
  }

  /** There is room for this many bytes, and for one chunk more: in the buffer, or in buffers of at least
      a chunk each, of which one for every byte is always enough. */
  predicate Suffices(room: Room, bytes: nat) {
    || room.left >= bytes + MINIMUM_STRING_CHUNK_SIZE
    || (AllChunks(room.answers)
        && |room.answers| + (if room.left >= MINIMUM_STRING_CHUNK_SIZE then 1 else 0) >= bytes + 1)
  }

  lemma AskSuffices(room: Room, required: nat, bytes: nat)
    requires required <= MINIMUM_STRING_CHUNK_SIZE
    ensures Suffices(room, bytes) ==> Ask(room, required).Some? && Suffices(Ask(room, required).value, bytes)
    ensures room.answers == [] ==> Ask(room, required) == if room.left >= required then Some(room) else None
  {
  }

  lemma UseSuffices(room: Room, used: nat, bytes: nat)
    requires used <= room.left
    ensures Suffices(room, used + bytes) ==> Suffices(Used(room, used), bytes)
  {
  }

  // ---------------------------------------------------------------- what an append asks for

  /** The appends that ask for space once; the others write long texts in chunks. */
  predicate IsShort(e: Append) {
    match e
    case Str(text) => |text| <= MAX_UNESCAPED_STRING_SIZE_PER_CHUNK
    case Name(name) => |name| <= MAX_UNESCAPED_STRING_SIZE_PER_CHUNK
    case _ => true
  }

  /** The space that such an append asks for: that of its text, or of the longest number. */
  ghost function SizeAsked(w: Progress, e: Append): nat {
    if e.Int32? then |Comma(w.needComma)| + Decimal.MAX_SIZE_FOR_INT32 else |Emit(w, e)|
  }

  /** The space that an append needs in a single buffer. A long text needs a chunk for its closing quote. */
  ghost function SizeNeeded(w: Progress, e: Append): nat {
    match e
    case Str(text) =>
      if IsShort(e) then |Emit(w, e)|
      else |Comma(w.needComma)| + 1 + |JsonStrings.Escape(text)| + MINIMUM_STRING_CHUNK_SIZE
    case Name(name) =>
      if IsShort(e) then |Emit(w, e)|
      else |Comma(w.needComma)| + 1 + |JsonStrings.Escape(name)| + MINIMUM_STRING_CHUNK_SIZE
    case _ => SizeAsked(w, e)
  }

  lemma ShortAsksForAChunk(w: Progress, e: Append)
    requires IsShort(e) && CanAppend(w, e)
    ensures |Emit(w, e)| <= SizeAsked(w, e) <= MINIMUM_STRING_CHUNK_SIZE && SizeNeeded(w, e) == SizeAsked(w, e)
  {
    if e.Int32? {
      Decimal.Int32Size(e.number);
    }
  }

  /** An append that asks once finds room where there is enough for its text, and what follows it. */
  lemma ShortSuffices(room: Room, w: Progress, e: Append, rest: nat)
    requires IsShort(e) && CanAppend(w, e) && Suffices(room, |Emit(w, e)| + rest)
    ensures |Emit(w, e)| <= SizeAsked(w, e) && Ask(room, SizeAsked(w, e)).Some?
    ensures Suffices(Used(Ask(room, SizeAsked(w, e)).value, |Emit(w, e)|), rest)
  {
    ShortAsksForAChunk(w, e);
    AskSuffices(room, SizeAsked(w, e), |Emit(w, e)| + rest);
    UseSuffices(Ask(room, SizeAsked(w, e)).value, |Emit(w, e)|, rest);
  }

  lemma SizeOfLong(w: Progress, e: Append)
    requires (e.Str? || e.Name?) && !IsShort(e)
    ensures var chunks := |Comma(w.needComma)| + 1 + |JsonStrings.Escape(if e.Str? then e.text else e.name)|;
            SizeNeeded(w, e) == chunks + MINIMUM_STRING_CHUNK_SIZE && |Emit(w, e)| == chunks + if e.Str? then 1 else 2
  {
  }

  /** In a single buffer the room is used up byte by byte. */
  lemma SingleSuffices(room: Room, bytes: nat, rest: nat)
    requires room.answers == []
    ensures Suffices(room, bytes) <==> room.left >= bytes + MINIMUM_STRING_CHUNK_SIZE
    ensures Suffices(room, bytes + rest) <==> room.left >= bytes + rest + MINIMUM_STRING_CHUNK_SIZE
  {
  }
}
