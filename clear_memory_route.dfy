/**
 * The clear-memory endpoint (app/api/clear_memory/route.ts): the user named by
 * the `x-user-id` header, or "anonymous", has its remembered entity removed.
 */
module ClearMemoryRoute {
  import opened Wrappers
  import opened ContextMemory

  /** The JSON body `{ success, message }` the endpoint answers with. */
  datatype ClearResponse = ClearResponse(success: bool, message: string)

  const Anonymous: string := "anonymous"

  /** `req.headers.get("x-user-id") || "anonymous"`: a missing header is `null`
      and an empty one is falsy, and both give "anonymous". */
  function UserIdFrom(header: Option<string>): (userId: string)
    ensures userId != ""
    ensures header.Some? && header.value != "" ==> userId == header.value
    ensures header.None? || header.value == "" ==> userId == Anonymous
  {
    if header.Some? && header.value != "" then header.value else Anonymous
  }

  function ClearedMessage(userId: string): string {
    "Memory cleared for user \"" + userId + "\""
  }

  /** `POST`: clear the entry of the header's user and report success. */
  method Post(memory: EntityMemory, header: Option<string>) returns (response: ClearResponse)
    modifies memory
    ensures memory.memoryMap == old(memory.memoryMap) - {UserIdFrom(header)}
    ensures OthersUnchanged(old(memory.memoryMap), memory.memoryMap, UserIdFrom(header))
    ensures response == ClearResponse(true, ClearedMessage(UserIdFrom(header)))
  {
    var userId := UserIdFrom(header);
    memory.ClearEntityMemory(userId);
    response := ClearResponse(true, ClearedMessage(userId));
  }

  /** After the endpoint ran, the user it named reads as absent at every time,
      and every other user reads what it read before. */
  lemma PostEffect(m: MemoryMap, header: Option<string>, other: string, now: int)
    requires other != UserIdFrom(header)
    ensures Lookup(m - {UserIdFrom(header)}, UserIdFrom(header), now) == None
    ensures Lookup(m - {UserIdFrom(header)}, other, now) == Lookup(m, other, now)
  {
  }

  /** The message names the user id between double quotes. */
  lemma MessageNamesUser(userId: string)
    ensures var msg := ClearedMessage(userId);
      |msg| == 26 + |userId| && msg[25..25 + |userId|] == userId && msg[|msg| - 1] == '"'
  {
  }
}
