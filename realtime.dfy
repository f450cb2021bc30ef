/** The Socket.IO server that `likeBlog` reaches through `req.app.get("io")`:
    only the sequence of events it is asked to broadcast. */
module Realtime {
  import opened Common

  /** The `"reactionUpdate"` event and its payload. */
  datatype Event = ReactionUpdate(blogId: Id, likes: seq<Id>, dislikes: seq<Id>)

  class Channel {
    /** Every event emitted so far, oldest first. */
    var events: seq<Event>

    constructor ()
      ensures events == []
    {
      events := [];
    }

    /** `io.emit(name, payload)`. */
    method Emit(e: Event)
      modifies this
      ensures events == old(events) + [e]
    {
      events := events + [e];
    }
  }
}
