/** The clipboard setter (`wl-copy`), as a sink that records what it is given. */
module Clipboard {

  class Clipboard {
    /** Every payload handed to the clipboard, in order. */
    ghost var copied: seq<seq<bv8>>

    constructor ()
      ensures copied == []
    {
      copied := [];
    }

    /** `copy`: pipes the payload into the clipboard setter. */
    method Copy(content: seq<bv8>)
      modifies this
      ensures copied == old(copied) + [content]
    {
      copied := copied + [content];
    }
  }
}
