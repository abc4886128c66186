/** The write end of a pipe, as dmoji.c uses it through a file descriptor. */
module Pipes {
  import opened CStrings

  /** Everything written to the descriptor so far, in order. */
  class Pipe {
    var data: seq<byte>

    constructor ()
      ensures data == []
    {
      data := [];
    }

    /** `write`/`dprintf` on the descriptor: the bytes go after everything written before. */
    method Write(bytes: seq<byte>)
      modifies this
      ensures data == old(data) + bytes
    {
      data := data + bytes;
    }
  }
}
