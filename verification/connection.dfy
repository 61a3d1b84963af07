/** A byte stream with both directions, as the probes use a socket. */
module Connection {
  import opened Bytes
  import opened Outcomes

  /** A connection: the bytes still to arrive before it ends, and the bytes written to it. */
  class Conn {
    var input: bytes
    var output: bytes

    constructor (arriving: bytes)
      ensures input == arriving && output == []
    {
      input := arriving;
      output := [];
    }

    method ReadFull(n: nat) returns (r: Option<bytes>)
      modifies this`input
      ensures n <= |old(input)| ==> r == Some(old(input)[..n]) && input == old(input)[n..]
      ensures n > |old(input)| ==> r == None && input == []
    {
      if n > |input| {
        input := [];
        return None;
      }
      r := Some(input[..n]);
      input := input[n..];
    }

    method Write(data: bytes)
      modifies this`output
      ensures output == old(output) + data
    {
      output := output + data;
    }
  }
}
