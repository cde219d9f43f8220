/** FullBinaryReadConsumer: a callback that appends every byte array it is
    given to an in-memory byte stream. */
module FullBinaryRead {
  import opened JavaLang
  import opened Seqs

  class FullBinaryReadConsumer {
    /** The content of the ByteArrayOutputStream. */
    var data: seq<byte>
    var exceptions: seq<string>
    /** The buffer content when it was last replaced, and every array
        accepted since. */
    ghost var origin: seq<byte>
    ghost var accepted: seq<seq<byte>>

    ghost predicate Valid()
      reads this
    {
      data == origin + Flatten(accepted) && exceptions == []
    }

    constructor ()
      ensures Valid()
      ensures data == [] && origin == [] && accepted == []
    {
      data := [];
      exceptions := [];
      origin := [];
      accepted := [];
    }

    /** `accept`: writes the whole array after what is already there. */
    method Accept(input: seq<byte>)
      requires Valid()
      modifies this
      ensures Valid()
      ensures data == old(data) + input
      ensures origin == old(origin) && accepted == old(accepted) + [input]
    {
      data := data + input;
      FlattenSnoc(accepted, input);
      accepted := accepted + [input];
    }

    /** `getData`: the buffer's bytes, which are the concatenation, in
        acceptance order, of the arrays accepted since the buffer was last
        replaced, after what that buffer held; a fresh consumer starts
        from nothing. */
    function GetData(): (r: seq<byte>)
      reads this
      requires Valid()
      ensures r == origin + Flatten(accepted)
    {
      data
    }

    /** `setData`: replaces the buffer; later accepts append to it. */
    method SetData(newData: seq<byte>)
      requires Valid()
      modifies this
      ensures Valid()
      ensures data == newData && origin == newData && accepted == []
    {
      data := newData;
      origin := newData;
      accepted := [];
    }

    /** `getExceptions`: a copy of the exception list, which stays empty. */
    method GetExceptions() returns (r: seq<string>)
      requires Valid()
      ensures r == exceptions && r == []
    {
      r := exceptions;
    }
  }
}
