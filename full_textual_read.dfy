/** FullTextualReadConsumer: a callback that appends every string it is
    given to a StringBuilder. */
module FullTextualRead {
  import opened Seqs

  class FullTextualReadConsumer {
    /** The content of the StringBuilder. */
    var data: string
    var exceptions: seq<string>
    /** The builder content when it was last replaced, and every string
        accepted since. */
    ghost var origin: string
    ghost var accepted: seq<string>

    ghost predicate Valid()
      reads this
    {
      data == origin + Flatten(accepted) && exceptions == []
    }

    constructor ()
      ensures Valid()
      ensures data == "" && origin == "" && accepted == []
    {
      data := "";
      exceptions := [];
      origin := "";
      accepted := [];
    }

    /** `accept`: appends the string; the text grows by exactly its length
        and the earlier text is kept, so an empty string changes nothing. */
    method Accept(input: string)
      requires Valid()
      modifies this
      ensures Valid()
      ensures data == old(data) + input
      ensures |data| == |old(data)| + |input| && old(data) <= data
      ensures origin == old(origin) && accepted == old(accepted) + [input]
    {
      data := data + input;
      FlattenSnoc(accepted, input);
      accepted := accepted + [input];
    }

    /** `getData`: the builder's text, the concatenation in acceptance order
        of the strings accepted since the builder was last replaced, after
        what that builder held; a fresh consumer starts from "". */
    function GetData(): (r: string)
      reads this
      requires Valid()
      ensures r == origin + Flatten(accepted)
    {
      data
    }

    /** `setData`: replaces the builder; later accepts append to it. */
    method SetData(newData: string)
      requires Valid()
      modifies this
      ensures Valid()
      ensures data == newData && origin == newData && accepted == []
    {
      data := newData;
      origin := newData;
      accepted := [];
    }

    /** `getExceptions`: a copy of the exception list, which nothing ever
        writes to. */
    method GetExceptions() returns (r: seq<string>)
      requires Valid()
      ensures r == exceptions && r == []
    {
      r := exceptions;
    }
  }
}
