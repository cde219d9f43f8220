/** ReadNxLinesTextConsumer: a line callback that keeps the first N lines it
    is given and silently ignores the rest (the read itself still runs to
    the end of the file). */
module ReadNxLines {
  import opened Seqs

  /** What `accept` leaves in the list after it has been called with each
      of `lines`, one call at a time: a line is added while fewer than
      `limit` are stored. */
  function Kept(limit: int, lines: seq<string>): seq<string>
    decreases |lines|
  {
    if lines == [] then []
    else
      var prev := Kept(limit, lines[..|lines| - 1]);
      if |prev| < limit then prev + [lines[|lines| - 1]] else prev
  }

  /** After k calls the list is the first min(k, N) lines, in order; with
      N <= 0 it stays empty. */
  lemma {:induction false} KeptIsPrefix(limit: int, lines: seq<string>)
    ensures Kept(limit, lines) == lines[..Min(|lines|, Max(limit, 0))]
    decreases |lines|
  {
    if lines != [] {
      var init := lines[..|lines| - 1];
      KeptIsPrefix(limit, init);
      assert init[..Min(|init|, Max(limit, 0))] == lines[..Min(|init|, Max(limit, 0))];
    }
  }

  /** Once N lines are stored, further lines change nothing. */
  lemma KeptSaturates(limit: int, lines: seq<string>, more: seq<string>)
    requires |Kept(limit, lines)| >= limit
    ensures Kept(limit, lines + more) == Kept(limit, lines)
  {
    KeptIsPrefix(limit, lines);
    KeptIsPrefix(limit, lines + more);
    assert (lines + more)[..Min(|lines|, Max(limit, 0))] == lines[..Min(|lines|, Max(limit, 0))];
  }

  class ReadNxLinesTextConsumer {
    var data: seq<string>
    const numberOfLinesToBeRead: int
    var counter: int
    var exceptions: seq<string>
    /** Every line passed to `accept` so far. */
    ghost var delivered: seq<string>

    ghost predicate Valid()
      reads this
    {
      && counter == |data|
      && data == Kept(numberOfLinesToBeRead, delivered)
      && exceptions == []
    }

    /** The constructor that must be used: N lines to keep, none kept yet. */
    constructor (numberOfLinesToBeRead: int)
      ensures Valid()
      ensures this.numberOfLinesToBeRead == numberOfLinesToBeRead
      ensures counter == 0 && data == [] && delivered == []
    {
      this.numberOfLinesToBeRead := numberOfLinesToBeRead;
      counter := 0;
      data := [];
      exceptions := [];
      delivered := [];
    }

    /** `accept`: stores the line and counts it while fewer than N lines
        are stored, and otherwise does nothing. */
    method Accept(t: string)
      requires Valid()
      modifies this
      ensures Valid()
      ensures delivered == old(delivered) + [t]
      ensures old(counter) < numberOfLinesToBeRead ==>
                data == old(data) + [t] && counter == old(counter) + 1
      ensures old(counter) >= numberOfLinesToBeRead ==>
                data == old(data) && counter == old(counter)
    {
      if counter < numberOfLinesToBeRead {
        data := data + [t];
        counter := counter + 1;
      }
      delivered := delivered + [t];
      assert delivered[..|delivered| - 1] == old(delivered);
    }

    /** `getData`: the first min(k, N) of the k lines accepted so far, and
        never more than max(N, 0) of them. */
    function GetData(): (r: seq<string>)
      reads this
      requires Valid()
      ensures r == delivered[..Min(|delivered|, Max(numberOfLinesToBeRead, 0))]
      ensures |r| <= Max(numberOfLinesToBeRead, 0)
    {
      KeptIsPrefix(numberOfLinesToBeRead, delivered);
      data
    }

    /** `getExceptions`: a copy of the exception list, which nothing ever
        writes to. */
    method GetExceptions() returns (r: seq<string>)
      requires Valid()
      ensures r == exceptions && r == []
    {
      r := exceptions;
    }
  }
}
