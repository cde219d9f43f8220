/** `leseFile` with one of the consumers plugged in: the reader hands every
    unit it produces to the consumer's `accept`, one call per unit, in
    order. The `Feed…` methods are those call sequences; the `…File`
    methods are a read followed by them. */
module ReadPipelines {
  import opened Wrappers
  import opened JavaLang
  import opened Seqs
  import opened GeneralNioFileAccess
  import opened FullBinaryRead
  import opened FullTextualRead
  import opened ReadNxLines
  import opened TransformTxtToCsv

  // ---------------------------------------------------------------------
  // Handing units to a consumer

  /** `accept` on each block in turn: the blocks are appended, in order. */
  method FeedBinary(c: FullBinaryReadConsumer, blocks: seq<seq<byte>>)
    requires c.Valid()
    modifies c
    ensures c.Valid()
    ensures c.data == old(c.data) + Flatten(blocks)
    ensures c.origin == old(c.origin) && c.accepted == old(c.accepted) + blocks
  {
    for i := 0 to |blocks|
      invariant c.Valid()
      invariant c.data == old(c.data) + Flatten(blocks[..i])
      invariant c.origin == old(c.origin) && c.accepted == old(c.accepted) + blocks[..i]
    {
      FlattenSnoc(blocks[..i], blocks[i]);
      assert blocks[..i + 1] == blocks[..i] + [blocks[i]];
      c.Accept(blocks[i]);
    }
    assert blocks[..|blocks|] == blocks;
  }

  /** `accept` on each string in turn: the strings are appended, in order. */
  method FeedText(c: FullTextualReadConsumer, texts: seq<string>)
    requires c.Valid()
    modifies c
    ensures c.Valid()
    ensures c.data == old(c.data) + Flatten(texts)
    ensures c.origin == old(c.origin) && c.accepted == old(c.accepted) + texts
  {
    for i := 0 to |texts|
      invariant c.Valid()
      invariant c.data == old(c.data) + Flatten(texts[..i])
      invariant c.origin == old(c.origin) && c.accepted == old(c.accepted) + texts[..i]
    {
      FlattenSnoc(texts[..i], texts[i]);
      assert texts[..i + 1] == texts[..i] + [texts[i]];
      c.Accept(texts[i]);
    }
    assert texts[..|texts|] == texts;
  }

  /** `accept` on each line in turn: the lines join the delivered history. */
  method FeedFirstN(c: ReadNxLinesTextConsumer, lines: seq<string>)
    requires c.Valid()
    modifies c
    ensures c.Valid()
    ensures c.delivered == old(c.delivered) + lines
  {
    for i := 0 to |lines|
      invariant c.Valid()
      invariant c.delivered == old(c.delivered) + lines[..i]
    {
      assert lines[..i + 1] == lines[..i] + [lines[i]];
      c.Accept(lines[i]);
    }
    assert lines[..|lines|] == lines;
  }

  /** `accept` on each line in turn: the block state machine runs over
      them, starting from the consumer's current state. */
  method FeedCsv(c: TxtToCsvConsumer, lines: seq<string>)
    requires c.Valid()
    modifies c
    ensures c.Valid()
    ensures c.State() == Run(ColumnWidths, old(c.State()), lines)
    ensures c.origin == old(c.origin) && c.seen == old(c.seen) + lines
  {
    for i := 0 to |lines|
      invariant c.Valid()
      invariant c.State() == Run(ColumnWidths, old(c.State()), lines[..i])
      invariant c.origin == old(c.origin) && c.seen == old(c.seen) + lines[..i]
    {
      assert lines[..i + 1][..i] == lines[..i];
      assert lines[..i + 1] == lines[..i] + [lines[i]];
      c.Accept(lines[i]);
    }
    assert lines[..|lines|] == lines;
  }

  // ---------------------------------------------------------------------
  // Reading a file into a consumer

  /** In binary mode the decoding functions are never used. */
  function NoDecode(cs: Charset, b: seq<byte>): string { "" }

  function NoLines(cs: Charset, b: seq<byte>): seq<string> { [] }

  /** A binary read into a fresh FullBinaryReadConsumer yields the file's
      bytes exactly, whatever the block size: reading in blocks and
      reading the whole file give the same data. */
  method ReadBinaryFile(fs: map<Path, seq<byte>>, f: string, clazz: Option<ClassRef>, blocksize: int)
    returns (r: Result<seq<byte>, ReadError>)
    ensures Resolve(f, clazz) in fs ==> r == Success(fs[Resolve(f, clazz)])
    ensures Resolve(f, clazz) !in fs ==> r == Failure(NotFound(f, clazz))
  {
    var units := LeseFile(fs, f, clazz, None, blocksize, NoDecode, NoLines);
    if units.Failure? {
      return Failure(units.error);
    }
    var c := new FullBinaryReadConsumer();
    FeedBinary(c, units.value.blocks);
    if blocksize <= 0 {
      FlattenSnoc([], fs[Resolve(f, clazz)]);
      assert [] + [fs[Resolve(f, clazz)]] == units.value.blocks;
    }
    assert c.data == Flatten(units.value.blocks) == fs[Resolve(f, clazz)];
    r := Success(c.GetData());
  }

  /** A text read into a fresh FullTextualReadConsumer: the decoded file
      when read whole, and the lines run together, without their line
      terminators, when read line by line. */
  method ReadTextFile(fs: map<Path, seq<byte>>, f: string, clazz: Option<ClassRef>,
                      charset: Charset, blocksize: int,
                      decode: (Charset, seq<byte>) -> string,
                      readLines: (Charset, seq<byte>) -> seq<string>)
    returns (r: Result<string, ReadError>)
    ensures Resolve(f, clazz) !in fs ==> r == Failure(NotFound(f, clazz))
    ensures Resolve(f, clazz) in fs && blocksize <= 0 ==>
              r == Success(decode(charset, fs[Resolve(f, clazz)]))
    ensures Resolve(f, clazz) in fs && blocksize > 0 ==>
              r == Success(Flatten(readLines(charset, fs[Resolve(f, clazz)])))
  {
    var units := LeseFile(fs, f, clazz, Some(charset), blocksize, decode, readLines);
    if units.Failure? {
      return Failure(units.error);
    }
    var c := new FullTextualReadConsumer();
    FeedText(c, units.value.texts);
    if blocksize <= 0 {
      FlattenSnoc([], decode(charset, fs[Resolve(f, clazz)]));
      assert [] + [decode(charset, fs[Resolve(f, clazz)])] == units.value.texts;
      assert Flatten(units.value.texts) == decode(charset, fs[Resolve(f, clazz)]);
    }
    assert c.data == Flatten(units.value.texts);
    r := Success(c.GetData());
  }

  /** A line read into a ReadNxLinesTextConsumer for `n` lines keeps the
      file's first min(k, n) lines of k; a whole-file read delivers one
      unit, kept when n is positive. */
  method FirstLinesOfFile(fs: map<Path, seq<byte>>, f: string, clazz: Option<ClassRef>,
                          charset: Charset, blocksize: int, n: int,
                          decode: (Charset, seq<byte>) -> string,
                          readLines: (Charset, seq<byte>) -> seq<string>)
    returns (r: Result<seq<string>, ReadError>)
    ensures Resolve(f, clazz) !in fs ==> r == Failure(NotFound(f, clazz))
    ensures Resolve(f, clazz) in fs && blocksize > 0 ==>
              var lines := readLines(charset, fs[Resolve(f, clazz)]);
              r == Success(lines[..Min(|lines|, Max(n, 0))])
    ensures Resolve(f, clazz) in fs && blocksize <= 0 ==>
              r == Success(if n > 0 then [decode(charset, fs[Resolve(f, clazz)])] else [])
  {
    var units := LeseFile(fs, f, clazz, Some(charset), blocksize, decode, readLines);
    if units.Failure? {
      return Failure(units.error);
    }
    var c := new ReadNxLinesTextConsumer(n);
    FeedFirstN(c, units.value.texts);
    assert c.delivered == units.value.texts;
    r := Success(c.GetData());
  }

  /** A line read into a fresh TxtToCsvConsumer: the records of the data
      lines of every `---` … `record(s) selected.` block of the file. */
  method TransformFileToCsv(fs: map<Path, seq<byte>>, f: string, clazz: Option<ClassRef>,
                            charset: Charset, blocksize: int,
                            decode: (Charset, seq<byte>) -> string,
                            readLines: (Charset, seq<byte>) -> seq<string>)
    returns (r: Result<seq<string>, ReadError>)
    ensures Resolve(f, clazz) !in fs ==> r == Failure(NotFound(f, clazz))
    ensures Resolve(f, clazz) in fs && blocksize > 0 ==>
              r == Success(Run(ColumnWidths, CsvState(false, []),
                               readLines(charset, fs[Resolve(f, clazz)])).data)
    ensures Resolve(f, clazz) in fs && blocksize <= 0 ==> r == Success([])
  {
    var units := LeseFile(fs, f, clazz, Some(charset), blocksize, decode, readLines);
    if units.Failure? {
      return Failure(units.error);
    }
    var c := new TxtToCsvConsumer();
    FeedCsv(c, units.value.texts);
    r := Success(c.GetData());
  }

  // ---------------------------------------------------------------------
  // Properties of the read modes

  /** In text mode the positive block size is only a switch: two reads
      with different positive sizes deliver the same lines. */
  method LineModeIgnoresBlocksize(fs: map<Path, seq<byte>>, f: string, clazz: Option<ClassRef>,
                                  charset: Charset, b1: int, b2: int,
                                  decode: (Charset, seq<byte>) -> string,
                                  readLines: (Charset, seq<byte>) -> seq<string>)
    returns (r1: Result<Units, ReadError>, r2: Result<Units, ReadError>)
    requires b1 > 0 && b2 > 0
    ensures r1 == r2
  {
    r1 := LeseFile(fs, f, clazz, Some(charset), b1, decode, readLines);
    r2 := LeseFile(fs, f, clazz, Some(charset), b2, decode, readLines);
  }

  /** An empty file read in binary mode: no `accept` call at all in block
      mode, one call with an empty array in whole-file mode. */
  method ReadEmptyBinaryFile(fs: map<Path, seq<byte>>, f: string, clazz: Option<ClassRef>, blocksize: int)
    returns (r: Result<Units, ReadError>)
    requires Resolve(f, clazz) in fs && fs[Resolve(f, clazz)] == []
    ensures blocksize > 0 ==> r == Success(ByteUnits([]))
    ensures blocksize <= 0 ==> r == Success(ByteUnits([[]]))
  {
    r := LeseFile(fs, f, clazz, None, blocksize, NoDecode, NoLines);
    if blocksize > 0 {
      EmptyFileNoBlocks(r.value.blocks, blocksize);
    }
  }
}
