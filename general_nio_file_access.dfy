/** GeneralNIOFileAccess: the read dispatcher `leseFile` and the
    name-filtered directory listings.

    The file system is a map from resolved paths to file contents. What
    the Java library does with those bytes in text mode (decoding with a
    charset, and splitting into lines with `BufferedReader.readLine`) is
    passed in as two functions. The consumer callback is not a parameter:
    `LeseFile` returns the units it hands to `accept`, in call order, and
    the `ReadPipelines` module feeds them to the concrete consumers. */
module GeneralNioFileAccess {
  import opened Wrappers
  import opened JavaLang
  import opened Seqs

  /** The class object passed as `clazz`, against which resources resolve. */
  datatype ClassRef = ClassRef(name: string)

  datatype Charset = Charset(name: string)

  /** A resolved location: a file-system path, or a resource found through
      a class. */
  datatype Path = FileSystemPath(name: string) | ResourcePath(owner: ClassRef, name: string)

  /** Opening a missing file raises NoSuchFileException; a missing resource
      makes `getResource` return null, which fails on dereference. */
  datatype ReadError = NoSuchFile(name: string) | ResourceNotFound(owner: ClassRef, name: string)

  /** The units `accept` receives, in order: byte arrays in binary mode,
      strings in text mode. */
  datatype Units = ByteUnits(blocks: seq<seq<byte>>) | TextUnits(texts: seq<string>)

  /** A null `clazz` means `f` is a file-system path; otherwise `f` is a
      resource of `clazz`. */
  function Resolve(f: string, clazz: Option<ClassRef>): Path
  {
    if clazz.None? then FileSystemPath(f) else ResourcePath(clazz.value, f)
  }

  function NotFound(f: string, clazz: Option<ClassRef>): ReadError
  {
    if clazz.None? then NoSuchFile(f) else ResourceNotFound(clazz.value, f)
  }

  // ---------------------------------------------------------------------
  // Binary blocks

  /** `blocks` delivers `content` exactly, in order, each block holding
      between 1 and `blocksize` bytes. */
  predicate IsBlockSplit(blocks: seq<seq<byte>>, content: seq<byte>, blocksize: int)
  {
    && Flatten(blocks) == content
    && forall k :: 0 <= k < |blocks| ==> 1 <= |blocks[k]| <= blocksize
  }

  /** An empty file is delivered as no blocks at all. */
  lemma EmptyFileNoBlocks(blocks: seq<seq<byte>>, blocksize: int)
    requires IsBlockSplit(blocks, [], blocksize)
    ensures blocks == []
  {
    FlattenNonEmpty(blocks);
  }

  /** The blocks a stream would give that always fills the buffer: exactly
      `blocksize` bytes each, the last possibly shorter. */
  function FullBlocks(content: seq<byte>, blocksize: int): seq<seq<byte>>
    requires blocksize > 0
    decreases |content|
  {
    if content == [] then []
    else if |content| <= blocksize then [content]
    else [content[..blocksize]] + FullBlocks(content[blocksize..], blocksize)
  }

  /** Full blocks are one admissible delivery: they split the content, and
      every block but the last has exactly `blocksize` bytes. */
  lemma {:induction false} FullBlocksSplit(content: seq<byte>, blocksize: int)
    requires blocksize > 0
    ensures IsBlockSplit(FullBlocks(content, blocksize), content, blocksize)
    ensures forall k :: 0 <= k < |FullBlocks(content, blocksize)| - 1 ==>
              |FullBlocks(content, blocksize)[k]| == blocksize
    decreases |content|
  {
    if |content| > blocksize {
      var rest := content[blocksize..];
      FullBlocksSplit(rest, blocksize);
      assert content[..blocksize] + rest == content;
    }
  }

  /** The input stream over a file's bytes, with `read(byte[])`. */
  class ByteInputStream {
    const content: seq<byte>
    var pos: nat

    ghost predicate Valid()
      reads this
    {
      pos <= |content|
    }

    constructor (content: seq<byte>)
      ensures Valid() && this.content == content && pos == 0
    {
      this.content := content;
      pos := 0;
    }

    /** `read(b)`: 0 for an empty buffer; -1 at the end of the stream;
        otherwise some count n between 1 and the smaller of the buffer's
        length and the bytes left, with the next n bytes copied to the front
        of the buffer and the rest of the buffer untouched. How many bytes
        one call delivers is up to the stream, so it is left open here. */
    method Read(b: array<byte>) returns (n: int)
      requires Valid()
      modifies this, b
      ensures Valid()
      ensures b.Length == 0 ==> n == 0 && pos == old(pos) && b[..] == old(b[..])
      ensures b.Length > 0 && old(pos) == |content| ==>
                n == -1 && pos == old(pos) && b[..] == old(b[..])
      ensures b.Length > 0 && old(pos) < |content| ==>
                && 1 <= n <= b.Length && n <= |content| - old(pos)
                && pos == old(pos) + n
                && b[..n] == content[old(pos)..pos]
                && b[n..] == old(b[n..])
    {
      if b.Length == 0 {
        n := 0;
      } else if pos == |content| {
        n := -1;
      } else {
        var avail := Min(b.Length, |content| - pos);
        n :| 1 <= n <= avail;
        forall i | 0 <= i < n {
          b[i] := content[pos + i];
        }
        pos := pos + n;
      }
    }
  }

  /** The binary block loop of `leseFile`: one reused buffer of `blocksize`
      bytes is refilled until the stream reports -1, and each read is
      delivered as a copy trimmed to the bytes actually read. */
  method ReadBlocks(content: seq<byte>, blocksize: int) returns (blocks: seq<seq<byte>>)
    requires blocksize > 0
    ensures IsBlockSplit(blocks, content, blocksize)
  {
    var stream := new ByteInputStream(content);
    var inBuffer := new byte[blocksize];
    blocks := [];
    var anzahlBytesRead := stream.Read(inBuffer);
    while anzahlBytesRead != -1
      invariant stream.Valid() && stream.content == content
      invariant anzahlBytesRead == -1 ==> stream.pos == |content| && Flatten(blocks) == content
      invariant anzahlBytesRead != -1 ==>
                  && 1 <= anzahlBytesRead <= blocksize && anzahlBytesRead <= stream.pos
                  && inBuffer[..anzahlBytesRead] == content[stream.pos - anzahlBytesRead..stream.pos]
                  && Flatten(blocks) == content[..stream.pos - anzahlBytesRead]
      invariant forall k :: 0 <= k < |blocks| ==> 1 <= |blocks[k]| <= blocksize
      decreases |content| - stream.pos, if anzahlBytesRead == -1 then 0 else 1
    {
      var retBuffer := inBuffer[..anzahlBytesRead];
      FlattenSnoc(blocks, retBuffer);
      assert content[..stream.pos - anzahlBytesRead] + retBuffer == content[..stream.pos];
      blocks := blocks + [retBuffer];
      anzahlBytesRead := stream.Read(inBuffer);
    }
  }

  // ---------------------------------------------------------------------
  // Text lines

  /** A BufferedReader, seen through the successive results of `readLine`. */
  class LineReader {
    const lines: seq<string>
    var next: nat

    ghost predicate Valid()
      reads this
    {
      next <= |lines|
    }

    constructor (lines: seq<string>)
      ensures Valid() && this.lines == lines && next == 0
    {
      this.lines := lines;
      next := 0;
    }

    /** `readLine`: the next line, or null once all are read. */
    method ReadLine() returns (line: Option<string>)
      requires Valid()
      modifies this
      ensures Valid()
      ensures old(next) < |lines| ==> line == Some(lines[old(next)]) && next == old(next) + 1
      ensures old(next) == |lines| ==> line == None && next == old(next)
    {
      if next < |lines| {
        line := Some(lines[next]);
        next := next + 1;
      } else {
        line := None;
      }
    }
  }

  /** The line loop of `leseFile`: every line the reader yields is
      delivered, in order, until it yields null. */
  method ReadLines(lines: seq<string>) returns (texts: seq<string>)
    ensures texts == lines
  {
    var reader := new LineReader(lines);
    texts := [];
    var line := reader.ReadLine();
    while line.Some?
      invariant reader.Valid() && reader.lines == lines
      invariant line.Some? ==>
                  0 < reader.next && line.value == lines[reader.next - 1]
                  && texts == lines[..reader.next - 1]
      invariant line.None? ==> reader.next == |lines| && texts == lines
      decreases |lines| - reader.next, if line.Some? then 1 else 0
    {
      assert lines[..reader.next] == texts + [line.value];
      texts := texts + [line.value];
      line := reader.ReadLine();
    }
  }

  // ---------------------------------------------------------------------
  // The dispatcher

  /** `leseFile`: a non-null charset means text, null means binary; the
      sign of `blocksize` picks whole file (<= 0) or pieces (> 0): lines in
      text mode, whatever the positive value, and blocks of at most
      `blocksize` bytes in binary mode. `clazz` only decides where the file
      is looked up. */
  method LeseFile(fs: map<Path, seq<byte>>, f: string, clazz: Option<ClassRef>,
                  charset: Option<Charset>, blocksize: int,
                  decode: (Charset, seq<byte>) -> string,
                  readLines: (Charset, seq<byte>) -> seq<string>)
    returns (r: Result<Units, ReadError>)
    ensures Resolve(f, clazz) !in fs ==> r == Failure(NotFound(f, clazz))
    ensures Resolve(f, clazz) in fs ==> r.Success? && (r.value.ByteUnits? <==> charset.None?)
    ensures Resolve(f, clazz) in fs && charset.Some? && blocksize > 0 ==>
              r.value.texts == readLines(charset.value, fs[Resolve(f, clazz)])
    ensures Resolve(f, clazz) in fs && charset.Some? && blocksize <= 0 ==>
              r.value.texts == [decode(charset.value, fs[Resolve(f, clazz)])]
    ensures Resolve(f, clazz) in fs && charset.None? && blocksize > 0 ==>
              IsBlockSplit(r.value.blocks, fs[Resolve(f, clazz)], blocksize)
    ensures Resolve(f, clazz) in fs && charset.None? && blocksize <= 0 ==>
              r.value.blocks == [fs[Resolve(f, clazz)]]
  {
    var p := Resolve(f, clazz);
    if p !in fs {
      return Failure(NotFound(f, clazz));
    }
    var content := fs[p];
    if charset.Some? {
      if blocksize > 0 {
        var texts := ReadLines(readLines(charset.value, content));
        r := Success(TextUnits(texts));
      } else {
        r := Success(TextUnits([decode(charset.value, content)]));
      }
    } else {
      if blocksize > 0 {
        var blocks := ReadBlocks(content, blocksize);
        r := Success(ByteUnits(blocks));
      } else {
        r := Success(ByteUnits([content]));
      }
    }
  }

  // ---------------------------------------------------------------------
  // Name-filtered listings

  datatype EntryKind = RegularFile | Directory | OtherEntry

  /** One path of a directory walk, with what `toFile()` reports it to be. */
  datatype WalkEntry = WalkEntry(path: string, kind: EntryKind)

  /** The paths of the walk entries that `keep` accepts, in walk order. */
  function PathsWhere(walk: seq<WalkEntry>, keep: WalkEntry -> bool): (r: seq<string>)
    ensures |r| <= |walk|
    decreases |walk|
  {
    if walk == [] then []
    else
      var rest := PathsWhere(walk[1..], keep);
      if keep(walk[0]) then [walk[0].path] + rest else rest
  }

  /** Strictly increasing positions. */
  predicate Increasing(idx: seq<nat>)
  {
    forall k, l :: 0 <= k < l < |idx| ==> idx[k] < idx[l]
  }

  /** Each index, plus one. */
  function Shift(idx: seq<nat>): (r: seq<nat>)
    ensures |r| == |idx|
    ensures forall k :: 0 <= k < |idx| ==> r[k] == idx[k] + 1
  {
    if idx == [] then [] else [idx[0] + 1] + Shift(idx[1..])
  }

  /** Shifting increasing positions past a new first entry, which may
      itself be selected at position 0, keeps them increasing. */
  lemma ShiftIncreasing(idx: seq<nat>, first: bool)
    requires Increasing(idx)
    ensures Increasing((if first then [0] else []) + Shift(idx))
  {
    var r := (if first then [0] else []) + Shift(idx);
    var h := if first then 1 else 0;
    forall k, l | 0 <= k < l < |r|
      ensures r[k] < r[l]
    {
      assert r[l] == idx[l - h] + 1;
      if k >= h {
        assert r[k] == idx[k - h] + 1;
      }
    }
  }

  /** The k-th of `paths` is the path of the accepted entry at `idx[k]`. */
  predicate PicksAt(walk: seq<WalkEntry>, keep: WalkEntry -> bool, idx: seq<nat>, paths: seq<string>)
  {
    && |idx| == |paths|
    && forall k :: 0 <= k < |idx| ==>
         idx[k] < |walk| && keep(walk[idx[k]]) && paths[k] == walk[idx[k]].path
  }

  /** Every accepted entry's position is among `idx`. */
  predicate CoversAccepted(walk: seq<WalkEntry>, keep: WalkEntry -> bool, idx: seq<nat>)
  {
    forall i :: 0 <= i < |walk| && keep(walk[i]) ==> i in idx
  }

  /** The positions for a walk, from those for its tail. */
  function ConsPositions(first: bool, idx: seq<nat>): seq<nat>
  {
    (if first then [0] else []) + Shift(idx)
  }

  lemma PicksAtCons(walk: seq<WalkEntry>, keep: WalkEntry -> bool, idx: seq<nat>)
    requires walk != []
    requires PicksAt(walk[1..], keep, idx, PathsWhere(walk[1..], keep))
    ensures PicksAt(walk, keep, ConsPositions(keep(walk[0]), idx), PathsWhere(walk, keep))
  {
    var tail := walk[1..];
    var rest := PathsWhere(tail, keep);
    var shifted := Shift(idx);
    forall k | 0 <= k < |idx|
      ensures shifted[k] < |walk| && keep(walk[shifted[k]]) && rest[k] == walk[shifted[k]].path
    {
      assert walk[shifted[k]] == tail[idx[k]];
    }
    if keep(walk[0]) {
      PicksAtPrepend(walk, keep, shifted, rest);
    } else {
      assert PathsWhere(walk, keep) == rest;
    }
  }

  lemma PicksAtPrepend(walk: seq<WalkEntry>, keep: WalkEntry -> bool, idx: seq<nat>, paths: seq<string>)
    requires walk != [] && keep(walk[0])
    requires PicksAt(walk, keep, idx, paths)
    ensures PicksAt(walk, keep, [0] + idx, [walk[0].path] + paths)
  {
    var idx2 := [0] + idx;
    var paths2 := [walk[0].path] + paths;
    forall k | 0 < k < |idx2|
      ensures idx2[k] < |walk| && keep(walk[idx2[k]]) && paths2[k] == walk[idx2[k]].path
    {
      assert idx2[k] == idx[k - 1] && paths2[k] == paths[k - 1];
    }
  }

  lemma CoversAcceptedCons(walk: seq<WalkEntry>, keep: WalkEntry -> bool, idx: seq<nat>)
    requires walk != []
    requires CoversAccepted(walk[1..], keep, idx)
    ensures CoversAccepted(walk, keep, ConsPositions(keep(walk[0]), idx))
  {
    var idx2 := ConsPositions(keep(walk[0]), idx);
    var h := if keep(walk[0]) then 1 else 0;
    forall i | 0 <= i < |walk| && keep(walk[i])
      ensures i in idx2
    {
      if i > 0 {
        assert walk[1..][i - 1] == walk[i];
        var k :| 0 <= k < |idx| && idx[k] == i - 1;
        assert idx2[h + k] == i;
      }
    }
  }

  /** `PathsWhere` picks entries in walk order and misses none: there are
      increasing walk positions, covering every accepted entry, whose
      paths are exactly the result. */
  lemma {:induction false} PathsWhereInOrder(walk: seq<WalkEntry>, keep: WalkEntry -> bool)
    returns (idx: seq<nat>)
    ensures |idx| == |PathsWhere(walk, keep)|
    ensures forall k :: 0 <= k < |idx| ==>
              idx[k] < |walk| && keep(walk[idx[k]]) && PathsWhere(walk, keep)[k] == walk[idx[k]].path
    ensures Increasing(idx)
    ensures forall i :: 0 <= i < |walk| && keep(walk[i]) ==> i in idx
    decreases |walk|
  {
    if walk == [] {
      return [];
    }
    var idx' := PathsWhereInOrder(walk[1..], keep);
    assert PicksAt(walk[1..], keep, idx', PathsWhere(walk[1..], keep));
    assert CoversAccepted(walk[1..], keep, idx');
    PicksAtCons(walk, keep, idx');
    CoversAcceptedCons(walk, keep, idx');
    ShiftIncreasing(idx', keep(walk[0]));
    idx := ConsPositions(keep(walk[0]), idx');
    assert PicksAt(walk, keep, idx, PathsWhere(walk, keep));
    assert CoversAccepted(walk, keep, idx);
  }

  /** A path is listed exactly when some accepted walk entry has it. */
  lemma PathsWhereMembers(walk: seq<WalkEntry>, keep: WalkEntry -> bool)
    ensures forall p :: p in PathsWhere(walk, keep) <==>
              exists i :: 0 <= i < |walk| && keep(walk[i]) && walk[i].path == p
  {
    var r := PathsWhere(walk, keep);
    var idx := PathsWhereInOrder(walk, keep);
    forall p | p in r
      ensures exists i :: 0 <= i < |walk| && keep(walk[i]) && walk[i].path == p
    {
      var k :| 0 <= k < |r| && r[k] == p;
      assert keep(walk[idx[k]]) && walk[idx[k]].path == p;
    }
    forall p | exists i :: 0 <= i < |walk| && keep(walk[i]) && walk[i].path == p
      ensures p in r
    {
      var i :| 0 <= i < |walk| && keep(walk[i]) && walk[i].path == p;
      var k :| 0 <= k < |idx| && idx[k] == i;
      assert r[k] == p;
    }
  }

  /** `r` lists the paths of exactly the accepted walk entries, in walk
      order: there are strictly increasing walk positions, covering every
      accepted entry and nothing else, whose paths are `r`. */
  ghost predicate ListedInOrder(walk: seq<WalkEntry>, keep: WalkEntry -> bool, r: seq<string>)
  {
    exists idx: seq<nat> :: Increasing(idx) && PicksAt(walk, keep, idx, r) && CoversAccepted(walk, keep, idx)
  }

  lemma PathsWhereListedInOrder(walk: seq<WalkEntry>, keep: WalkEntry -> bool)
    ensures ListedInOrder(walk, keep, PathsWhere(walk, keep))
  {
    var idx := PathsWhereInOrder(walk, keep);
    assert Increasing(idx) && PicksAt(walk, keep, idx, PathsWhere(walk, keep)) && CoversAccepted(walk, keep, idx);
  }

  /** The first of strictly increasing positions is the least of them. */
  lemma HeadIsLeast(a: seq<nat>, x: nat)
    requires Increasing(a) && x in a
    ensures a[0] <= x
  {
    var j :| 0 <= j < |a| && a[j] == x;
    if j > 0 {
      assert a[0] < a[j];
    }
  }

  /** A non-empty sequence holds its first element. */
  lemma HasHead(s: seq<nat>)
    ensures s != [] ==> s[0] in s
  {
  }

  /** Two strictly increasing sequences with the same elements are equal. */
  lemma {:induction false} IncreasingSameElements(a: seq<nat>, b: seq<nat>)
    requires Increasing(a) && Increasing(b)
    requires forall x :: x in a <==> x in b
    ensures a == b
    decreases |a|
  {
    HasHead(a);
    HasHead(b);
    if a != [] && b != [] {
      HeadIsLeast(a, b[0]);
      HeadIsLeast(b, a[0]);
      forall x
        ensures x in a[1..] <==> x in b[1..]
      {
        if x in a[1..] {
          var k :| 1 <= k < |a| && a[k] == x;
          assert a[0] < a[k] && x in a && x in b;
          var l :| 0 <= l < |b| && b[l] == x;
          assert b[1..][l - 1] == x;
        }
        if x in b[1..] {
          var k :| 1 <= k < |b| && b[k] == x;
          assert b[0] < b[k] && x in b && x in a;
          var l :| 0 <= l < |a| && a[l] == x;
          assert a[1..][l - 1] == x;
        }
      }
      IncreasingSameElements(a[1..], b[1..]);
      assert a == [a[0]] + a[1..] && b == [b[0]] + b[1..];
    }
  }

  /** Listing in walk order determines the list: the filtered listing is
      the only one, so no reordering or repetition of it qualifies. */
  lemma ListedInOrderUnique(walk: seq<WalkEntry>, keep: WalkEntry -> bool, r1: seq<string>, r2: seq<string>)
    requires ListedInOrder(walk, keep, r1) && ListedInOrder(walk, keep, r2)
    ensures r1 == r2
  {
    var idx1 :| Increasing(idx1) && PicksAt(walk, keep, idx1, r1) && CoversAccepted(walk, keep, idx1);
    var idx2 :| Increasing(idx2) && PicksAt(walk, keep, idx2, r2) && CoversAccepted(walk, keep, idx2);
    PicksWithinCover(walk, keep, idx1, r1, idx2);
    PicksWithinCover(walk, keep, idx2, r2, idx1);
    IncreasingSameElements(idx1, idx2);
    SamePositionsSamePaths(walk, keep, idx1, r1, r2);
  }

  /** Positions that pick accepted entries are among any covering positions. */
  lemma PicksWithinCover(walk: seq<WalkEntry>, keep: WalkEntry -> bool, idx: seq<nat>, r: seq<string>, cover: seq<nat>)
    requires PicksAt(walk, keep, idx, r) && CoversAccepted(walk, keep, cover)
    ensures forall x :: x in idx ==> x in cover
  {
    forall x | x in idx
      ensures x in cover
    {
      var k :| 0 <= k < |idx| && idx[k] == x;
    }
  }

  /** The same positions pick the same paths. */
  lemma SamePositionsSamePaths(walk: seq<WalkEntry>, keep: WalkEntry -> bool, idx: seq<nat>, r1: seq<string>, r2: seq<string>)
    requires PicksAt(walk, keep, idx, r1) && PicksAt(walk, keep, idx, r2)
    ensures r1 == r2
  {
  }

  /** The entries `holeAlleFilesMitNameEnthaeltVonVerzeichnis` keeps. */
  function FileContaining(nameEnthaelt: string): WalkEntry -> bool
  {
    (e: WalkEntry) => e.kind == RegularFile && Contains(e.path, nameEnthaelt)
  }

  /** The entries `holeAlleUnterverzeichnisseMitNameEnthaeltVonVerzeichnis`
      keeps. */
  function DirectoryContaining(nameEnthaelt: string): WalkEntry -> bool
  {
    (e: WalkEntry) => e.kind == Directory && Contains(e.path, nameEnthaelt)
  }

  /** The entries `holeAlleFilesMitNameEndetVonVerzeichnis` keeps. */
  function FileEndingWith(nameEndet: string): WalkEntry -> bool
  {
    (e: WalkEntry) => e.kind == RegularFile && EndsWith(e.path, nameEndet)
  }

  /** `holeAlleFilesMitNameEnthaeltVonVerzeichnis` over a given walk: the
      regular files whose path contains `nameEnthaelt`, in walk order. */
  function HoleAlleFilesMitNameEnthaelt(walk: seq<WalkEntry>, nameEnthaelt: string): (r: seq<string>)
    ensures ListedInOrder(walk, FileContaining(nameEnthaelt), r)
    ensures forall p :: p in r <==>
              exists i :: 0 <= i < |walk| && walk[i].kind == RegularFile && walk[i].path == p && Contains(p, nameEnthaelt)
  {
    var keep := FileContaining(nameEnthaelt);
    PathsWhereListedInOrder(walk, keep);
    PathsWhereMembers(walk, keep);
    PathsWhere(walk, keep)
  }

  /** `holeAlleUnterverzeichnisseMitNameEnthaeltVonVerzeichnis` over a given
      walk: the directories (the start directory too) whose path contains
      `nameEnthaelt`, in walk order. */
  function HoleAlleUnterverzeichnisseMitNameEnthaelt(walk: seq<WalkEntry>, nameEnthaelt: string): (r: seq<string>)
    ensures ListedInOrder(walk, DirectoryContaining(nameEnthaelt), r)
    ensures forall p :: p in r <==>
              exists i :: 0 <= i < |walk| && walk[i].kind == Directory && walk[i].path == p && Contains(p, nameEnthaelt)
  {
    var keep := DirectoryContaining(nameEnthaelt);
    PathsWhereListedInOrder(walk, keep);
    PathsWhereMembers(walk, keep);
    PathsWhere(walk, keep)
  }

  /** `holeAlleFilesMitNameEndetVonVerzeichnis` over a given walk: the
      regular files whose path ends with `nameEndet`, in walk order. */
  function HoleAlleFilesMitNameEndet(walk: seq<WalkEntry>, nameEndet: string): (r: seq<string>)
    ensures ListedInOrder(walk, FileEndingWith(nameEndet), r)
    ensures forall p :: p in r <==>
              exists i :: 0 <= i < |walk| && walk[i].kind == RegularFile && walk[i].path == p && EndsWith(p, nameEndet)
  {
    var keep := FileEndingWith(nameEndet);
    PathsWhereListedInOrder(walk, keep);
    PathsWhereMembers(walk, keep);
    PathsWhere(walk, keep)
  }
}
