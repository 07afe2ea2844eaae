/** The shared helpers: reading a file chunk by chunk, and naming a shard's database. */
module Helpers {
  import opened Wrappers
  import opened Strings
  import Seqs

  /**
   * `file.read(n)` on a text file holding `text` whose position is `pos`: at most
   * `n` characters, everything that is left when `n` is negative.
   */
  function Read(text: string, pos: nat, n: int): (data: string)
    requires pos <= |text|
    ensures |data| == if n < 0 || |text| - pos < n then |text| - pos else n
    ensures pos + |data| <= |text| && data == text[pos..pos + |data|]
  {
    if n < 0 || |text| < pos + n then text[pos..] else text[pos..pos + n]
  }

  /** The chunks `read_in_chunks` yields from `text`, one `read(size)` at a time. */
  function ChunksOf(text: string, size: int): (chunks: seq<string>)
    decreases |text|
  {
    if size == 0 || |text| == 0 then []
    else if size < 0 || |text| <= size then [text]
    else [text[..size]] + ChunksOf(text[size..], size)
  }

  /** `read` yields the empty string only at the end, so no chunk is empty. */
  lemma {:induction false} ChunksNonEmpty(text: string, size: int)
    ensures forall i :: 0 <= i < |ChunksOf(text, size)| ==> ChunksOf(text, size)[i] != []
    decreases |text|
  {
    if size > 0 && |text| > size {
      ChunksNonEmpty(text[size..], size);
      var chunks, rest := ChunksOf(text, size), ChunksOf(text[size..], size);
      assert forall i :: 1 <= i < |chunks| ==> chunks[i] == rest[i - 1];
    }
  }

  /** Concatenated, the chunks give back the text, unless the size is zero. */
  lemma {:induction false} ChunksConcat(text: string, size: int)
    ensures size != 0 ==> Concat(ChunksOf(text, size)) == text
    decreases |text|
  {
    if size == 0 || |text| == 0 {
    } else if size < 0 || |text| <= size {
      ConcatSingle(text);
    } else {
      var first, rest := text[..size], ChunksOf(text[size..], size);
      assert ChunksOf(text, size) == [first] + rest;
      ChunksConcat(text[size..], size);
      ConcatAppend([first], rest);
      ConcatSingle(first);
      assert first + text[size..] == text;
    }
  }

  /** With a positive size, every chunk has at most `size` characters and all but the last exactly `size`. */
  lemma {:induction false} ChunkSizes(text: string, size: int)
    requires size > 0
    ensures forall i :: 0 <= i < |ChunksOf(text, size)| ==> |ChunksOf(text, size)[i]| <= size
    ensures forall i :: 0 <= i < |ChunksOf(text, size)| - 1 ==> |ChunksOf(text, size)[i]| == size
    decreases |text|
  {
    if |text| > size {
      var chunks, rest := ChunksOf(text, size), ChunksOf(text[size..], size);
      ChunkSizes(text[size..], size);
      assert forall i :: 1 <= i < |chunks| ==> chunks[i] == rest[i - 1];
    }
  }

  /**
   * The chunks are pieces of at most `size` characters, all but the
   * last exactly `size` long, that concatenate back to the text. A size of zero
   * reads nothing; a negative size reads everything at once.
   */
  lemma ChunksOfSpec(text: string, size: int)
    ensures size != 0 ==> Concat(ChunksOf(text, size)) == text
    ensures size == 0 || text == [] ==> ChunksOf(text, size) == []
    ensures size < 0 && text != [] ==> ChunksOf(text, size) == [text]
    ensures size > 0 ==> forall i :: 0 <= i < |ChunksOf(text, size)| ==> |ChunksOf(text, size)[i]| <= size
    ensures size > 0 ==> forall i :: 0 <= i < |ChunksOf(text, size)| - 1 ==> |ChunksOf(text, size)[i]| == size
  {
    ChunksConcat(text, size);
    if size > 0 {
      ChunkSizes(text, size);
    }
  }

  /** One `read` either ends the chunking or yields its first chunk. */
  lemma ReadStep(text: string, pos: nat, size: int)
    requires pos <= |text|
    ensures Read(text, pos, size) == [] ==> ChunksOf(text[pos..], size) == []
    ensures Read(text, pos, size) != [] ==>
      ChunksOf(text[pos..], size) == [Read(text, pos, size)] + ChunksOf(text[pos + |Read(text, pos, size)|..], size)
  {
    var rest := text[pos..];
    var data := Read(text, pos, size);
    if size != 0 && rest != [] {
      if size < 0 || |rest| <= size {
        assert data == rest && text[pos + |data|..] == [];
      } else {
        assert data == rest[..size] && text[pos + |data|..] == rest[size..];
      }
    }
  }

  /** `read_in_chunks(f, chunk_size)`: read until `read` returns the empty string. */
  method ReadInChunks(text: string, chunkSize: int) returns (chunks: seq<string>)
    ensures chunks == ChunksOf(text, chunkSize)
    ensures chunkSize != 0 ==> Concat(chunks) == text
    ensures text == [] ==> chunks == []
    ensures forall i :: 0 <= i < |chunks| ==> chunks[i] != []
    ensures chunkSize > 0 ==> forall i :: 0 <= i < |chunks| ==> |chunks[i]| <= chunkSize
  {
    var pos := 0;
    chunks := [];
    assert text[pos..] == text;
    while true
      invariant pos <= |text|
      invariant chunks + ChunksOf(text[pos..], chunkSize) == ChunksOf(text, chunkSize)
      decreases |text| - pos
    {
      var data := Read(text, pos, chunkSize);
      if data == [] {
        assert chunks == ChunksOf(text, chunkSize) by {
          ReadStep(text, pos, chunkSize);
        }
        break;
      }
      assert (chunks + [data]) + ChunksOf(text[pos + |data|..], chunkSize) == ChunksOf(text, chunkSize) by {
        ReadStep(text, pos, chunkSize);
        Seqs.Associative(chunks, [data], ChunksOf(text[pos + |data|..], chunkSize));
      }
      chunks := chunks + [data];
      pos := pos + |data|;
    }
    ChunksOfSpec(text, chunkSize);
    ChunksNonEmpty(text, chunkSize);
  }

  /**
   * `get_connection`'s database name: the given name when there is a non-empty
   * one, otherwise "bridgewater", the shard number and ".db", from which the
   * shard number reads back.
   */
  function DbName(fileNo: int, dbName: Option<string>): (name: string)
    ensures dbName.Some? && dbName.value != [] ==> name == dbName.value
    ensures dbName.None? || dbName.value == [] ==>
      && |name| > 14
      && name[..11] == "bridgewater" && name[|name| - 3..] == ".db"
      && ParseInt(name[11..|name| - 3]) == Some(fileNo)
  {
    if dbName.None? || dbName.value == [] then
      var digits := IntToString(fileNo);
      var name := "bridgewater" + digits + ".db";
      IntToStringRoundTrip(fileNo);
      assert name[11..|name| - 3] == digits;
      name
    else dbName.value
  }

  /** Distinct shards get distinct default databases. */
  lemma DefaultDbNamesDistinct(m: int, n: int)
    requires m != n
    ensures DbName(m, None) != DbName(n, None)
  {
  }

  lemma DefaultDbNameIsBridgewater1()
    ensures DbName(1, None) == "bridgewater1.db"
    ensures DbName(1, Some("")) == "bridgewater1.db"
  {
    var digits := IntToString(1);
    assert digits == NatToString(1) == "1";
    assert DbName(1, None) == "bridgewater" + digits + ".db";
  }
}
