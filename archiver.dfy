/**
 * The chunked file archiver of peace.cpp: `store_file` / `store_data` split a file into
 * windows, put each chunk under its content hash and write the hashes to a manifest;
 * `restore_file` / `restore_data` fetch the chunks named by a manifest, in order, and
 * reassemble the file, deleting the partial output when a chunk cannot be found.
 */
module Archiver {
  import opened Bytes
  import opened Chunker
  import opened Paths
  import opened Manifest
  import opened Dht
  import opened Files

  // ---------------------------------------------------------------- specification

  /** The addresses of the chunks, in order. */
  function ChunkKeys(codec: Codec, chunks: seq<Bytes>): seq<InfoHash> {
    seq(|chunks|, i requires 0 <= i < |chunks| => codec.hash(chunks[i]))
  }

  /** The manifest lines for a sequence of addresses. */
  function HexLines(codec: Codec, keys: seq<InfoHash>): seq<Bytes> {
    seq(|keys|, i requires 0 <= i < |keys| => codec.toHex(keys[i]))
  }

  /** The addresses manifest lines name. */
  function ParseLines(codec: Codec, lines: seq<Bytes>): seq<InfoHash> {
    seq(|lines|, i requires 0 <= i < |lines| => codec.fromHex(lines[i]))
  }

  /** The puts `store_data` submits for the chunks, in order. */
  function ChunkPuts(codec: Codec, chunks: seq<Bytes>): seq<PutRequest> {
    seq(|chunks|, i requires 0 <= i < |chunks| => PutRequest(codec.hash(chunks[i]), chunks[i]))
  }

  /** The manifest `store_file` leaves for a file holding `data`. */
  function StoredManifest(codec: Codec, data: Bytes): Bytes {
    ManifestText(HexLines(codec, ChunkKeys(codec, Chunks(data))))
  }

  /** The addresses `restore_file` reads from a manifest text. */
  function ManifestKeys(codec: Codec, text: Bytes): seq<InfoHash> {
    ParseLines(codec, GetLines(text))
  }

  /** Every submitted put landed: its value is the first one stored under its key. */
  ghost predicate PutsLanded(values: map<InfoHash, seq<Bytes>>, puts: seq<PutRequest>) {
    forall i :: 0 <= i < |puts| ==>
      Lookup(values, puts[i].key) != [] && Lookup(values, puts[i].key)[0] == puts[i].value
  }

  /** The result of fetching a manifest's chunks: the reassembled bytes, or the index of
      the first key with no value. */
  datatype Assembly = Assembled(bytes: Bytes) | Missing(index: nat)

  /** The restore loop, entry by entry: append the first value of each key; stop at the
      first key that has none. */
  function Assemble(keys: seq<InfoHash>, values: map<InfoHash, seq<Bytes>>): Assembly {
    if keys == [] then Assembled([])
    else
      var n := |keys| - 1;
      match Assemble(keys[..n], values)
      case Missing(i) => Missing(i)
      case Assembled(prefix) =>
        var vs := Lookup(values, keys[n]);
        if vs == [] then Missing(n) else Assembled(prefix + vs[0])
  }

  /** A restore fails exactly when some key has no value, and it then reports the first
      such key: every key before it was found. */
  lemma {:induction false} AssembleFailsAtFirstMissing(keys: seq<InfoHash>, values: map<InfoHash, seq<Bytes>>)
    ensures Assemble(keys, values).Assembled? <==> forall j :: 0 <= j < |keys| ==> Lookup(values, keys[j]) != []
    ensures Assemble(keys, values).Missing? ==>
      var i := Assemble(keys, values).index;
      && i < |keys|
      && Lookup(values, keys[i]) == []
      && forall j :: 0 <= j < i ==> Lookup(values, keys[j]) != []
  {
    if keys != [] {
      var n := |keys| - 1;
      AssembleFailsAtFirstMissing(keys[..n], values);
      assert forall j :: 0 <= j < n ==> keys[..n][j] == keys[j];
    }
  }

  /** The first value of each key; every key must have one. */
  function FirstValues(keys: seq<InfoHash>, values: map<InfoHash, seq<Bytes>>): seq<Bytes>
    requires forall j :: 0 <= j < |keys| ==> Lookup(values, keys[j]) != []
  {
    seq(|keys|, j requires 0 <= j < |keys| && Lookup(values, keys[j]) != [] => Lookup(values, keys[j])[0])
  }

  /** A restore that does not abort yields the first values of the manifest's keys,
      concatenated in manifest order. */
  lemma {:induction false} AssembledIsFirstValues(keys: seq<InfoHash>, values: map<InfoHash, seq<Bytes>>)
    requires forall j :: 0 <= j < |keys| ==> Lookup(values, keys[j]) != []
    ensures Assemble(keys, values) == Assembled(Concat(FirstValues(keys, values)))
  {
    if keys != [] {
      var n := |keys| - 1;
      AssembledIsFirstValues(keys[..n], values);
      assert FirstValues(keys, values) == FirstValues(keys[..n], values) + [Lookup(values, keys[n])[0]];
      ConcatSnoc(FirstValues(keys[..n], values), Lookup(values, keys[n])[0]);
    }
  }

  /** Restoring a concatenated manifest restores each part in turn: a later part is
      only consulted when the earlier one succeeded, and its failure index is shifted. */
  lemma {:induction false} AssembleAppend(a: seq<InfoHash>, b: seq<InfoHash>, values: map<InfoHash, seq<Bytes>>)
    ensures Assemble(a + b, values) ==
      match Assemble(a, values)
      case Missing(i) => Missing(i)
      case Assembled(x) =>
        match Assemble(b, values)
        case Missing(j) => Missing(|a| + j)
        case Assembled(y) => Assembled(x + y)
    decreases |b|
  {
    if b == [] {
      assert a + b == a;
    } else {
      var n := |b| - 1;
      var ab := a + b;
      AssembleAppend(a, b[..n], values);
      assert ab[..|ab| - 1] == a + b[..n];
      assert ab[|ab| - 1] == b[n];
      match Assemble(a, values)
      case Missing(i) =>
      case Assembled(x) =>
        match Assemble(b[..n], values)
        case Missing(j) =>
        case Assembled(y) =>
          var vs := Lookup(values, b[n]);
          if vs != [] {
            assert x + (y + vs[0]) == x + y + vs[0];
          }
    }
  }

  /** Order matters and is not checked: swapping two parts of a manifest swaps their
      bytes in the output instead of failing. */
  lemma SwappedManifest(a: seq<InfoHash>, b: seq<InfoHash>, values: map<InfoHash, seq<Bytes>>, x: Bytes, y: Bytes)
    requires Assemble(a, values) == Assembled(x) && Assemble(b, values) == Assembled(y)
    ensures Assemble(a + b, values) == Assembled(x + y)
    ensures Assemble(b + a, values) == Assembled(y + x)
  {
    AssembleAppend(a, b, values);
    AssembleAppend(b, a, values);
  }

  /** Restoring the addresses of the chunks of `data`, when every chunk is the first
      value under its address, gives back `data`. */
  lemma ChunksRoundTrip(codec: Codec, values: map<InfoHash, seq<Bytes>>, data: Bytes)
    requires PutsLanded(values, ChunkPuts(codec, Chunks(data)))
    ensures Assemble(ChunkKeys(codec, Chunks(data)), values) == Assembled(data)
  {
    var chunks := Chunks(data);
    var keys := ChunkKeys(codec, chunks);
    assert forall j :: 0 <= j < |keys| ==> ChunkPuts(codec, chunks)[j].key == keys[j];
    AssembledIsFirstValues(keys, values);
    assert FirstValues(keys, values) == chunks;
    ChunksConcat(data);
  }

  /** Parsing the manifest `store_file` writes gives back the chunk addresses. */
  lemma ManifestKeysOfStoredManifest(codec: Codec, data: Bytes)
    requires ValidCodec(codec)
    ensures ManifestKeys(codec, StoredManifest(codec, data)) == ChunkKeys(codec, Chunks(data))
  {
    var keys := ChunkKeys(codec, Chunks(data));
    var lines := HexLines(codec, keys);
    GetLinesOfManifestText(lines);
    assert ParseLines(codec, lines) == keys;
  }

  /** The whole round trip: the manifest path of a stored file passes the extension
      check and strips back to the file's path, and, when all puts landed, restoring
      from its manifest reproduces the file's bytes exactly. */
  lemma StoreThenRestore(codec: Codec, values: map<InfoHash, seq<Bytes>>, filePath: string, data: Bytes)
    requires ValidCodec(codec) && IsCppString(ManifestPath(filePath))
    requires PutsLanded(values, ChunkPuts(codec, Chunks(data)))
    ensures IsManifestPath(ManifestPath(filePath))
    ensures DerivePaths(ManifestPath(filePath)).strippedPath == filePath
    ensures Assemble(ManifestKeys(codec, StoredManifest(codec, data)), values) == Assembled(data)
  {
    ManifestPathRoundTrip(filePath);
    ManifestKeysOfStoredManifest(codec, data);
    ChunksRoundTrip(codec, values, data);
  }

  // ---------------------------------------------------------------- store

  /** `fin.read(buffer.data(), BUFFER_SIZE)` on a stream whose unread bytes are `input`:
      fills the front of the buffer with up to CHUNK_SIZE bytes and leaves the rest of the
      buffer as it was; the stream stays good only if the read was satisfied in full. */
  method ReadWindow(buffer: array<byte>, input: Bytes) returns (gcount: nat, good: bool)
    requires buffer.Length > CHUNK_SIZE
    modifies buffer
    ensures gcount == if |input| < CHUNK_SIZE then |input| else CHUNK_SIZE
    ensures good <==> |input| >= CHUNK_SIZE
    ensures buffer[..gcount] == input[..gcount]
    ensures buffer[gcount..] == old(buffer[gcount..])
  {
    gcount := if |input| < CHUNK_SIZE then |input| else CHUNK_SIZE;
    good := |input| >= CHUNK_SIZE;
    forall i | 0 <= i < gcount {
      buffer[i] := input[i];
    }
  }

  /** `store_data`: the buffer arrives by value; only its first `size` bytes are hashed,
      put and named in the manifest. */
  method StoreData(node: DhtNode, fs: FileSystem, codec: Codec, buffer: Bytes, size: nat, hashFilePath: string)
    requires size <= |buffer|
    modifies node`puts, fs
    ensures node.puts == old(node.puts) + [PutRequest(codec.hash(buffer[..size]), buffer[..size])]
    ensures fs.files == old(fs.files)[hashFilePath :=
      Contents(old(fs.files), hashFilePath) + codec.toHex(codec.hash(buffer[..size])) + [NEWLINE]]
  {
    var hash := codec.hash(buffer[..size]);
    node.Put(hash, buffer[..size]);
    ghost var before := Contents(fs.files, hashFilePath);
    fs.Append(hashFilePath, codec.toHex(hash) + [NEWLINE]);
    assert before + (codec.toHex(hash) + [NEWLINE]) == before + codec.toHex(hash) + [NEWLINE];
  }

  /** What one more chunk adds to the manifest and to the submitted puts. */
  lemma StoreStep(codec: Codec, emitted: seq<Bytes>, chunk: Bytes)
    ensures ManifestText(HexLines(codec, ChunkKeys(codec, emitted + [chunk]))) ==
      ManifestText(HexLines(codec, ChunkKeys(codec, emitted))) + codec.toHex(codec.hash(chunk)) + [NEWLINE]
    ensures ChunkPuts(codec, emitted + [chunk]) == ChunkPuts(codec, emitted) + [PutRequest(codec.hash(chunk), chunk)]
  {
    var lines := HexLines(codec, ChunkKeys(codec, emitted));
    assert HexLines(codec, ChunkKeys(codec, emitted + [chunk])) == lines + [codec.toHex(codec.hash(chunk))];
    ManifestTextSnoc(lines, codec.toHex(codec.hash(chunk)));
  }

  /** `store_file`: when the file can be opened, its manifest is truncated and then holds
      one line per chunk, in chunk order, and one put per chunk has been submitted; when
      it cannot, nothing happens. */
  method StoreFile(fs: FileSystem, node: DhtNode, codec: Codec, filePath: string)
    modifies fs, node`puts
    ensures filePath !in old(fs.files) ==> fs.files == old(fs.files) && node.puts == old(node.puts)
    ensures filePath in old(fs.files) ==>
      var data := old(fs.files)[filePath];
      && fs.files == old(fs.files)[ManifestPath(filePath) := StoredManifest(codec, data)]
      && node.puts == old(node.puts) + ChunkPuts(codec, Chunks(data))
  {
    if filePath !in fs.files {
      return;
    }
    var input := fs.files[filePath];
    ghost var data := input;
    ghost var files0, puts0 := fs.files, node.puts;
    var hashFilePath := ManifestPath(filePath);
    fs.Truncate(hashFilePath);
    var buffer := new byte[CHUNK_SIZE + 1](_ => 0);
    // The chunks stored so far, the manifest text they made and the puts they submitted.
    ghost var emitted: seq<Bytes>, text: Bytes, submitted: seq<PutRequest> := [], [], [];
    while true
      invariant buffer.Length == CHUNK_SIZE + 1
      invariant emitted + Chunks(input) == Chunks(data)
      invariant text == ManifestText(HexLines(codec, ChunkKeys(codec, emitted)))
      invariant submitted == ChunkPuts(codec, emitted)
      invariant fs.files == files0[hashFilePath := text]
      invariant node.puts == puts0 + submitted
      decreases |input|
    {
      ghost var unread := input;
      var dataSize, good := StoreNextChunk(fs, node, codec, buffer, input, hashFilePath);
      input := input[dataSize..];
      ghost var chunk := unread[..dataSize];
      StoreStep(codec, emitted, chunk);
      ChunksProgress(data, emitted, unread, dataSize);
      emitted := emitted + [chunk];
      text := text + codec.toHex(codec.hash(chunk)) + [NEWLINE];
      submitted := submitted + [PutRequest(codec.hash(chunk), chunk)];
      if !good {
        break;
      }
    }
  }

  /** The chunks emitted so far, followed by the chunks of the unread input, are the
      chunks of the file; one more window keeps it so, and a short window ends them. */
  lemma ChunksProgress(data: Bytes, emitted: seq<Bytes>, unread: Bytes, dataSize: nat)
    requires emitted + Chunks(unread) == Chunks(data)
    requires dataSize == if |unread| >= CHUNK_SIZE then CHUNK_SIZE else |unread|
    ensures |unread| >= CHUNK_SIZE ==> (emitted + [unread[..dataSize]]) + Chunks(unread[dataSize..]) == Chunks(data)
    ensures |unread| < CHUNK_SIZE ==> emitted + [unread[..dataSize]] == Chunks(data)
  {
    ChunksStep(unread);
    if |unread| < CHUNK_SIZE {
      assert unread[..dataSize] == unread;
    } else {
      assert (emitted + [unread[..dataSize]]) + Chunks(unread[dataSize..]) ==
        emitted + ([unread[..dataSize]] + Chunks(unread[dataSize..]));
    }
  }

  /** One pass of the `store_file` loop: read a window from the unread bytes `input`
      into the front of the reused buffer, write the terminator after it (the stale
      tail stays as it was) and store exactly the window; `dataSize` bytes were
      consumed, and the loop goes on only if `good`. */
  method StoreNextChunk(fs: FileSystem, node: DhtNode, codec: Codec, buffer: array<byte>, input: Bytes, hashFilePath: string)
    returns (dataSize: nat, good: bool)
    requires buffer.Length == CHUNK_SIZE + 1
    modifies buffer, fs, node`puts
    ensures good <==> |input| >= CHUNK_SIZE
    ensures dataSize == if good then CHUNK_SIZE else |input|
    ensures node.puts == old(node.puts) + [PutRequest(codec.hash(input[..dataSize]), input[..dataSize])]
    ensures fs.files == old(fs.files)[hashFilePath :=
      Contents(old(fs.files), hashFilePath) + codec.toHex(codec.hash(input[..dataSize])) + [NEWLINE]]
    ensures buffer[..dataSize] == input[..dataSize] && buffer[dataSize] == 0
    ensures buffer[dataSize + 1..] == old(buffer[dataSize + 1..])
  {
    var gcount;
    gcount, good := ReadWindow(buffer, input);
    dataSize := if good then CHUNK_SIZE else gcount;
    buffer[dataSize] := 0;
    assert buffer[..][..dataSize] == input[..dataSize];
    StoreData(node, fs, codec, buffer[..], dataSize, hashFilePath);
  }

  // ---------------------------------------------------------------- restore

  /** How `restore_file` ends. */
  datatype RestoreOutcome =
    | NotAManifest            // the extension check failed; nothing was opened
    | CannotOpen              // the manifest could not be opened
    | Aborted(index: nat)     // manifest entry `index` had no value; output deleted
    | Restored(outputPath: string)

  /** `restore_data`: one blocking get for the address on the line; with no value, report
      failure and write nothing; otherwise append the bytes of the first value. */
  method RestoreData(node: DhtNode, fs: FileSystem, codec: Codec, line: Bytes, outPath: string) returns (ok: bool)
    requires outPath in fs.files
    modifies node`gets, fs
    ensures var key := codec.fromHex(line);
      var vs := Lookup(node.values, key);
      && node.gets == old(node.gets) + [key]
      && ok == (vs != [])
      && fs.files == if ok then old(fs.files)[outPath := old(fs.files)[outPath] + vs[0]] else old(fs.files)
  {
    var values := node.Get(codec.fromHex(line));
    if |values| == 0 {
      return false;
    }
    var data := values[0];
    ghost var before := fs.files[outPath];
    assert fs.files == old(fs.files);
    assert before + data[..0] == before;
    assert old(fs.files)[outPath := before] == old(fs.files);
    for i := 0 to |data|
      modifies fs
      invariant fs.files == old(fs.files)[outPath := before + data[..i]]
    {
      fs.Append(outPath, [data[i]]);
      assert before + data[..i] + [data[i]] == before + data[..i + 1];
    }
    assert data[..|data|] == data;
    return true;
  }

  /** One `getline` takes the first key off the manifest. */
  lemma ManifestKeysStep(codec: Codec, input: Bytes)
    requires GetLine(input).Some?
    ensures ManifestKeys(codec, input) ==
      [codec.fromHex(GetLine(input).value.0)] + ManifestKeys(codec, GetLine(input).value.1)
  {
    var line, rest := GetLine(input).value.0, GetLine(input).value.1;
    var lines := GetLines(rest);
    assert GetLines(input) == [line] + lines;
    var parsed := ParseLines(codec, [line] + lines);
    assert parsed == [codec.fromHex(line)] + ParseLines(codec, lines) by {
      assert forall k :: 1 <= k < |parsed| ==> parsed[k] == ParseLines(codec, lines)[k - 1];
    }
  }

  /** The keys fetched so far, followed by the keys of the unread manifest, are the
      manifest's keys; one more `getline` moves one key from the second to the first. */
  lemma ManifestKeysProgress(codec: Codec, manifest: Bytes, fetched: seq<InfoHash>, input: Bytes)
    requires GetLine(input).Some?
    requires ManifestKeys(codec, manifest) == fetched + ManifestKeys(codec, input)
    ensures ManifestKeys(codec, manifest) ==
      (fetched + [codec.fromHex(GetLine(input).value.0)]) + ManifestKeys(codec, GetLine(input).value.1)
  {
    ManifestKeysStep(codec, input);
    var key, rest := codec.fromHex(GetLine(input).value.0), ManifestKeys(codec, GetLine(input).value.1);
    assert fetched + ([key] + rest) == (fetched + [key]) + rest;
  }

  /** One more manifest entry extends the restore by that entry's first value. */
  lemma AssembleSnoc(keys: seq<InfoHash>, key: InfoHash, values: map<InfoHash, seq<Bytes>>)
    ensures Assemble(keys + [key], values) ==
      match Assemble(keys, values)
      case Missing(i) => Missing(i)
      case Assembled(b) =>
        var vs := Lookup(values, key);
        if vs == [] then Missing(|keys|) else Assembled(b + vs[0])
  {
    assert (keys + [key])[..|keys|] == keys;
  }

  /** A failure in a prefix of the manifest is the failure of the whole manifest. */
  lemma AssembleMissingPrefix(done: seq<InfoHash>, rest: seq<InfoHash>, values: map<InfoHash, seq<Bytes>>)
    requires Assemble(done, values).Missing?
    ensures Assemble(done + rest, values) == Assemble(done, values)
    ensures (done + rest)[..|done|] == done
  {
    AssembleAppend(done, rest, values);
  }

  /** Removing a file forgets what was last written to it. */
  lemma RemoveAfterWrite(files: map<string, Bytes>, path: string, contents: Bytes)
    ensures files[path := contents] - {path} == files - {path}
  {
  }

  /** Writing a file again replaces what was written before. */
  lemma OverwriteAfterWrite(files: map<string, Bytes>, path: string, first: Bytes, second: Bytes)
    ensures files[path := first][path := second] == files[path := second]
  {
  }

  /** The `getline` loop of `restore_file` over the manifest's bytes, writing to the
      (truncated) output file: on the first key without a value it stops, no later key is
      fetched, and the output file is removed. */
  method RestoreChunks(fs: FileSystem, node: DhtNode, codec: Codec, manifest: Bytes, outPath: string)
    returns (missing: Option<nat>)
    requires outPath in fs.files && fs.files[outPath] == []
    modifies fs, node`gets
    ensures var keys := ManifestKeys(codec, manifest);
      match Assemble(keys, node.values)
      case Assembled(bytes) =>
        missing == None && fs.files == old(fs.files)[outPath := bytes] && node.gets == old(node.gets) + keys
      case Missing(i) =>
        && i < |keys|
        && missing == Some(i) && fs.files == old(fs.files) - {outPath} && node.gets == old(node.gets) + keys[..i + 1]
  {
    var input := manifest;
    ghost var files0, gets0 := fs.files, node.gets;
    ghost var fetched: seq<InfoHash> := [];
    ghost var written: Bytes := [];
    var index: nat := 0;
    assert files0[outPath := written] == files0;
    while true
      invariant ManifestKeys(codec, manifest) == fetched + ManifestKeys(codec, input)
      invariant index == |fetched|
      invariant fs.files == files0[outPath := written]
      invariant Assemble(fetched, node.values) == Assembled(written)
      invariant node.gets == gets0 + fetched
      decreases |input|
    {
      var next := GetLine(input);
      if next.None? {
        break;
      }
      var line := next.value.0;
      ManifestKeysProgress(codec, manifest, fetched, input);
      input := next.value.1;
      ghost var key := codec.fromHex(line);
      AssembleSnoc(fetched, key, node.values);
      var ok := RestoreData(node, fs, codec, line, outPath);
      fetched := fetched + [key];
      if !ok {
        RemoveAfterWrite(files0, outPath, written);
        fs.Remove(outPath);
        AssembleMissingPrefix(fetched, ManifestKeys(codec, input), node.values);
        return Some(index);
      }
      OverwriteAfterWrite(files0, outPath, written, fs.files[outPath]);
      written := fs.files[outPath];
      index := index + 1;
    }
    assert fetched + [] == fetched;
    return None;
  }

  /** `restore_file`. The path checks come before any file is touched; on success the
      output holds the first values of the manifest's keys in order; on the first key
      without a value no later key is fetched and the output file is gone. The manifest
      itself is never changed. */
  method RestoreFile(fs: FileSystem, node: DhtNode, codec: Codec, hashFilePath: string) returns (outcome: RestoreOutcome)
    requires IsCppString(hashFilePath)
    modifies fs, node`gets
    ensures !IsManifestPath(hashFilePath) ==>
      outcome == NotAManifest && fs.files == old(fs.files) && node.gets == old(node.gets)
    ensures IsManifestPath(hashFilePath) && hashFilePath !in old(fs.files) ==>
      outcome == CannotOpen && fs.files == old(fs.files) && node.gets == old(node.gets)
    ensures IsManifestPath(hashFilePath) && hashFilePath in old(fs.files) ==>
      var keys := ManifestKeys(codec, old(fs.files)[hashFilePath]);
      var out := DerivePaths(hashFilePath).outputPath;
      && hashFilePath in fs.files && fs.files[hashFilePath] == old(fs.files)[hashFilePath]
      && match Assemble(keys, node.values)
         case Assembled(bytes) =>
           outcome == Restored(out) && fs.files == old(fs.files)[out := bytes] && node.gets == old(node.gets) + keys
         case Missing(i) =>
           && i < |keys|
           && outcome == Aborted(i) && fs.files == old(fs.files) - {out} && node.gets == old(node.gets) + keys[..i + 1]
  {
    var paths := DerivePaths(hashFilePath);
    if "." + paths.manifestExtension != MANIFEST_EXTENSION {
      return NotAManifest;
    }
    if hashFilePath !in fs.files {
      return CannotOpen;
    }
    var manifest := fs.files[hashFilePath];
    var outPath := paths.outputPath;
    OutputIsNotManifest(hashFilePath);
    fs.Truncate(outPath);
    var missing := RestoreChunks(fs, node, codec, manifest, outPath);
    RemoveAfterWrite(old(fs.files), outPath, []);
    if outPath in fs.files {
      OverwriteAfterWrite(old(fs.files), outPath, [], fs.files[outPath]);
    }
    if missing.Some? {
      return Aborted(missing.value);
    }
    return Restored(outPath);
  }

  /** The `store <path>` command followed by `restore <path>.pce`: when every put of the
      store has landed, the restored file holds exactly the original bytes. */
  method StoreAndRestore(fs: FileSystem, node: DhtNode, codec: Codec, filePath: string) returns (outcome: RestoreOutcome)
    requires ValidCodec(codec) && IsCppString(ManifestPath(filePath))
    requires filePath in fs.files
    requires PutsLanded(node.values, ChunkPuts(codec, Chunks(fs.files[filePath])))
    modifies fs, node`puts, node`gets
    ensures outcome == Restored(DerivePaths(ManifestPath(filePath)).outputPath)
    ensures outcome.outputPath in fs.files && fs.files[outcome.outputPath] == old(fs.files)[filePath]
  {
    ghost var data := fs.files[filePath];
    StoreFile(fs, node, codec, filePath);
    StoreThenRestore(codec, node.values, filePath, data);
    outcome := RestoreFile(fs, node, codec, ManifestPath(filePath));
  }
}
