# Peace: a verified model of the chunked file archiver

Peace is a small OpenDHT example program. Its command loop can `store` a file in the
distributed hash table and `restore` it again. This project models that archiver:

- **Store** (`store_file`, `store_data`): the file is read in 4096-byte windows through a
  reused buffer of 4097 bytes. Each window becomes one chunk. The chunk is put into the
  DHT under its content hash. The hash's hex text is appended as one line to a manifest
  file named `<path>.pce`, which is truncated first.
- **Restore** (`restore_file`, `restore_data`): the output path is derived from the
  manifest path with `find_last_of('.')` and `substr`, including the way `npos + 1` wraps
  to 0. The `.pce` extension is checked before any file is opened. The manifest is then
  read line by line. For each line there is one blocking `get`, and the first value's
  bytes are appended to the output. At the first key with no value, restoration stops
  and the partial output is removed.
- **Command splitting** (`split_at_ws`): the input is split into maximal runs of
  characters that are not C-locale whitespace.

The model is split into modules:

- `Bytes`: bytes, `Option`, concatenation.
- `Chunker`: the chunking policy.
- `Paths`: the `std::string` and `size_t` path computations.
- `Manifest`: manifest text and `getline`.
- `Tokens`: `split_at_ws`.
- `Dht`: the DHT node as a class, with the hash and hex codec as parameters.
- `Files`: the file system as a class over a map from path to contents.
- `Archiver`: the store and restore procedures, written as imperative methods over
  those classes, and the specification functions they are proved against.

The central results are these:

- `Archiver.StoreThenRestore` and `Archiver.StoreAndRestore`: after a store whose puts
  all landed, restoring from the manifest it wrote gives back the file's bytes exactly.
- `Archiver.RestoreFile`: the method's contract covers each of its outcomes.

## Model

| member | source | states |
|---|---|---|
| Paths.SizeSucc | peace.cpp:130-132 | `i + 1` on a 64-bit `size_t`, which is (i + 1) mod 2^64: `npos + 1` wraps to 0 |
| Paths.Substr | peace.cpp:129-133 | `substr(pos, count)` is the slice of `s` starting at `pos` that has `count` characters, or every character up to the end when fewer remain |
| Paths.BeforeLastDot | peace.cpp:129-133 | `substr(0, find_last_of('.'))`: the text before the last dot, or the whole string without a dot (split pinned by `Paths.LastDotSplit`) |
| Paths.AfterLastDot | peace.cpp:130-132 | `substr(find_last_of('.') + 1)`: the text after the last dot, or the whole string without a dot through the `npos + 1` wrap (split pinned by `Paths.LastDotSplit`) |
| Paths.DerivePaths | peace.cpp:128-133 | the manifest's extension, the path stripped of it, and the output path: the stripped path's stem, "_restored." and the stripped path's extension |
| Paths.IsManifestPath | peace.cpp:135 | `"." + hash_file_extension` equals ".pce" (characterized by `Paths.ManifestPathCheck`) |
| Paths.ManifestPath | peace.cpp:77 | the manifest path `store_file` writes: the file's path followed by ".pce" |
| Paths.FindLastOf | peace.cpp:128 | `find_last_of` yields `npos` exactly when the character is absent; otherwise it yields an index holding the character with no later occurrence |
| Paths.LastDotSplit | peace.cpp:129-130 | with a last dot at k, the stem is `s[..k]` and the extension is `s[k+1..]`; without a dot both are the whole string, because `npos + 1` wraps to 0 |
| Paths.LastDotOfSuffix | peace.cpp:77-128 | the last dot of `p + "." + ext` is the appended one when `ext` has no dot |
| Paths.ManifestPathCheck | peace.cpp:130-135 | the extension check accepts a path exactly when it ends in ".pce" or is the bare name "pce" |
| Paths.EndsWithExtension | peace.cpp:130-135 | a path ending in ".pce" has "pce" after its last dot |
| Paths.ExtensionOfAcceptedPath | peace.cpp:130-135 | a path with "pce" after its last dot ends in ".pce" or is "pce" |
| Paths.SplitManifestPath | peace.cpp:77-130 | for `P + ".pce"`, the part before the last dot is P and the part after it is "pce" |
| Paths.ManifestPathRoundTrip | peace.cpp:77-135 | every manifest path `store_file` writes passes the check and strips back to P; the output path is stem(P) + "_restored." + ext(P) under the same `npos` rules |
| Paths.OutputOfManifestPath | peace.cpp:131-133 | the output path of `P + ".pce"` is built from P's own last-dot split |
| Paths.RestoreDottedName | peace.cpp:131-133 | "stem.ext.pce" with a dot-free ext restores to "stem_restored.ext" |
| Paths.RestoreExampleWithExtension | peace.cpp:128-135 | "a.txt.pce" passes the check and restores to "a_restored.txt" |
| Paths.RestoreExampleWithoutExtension | peace.cpp:128-135 | "a.pce" passes the check and restores to "a_restored.a" |
| Paths.RestoreExampleBareName | peace.cpp:128-135 | the dot-free name "pce" passes the check and restores to "pce_restored.pce" |
| Paths.RestoreExampleInDirectory | peace.cpp:128-135 | "d/f.pce" passes the check and restores to "d/f_restored.d/f": with no dot in "d/f", the whole path is both stem and extension |
| Paths.RestoreExampleDottedDirectory | peace.cpp:128-135 | "v1.0/f.pce" passes the check and restores to "v1_restored.0/f": the dot of the directory name is taken for the extension's |
| Paths.OutputIsNotManifest | peace.cpp:133-148 | the output path string never equals the manifest path string, so (in a path-keyed file map) truncating the output cannot clobber the open manifest |
| Chunker.Chunks | peace.cpp:85-95 | the chunks in emission order: full 4096-byte windows while at least 4096 bytes remain, then the rest, possibly empty (pinned by `Chunker.ChunkSizes` and `Chunker.ChunksConcat`) |
| Chunker.ChunksStep | peace.cpp:89-90 | a short read yields the remaining bytes as the last chunk; a full read yields a 4096-byte chunk and chunking continues |
| Chunker.ChunkSizes | peace.cpp:85-95 | an input of length L gives L/4096 + 1 chunks; all but the last have 4096 bytes and the last has L mod 4096 bytes, possibly none |
| Chunker.ChunksFitWindow | peace.cpp:86-91 | every chunk has at most 4096 bytes, so `buffer[data_size] = 0` stays inside the 4097-byte buffer |
| Chunker.ChunksConcat | peace.cpp:89-92 | the chunks, in emission order, concatenate to exactly the input |
| Chunker.EdgeChunks | peace.cpp:89-94 | an empty file gives one empty chunk; 4096 bytes give a full chunk and an empty one; 4097 bytes give a full chunk and a one-byte chunk |
| Manifest.ManifestText | peace.cpp:67 | the manifest text the store loop leaves behind: each line followed by a newline, in order |
| Manifest.ManifestTextSnoc | peace.cpp:67 | writing one more `hash << endl` appends the line and a newline at the end of the manifest |
| Manifest.NewlineIndex | peace.cpp:151 | the index of the first newline, or the length when there is none |
| Manifest.GetLine | peace.cpp:151 | `getline` fails exactly at end of input; otherwise it yields a newline-free line and consumes it with its newline, or up to the end |
| Manifest.GetLines | peace.cpp:151 | the lines the `getline` loop delivers hold no newline |
| Manifest.GetLinesOfManifestText | peace.cpp:67-151 | reading back a manifest of newline-free lines yields exactly those lines |
| Manifest.ManifestTextOfGetLines | peace.cpp:67-151 | re-writing the lines read from any text gives the text back, with a final newline added when it lacked one |
| Manifest.Terminated | peace.cpp:151 | the text is unchanged or has one newline appended, and it ends in a newline unless it is empty |
| Tokens.IsSpace | peace.cpp:46-48 | the C-locale `isspace` that `operator>>` skips: space, tab, newline, vertical tab, form feed and carriage return |
| Tokens.RunLength | peace.cpp:46-48 | the length of the leading run of non-whitespace, which stops at whitespace or the end |
| Tokens.SplitAtWs | peace.cpp:44-51 | every token is non-empty and free of whitespace |
| Tokens.SplitKeepsNonSpace | peace.cpp:44-51 | the tokens concatenate, in order, to the non-whitespace characters of the input, so only whitespace is dropped |
| Tokens.NoTokensIffBlank | peace.cpp:44-51 | there are no tokens exactly when the input is empty or all whitespace |
| Tokens.SplitSkipsSpace | peace.cpp:46-48 | leading whitespace does not change the tokens |
| Tokens.SplitToken | peace.cpp:46-48 | a token followed by whitespace or the end is read whole |
| Tokens.SplitJoinRoundTrip | peace.cpp:44-51 | splitting tokens joined by single spaces gives back those tokens |
| Dht.DhtNode.Put | peace.cpp:59-65 | a put is recorded as submitted and nothing else changes |
| Dht.DhtNode.Get | peace.cpp:110 | a blocking get is recorded and returns every value the network holds for the key, possibly none |
| Files.FileSystem.Truncate | peace.cpp:80-81 | the file exists afterwards and is empty; no other file changes |
| Files.FileSystem.Append | peace.cpp:119 | the bytes go at the end of the file, which is created empty first if needed |
| Files.FileSystem.Remove | peace.cpp:158 | the file is gone and no other file changes |
| Archiver.Assemble | peace.cpp:150-164 | the restore loop over the manifest's keys: the first value of each key appended in order, or the index of the first key with no value (characterized by `Archiver.AssembleFailsAtFirstMissing` and `Archiver.AssembledIsFirstValues`) |
| Archiver.AssembleFailsAtFirstMissing | peace.cpp:151-162 | a restore fails exactly when some key has no value; it then reports the first such key, and every earlier key had a value |
| Archiver.AssembledIsFirstValues | peace.cpp:116-153 | a restore that does not abort yields the first value of each key, concatenated in manifest order |
| Archiver.AssembleAppend | peace.cpp:151-164 | restoring a concatenated manifest restores the parts in turn; a later part is consulted only if the earlier one succeeded, and its failure index is shifted |
| Archiver.SwappedManifest | peace.cpp:151-153 | manifest order is not checked: swapping two parts swaps their bytes in the output |
| Archiver.ChunksRoundTrip | peace.cpp:57-120 | when each chunk is the first value under its hash, assembling the chunk addresses gives back the data |
| Archiver.ManifestKeysOfStoredManifest | peace.cpp:67-151 | parsing the manifest `store_file` writes gives back the chunk addresses in order |
| Archiver.StoreThenRestore | peace.cpp:77-153 | a stored file's manifest path passes the check and strips back to the file's path; when all puts landed, restoring from its manifest reproduces the file's bytes |
| Archiver.ReadWindow | peace.cpp:89-90 | `fin.read` fills the front of the buffer with up to 4096 input bytes and leaves the rest; the stream stays good only after a full read |
| Archiver.StoreData | peace.cpp:55-68 | exactly the first `size` bytes of the buffer, not its reused tail, are put under their hash; that hash's hex line is appended to the manifest |
| Archiver.StoreStep | peace.cpp:67-92 | one more chunk adds one manifest line and one put, at the end |
| Archiver.StoreNextChunk | peace.cpp:89-92 | one loop pass consumes a window and stores exactly its bytes; the buffer then holds the window in front, the terminator 0 after it, and its stale tail unchanged |
| Archiver.ChunksProgress | peace.cpp:87-95 | the chunks emitted so far followed by the chunks of the unread input are the file's chunks; a full window keeps this so, and a short window completes them |
| Archiver.StoreFile | peace.cpp:72-104 | an unopenable file changes nothing; otherwise the manifest is truncated and ends up holding one hex line per chunk, in chunk order, with one put per chunk submitted and no other file touched |
| Archiver.RestoreData | peace.cpp:108-123 | one get per call; with no value it reports failure and writes nothing; otherwise it appends the first value's bytes and reports success |
| Archiver.ManifestKeysStep | peace.cpp:151-153 | one `getline` takes the first key off the manifest |
| Archiver.ManifestKeysProgress | peace.cpp:150-153 | the keys fetched so far followed by the keys of the unread manifest are the manifest's keys; one more `getline` moves one key across |
| Archiver.AssembleSnoc | peace.cpp:151-164 | one more manifest entry extends the restore by that entry's first value, or fails at it |
| Archiver.AssembleMissingPrefix | peace.cpp:153-162 | a failure in a prefix of the manifest is the failure of the whole restore |
| Archiver.RestoreChunks | peace.cpp:150-164 | the output holds the assembled bytes and every key was fetched; or, at the first key without a value, the keys up to it were fetched, none later, and the output is removed |
| Archiver.RestoreFile | peace.cpp:126-174 | a failed extension check or an unopenable manifest changes nothing; otherwise the manifest is left intact and the output is the assembly of its keys. On the first missing key, fetching stops there and the output file is gone |
| Archiver.StoreAndRestore | peace.cpp:72-167 | storing a file and then restoring its manifest, with all puts landed, yields `Restored` with an output file equal to the original bytes |

## Left out

- SHA-1 (`dht::InfoHash::get`, FIPS 180-4) is not implemented. The hash is a parameter function in `Dht.Codec`, so equal chunks get equal addresses and nothing more is assumed.
- The hex text form of `InfoHash` (`operator<<` and `InfoHash(string)`) is also a parameter. `Dht.ValidCodec` assumes the text parses back to the hash and contains no newline; the round-trip lemmas require it.
- OpenDHT networking (`DhtRunner`, `run`, `bootstrap`) is not modelled. A put is recorded as a submission and never assumed to succeed. The asynchronous completion callback of `put` (peace.cpp:60-64) only prints and is left out. A get reads a fixed snapshot of the network (`DhtNode.values`), so values arriving or expiring during a restore are not modelled. `Archiver.PutsLanded` is the hypothesis under which a store is restorable.
- Archiver.RestoreFile: the file system is a flat map from path strings to contents, with no directories, so creating the output file always succeeds. The derived output path often lies in a directory that does not exist, because the dots are searched in the whole path and not in its last component. For example, "d/f.pce" gives "d/f_restored.d/f" (`Paths.RestoreExampleInDirectory`), "v1.0/f.pce" gives "v1_restored.0/f" (`Paths.RestoreExampleDottedDirectory`), and "./a.pce" gives "_restored./a". In such a case, the program's streams at peace.cpp:145-148 fail to open, and the writes at peace.cpp:119 are dropped. Line 167 still reports success, and on abort the `remove` at line 158 fails. The model instead returns `Restored` with the bytes at that path. It does not capture the failed open or the lost output.
- Stream failures other than "the file does not exist" are not modelled: an `ofstream` that fails to open, a write error, buffering, `close`. The input and the manifest each count as openable exactly when the path is in the file map.
- `restore_file` reads the manifest as a stream while it writes the output. The model reads the manifest's contents when the manifest is opened. `Paths.OutputIsNotManifest` proves the output path string never equals the manifest path string, so in the model's path-keyed file map the two cannot differ. On a real file system two different strings can name the same file ("a.pce" and "./a.pce"), and that aliasing is not modelled.
- RestoreData: the `int i` loop counter of `restore_data` is compared with an unsigned size. Values of 2^31 bytes or more are not modelled. Chunks stored by this program hold at most 4096 bytes.
- The result of `remove()` (peace.cpp:158-161) only selects a message. The model removes the file in both cases.
- All `cout` output is left out: progress, prompts and error messages.
- `get_file_extension` is modelled as the constant `Paths.MANIFEST_EXTENSION`, not as a function.
- `start_node`, `get_storage_limit`, `print_welcome_message` and `cmd_loop` are not part of this model. They are interactive setup and console I/O; `cmd_loop` only dispatches on the tokens of `split_at_ws`. main.cpp, an earlier command-line variant that duplicates `split_at_ws`, is not part of this model either.
- The output name uses the marker "_restored." as the code writes it (peace.cpp:133).
- `npos` is modelled for a 64-bit `size_t`. Path functions require strings shorter than `npos`, which every `std::string` is.
