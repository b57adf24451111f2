# mmd5sum, modelled in Dafny

`mmd5sum` computes the MD5 digests of every file under a directory and writes
them to a manifest, one `path<TAB>digest` line per file. Given a prior
manifest (`-i`), it reuses the digests that manifest already has and computes
only the missing ones, in a pool of worker processes that each run an external
checksum command.

This project models the logic of `mmd5sum.py` without its file system,
subprocess and process pool:

- `outcomes.dfy`: `Option`, `Result` and the two errors the tool ends with
  (`BadParameter` for a rejected prior manifest, `UsageError` for a failed
  run).
- `pystr.dfy`: the parts of Python's `str` the tool relies on.
  - `isspace`, `rstrip()`, `strip()`.
  - `split('\t')` and `split(maxsplit=1)`.
  - Universal-newline translation, and iteration over the lines of a text
    file.
- `pydict.dfy`: an insertion-ordered `dict` (a key sequence plus a map) with
  `d[k] = v` and `items()`.
- `checksum.dfy`: the worker `md5sum`. It takes the digest from the command's
  output, which is the parameter `output`.
- `manifest.dfy`: the parts that read and write manifests.
  - The prior-manifest reader `validate_infile`: a reference function, and
    the line loop as a method proved equal to it.
  - The writer at the end of `main`: two loops, proved equal to a rendering
    function.
  - The round trip between the writer and the reader.
- `pipeline.dfy`: the body of `main`.
  - The filtering loop, and the collection loop over the results as they
    arrive.
  - The writer.
  - End-to-end lemmas about a whole run, including a second run on the
    manifest the first one wrote.

The directory walk gives the sequence of discovered paths, `allFiles`. The
pool gives its results in the order `arrival`, which is any rearrangement of
the pending paths (`multiset(arrival) == multiset(newFiles)`). A worker that
raises (its command printed only whitespace) ends the run with `UsageError`.

Reused records come out in traversal order. `hexes` is filled while the
discovered paths are walked (mmd5sum.py:90-92) and written with
`hexes.items()` (mmd5sum.py:111). `Pipeline.ReusedInTraversalOrder` states
it.

The model assumes a process count `-p` of at least 1.

## Model

| member | source | states |
|---|---|---|
| Checksum.ExtractDigestSpec | mmd5sum.py:24 | `ExtractDigest`: the output gives a digest exactly when it is not all whitespace. The digest is then non-empty and has no whitespace. Empty or whitespace-only output is the IndexError case. |
| Checksum.DigestIsFirstToken | mmd5sum.py:24 | `ExtractDigest`: for output made of whitespace, a token, and anything that starts with whitespace, the digest is that token: the first maximal run of non-whitespace characters. |
| Checksum.ConventionalOutput | mmd5sum.py:23-24 | For the usual checksum-tool output `<hex>  <file>\n`, the digest is `<hex>`. |
| Checksum.Md5sum | mmd5sum.py:22-24 | The worker returns `(file, digest)` exactly when a digest can be taken from the output. The pair holds the file it was given. |
| PyStr.RStripSpec | mmd5sum.py:34 | `RStrip`, modelling `rstrip()`, gives a prefix of the string, followed only by whitespace, that does not end in whitespace. |
| PyStr.RStripAt | mmd5sum.py:34 | Any prefix with those properties is the one `RStrip` gives. |
| PyStr.StripSpec | mmd5sum.py:24 | `Strip`, modelling `strip()`, is empty exactly when the string is all whitespace. Otherwise it neither starts nor ends with whitespace. |
| PyStr.SplitWhitespaceOnceSpec | mmd5sum.py:24 | `SplitWhitespaceOnce`, modelling `split(maxsplit=1)`, gives no field exactly for all-whitespace input. Otherwise it gives one or two fields: the first is non-empty with no whitespace, and a second starts with a non-whitespace character. |
| PyStr.SplitCount | mmd5sum.py:34 | `Split`, modelling `split('\t')`, gives one more field than the string has tabs. |
| PyStr.SplitJoin | mmd5sum.py:34 | The fields of `Split` hold no tab, and joining them with tabs gives the string back. |
| PyStr.SplitPair | mmd5sum.py:34 | Splitting `a + '\t' + b` on tab gives `[a, b]` when neither part holds a tab. |
| PyStr.LinesSpec | mmd5sum.py:32-33 | `Lines`: the lines of a text file put together give the text. Each line is non-empty, has `'\n'` at most as its last character, and all but the last end in `'\n'`. |
| PyStr.LinesCons | mmd5sum.py:32-33 | A line ending at its only `'\n'` is read as the first line, followed by the lines of the rest. |
| PyStr.UniversalNewlines | mmd5sum.py:32-33 | Text read in text mode holds no `'\r'`, and text without `'\r'` is read unchanged. The three lemmas below fix how each `'\r'` is translated. |
| PyStr.UniversalNewlinesKeeps | mmd5sum.py:32-33 | Text without `'\r'` in front of the rest of a file is read unchanged. |
| PyStr.UniversalNewlinesCRLF | mmd5sum.py:32-33 | A `"\r\n"` line end is read as one `'\n'`. |
| PyStr.UniversalNewlinesCR | mmd5sum.py:32-33 | A lone `'\r'`, one not followed by `'\n'`, is read as `'\n'`. |
| PyDict.Dict.Put | mmd5sum.py:92 | `d[k] = v` keeps the dict valid and maps `k` to `v`. A new key goes to the end of the order; an existing key keeps its place. |
| PyDict.Dict.Items | mmd5sum.py:111 | `items()` lists every key once, in insertion order, with its value. |
| Manifest.ParseLine | mmd5sum.py:34 | A line gives a record exactly when its `rstrip()` holds exactly one tab. The two columns then hold no tab and rejoin to the stripped line. |
| Manifest.ParseEntries | mmd5sum.py:33-34 | The lines give records exactly when every line does, and record `i` is line `i`'s. |
| Manifest.MapOf | mmd5sum.py:31-35 | The dict built record by record has exactly the paths of the records as keys. |
| Manifest.LastRecordWins | mmd5sum.py:35 | When a path has several records, the dict holds the digest of the last one. |
| Manifest.MapOfSnoc | mmd5sum.py:35 | A record added at the end sets its path's digest and changes nothing else. |
| Manifest.Load | mmd5sum.py:33-36 | The lines give a dict exactly when every line has exactly one tab after stripping. |
| Manifest.LoadInfile | mmd5sum.py:27-41 | Without `-i` the prior dict is empty. The only error is `BadParameter`. |
| Manifest.LoadInfileAccepts | mmd5sum.py:30-41 | A prior manifest is accepted exactly when every one of its lines, read in text mode, is a record. |
| Manifest.RejectAt | mmd5sum.py:33-41 | One line that is not a record rejects the whole file with `BadParameter`, with no partial dict. |
| Manifest.ValidateInfile | mmd5sum.py:27-41 | The line loop that fills `exists_hexes` returns what `LoadInfile` specifies: the empty dict, the dict of the records, or `BadParameter`. |
| Manifest.ParseEntriesSnoc | mmd5sum.py:33-35 | One more record line adds its record to the records read so far, and its digest to the dict. |
| Manifest.WriteManifest | mmd5sum.py:110-114 | The two writing loops produce the lines of `hexes.items()` followed by those of `new_hexes.items()`. |
| Manifest.RenderSnoc | mmd5sum.py:111-114 | Writing one more record appends its line to the text. |
| Manifest.ParseRenderLine | mmd5sum.py:112 | `RenderLine`: a written record line with a clean path and digest is read back as the same record. |
| Manifest.LinesOfRender | mmd5sum.py:110-114 | `Render`: a written manifest is read back as one line per record, in order. |
| Manifest.RenderAvoidsCR | mmd5sum.py:110-114 | A written manifest with clean records holds no `'\r'`. |
| Manifest.RoundTrip | mmd5sum.py:110-114 | Reading back a written manifest gives the records written, and the dict built from them, when no path holds a tab or line break, and every digest is non-empty, holds no tab or line break, and does not end in whitespace. |
| Manifest.LoadedIsClean | mmd5sum.py:33-35 | Every path and digest of an accepted prior manifest can be written again and read back. |
| Manifest.RecordIsClean | mmd5sum.py:34 | A record parsed from one line of a text file has a clean path and digest. |
| Pipeline.Reusable | mmd5sum.py:90-92 | The reusable paths are exactly the discovered paths that the prior dict has. |
| Pipeline.Pending | mmd5sum.py:93-94 | The pending paths are exactly the discovered paths that the prior dict lacks. |
| Pipeline.Reused | mmd5sum.py:90-92 | `hexes` has exactly the reusable paths as keys, each with its digest copied from the prior dict. |
| Pipeline.PartitionSizes | mmd5sum.py:90-94 | Reusable plus pending paths number exactly the discovered paths. |
| Pipeline.FiltersDistinct | mmd5sum.py:90-94 | Distinct discovered paths give distinct reusable and pending paths. |
| Pipeline.ReusedInTraversalOrder | mmd5sum.py:90-92 | `hexes` lists the reused paths in traversal order, not in prior-manifest order. |
| Pipeline.Partition | mmd5sum.py:89-94 | The filtering loop. Every discovered path lands in exactly one of `hexes` and `new_files`. A reused path keeps the prior digest. `new_files` is the pending paths in traversal order. |
| Pipeline.FreshSpec | mmd5sum.py:101-106 | `Fresh`: collection succeeds exactly when every arriving path has a digest. `new_hexes` then maps exactly the arrived paths, each to its digest. |
| Pipeline.FreshStops | mmd5sum.py:101-106 | One worker that raises makes the whole collection fail. |
| Pipeline.FreshInArrivalOrder | mmd5sum.py:106 | When every path arrives once, `new_hexes` lists the paths in arrival order. |
| Pipeline.Collect | mmd5sum.py:96-107 | The collection loop gives the `new_hexes` of `Fresh`. `current` never exceeds `total` and equals it after success. The reported counter values are 1, 2, … in turn. On failure, every result that arrived before the first raising worker was counted and reported, and the loop stops at that worker. |
| Pipeline.ArrivalIsPending | mmd5sum.py:100-104 | The results that arrive are those of the pending paths, each once when the discovered paths are distinct. |
| Pipeline.CollectedKeys | mmd5sum.py:97-106 | After collection, the keys of `new_hexes` are exactly the pending paths. |
| Pipeline.ReusedItems | mmd5sum.py:111-112 | The reused records are the reusable paths in traversal order, each with its prior digest. |
| Pipeline.FreshItems | mmd5sum.py:113-114 | The computed records are the arrived paths in arrival order, each with its digest. |
| Pipeline.ManifestLayout | mmd5sum.py:109-114 | The written manifest has one record per discovered path: all reused records first, in traversal order with their prior digests, then all computed records, in arrival order. |
| Pipeline.OneRecordPerPath | mmd5sum.py:89-114 | The written manifest names every discovered path exactly once and no other path. A prior record whose path was not discovered is dropped. |
| Pipeline.ComputedIsClean | mmd5sum.py:101-106 | Every digest in `new_hexes` can be written and read back. |
| Pipeline.GroupedKeys | mmd5sum.py:111-114 | The paths of the written records are the reused paths and the computed paths. |
| Pipeline.GroupedOnce | mmd5sum.py:111-114 | With distinct discovered paths, no path is written twice. |
| Pipeline.GroupedValues | mmd5sum.py:111-114 | Read back, each reused path keeps its prior digest, and each computed path has its digest from `new_hexes`. |
| Pipeline.MergedMap | mmd5sum.py:111-114 | Read back, the records give `hexes` merged with `new_hexes`. |
| Pipeline.RecordsGrouped | mmd5sum.py:109-114 | The records of a successful run form the two groups, without repetitions, and can all be written. This holds when the discovered paths are distinct and none holds a tab or line break, and every prior digest is clean; every digest `validate_infile` accepts is clean, by `Manifest.LoadedIsClean`. |
| Pipeline.RunReadsBack | mmd5sum.py:109-114 | Reading back the manifest of a successful run gives `hexes` merged with `new_hexes`: exactly one digest per discovered path. This holds when the discovered paths are distinct and none holds a tab or line break, and every prior digest is clean; every digest `validate_infile` accepts is clean, by `Manifest.LoadedIsClean`. |
| Pipeline.SecondRunComputesNothing | mmd5sum.py:83-114 | Run again with the manifest just written as the prior manifest: the manifest is accepted and holds exactly the discovered paths. Nothing is pending, every path is reused in traversal order, and the new manifest reads back to the same dict. This holds when the discovered paths are distinct and none holds a tab or line break, and every prior digest is clean; every digest `validate_infile` accepts is clean, by `Manifest.LoadedIsClean`. |
| Pipeline.RerunOnOwnManifest | mmd5sum.py:89-114 | A run whose prior dict holds exactly the discovered paths computes nothing, and its manifest reads back to that dict. This holds when the discovered paths are distinct and none holds a tab or line break, and every prior digest is clean. |
| Pipeline.MainBody | mmd5sum.py:83-118 | For `-p` ≥ 1, the body of `main` ends as `Run` specifies. It writes the manifest of an empty walk as empty text. It reports progress once per result, never more than `total` times, exactly `total` times on success, and not at all when nothing is pending. On failure it has reported exactly the results that arrived before the first raising worker. |
| Pipeline.RunFailsIff | mmd5sum.py:96-118 | `Run`: for `-p` ≥ 1, a run fails exactly when the command prints only whitespace for some pending path, and it then fails with `UsageError`. |

## Left out

- Directory traversal (`get_all_files`, mmd5sum.py:14-19) is file-system I/O. The discovered paths are the input `allFiles`, assumed distinct where a lemma needs it.
- Running the checksum command (`sp.run`, mmd5sum.py:23) is a foreign call. Its decoded standard output for each file is the function `output`.
- The `which` lookup in `validate_md5sum_command` (mmd5sum.py:44-50) is a foreign call, so the model has no command-not-found error.
- MD5 itself is computed by the external command, not by this code.
- The UTF-8 decoding of the command's output (mmd5sum.py:24) is not modelled; `output` is already text.
- `multiprocessing.Pool` and `imap_unordered` (mmd5sum.py:100-104) are concurrency. Only their observable effect is kept: results arrive in some rearrangement of the pending paths (`arrival`), and a worker's exception surfaces when its result arrives.
- The model assumes `-p` is at least 1. With `-p` below 1, `mp.Pool` (mmd5sum.py:100) raises `ValueError`, and a run with pending work ends in `UsageError` (mmd5sum.py:115-118). Otherwise the process count has no effect on results.
- Pipeline.Collect: the progress line `'\r%.2f%%' % (round(current/total, 4) * 100)` on standard error (mmd5sum.py:107) is float formatting and output. The model keeps the integer counter and the sequence of its reported values.
- click's option declarations, defaults and callbacks (mmd5sum.py:53-79) are CLI plumbing. `MainBody` takes the prior dict that `validate_infile` produced.
- The texts of the `BadParameter` and `UsageError` messages (mmd5sum.py:38-41, 116-118) are not modelled; only which error is raised is.
- `codecs.open` of the prior manifest (mmd5sum.py:32) is file I/O. The file's decoded text is the input.
  - A missing or unreadable file is not modelled. In the source it is also turned into `BadParameter`.
  - A decoding error is not modelled either.
- A discovered path holding a tab, `'\n'` or `'\r'` is written as it is (mmd5sum.py:112). The manifest then does not read back: `validate_infile` rejects it with `BadParameter`. The round-trip lemmas therefore require clean paths; the model promises nothing about reading back such a manifest.
- Writing the output file (mmd5sum.py:110-114) is file I/O. The model produces the text that is written.
  - Text-mode writing is assumed to keep `'\n'`, as on POSIX; a platform whose line separator is `"\r\n"` is not modelled.
  - A failure to open or write the output file, which the source turns into `UsageError`, is not modelled.
- The catch-all `except Exception` in `main` (mmd5sum.py:115-118) is modelled only for the one exception the modelled code can raise: the IndexError of a worker whose output is all whitespace.
- Manifest.LoadInfile: its own contract states only the no-manifest case and the error kind. The full acceptance condition is in `Manifest.LoadInfileAccepts`, and the dict is characterised by `Manifest.ParseEntries`, `Manifest.MapOf` and `Manifest.LastRecordWins`.
- setup.py is packaging metadata, with no logic to model.
