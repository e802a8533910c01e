# Camera-Producer, modelled in Dafny

`Camera-Producer.py` streams video files to Kafka so that it looks like a live
camera feed. It is started with a camera index 1..3. First it makes sure the
topic `VideoStreaming` has at least three partitions, one per camera. Then it
lists the camera's directory and keeps the `.mp4`, `.avi` and `.mov` files.
It decodes each file frame by frame with OpenCV, JPEG-encodes every frame, and
sends the frames to partition `index - 1`, keyed by the file name without its
extension. At the end it flushes the producer and closes it.

This project models that program as pure functions over its collaborators:

- `optional.dfy` (`Optional`): the `Option` type for calls that can fail.
- `video_files.dfy` (`VideoFiles`): the case-insensitive extension filter and
  the key derivation with `os.path.splitext` semantics.
- `publisher.dfy` (`Publisher`): `publish_video` as a function that returns
  the trace of producer calls (`Send(topic, key, partition, value)`, `Flush`,
  `Close`). The directory listing, `VideoCapture` opening, the results of
  successive `read()` calls and `imencode` are fields of a `Host` value.
- `launcher.dfy` (`Launcher`): the `__main__` block. It covers the
  argument-count check, the partition-provisioning decision, and the mapping
  from index to directory and partition. That mapping keeps Python's negative
  list indexing: index 0 selects the third directory with partition -1.

Facts the model relies on:

- The stream is cut off at the first failed `read()`. Reading past the end of
  the given result sequence counts as a failed read, as at end of stream.
- `cap.isOpened()` stays true until `release()`, so the read loop stops only
  on a failed read.
- An uncaught exception ends the process with status 1, the same status as
  `sys.exit(1)`. This covers a non-integer index and an index out of range.
- A normal return has status 0.

## Model

| member | source | states |
|---|---|---|
| `VideoFiles.SelectVideos` | Camera-Producer.py:31 | the selected files are exactly the listed names that pass the extension test, and there are no more of them than listing entries |
| `VideoFiles.SelectAppend` | Camera-Producer.py:31 | selection keeps listing order: the selection from `a + b` is the selection from `a` followed by the selection from `b` |
| `VideoFiles.SelectOne` | Camera-Producer.py:31 | a single entry is kept exactly when its lower-cased name ends in `.mp4`, `.avi` or `.mov` |
| `VideoFiles.NoVideosSelectsNothing` | Camera-Producer.py:31-35 | a directory holding only non-video files selects nothing, the same as an empty directory |
| `VideoFiles.IsVideoNameByLastFour` | Camera-Producer.py:31 | a name is a video exactly when it has at least four characters and its last four, lower-cased, are one of the three extensions |
| `VideoFiles.SelectionIgnoresCase` | Camera-Producer.py:31 | lower-casing a name never changes whether it is selected |
| `VideoFiles.SplitExt` | Camera-Producer.py:39 | `splitext` splits the name into root and extension that concatenate back to it. The extension is empty or a single dot followed by no dots, and then the root is not all dots. An empty extension means no such split exists |
| `VideoFiles.StemOfVideoName` | Camera-Producer.py:39 | the key of a selected file is the name minus its last four characters, in their original case. When everything before the extension is dots, the key is the whole name |
| `VideoFiles.StemKeepsInnerDots` | Camera-Producer.py:39 | `a.b.mp4` is keyed `a.b`: only the last extension is removed |
| `VideoFiles.StemKeepsCase` | Camera-Producer.py:39 | `Clip.MP4` is keyed `Clip`: the letter case is kept |
| `VideoFiles.StemDropsVideoExtension` | Camera-Producer.py:31-39 | a root that is not all dots, followed by any allowed extension, is selected and keyed by the root alone, whatever the extension |
| `VideoFiles.KeysNotUnique` | Camera-Producer.py:17-39 | `a.mp4` and `a.avi` are two different selected files that both get the key `a`, so keys are not unique within a folder |
| `VideoFiles.StemOfBareExtension` | Camera-Producer.py:31-39 | a file named `.mp4` is selected and its key is `.mp4` |
| `Publisher.Decoded` | Camera-Producer.py:47-50 | the frames obtained are the successful `read()` results in order, up to the first failed read, which is where reading stops |
| `Publisher.ReadsAfterFailureIgnored` | Camera-Producer.py:47-50 | whatever the decoder would return after the first failed read does not change the frames obtained |
| `Publisher.SendFrames` | Camera-Producer.py:52-56 | every send of a file carries the fixed topic, the file's key and the single partition argument. There are at most as many sends as frames, and exactly as many when every encode succeeds |
| `Publisher.SendFramesAppend` | Camera-Producer.py:47-56 | frames are sent in decode order: the sends for `a + b` are the sends for `a` followed by those for `b` |
| `Publisher.SendFramesOne` | Camera-Producer.py:52-56 | one frame gives one send carrying its JPEG bytes, or no send when its encode fails, and the loop goes on |
| `Publisher.SendFramesAllEncoded` | Camera-Producer.py:47-56 | when every encode succeeds, send `i` carries the encoding of frame `i`, with no gap and no duplicate |
| `Publisher.SendFramesCount` | Camera-Producer.py:52-56 | the number of sends for a file equals the number of its frames whose encode succeeds |
| `Publisher.EncodedFrameIsSent` | Camera-Producer.py:52-56 | every frame whose encode succeeds is sent with its bytes |
| `Publisher.FileTrace` | Camera-Producer.py:39-59 | a file that fails to open sends nothing. Otherwise all its sends carry its key and the partition, and there are at most as many as its decoded frames |
| `Publisher.FilesTrace` | Camera-Producer.py:37-60 | every event of the file loop is a send to the topic and the partition, and its key is the key of one of the files processed |
| `Publisher.FilesTraceAppend` | Camera-Producer.py:37-60 | files are processed one after another without interleaving: the trace for `a + b` is the trace for `a` followed by the trace for `b` |
| `Publisher.FilesTraceOne` | Camera-Producer.py:37-60 | one file's part of the loop trace is exactly that file's own trace |
| `Publisher.NothingOpensNothingSent` | Camera-Producer.py:42-45 | when no file opens, the loop sends nothing and goes on to the end |
| `Publisher.ProductiveFileIsSent` | Camera-Producer.py:37-58 | a file that opens and has a frame that decodes and encodes sends that frame's bytes under its key in its own part of the loop. The loop trace is the trace of the earlier files, then this file's trace, then the trace of the later files |
| `Publisher.PublishVideo` | Camera-Producer.py:14-64 | the trace is empty exactly when no file is selected. Otherwise it ends with one `Flush` then one `Close`, and everything before them is a send. Every send uses the topic, the partition argument and the key of a selected file |
| `Publisher.NoFileOpensStillFlushes` | Camera-Producer.py:31-63 | when files are selected but none opens, the trace is exactly `Flush, Close` |
| `Publisher.SingleFileScenario` | Camera-Producer.py:31-63 | a folder whose only video opens and encodes every frame produces one send per decoded frame in decode order, under its key and the partition, then `Flush, Close` |
| `Launcher.ProvisionRequest` | Camera-Producer.py:79-80 | a partition increase is requested exactly when the topic has fewer than 3 partitions, and it asks for exactly 3 |
| `Launcher.PartitionsAfter` | Camera-Producer.py:76-80 | after provisioning, the count is the larger of the old count and 3 |
| `Launcher.ProvisionIdempotent` | Camera-Producer.py:79-80 | provisioning a second time requests nothing and leaves the count as the first run left it |
| `Launcher.PyIndex` | Camera-Producer.py:83 | a Python subscript succeeds exactly for indices in `-len .. len-1`. It yields the element at that index, or at that index plus the length when the index is negative |
| `Launcher.Run` | Camera-Producer.py:66-87 | an argument count other than 2 exits with status 1 before any provisioning or send. With 2 arguments the provisioning decision is always taken, so a request for 3 partitions is made exactly when the count is below 3. A non-zero exit sends nothing. Every send targets a partition below the provisioned count |
| `Launcher.IndexSelectsSource` | Camera-Producer.py:82-84 | index `i` in 1..3 with an existing directory publishes `path[i-1]` to partition `i-1`, which is a provisioned partition, and exits with status 0 |
| `Launcher.MissingSourceFails` | Camera-Producer.py:83-87 | a valid index whose directory is missing exits with status 1 and sends nothing, after provisioning |
| `Launcher.IndexNotRangeChecked` | Camera-Producer.py:82-84 | when the directory exists, indices 0, -1 and -2 reach `publish_video` with the third, second and first directories and partition `i-1 < 0`. The model assumes each send returns, so the run reaches `Flush, Close` with status 0; the library's reaction to a negative partition is left out. Any other index outside 1..3 ends the run with status 1 |

## Left out

- The Kafka producer and admin clients, the broker and the utf-8 key serialiser are external libraries. Sends, the flush and the close appear only as trace events. The partition count is an integer input. The library's reaction to a negative partition is not modelled; index 0 reaches it.
- Constructing `KafkaProducer` before the listing is left out. The model has no event for it, so its connection failure is not modelled. The producer is left unclosed when the folder has no video.
- `describe_topics` is taken as the partition count it returns. Its failure for a missing topic, and a rejected `create_partitions`, are not modelled.
- OpenCV decoding and `imencode` are a foreign library. They are the `opens`, `stream` and `encode` inputs of `Host`, and `cap.release()` has no event.
- `os.listdir` and `os.path.exists` are filesystem I/O. They are the `listdir` and `pathExists` inputs. `listdir` raising on a path that is not a directory is not modelled.
- `os.path.join` is not modelled. The per-file inputs are indexed by folder and file name instead of by the joined path.
- The docstring of `publish_video` promises a unique key per video, but it does not hold. The key drops the extension, so `a.mp4` and `a.avi` in one folder share the key `a` (`VideoFiles.KeysNotUnique`). The model keeps the key the code computes, and no uniqueness is promised.
- `int(sys.argv[1])` is the `parse` input. A `ValueError` appears only as exit status 1.
- `time.sleep(0.1)` after each send is timing only, and no trace event is emitted for it. Every `print` is console output and is left out too.
- `VideoFiles.LowerChar`: folds only ASCII `A`–`Z`, where Python's `str.lower` folds all of Unicode. The extension test compares only against `.`, `m`, `p`, `4`, `a`, `v`, `i` and `o`, and no other character's lower-case form ends in one of those.
- `VideoFiles.SplitExt`: covers names without a path separator, which is all that `os.listdir` returns. The separator and drive handling of `os.path.splitext` is not modelled.
