/** `publish_video` as a pure function from its collaborators to the trace
    of calls it makes on the Kafka producer. */
module Publisher {

  import opened Optional
  import opened VideoFiles

  type Byte = b: int | 0 <= b < 256
  type Bytes = seq<Byte>

  /** The fixed topic every frame is sent to. */
  const Topic: string := "VideoStreaming"

  /** One call on the producer: `send(topic, key=, value=, partition=)`,
      `flush()` or `close()`. */
  datatype Event =
    | Send(topic: string, key: string, partition: int, value: Bytes)
    | Flush
    | Close

  /** Everything `publish_video` learns from the outside world, for frames of
      type `F`: the directory listing, whether `cv2.VideoCapture` opens a file,
      the results of its successive `read()` calls (reading past the end of
      the sequence fails, as at the end of the stream), and the JPEG encoder. */
  datatype Host<!F> = Host(
    pathExists: string -> bool,
    listdir: string -> seq<string>,
    opens: (string, string) -> bool,
    stream: (string, string) -> seq<Option<F>>,
    encode: F -> Option<Bytes>)

  predicate AllSends(trace: seq<Event>) {
    forall i | 0 <= i < |trace| :: trace[i].Send?
  }

  /** Every event is a send to the topic with the given key and partition. */
  predicate SendsUnder(trace: seq<Event>, key: string, partition: int) {
    forall i | 0 <= i < |trace| ::
      trace[i].Send? && trace[i].topic == Topic &&
      trace[i].key == key && trace[i].partition == partition
  }

  /** The frames the read loop obtains: the results of `read()` up to, and
      not including, the first failed one. */
  function Decoded<F>(results: seq<Option<F>>): (frames: seq<F>)
    ensures |frames| <= |results|
    ensures forall i | 0 <= i < |frames| :: results[i] == Some(frames[i])
    ensures |frames| < |results| ==> results[|frames|].None?
  {
    if |results| == 0 || results[0].None? then []
    else [results[0].value] + Decoded(results[1..])
  }

  /** The sends of one opened file: each frame is encoded in turn; a frame
      whose encode fails is skipped and the loop goes on. */
  function SendFrames<F>(key: string, partition: int, frames: seq<F>,
                         encode: F -> Option<Bytes>): (sends: seq<Event>)
    ensures |sends| <= |frames|
    ensures SendsUnder(sends, key, partition)
    ensures (forall i | 0 <= i < |frames| :: encode(frames[i]).Some?) ==>
              |sends| == |frames|
  {
    if |frames| == 0 then []
    else
      var first := match encode(frames[0])
        case None => []
        case Some(jpeg) => [Send(Topic, key, partition, jpeg)];
      first + SendFrames(key, partition, frames[1..], encode)
  }

  /** One iteration of the loop over the selected files: a file that does not
      open contributes nothing; otherwise its frames are sent under its key. */
  function FileTrace<F>(folder: string, name: string, partition: int,
                        host: Host<F>): (sends: seq<Event>)
    ensures SendsUnder(sends, Stem(name), partition)
    ensures !host.opens(folder, name) ==> sends == []
    ensures |sends| <= |Decoded(host.stream(folder, name))|
  {
    if !host.opens(folder, name) then []
    else SendFrames(Stem(name), partition, Decoded(host.stream(folder, name)), host.encode)
  }

  /** The loop over the selected files, one file after another. */
  function FilesTrace<F>(folder: string, names: seq<string>, partition: int,
                         host: Host<F>): (sends: seq<Event>)
    ensures forall i | 0 <= i < |sends| ::
              sends[i].Send? && sends[i].topic == Topic &&
              sends[i].partition == partition &&
              exists n | n in names :: sends[i].key == Stem(n)
  {
    if |names| == 0 then []
    else FileTrace(folder, names[0], partition, host)
         + FilesTrace(folder, names[1..], partition, host)
  }

  /** `publish_video(folder_path, partition)`.  With no video in the folder
      it returns before touching the producer; otherwise every send comes
      first, then one flush, then one close. */
  function PublishVideo<F>(folder: string, partition: int, host: Host<F>): (trace: seq<Event>)
    ensures trace == [] <==> SelectVideos(host.listdir(folder)) == []
    ensures trace != [] ==>
              |trace| >= 2 && trace[|trace| - 2] == Flush && trace[|trace| - 1] == Close &&
              AllSends(trace[..|trace| - 2])
    ensures forall i | 0 <= i < |trace| && trace[i].Send? ::
              trace[i].topic == Topic && trace[i].partition == partition &&
              exists v | v in SelectVideos(host.listdir(folder)) ::
                IsVideoName(v) && trace[i].key == Stem(v)
  {
    var videos := SelectVideos(host.listdir(folder));
    if |videos| == 0 then []
    else
      var sends := FilesTrace(folder, videos, partition, host);
      assert (sends + [Flush, Close])[..|sends|] == sends;
      sends + [Flush, Close]
  }

  // ----- Per-file frame pipeline -------------------------------------------

  /** Sending a run of frames is sending its first part, then its second:
      the frame order is kept and nothing is interleaved. */
  lemma {:induction false} SendFramesAppend<F>(key: string, partition: int,
                                               a: seq<F>, b: seq<F>,
                                               encode: F -> Option<Bytes>)
    ensures SendFrames(key, partition, a + b, encode) ==
            SendFrames(key, partition, a, encode) + SendFrames(key, partition, b, encode)
    decreases |a|
  {
    if |a| == 0 {
      assert a + b == b;
    } else {
      assert (a + b)[1..] == a[1..] + b;
      SendFramesAppend(key, partition, a[1..], b, encode);
    }
  }

  /** A single frame yields one send carrying its JPEG bytes, or nothing when
      its encode fails. */
  lemma SendFramesOne<F>(key: string, partition: int, frame: F,
                         encode: F -> Option<Bytes>)
    ensures SendFrames(key, partition, [frame], encode) ==
            match encode(frame)
            case None => []
            case Some(jpeg) => [Send(Topic, key, partition, jpeg)]
  {
    assert [frame][1..] == [];
  }

  /** When every encode succeeds, the sends are exactly the frames' JPEG
      bytes, one per frame, in decode order: no gap, no duplicate. */
  lemma {:induction false} SendFramesAllEncoded<F>(key: string, partition: int,
                                                   frames: seq<F>,
                                                   encode: F -> Option<Bytes>)
    requires forall i | 0 <= i < |frames| :: encode(frames[i]).Some?
    ensures SendFrames(key, partition, frames, encode) ==
            seq(|frames|, i requires 0 <= i < |frames| =>
                  Send(Topic, key, partition, encode(frames[i]).value))
    decreases |frames|
  {
    if |frames| > 0 {
      SendFramesAllEncoded(key, partition, frames[1..], encode);
    }
  }

  /** The number of sends is the number of frames whose encode succeeds. */
  function EncodedCount<F>(frames: seq<F>, encode: F -> Option<Bytes>): nat {
    if |frames| == 0 then 0
    else (if encode(frames[0]).Some? then 1 else 0) + EncodedCount(frames[1..], encode)
  }

  lemma {:induction false} SendFramesCount<F>(key: string, partition: int,
                                              frames: seq<F>,
                                              encode: F -> Option<Bytes>)
    ensures |SendFrames(key, partition, frames, encode)| == EncodedCount(frames, encode)
    decreases |frames|
  {
    if |frames| > 0 {
      SendFramesCount(key, partition, frames[1..], encode);
    }
  }

  /** A frame that encodes is sent: some send carries its bytes. */
  lemma {:induction false} EncodedFrameIsSent<F>(key: string, partition: int,
                                                 frames: seq<F>,
                                                 encode: F -> Option<Bytes>, j: int)
    requires 0 <= j < |frames| && encode(frames[j]).Some?
    ensures Send(Topic, key, partition, encode(frames[j]).value)
              in SendFrames(key, partition, frames, encode)
    decreases |frames|
  {
    if j > 0 {
      EncodedFrameIsSent(key, partition, frames[1..], encode, j - 1);
    }
  }

  /** Whatever the decoder would return after its first failed read never
      reaches the producer. */
  lemma {:induction false} ReadsAfterFailureIgnored<F>(ok: seq<Option<F>>,
                                                       rest1: seq<Option<F>>,
                                                       rest2: seq<Option<F>>)
    ensures Decoded(ok + [None] + rest1) == Decoded(ok + [None] + rest2)
    decreases |ok|
  {
    if |ok| == 0 {
      assert (ok + [None] + rest1)[0] == None;
      assert (ok + [None] + rest2)[0] == None;
    } else {
      assert (ok + [None] + rest1)[1..] == ok[1..] + [None] + rest1;
      assert (ok + [None] + rest2)[1..] == ok[1..] + [None] + rest2;
      ReadsAfterFailureIgnored(ok[1..], rest1, rest2);
    }
  }

  // ----- The loop over files ------------------------------------------------

  /** Files are processed one after another without interleaving: the trace
      of `a + b` is the trace of `a` followed by the trace of `b`. */
  lemma {:induction false} FilesTraceAppend<F>(folder: string, a: seq<string>,
                                               b: seq<string>, partition: int,
                                               host: Host<F>)
    ensures FilesTrace(folder, a + b, partition, host) ==
            FilesTrace(folder, a, partition, host) + FilesTrace(folder, b, partition, host)
    decreases |a|
  {
    if |a| == 0 {
      assert a + b == b;
    } else {
      assert (a + b)[1..] == a[1..] + b;
      FilesTraceAppend(folder, a[1..], b, partition, host);
    }
  }

  lemma FilesTraceOne<F>(folder: string, name: string, partition: int, host: Host<F>)
    ensures FilesTrace(folder, [name], partition, host) == FileTrace(folder, name, partition, host)
  {
    assert [name][1..] == [];
  }

  /** When no file opens, the loop sends nothing. */
  lemma {:induction false} NothingOpensNothingSent<F>(folder: string, names: seq<string>,
                                                      partition: int, host: Host<F>)
    requires forall i | 0 <= i < |names| :: !host.opens(folder, names[i])
    ensures FilesTrace(folder, names, partition, host) == []
    decreases |names|
  {
    if |names| > 0 {
      NothingOpensNothingSent(folder, names[1..], partition, host);
    }
  }

  /** A selected file that opens and has a frame that decodes and encodes
      gets that frame sent by its own part of the loop: the loop trace is the
      trace of the files before it, then its own trace, which holds the
      frame's send, then the trace of the files after it. */
  lemma ProductiveFileIsSent<F>(folder: string, names: seq<string>,
                                partition: int, host: Host<F>,
                                j: int, k: int)
    requires 0 <= j < |names| && host.opens(folder, names[j])
    requires 0 <= k < |Decoded(host.stream(folder, names[j]))|
    requires host.encode(Decoded(host.stream(folder, names[j]))[k]).Some?
    ensures var frames := Decoded(host.stream(folder, names[j]));
            Send(Topic, Stem(names[j]), partition, host.encode(frames[k]).value)
              in FileTrace(folder, names[j], partition, host)
    ensures FilesTrace(folder, names, partition, host) ==
              FilesTrace(folder, names[..j], partition, host)
              + FileTrace(folder, names[j], partition, host)
              + FilesTrace(folder, names[j + 1..], partition, host)
  {
    var frames := Decoded(host.stream(folder, names[j]));
    EncodedFrameIsSent(Stem(names[j]), partition, frames, host.encode, k);
    var pre, mid, post := names[..j], [names[j]], names[j + 1..];
    assert names == pre + (mid + post);
    FilesTraceAppend(folder, pre, mid + post, partition, host);
    FilesTraceAppend(folder, mid, post, partition, host);
    FilesTraceOne(folder, names[j], partition, host);
  }

  // ----- publish_video as a whole -------------------------------------------

  /** A folder whose videos all fail to open still gets its flush and close. */
  lemma NoFileOpensStillFlushes<F>(folder: string, partition: int, host: Host<F>)
    requires SelectVideos(host.listdir(folder)) != []
    requires forall v | v in SelectVideos(host.listdir(folder)) :: !host.opens(folder, v)
    ensures PublishVideo(folder, partition, host) == [Flush, Close]
  {
    var videos := SelectVideos(host.listdir(folder));
    NothingOpensNothingSent(folder, videos, partition, host);
  }

  /** The single-file scenario: a folder whose only video is `name`, which
      opens and whose every decoded frame encodes, yields one send per frame
      in decode order, all under the file's key and the given partition,
      then one flush and one close. */
  lemma SingleFileScenario<F>(folder: string, name: string, partition: int, host: Host<F>)
    requires SelectVideos(host.listdir(folder)) == [name]
    requires host.opens(folder, name)
    requires forall i | 0 <= i < |Decoded(host.stream(folder, name))| ::
               host.encode(Decoded(host.stream(folder, name))[i]).Some?
    ensures var frames := Decoded(host.stream(folder, name));
            PublishVideo(folder, partition, host) ==
              seq(|frames|, i requires 0 <= i < |frames| =>
                    Send(Topic, Stem(name), partition, host.encode(frames[i]).value))
              + [Flush, Close]
  {
    var frames := Decoded(host.stream(folder, name));
    FilesTraceOne(folder, name, partition, host);
    SendFramesAllEncoded(Stem(name), partition, frames, host.encode);
  }

}
