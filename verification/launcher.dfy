/** The script's entry point: the argument-count check, the partition
    provisioning on the admin client, and the mapping from the camera index
    to a source directory and a partition. */
module Launcher {

  import opened Optional
  import opened Publisher

  /** One partition per camera source. */
  const RequiredPartitions: nat := 3

  /** The three camera directories, in index order. */
  const CameraDirs: seq<string> :=
    [".\\camera-resources-1\\", ".\\camera-resources-2\\", ".\\camera-resources-3\\"]

  /** The provisioning decision: the `total_count` of the `create_partitions`
      request issued for a topic that currently has `count` partitions, or
      `None` when no request is made. */
  function ProvisionRequest(count: nat): (request: Option<nat>)
    ensures request.Some? <==> count < RequiredPartitions
    ensures request.Some? ==> request.value == RequiredPartitions
  {
    if count < RequiredPartitions then Some(RequiredPartitions) else None
  }

  /** The topic's partition count once the request (if any) is honoured. */
  function PartitionsAfter(count: nat): (after: nat)
    ensures after >= RequiredPartitions && after >= count
    ensures after == count || after == RequiredPartitions
  {
    match ProvisionRequest(count)
    case None => count
    case Some(total) => total
  }

  /** Provisioning twice is provisioning once: the second run asks for
      nothing and the count stays where the first run left it. */
  lemma ProvisionIdempotent(count: nat)
    ensures ProvisionRequest(PartitionsAfter(count)) == None
    ensures PartitionsAfter(PartitionsAfter(count)) == PartitionsAfter(count)
  {
  }

  /** A Python list subscript `s[j]`: a negative index counts from the end,
      and an index outside `-|s| .. |s|-1` raises `IndexError` (`None`). */
  function PyIndex<T>(s: seq<T>, j: int): (r: Option<T>)
    ensures r.Some? <==> -|s| <= j < |s|
    ensures r.Some? ==> exists k | 0 <= k < |s| :: r.value == s[k] && (k == j || k == j + |s|)
  {
    if 0 <= j < |s| then Some(s[j])
    else if -|s| <= j < 0 then Some(s[j + |s|])
    else None
  }

  /** What a run of the script does: the partition request it makes (if any),
      the calls on the producer, and its exit status. */
  datatype Outcome = Outcome(request: Option<nat>, trace: seq<Event>, status: nat)

  /** The `__main__` block.  `argv` is `sys.argv`, `parse` is `int()` on a
      string (`None` where it raises `ValueError`), and `count` is the number
      of partitions `describe_topics` reports.  An uncaught exception, like
      `sys.exit(1)`, ends the run with status 1. */
  function Run<F>(argv: seq<string>, parse: string -> Option<int>, count: nat,
                  host: Host<F>): (o: Outcome)
    ensures |argv| != 2 ==> o == Outcome(None, [], 1)
    ensures |argv| == 2 ==> o.request == ProvisionRequest(count)
    ensures o.status == 0 || o.trace == []
    ensures forall i | 0 <= i < |o.trace| && o.trace[i].Send? ::
              o.trace[i].partition < PartitionsAfter(count)
  {
    if |argv| != 2 then Outcome(None, [], 1)
    else
      var request := ProvisionRequest(count);
      match parse(argv[1])
      case None => Outcome(request, [], 1)
      case Some(index) =>
        match PyIndex(CameraDirs, index - 1)
        case None => Outcome(request, [], 1)
        case Some(dir) =>
          if host.pathExists(dir) then
            Outcome(request, PublishVideo(dir, index - 1, host), 0)
          else
            Outcome(request, [], 1)
  }

  /** Index `i` in 1..3 whose directory exists streams `CameraDirs[i-1]` to
      partition `i-1`, a partition the provisioning made sure exists, and
      exits normally. */
  lemma IndexSelectsSource<F>(argv: seq<string>, parse: string -> Option<int>,
                              count: nat, host: Host<F>, i: int)
    requires |argv| == 2 && parse(argv[1]) == Some(i) && 1 <= i <= 3
    requires host.pathExists(CameraDirs[i - 1])
    ensures var o := Run(argv, parse, count, host);
            o.status == 0 &&
            o.trace == PublishVideo(CameraDirs[i - 1], i - 1, host) &&
            forall k | 0 <= k < |o.trace| && o.trace[k].Send? ::
              0 <= o.trace[k].partition == i - 1 < PartitionsAfter(count)
  {
  }

  /** A missing directory for a valid index exits with status 1 and sends
      nothing, after the provisioning has happened. */
  lemma MissingSourceFails<F>(argv: seq<string>, parse: string -> Option<int>,
                              count: nat, host: Host<F>, i: int)
    requires |argv| == 2 && parse(argv[1]) == Some(i) && 1 <= i <= 3
    requires !host.pathExists(CameraDirs[i - 1])
    ensures Run(argv, parse, count, host) == Outcome(ProvisionRequest(count), [], 1)
  {
  }

  /** The index is not range-checked.  When the directory exists, index 0
      reaches `path[-1]`, the third camera's directory, and hands it to
      `publish_video` with partition -1; -1 and -2 do the same with the
      second and first directories and partitions -2 and -3.  Sends are
      trace events that return, so such a run ends with status 0.  Beyond
      that `IndexError` ends the run. */
  lemma IndexNotRangeChecked<F>(argv: seq<string>, parse: string -> Option<int>,
                                count: nat, host: Host<F>, i: int)
    requires |argv| == 2 && parse(argv[1]) == Some(i)
    ensures -2 <= i <= 0 && host.pathExists(CameraDirs[i + 2]) ==>
              Run(argv, parse, count, host) ==
                Outcome(ProvisionRequest(count), PublishVideo(CameraDirs[i + 2], i - 1, host), 0)
    ensures (i < -2 || i > 3) ==>
              Run(argv, parse, count, host) == Outcome(ProvisionRequest(count), [], 1)
  {
    if -2 <= i <= 0 {
      assert PyIndex(CameraDirs, i - 1) == Some(CameraDirs[i + 2]);
    } else if i < -2 || i > 3 {
      assert PyIndex(CameraDirs, i - 1) == None;
    }
  }

}
