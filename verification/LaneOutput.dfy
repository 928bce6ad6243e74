/** The output loop of `run_lane_process` (qualify-phase6.py): a lane's output into its bounded log. */
module LaneOutput {
  import opened Wrappers
  import opened DigestText
  import opened BoundedCopy
  import opened FaultInjection

  const MAX_LANE_LOG_BYTES := 64 * 1024 * 1024

  const READ_BYTES := 64 * 1024

  datatype Drained = AtEnd | OverLimit | Fault

  /** The log file: a write takes some of what it is given, or fails. */
  class LogFile {
    var contents: seq<byte>
    ghost var faults: nat

    method Write(view: seq<byte>) returns (consumed: Option<nat>)
      requires view != []
      modifies this
      ensures faults == old(faults) + if consumed.None? then 1 else 0
      ensures consumed.None? ==> contents == old(contents)
      ensures consumed.Some? ==>
        0 < consumed.value <= |view| && contents == old(contents) + view[..consumed.value]
    {
      var fault: bool := *;
      if fault {
        faults := faults + 1;
        return None;
      }
      var count: nat :| 0 < count <= |view|;
      contents := contents + view[..count];
      return Some(count);
    }

    method WriteAll(bytes: seq<byte>) returns (ok: bool)
      modifies this
      ensures faults == old(faults) + if ok then 0 else 1
      ensures ok ==> contents == old(contents) + bytes
      ensures old(contents) <= contents <= old(contents) + bytes
    {
      var view := bytes;
      while view != []
        invariant contents + view == old(contents) + bytes
        invariant old(contents) <= contents
        invariant faults == old(faults)
        decreases |view|
      {
        var consumed := Write(view);
        if consumed.None? {
          return false;
        }
        view := view[consumed.value..];
      }
      return true;
    }
  }

  /**
   However the output is split and the writes are cut short, the log is a prefix of the output
   and never above the limit. Unless the lane runs out of time, leaves descendants, or a read or
   write fails, the loop ends well exactly when all of the output fits, and then the log is all
   of it; when it does not fit, the log is its first `MAX_LANE_LOG_BYTES` bytes.
   */
  method Drain(output: Reader, log: LogFile, lane: Faults) returns (r: Drained)
    requires log.contents == []
    modifies output, log, lane
    ensures log.contents <= old(output.remaining) && |log.contents| <= MAX_LANE_LOG_BYTES
    ensures r == AtEnd ==> log.contents == old(output.remaining) && |old(output.remaining)| <= MAX_LANE_LOG_BYTES
    ensures r == OverLimit ==>
      && |old(output.remaining)| > MAX_LANE_LOG_BYTES
      && log.contents == old(output.remaining)[..MAX_LANE_LOG_BYTES]
    ensures r == Fault <==>
      output.faults > old(output.faults) || log.faults > old(log.faults) || lane.count > old(lane.count)
    ensures r != Fault ==> (r == AtEnd <==> |old(output.remaining)| <= MAX_LANE_LOG_BYTES)
  {
    var written := 0;
    while true
      invariant log.contents + output.remaining == old(output.remaining)
      invariant written == |log.contents| <= MAX_LANE_LOG_BYTES
      invariant output.faults == old(output.faults) && log.faults == old(log.faults) && lane.count == old(lane.count)
      decreases |output.remaining|
    {
      var late := lane.Trips();
      if late {
        return Fault;
      }
      var chunk := output.Read(READ_BYTES);
      if chunk.None? {
        return Fault;
      }
      if chunk.value == [] {
        var leftDescendants := lane.Trips();
        return if leftDescendants then Fault else AtEnd;
      }
      var allowed := MAX_LANE_LOG_BYTES - written;
      if allowed > 0 {
        var view := if |chunk.value| <= allowed then chunk.value else chunk.value[..allowed];
        ghost var before := log.contents;
        assert before + view <= old(output.remaining);
        var ok := log.WriteAll(view);
        if !ok {
          return Fault;
        }
        written := written + |view|;
      }
      if |chunk.value| > allowed {
        assert log.contents == old(output.remaining)[..MAX_LANE_LOG_BYTES];
        return OverLimit;
      }
    }
  }
}
