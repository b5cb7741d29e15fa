/** The flusher's signalling: a stop flag and a channel with room for one message (`sync.rs`). */
module Channel {
  import opened Blocks
  import opened Threads

  class FlushChannel {
    var slot: Option<Signal>
    var stop: bool

    constructor ()
      ensures slot == None && !stop
    {
      slot, stop := None, false;
    }

    /** `FlushNotifier::wake`: non-blocking, and a no-op when a message is pending. */
    method Wake()
      modifies this
      ensures slot == TrySend(old(slot), Signal.Wake) && stop == old(stop)
    {
      if slot == None {
        slot := Some(Signal.Wake);
      }
    }

    /** `FlushNotifier::shutdown`: the flag is set even when the message finds no room. */
    method Shutdown()
      modifies this
      ensures stop && slot == TrySend(old(slot), Signal.Shutdown)
    {
      stop := true;
      if slot == None {
        slot := Some(Signal.Shutdown);
      }
    }

    /** `FlushReceiver::wait` when no message arrives meanwhile: a pending message, or a timeout. */
    method Wait() returns (signal: Option<Signal>)
      modifies this
      ensures signal == old(slot) && slot == None && stop == old(stop)
    {
      signal := slot;
      slot := None;
    }

    method IsStopped() returns (stopped: bool)
      ensures stopped == stop
    {
      stopped := stop;
    }
  }
}
