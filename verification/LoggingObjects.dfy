/**
  The same log as objects: two queues, a pointer to the available one, and the
  loop of the logging thread. Wherever another thread may run, the code calls
  `Interfere`, which lets the next slot of an arbitrary schedule happen.
  */
module LoggingObjects {
  import opened LoggingProtocol
  import opened Regroup

  /** A `std::queue` of entries. */
  class EntryQueue {
    var items: seq<Entry>

    constructor ()
      ensures items == []
    {
      items := [];
    }
  }

  class LoggingBuffer {
    const buffer1: EntryQueue
    const buffer2: EntryQueue
    var availableBuffer: EntryQueue
    var availableBufferIndex: int

    /** What has been handed to the logger so far. */
    var log: seq<Entry>

    /** The entries in the order they were stored. */
    ghost var adds: seq<Entry>

    ghost predicate Valid()
      reads this
    {
      && buffer1 != buffer2
      && ((availableBuffer == buffer1 && availableBufferIndex == 1)
          || (availableBuffer == buffer2 && availableBufferIndex == 2))
    }

    ghost function RetiredBuffer(): EntryQueue
      reads this
    {
      if availableBuffer == buffer1 then buffer2 else buffer1
    }

    /** Everything stored is in the log, in `pending`, or still in a queue, in that order. */
    ghost predicate Keeps(pending: seq<Entry>)
      reads this, buffer1, buffer2
    {
      Valid() && adds == log + pending + RetiredBuffer().items + availableBuffer.items
    }

    constructor (b1: EntryQueue, b2: EntryQueue)
      requires b1 != b2 && b1.items == b2.items == []
      ensures buffer1 == b1 && buffer2 == b2 && availableBuffer == b1
      ensures log == [] && Keeps([])
    {
      buffer1, buffer2, availableBuffer, availableBufferIndex := b1, b2, b1, 1;
      log, adds := [], [];
    }

    /** Runs entirely under the lock. */
    method AddToBuffer(entry: Entry) returns (ok: bool)
      requires Valid()
      modifies this`adds, availableBuffer
      ensures ok && Valid()
      ensures availableBuffer.items == old(availableBuffer.items) + [entry]
      ensures adds == old(adds) + [entry]
    {
      availableBuffer.items := availableBuffer.items + [entry];
      adds := adds + [entry];
      ok := true;
    }

    /** The part of `WriteToLog` that runs under the lock. */
    method SwitchBuffer()
      requires Valid()
      modifies this`availableBuffer, this`availableBufferIndex
      ensures Valid()
      ensures availableBuffer == old(RetiredBuffer()) && RetiredBuffer() == old(availableBuffer)
    {
      if availableBufferIndex == 1 {
        availableBuffer, availableBufferIndex := buffer2, 2;
      } else if availableBufferIndex == 2 {
        availableBuffer, availableBufferIndex := buffer1, 1;
      }
    }

    /** The pointer to the available queue is read, and then, under the lock, switched to the other one. */
    method TakeBuffer(others: OtherThreads) returns (queue: EntryQueue)
      requires others.buffer == this && others.Valid() && Drained()
      modifies this, buffer1, buffer2, others
      ensures others.Valid() && Keeps([]) && queue == RetiredBuffer() && availableBuffer.items == []
      ensures others.After(old(others.slots), old(others.terminated), old(others.mark), old(adds))
      ensures old(log + availableBuffer.items) <= log + queue.items
    {
      others.Interfere([]);
      queue := availableBuffer;
      others.Interfere([]);
      PrefixOfConcat(log, old(availableBuffer.items), queue.items);
      SwappedQueues(log, queue.items);
      SwitchBuffer();
    }

    /**
      Drains the queue that was available at the start, if it was not empty,
      whatever the other threads add meanwhile.
      */
    method WriteToLog(others: OtherThreads) returns (ok: bool)
      requires others.buffer == this && others.Valid() && Drained()
      modifies this, buffer1, buffer2, others
      ensures ok && others.Valid() && Drained()
      ensures others.After(old(others.slots), old(others.terminated), old(others.mark), old(adds))
      ensures old(log + availableBuffer.items) <= log
      ensures old(others.slots) == [] ==> adds == old(adds) && availableBuffer.items == []
    {
      if availableBuffer.items != [] {
        var queue := TakeBuffer(others);
        ok := Drain(queue, others);
      } else {
        others.Interfere([]);
        Empty(log);
      }
      ok := true;
    }

    /** The loop that empties the retired queue without the lock. */
    method Drain(queue: EntryQueue, others: OtherThreads) returns (ok: bool)
      requires others.buffer == this && others.Valid() && Keeps([]) && queue == RetiredBuffer()
      modifies this`log, this`adds, buffer1, buffer2, others
      ensures ok && others.Valid() && Drained()
      ensures others.After(old(others.slots), old(others.terminated), old(others.mark), old(adds))
      ensures old(log + queue.items) <= log
      ensures old(others.slots) == [] ==> availableBuffer.items == old(availableBuffer.items)
    {
      ghost var target := log + queue.items;
      while queue.items != []
        invariant others.Valid() && Keeps([]) && queue == RetiredBuffer()
        invariant log + queue.items == target
        invariant others.After(old(others.slots), old(others.terminated), old(others.mark), old(adds))
        invariant old(others.slots) == [] ==> availableBuffer.items == old(availableBuffer.items)
        decreases |queue.items|
      {
        FrontThenRest(log, queue.items);
        EmitFront(queue, others);
      }
      Empty(log);
      ok := true;
    }

    /** One round of that loop: the front is read, popped and handed to the logger. */
    method EmitFront(queue: EntryQueue, others: OtherThreads)
      requires others.buffer == this && others.Valid() && Keeps([]) && queue == RetiredBuffer() && queue.items != []
      modifies this`log, this`adds, buffer1, buffer2, others
      ensures others.Valid() && Keeps([])
      ensures log == old(log) + [old(queue.items)[0]] && queue.items == old(queue.items)[1..]
      ensures others.After(old(others.slots), old(others.terminated), old(others.mark), old(adds))
      ensures old(others.slots) == [] ==> availableBuffer.items == old(availableBuffer.items)
    {
      var top := queue.items[0];
      FrontThenRest(log, queue.items);
      Empty(log);
      queue.items := queue.items[1..];
      others.Interfere([top]);
      log := log + [top];
      Empty(log);
      others.Interfere([]);
    }

    /** The two reads of `empty`, with the other threads in between. */
    method IsEmpty(others: OtherThreads) returns (empty: bool)
      requires others.buffer == this && others.Valid() && Drained()
      modifies this, buffer1, buffer2, others
      ensures others.Valid() && Drained()
      ensures others.After(old(others.slots), old(others.terminated), old(others.mark), old(adds))
      ensures log == old(log)
      ensures empty ==> old(adds) <= log
      ensures old(others.slots) == [] ==> adds == old(adds) && availableBuffer.items == old(availableBuffer.items)
      ensures old(others.slots) == [] && !empty ==> availableBuffer.items != []
    {
      Empty(log);
      empty := false;
      if buffer1.items == [] {
        others.Interfere([]);
        Empty(log);
        empty := buffer2.items == [];
      }
    }

    /** No buffer is being drained: what was stored is in the log or in the available queue. */
    ghost predicate Drained()
      reads this, buffer1, buffer2
    {
      Keeps([]) && RetiredBuffer().items == []
    }
  }

  lemma FrontThenRest(log: seq<Entry>, queue: seq<Entry>)
    requires queue != []
    ensures log + queue == log + [queue[0]] + queue[1..]
  {
    assert queue == [queue[0]] + queue[1..];
    Right3(log, [queue[0]], queue[1..]);
  }

  lemma SwappedQueues(log: seq<Entry>, queue: seq<Entry>)
    ensures log + [] + [] + queue == log + [] + queue + [] == log + queue
  {
    Empty(log);
    Empty(log + queue);
  }

  lemma PrefixOfConcat(a: seq<Entry>, b: seq<Entry>, c: seq<Entry>)
    requires b <= c
    ensures a + b <= a + c
  {
  }

  datatype Event = Add(entry: Entry) | Kill

  /** All the threads but the logging one: what they do, slot by slot, and the flag they set. */
  class OtherThreads {
    const buffer: LoggingBuffer
    var slots: seq<seq<Event>>
    var terminated: bool

    /** How many entries were stored when the flag was set. */
    ghost var mark: nat

    ghost predicate Valid()
      reads this, buffer
    {
      && buffer.Valid()
      && (terminated ==> mark <= |buffer.adds| && TERMINATING in buffer.adds[..mark])
    }

    /** The program is told to stop at some point. */
    ghost predicate WillTerminate()
      reads this
    {
      terminated || exists i | 0 <= i < |slots| :: Kill in slots[i]
    }

    /** Where the other threads can be, given where they were. */
    ghost predicate After(slots0: seq<seq<Event>>, terminated0: bool, mark0: nat, adds0: seq<Entry>)
      reads this, buffer
    {
      && adds0 <= buffer.adds
      && |slots| <= |slots0|
      && (slots0 == [] ==> buffer.adds == adds0 && terminated == terminated0)
      && (terminated0 ==> terminated && mark == mark0)
      && (terminated0 || (exists i | 0 <= i < |slots0| :: Kill in slots0[i]) ==> WillTerminate())
    }

    constructor (buffer: LoggingBuffer, slots: seq<seq<Event>>)
      requires buffer.Valid()
      ensures this.buffer == buffer && this.slots == slots && !terminated && Valid()
    {
      this.buffer, this.slots, terminated, mark := buffer, slots, false, 0;
    }

    /** The next slot of the schedule happens; nothing does once it is used up. */
    method Interfere(ghost pending: seq<Entry>)
      requires Valid() && buffer.Keeps(pending)
      modifies this, buffer`adds, buffer.availableBuffer
      ensures Valid() && buffer.Keeps(pending)
      ensures After(old(slots), old(terminated), old(mark), old(buffer.adds))
      ensures old(slots) != [] ==> |slots| < old(|slots|)
      ensures old(buffer.availableBuffer.items) <= buffer.availableBuffer.items
      ensures old(slots) == [] ==> buffer.availableBuffer.items == old(buffer.availableBuffer.items)
    {
      if slots == [] {
        return;
      }
      var slot := slots[0];
      ghost var slots0 := slots;
      slots := slots[1..];
      assert forall i | 1 <= i < |slots0| :: slots0[i] == slots[i - 1];
      for k := 0 to |slot|
        invariant Valid() && buffer.Keeps(pending) && slots == slots0[1..]
        invariant old(buffer.adds) <= buffer.adds
        invariant old(buffer.availableBuffer.items) <= buffer.availableBuffer.items
        invariant old(terminated) ==> terminated && mark == old(mark)
        invariant Kill in slot[..k] ==> terminated
      {
        match slot[k] {
          case Add(entry) =>
            AddEntry(entry, pending);
          case Kill =>
            KillServer(pending);
        }
      }
    }

    method AddEntry(entry: Entry, ghost pending: seq<Entry>)
      requires Valid() && buffer.Keeps(pending)
      modifies buffer`adds, buffer.availableBuffer
      ensures Valid() && buffer.Keeps(pending)
      ensures buffer.adds == old(buffer.adds) + [entry]
      ensures buffer.availableBuffer.items == old(buffer.availableBuffer.items) + [entry]
    {
      ghost var adds0 := buffer.adds;
      Right3(buffer.log + pending + buffer.RetiredBuffer().items, buffer.availableBuffer.items, [entry]);
      var _ := buffer.AddToBuffer(entry);
      assert terminated ==> buffer.adds[..mark] == adds0[..mark];
    }

    /** Announces the end, then sets the flag. */
    method KillServer(ghost pending: seq<Entry>)
      requires Valid() && buffer.Keeps(pending)
      modifies this`terminated, this`mark, buffer`adds, buffer.availableBuffer
      ensures Valid() && buffer.Keeps(pending) && terminated
      ensures buffer.adds == old(buffer.adds) + [TERMINATING]
      ensures buffer.availableBuffer.items == old(buffer.availableBuffer.items) + [TERMINATING]
      ensures old(terminated) ==> mark == old(mark)
      ensures !old(terminated) ==> mark == |buffer.adds|
    {
      AddEntry(TERMINATING, pending);
      if !terminated {
        mark := |buffer.adds|;
        assert buffer.adds[..mark] == buffer.adds && buffer.adds[mark - 1] == TERMINATING;
      }
      terminated := true;
    }
  }

  /**
    The loop of the logging thread. It ends under every schedule in which the
    program is told to stop, and by then the log starts with everything that was
    stored before the flag was set, in order, the terminating message included.
    */
  method HandleLogging(buffer: LoggingBuffer, others: OtherThreads)
    requires others.buffer == buffer && others.Valid() && buffer.Drained()
    requires others.WillTerminate()
    modifies buffer, buffer.buffer1, buffer.buffer2, others
    ensures others.terminated && others.mark <= |buffer.adds|
    ensures buffer.adds[..others.mark] <= buffer.log <= buffer.adds
    ensures TERMINATING in buffer.log
    ensures old(others.terminated) ==> others.mark == old(others.mark)
  {
    while true
      invariant others.Valid() && buffer.Drained() && others.WillTerminate()
      invariant old(others.terminated) ==> others.terminated && others.mark == old(others.mark)
      decreases |others.slots|, |buffer.availableBuffer.items|
    {
      others.Interfere([]);
      if others.terminated {
        var empty := buffer.IsEmpty(others);
        if empty {
          break;
        }
      }
      var _ := buffer.WriteToLog(others);
    }
  }
}
